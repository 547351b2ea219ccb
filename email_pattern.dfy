/**
 The email check of the registration service: the fixed pattern

     ^[a-zA-Z0-9_.+-]+@[a-zA-Z0-9-]+\.[a-zA-Z0-9-.]+$

 applied with Python's `re.match`. The pattern is given two readings here:
 `InLanguage`/`MatchesPattern`, which say what the regular expression denotes
 (some choice of split points makes every group match), and `MatchesBody`/
 `IsValidEmail`, a hand-written recognizer that reads one greedy run of each
 character class in turn. `IsValidEmail`'s contract is the proof that the two agree.
 */
module EmailPattern {

  /** The three bracketed character classes of the pattern (ASCII ranges only). */
  datatype CharClass =
    | Local   // [a-zA-Z0-9_.+-]
    | Domain  // [a-zA-Z0-9-]
    | Tail    // [a-zA-Z0-9-.]

  predicate IsAsciiAlphanumeric(c: char) {
    ('a' <= c <= 'z') || ('A' <= c <= 'Z') || ('0' <= c <= '9')
  }

  predicate InClass(c: char, k: CharClass) {
    match k
    case Local => IsAsciiAlphanumeric(c) || c == '_' || c == '.' || c == '+' || c == '-'
    case Domain => IsAsciiAlphanumeric(c) || c == '-'
    case Tail => IsAsciiAlphanumeric(c) || c == '-' || c == '.'
  }

  /** `[class]+`: a non-empty run of characters, all from the class. */
  predicate Plus(s: string, k: CharClass) {
    |s| > 0 && forall i :: 0 <= i < |s| ==> InClass(s[i], k)
  }

  /** The language of `[local]+@[domain]+\.[tail]+`, matched against the whole string:
      some `@` at index `at` and some `.` at index `dot` split `s` into three runs. */
  ghost predicate SplitAt(s: string, at: int, dot: int) {
    0 <= at < dot < |s| && s[at] == '@' && s[dot] == '.' &&
    Plus(s[..at], Local) && Plus(s[at + 1..dot], Domain) && Plus(s[dot + 1..], Tail)
  }

  ghost predicate InLanguage(s: string) {
    exists at, dot :: SplitAt(s, at, dot)
  }

  /** What `re.match` with this pattern accepts: without MULTILINE, `$` matches at the
      end of the string and also just before one newline that ends the string. */
  ghost predicate MatchesPattern(s: string) {
    InLanguage(s) || (|s| > 0 && s[|s| - 1] == '\n' && InLanguage(s[..|s| - 1]))
  }

  /** Where a greedy run of class-`k` characters that starts at `from` ends: the first
      index at or after `from` whose character is outside the class, or `|s|`. */
  function RunEnd(s: string, from: nat, k: CharClass): (r: nat)
    requires from <= |s|
    ensures from <= r <= |s|
    decreases |s| - from
  {
    if from == |s| || !InClass(s[from], k) then from
    else RunEnd(s, from + 1, k)
  }

  /** The run is maximal: everything in it is in the class, and it stops at the end of
      the string or at the first character outside the class. */
  lemma {:induction false} RunEndIsMaximal(s: string, from: nat, k: CharClass)
    requires from <= |s|
    ensures forall j :: from <= j < RunEnd(s, from, k) ==> InClass(s[j], k)
    ensures RunEnd(s, from, k) < |s| ==> !InClass(s[RunEnd(s, from, k)], k)
    decreases |s| - from
  {
    if from < |s| && InClass(s[from], k) {
      RunEndIsMaximal(s, from + 1, k);
    }
  }

  /** The recognizer for the string without the optional final newline. It reads a
      greedy run of each class in turn. No backtracking is needed: `@` is outside the
      first class and `.` outside the second, so each run must stop exactly at the
      literal that follows it. */
  function MatchesBody(s: string): bool {
    var at := RunEnd(s, 0, Local);
    at > 0 && at < |s| && s[at] == '@' &&
    var dot := RunEnd(s, at + 1, Domain);
    dot > at + 1 && dot < |s| && s[dot] == '.' &&
    var end := RunEnd(s, dot + 1, Tail);
    end > dot + 1 && end == |s|
  }

  /** `_is_valid_email`: true exactly when `re.match` of the pattern succeeds. */
  function IsValidEmail(email: string): (ok: bool)
    ensures ok <==> MatchesPattern(email)
  {
    if |email| > 0 && email[|email| - 1] == '\n' then
      LanguageEndsInTail(email);
      MatchesBodyCorrect(email[..|email| - 1]);
      MatchesBody(email[..|email| - 1])
    else
      MatchesBodyCorrect(email);
      MatchesBody(email)
  }

  // ---------------------------------------------------------------------------
  // Facts behind the recognizer

  /** The characters on either side of a split's `@` and `.` come from the classes. */
  lemma SplitClasses(s: string, at: int, dot: int)
    requires SplitAt(s, at, dot)
    ensures forall k :: 0 <= k < at ==> InClass(s[k], Local)
    ensures forall k :: at < k < dot ==> InClass(s[k], Domain)
    ensures forall k :: dot < k < |s| ==> InClass(s[k], Tail)
  {
    forall k | 0 <= k < at
      ensures InClass(s[k], Local)
    {
      assert s[k] == s[..at][k];
    }
    forall k | at < k < dot
      ensures InClass(s[k], Domain)
    {
      assert s[k] == s[at + 1..dot][k - at - 1];
    }
    forall k | dot < k < |s|
      ensures InClass(s[k], Tail)
    {
      assert s[k] == s[dot + 1..][k - dot - 1];
    }
  }

  /** Every split ends each greedy run exactly where the recognizer's does. */
  lemma SplitIsGreedy(s: string, at: int, dot: int)
    requires SplitAt(s, at, dot)
    ensures RunEnd(s, 0, Local) == at
    ensures RunEnd(s, at + 1, Domain) == dot
    ensures RunEnd(s, dot + 1, Tail) == |s|
  {
    SplitClasses(s, at, dot);
    RunEndIsMaximal(s, 0, Local);
    RunEndIsMaximal(s, at + 1, Domain);
    RunEndIsMaximal(s, dot + 1, Tail);
  }

  /** The decomposition, one direction: a string the recognizer accepts is in the
      language of the pattern, split where the runs end. */
  lemma MatchesBodySound(s: string)
    requires MatchesBody(s)
    ensures SplitAt(s, RunEnd(s, 0, Local), RunEnd(s, RunEnd(s, 0, Local) + 1, Domain))
  {
    var at := RunEnd(s, 0, Local);
    var dot := RunEnd(s, at + 1, Domain);
    RunEndIsMaximal(s, 0, Local);
    RunEndIsMaximal(s, at + 1, Domain);
    RunEndIsMaximal(s, dot + 1, Tail);
  }

  /** The decomposition: the recognizer accepts exactly the language of the pattern. */
  lemma MatchesBodyCorrect(s: string)
    ensures MatchesBody(s) <==> InLanguage(s)
  {
    if MatchesBody(s) {
      MatchesBodySound(s);
    }
    if InLanguage(s) {
      var at, dot :| SplitAt(s, at, dot);
      SplitIsGreedy(s, at, dot);
    }
  }

  /** An accepted string ends in a character of the last class, so never in a newline. */
  lemma LanguageEndsInTail(s: string)
    ensures InLanguage(s) ==> |s| > 0 && InClass(s[|s| - 1], Tail)
  {
    if InLanguage(s) {
      var at, dot :| SplitAt(s, at, dot);
      SplitClasses(s, at, dot);
    }
  }

  // ---------------------------------------------------------------------------
  // Properties of the pattern

  /** A split at the only `@` of the string and at the first `.` after it. */
  ghost predicate FirstSplit(s: string, at: int, dot: int) {
    0 <= at < dot < |s| &&
    s[at] == '@' && (forall k :: 0 <= k < |s| && k != at ==> s[k] != '@') &&
    s[dot] == '.' && (forall k :: at < k < dot ==> s[k] != '.') &&
    Plus(s[..at], Local) && Plus(s[at + 1..dot], Domain) && Plus(s[dot + 1..], Tail)
  }

  /** The decomposition of an accepted address: a string is in the language exactly when
      it holds one `@`, the part before it is a local run, and the part after it has a
      first `.` with a domain run before it and a tail run after it. */
  lemma Decomposition(s: string)
    ensures InLanguage(s) <==> exists at, dot :: FirstSplit(s, at, dot)
  {
    if InLanguage(s) {
      var at, dot :| SplitAt(s, at, dot);
      SplitClasses(s, at, dot);
      assert FirstSplit(s, at, dot);
    }
    if exists at, dot :: FirstSplit(s, at, dot) {
      var at, dot :| FirstSplit(s, at, dot);
      assert SplitAt(s, at, dot);
    }
  }

  /** The pattern is unambiguous: an accepted string has exactly one split. */
  lemma SplitIsUnique(s: string, at1: int, dot1: int, at2: int, dot2: int)
    requires SplitAt(s, at1, dot1) && SplitAt(s, at2, dot2)
    ensures at1 == at2 && dot1 == dot2
  {
    SplitIsGreedy(s, at1, dot1);
    SplitIsGreedy(s, at2, dot2);
  }

  /** The `$` quirk: an accepted address followed by one newline is accepted, by two is not. */
  lemma TrailingNewline(t: string)
    ensures IsValidEmail(t + "\n") <==> InLanguage(t)
    ensures !IsValidEmail(t + "\n\n")
  {
    assert (t + "\n")[..|t|] == t;
    var u := t + "\n\n";
    assert u[..|u| - 1] == t + "\n";
    LanguageEndsInTail(t + "\n");
    LanguageEndsInTail(u);
  }

  // The recognizer run by hand on the addresses of `Examples`: where each greedy run
  // stops decides the answer.

  lemma ScanTestAddress()
    ensures MatchesBody("john@example.com")
  {
    assert RunEnd("john@example.com", 0, Local) == 4;
    assert RunEnd("john@example.com", 9, Domain) == 12;
    assert RunEnd("john@example.com", 5, Domain) == 12;
    assert RunEnd("john@example.com", 13, Tail) == 16;
  }

  lemma ScanRepeatedDots()
    ensures MatchesBody("a@b.c..")
  {
    assert RunEnd("a@b.c..", 0, Local) == 1;
    assert RunEnd("a@b.c..", 2, Domain) == 3;
    assert RunEnd("a@b.c..", 4, Tail) == 7;
  }

  lemma ScanNoAt()
    ensures !MatchesBody("invalid-email")
  {
    assert RunEnd("invalid-email", 10, Local) == 13;
    assert RunEnd("invalid-email", 7, Local) == 13;
    assert RunEnd("invalid-email", 4, Local) == 13;
    assert RunEnd("invalid-email", 0, Local) == 13;
  }

  lemma ScanEmptyDomain()
    ensures !MatchesBody("john@.com")
  {
    assert RunEnd("john@.com", 0, Local) == 4;
    assert RunEnd("john@.com", 5, Domain) == 5;
  }

  lemma ScanEmptyTail()
    ensures !MatchesBody("user@domain.")
  {
    assert RunEnd("user@domain.", 0, Local) == 4;
    assert RunEnd("user@domain.", 8, Domain) == 11;
    assert RunEnd("user@domain.", 5, Domain) == 11;
    assert RunEnd("user@domain.", 12, Tail) == 12;
  }

  lemma ScanEmptyLocal()
    ensures !MatchesBody("@example.com")
  {
    assert RunEnd("@example.com", 0, Local) == 0;
  }

  /** The addresses of the repository's tests, and the edges of the pattern: the test
      address is accepted; an address without `@` and one with nothing between `@` and
      `.` are rejected; so are nothing after the `.` and nothing before the `@`; the last
      class holds `.`, so dots may repeat and end the address. */
  lemma Examples()
    ensures IsValidEmail("john@example.com")
    ensures !IsValidEmail("invalid-email")
    ensures !IsValidEmail("john@.com")
    ensures !IsValidEmail("user@domain.")
    ensures !IsValidEmail("@example.com")
    ensures IsValidEmail("a@b.c..")
  {
    ScanTestAddress();
    ScanNoAt();
    ScanEmptyDomain();
    ScanEmptyTail();
    ScanEmptyLocal();
    ScanRepeatedDots();
  }

  /** The `$` quirk on the test address: one final newline is still accepted. */
  lemma NewlineExample()
    ensures IsValidEmail("john@example.com\n")
  {
    ScanTestAddress();
    assert "john@example.com\n"[..16] == "john@example.com";
  }
}
