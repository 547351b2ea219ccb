/**
 The registration service: an in-memory list of user records, the three checks that
 guard an append to it, and the lookup by username.

 `Register` is the specification of one `register_user` call as a function of the list
 it starts from; the class `UserRegistration` holds the list in a field and its method
 `RegisterUser` is proved to do exactly what `Register` says.
 */
module Registration {
  import opened EmailPattern

  /** A password is too short when it has fewer characters than this. */
  const MinPasswordLength: nat := 6

  /** One stored user; all three strings are kept exactly as given. */
  datatype UserRecord = UserRecord(username: string, password: string, email: string)

  /** The four results of a registration attempt. */
  datatype Outcome = UsernameTaken | PasswordTooShort | InvalidEmail | Success

  /** The message the service returns for each outcome; each message is returned
      for its own outcome and for no other. */
  function Message(o: Outcome): (m: string)
    ensures m == "Username already taken" <==> o == UsernameTaken
    ensures m == "Password is too short" <==> o == PasswordTooShort
    ensures m == "Invalid email" <==> o == InvalidEmail
    ensures m == "Registration successful" <==> o == Success
  {
    match o
    case UsernameTaken => "Username already taken"
    case PasswordTooShort => "Password is too short"
    case InvalidEmail => "Invalid email"
    case Success => "Registration successful"
  }

  /** A caller can tell the outcome from the message alone. */
  lemma MessagesDistinct(a: Outcome, b: Outcome)
    ensures Message(a) == Message(b) ==> a == b
  {
  }

  // ---------------------------------------------------------------------------
  // The list of records

  /** Some record in `db` carries `username`. */
  ghost predicate Registered(db: seq<UserRecord>, username: string) {
    exists k :: 0 <= k < |db| && db[k].username == username
  }

  /** No two records share a username. */
  ghost predicate UniqueUsernames(db: seq<UserRecord>) {
    forall i, j :: 0 <= i < j < |db| ==> db[i].username != db[j].username
  }

  /** The scan both lookups perform: does any record, front to back, have this username? */
  function AnyHasUsername(db: seq<UserRecord>, username: string): (found: bool)
    ensures found <==> Registered(db, username)
  {
    if |db| == 0 then false
    else if db[0].username == username then true
    else
      var found := AnyHasUsername(db[1..], username);
      assert forall k :: 0 <= k < |db| - 1 ==> db[1..][k] == db[k + 1];
      found
  }

  // ---------------------------------------------------------------------------
  // One registration attempt

  /** The outcome of an attempt and the list it leaves behind. */
  datatype Step = Step(outcome: Outcome, db: seq<UserRecord>)

  /** `register_user` started on `db`: the checks run in order and the first failure
      wins; only an attempt that passes all three appends its record. */
  function Register(db: seq<UserRecord>, username: string, password: string, email: string): (r: Step)
    ensures r.outcome == UsernameTaken <==> Registered(db, username)
    ensures r.outcome == PasswordTooShort <==>
      !Registered(db, username) && |password| < MinPasswordLength
    ensures r.outcome == InvalidEmail <==>
      !Registered(db, username) && |password| >= MinPasswordLength && !MatchesPattern(email)
    ensures r.outcome == Success <==>
      !Registered(db, username) && |password| >= MinPasswordLength && MatchesPattern(email)
    ensures r.outcome != Success ==> r.db == db
    ensures r.outcome == Success ==> r.db == db + [UserRecord(username, password, email)]
  {
    if AnyHasUsername(db, username) then Step(UsernameTaken, db)
    else if |password| < MinPasswordLength then Step(PasswordTooShort, db)
    else if !IsValidEmail(email) then Step(InvalidEmail, db)
    else Step(Success, db + [UserRecord(username, password, email)])
  }

  /** After an attempt, a username is registered exactly when it was before, or the
      attempt succeeded and was for that username. */
  lemma RegisterRegistered(db: seq<UserRecord>, username: string, password: string, email: string,
                           other: string)
    ensures var r := Register(db, username, password, email);
      Registered(r.db, other) <==>
      Registered(db, other) || (r.outcome == Success && other == username)
  {
    var r := Register(db, username, password, email);
    if r.outcome == Success {
      assert r.db[|db|].username == username;
      if Registered(r.db, other) {
        var k :| 0 <= k < |r.db| && r.db[k].username == other;
        if k < |db| {
          assert db[k].username == other;
        }
      }
      if Registered(db, other) {
        var k :| 0 <= k < |db| && db[k].username == other;
        assert r.db[k].username == other;
      }
    }
  }

  /** An attempt keeps the usernames of the list pairwise distinct. */
  lemma RegisterPreservesUnique(db: seq<UserRecord>, username: string, password: string, email: string)
    requires UniqueUsernames(db)
    ensures UniqueUsernames(Register(db, username, password, email).db)
  {
    var r := Register(db, username, password, email);
    if r.outcome == Success {
      forall i, j | 0 <= i < j < |r.db|
        ensures r.db[i].username != r.db[j].username
      {
        if j == |db| {
          assert r.db[i] == db[i];
        }
      }
    }
  }

  /** Once a username has been registered, every later attempt with it is refused,
      whatever the password and email, and changes nothing. */
  lemma RegisteredThenTaken(db: seq<UserRecord>, username: string, password: string, email: string,
                            password2: string, email2: string)
    requires Register(db, username, password, email).outcome == Success
    ensures var db1 := Register(db, username, password, email).db;
      Register(db1, username, password2, email2) == Step(UsernameTaken, db1)
  {
    RegisterRegistered(db, username, password, email, username);
  }

  // ---------------------------------------------------------------------------
  // A service's whole history

  /** The list held by a new service after the given attempts, made in order. */
  function Replay(attempts: seq<UserRecord>): seq<UserRecord>
  {
    if attempts == [] then []
    else
      var last := attempts[|attempts| - 1];
      Register(Replay(attempts[..|attempts| - 1]), last.username, last.password, last.email).db
  }

  /** Attempt `k` succeeded, run on the list the attempts before it left. */
  ghost predicate Accepted(attempts: seq<UserRecord>, k: int)
    requires 0 <= k < |attempts|
  {
    var a := attempts[k];
    Register(Replay(attempts[..k]), a.username, a.password, a.email).outcome == Success
  }

  /** Whatever attempts are made, usernames stay pairwise distinct. */
  lemma {:induction false} ReplayUnique(attempts: seq<UserRecord>)
    ensures UniqueUsernames(Replay(attempts))
  {
    if attempts != [] {
      var last := attempts[|attempts| - 1];
      ReplayUnique(attempts[..|attempts| - 1]);
      RegisterPreservesUnique(Replay(attempts[..|attempts| - 1]), last.username, last.password, last.email);
    }
  }

  /** Dropping the last attempt does not change whether an earlier one succeeded. */
  lemma AcceptedPrefix(attempts: seq<UserRecord>, k: int)
    requires 0 <= k < |attempts| - 1
    ensures attempts[..|attempts| - 1][k] == attempts[k]
    ensures Accepted(attempts[..|attempts| - 1], k) == Accepted(attempts, k)
  {
    assert attempts[..|attempts| - 1][..k] == attempts[..k];
  }

  /** A username is registered exactly when some attempt with that username succeeded;
      attempts that failed a check leave no trace. */
  lemma {:induction false} ReplayRegisteredIff(attempts: seq<UserRecord>, username: string)
    ensures Registered(Replay(attempts), username) <==>
      exists k :: 0 <= k < |attempts| && attempts[k].username == username && Accepted(attempts, k)
  {
    if attempts != [] {
      var n := |attempts| - 1;
      var earlier, last := attempts[..n], attempts[n];
      var before := Replay(earlier);
      var r := Register(before, last.username, last.password, last.email);
      assert Replay(attempts) == r.db;
      ReplayRegisteredIff(earlier, username);
      RegisterRegistered(before, last.username, last.password, last.email, username);
      if Registered(r.db, username) {
        var k := n;
        if Registered(before, username) {
          k :| 0 <= k < n && earlier[k].username == username && Accepted(earlier, k);
          AcceptedPrefix(attempts, k);
        }
        assert 0 <= k < |attempts| && attempts[k].username == username && Accepted(attempts, k);
      }
      if exists k :: 0 <= k < |attempts| && attempts[k].username == username && Accepted(attempts, k) {
        var k :| 0 <= k < |attempts| && attempts[k].username == username && Accepted(attempts, k);
        if k < n {
          AcceptedPrefix(attempts, k);
          assert earlier[k].username == username && Accepted(earlier, k);
        } else {
          assert k == n;
          assert r.outcome == Success && last.username == username;
        }
        assert Registered(r.db, username);
      }
    } else {
      assert Replay(attempts) == [];
    }
  }

  // ---------------------------------------------------------------------------
  // The service object

  class UserRegistration {
    /** Every record accepted so far, oldest first. */
    var usersDb: seq<UserRecord>

    /** The invariant that the register operation keeps. */
    ghost predicate Valid()
      reads this
    {
      UniqueUsernames(usersDb)
    }

    constructor ()
      ensures usersDb == [] && Valid()
    {
      usersDb := [];
    }

    /** Runs the checks in order and appends the record only if all pass. */
    method RegisterUser(username: string, password: string, email: string) returns (outcome: Outcome)
      modifies this
      ensures Step(outcome, usersDb) == Register(old(usersDb), username, password, email)
      ensures old(Valid()) ==> Valid()
      ensures forall u :: IsUserRegistered(u) <==>
        old(IsUserRegistered(u)) || (outcome == Success && u == username)
    {
      if IsUsernameTaken(username) {
        return UsernameTaken;
      }
      if |password| < MinPasswordLength {
        return PasswordTooShort;
      }
      if !IsValidEmail(email) {
        return InvalidEmail;
      }
      if Valid() {
        RegisterPreservesUnique(usersDb, username, password, email);
      }
      forall u {
        RegisterRegistered(usersDb, username, password, email, u);
      }
      usersDb := usersDb + [UserRecord(username, password, email)];
      outcome := Success;
    }

    function IsUsernameTaken(username: string): (taken: bool)
      reads this
      ensures taken <==> Registered(usersDb, username)
    {
      AnyHasUsername(usersDb, username)
    }

    function IsUserRegistered(username: string): (registered: bool)
      reads this
      ensures registered <==> Registered(usersDb, username)
    {
      AnyHasUsername(usersDb, username)
    }
  }

  /** The repository's test scenarios, each on a new service, stated against the
      contracts above. */
  method Scenarios()
  {
    Examples();

    var reg := new UserRegistration();
    var result := reg.RegisterUser("john_doe", "password123", "john@example.com");
    assert Message(result) == "Registration successful";
    assert reg.IsUserRegistered("john_doe");
    result := reg.RegisterUser("john_doe", "newpassword456", "john2@example.com");
    assert Message(result) == "Username already taken";

    reg := new UserRegistration();
    result := reg.RegisterUser("john_doe", "short", "john@example.com");
    assert Message(result) == "Password is too short";

    reg := new UserRegistration();
    result := reg.RegisterUser("john_doe", "password123", "invalid-email");
    assert Message(result) == "Invalid email";

    reg := new UserRegistration();
    result := reg.RegisterUser("john_doe", "password123", "john@.com");
    assert Message(result) == "Invalid email" && reg.usersDb == [];

    reg := new UserRegistration();
    assert !reg.IsUserRegistered("non_existent_user");

    reg := new UserRegistration();
    result := reg.RegisterUser("john_doe$123", "password123", "john@example.com");
    assert Message(result) == "Registration successful";

    reg := new UserRegistration();
    result := reg.RegisterUser("john_doe", "123456", "john@example.com");
    assert Message(result) == "Registration successful";
    assert reg.usersDb == [UserRecord("john_doe", "123456", "john@example.com")];
  }
}
