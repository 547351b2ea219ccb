# User registration validator, modelled in Dafny

The system is a small in-memory registration service: the `UserRegistration`
class of `registration.py`. It keeps a list `users_db` of user records
(username, password, email), initially empty. `register_user` runs three checks in
order, and the first that fails decides the answer:

1. the username is already in the list: "Username already taken";
2. the password has fewer than 6 characters: "Password is too short";
3. the email does not match `^[a-zA-Z0-9_.+-]+@[a-zA-Z0-9-]+\.[a-zA-Z0-9-.]+$`
   under Python's `re.match`: "Invalid email".

Only when all three pass is the record appended, verbatim, and "Registration
successful" returned. `is_user_registered` (and the private `_is_username_taken`)
say whether some record carries a username.

The project has two modules.

- `EmailPattern` (`email_pattern.dfy`) models `_is_valid_email`, lifted out of the
  class into a module of its own because it reads no field of the object. The meaning of
  the pattern is written down as a ghost predicate: `SplitAt`/`InLanguage` say
  that some `@` and some `.` split the string into a run of each character class,
  and `MatchesPattern` adds what Python's `$` does, which is to match also just
  before one final newline. `IsValidEmail` is a hand-written recognizer. It reads
  a greedy run of each class in turn (`RunEnd`), and its contract proves that it
  accepts exactly `MatchesPattern`. No general regular-expression engine is
  modelled.
- `Registration` (`registration.dfy`) models the records, the four outcomes and
  the messages returned for them. `Register` is a pure function giving the outcome
  of one `register_user` call and the list it leaves behind. `Replay` gives the
  list after a sequence of calls on a new service. The class `UserRegistration`
  holds the list in the field `usersDb`. Its method `RegisterUser` changes the
  list in place and is proved to do exactly what `Register` says. `IsUsernameTaken`
  and `IsUserRegistered` are functions over that field. `Scenarios` restates the
  repository's tests as a client of the class.

One behaviour of the code is easy to miss when the pattern is read as matching
"from start to end". Python's `$` (without MULTILINE) also matches before a single
trailing newline, so `"john@example.com\n"` is accepted. The model follows the
code (`MatchesPattern`, `TrailingNewline`, `NewlineExample`).

## Model

| member | source | states |
|---|---|---|
| `EmailPattern.IsValidEmail` | registration.py:56-68 | the result is true exactly when `re.match` of the fixed pattern succeeds, i.e. the email is in the pattern's language or is such a string followed by one newline |
| `EmailPattern.MatchesBodyCorrect` | registration.py:67-68 | the greedy-run recognizer accepts a string (with no final newline removed) if and only if some `@` and `.` split it into a local run, a domain run and a tail run |
| `EmailPattern.Decomposition` | registration.py:67 | a string is in the pattern's language iff it has exactly one `@`, a non-empty local-class part before it, and after it a first `.` with a non-empty domain-class part before and a non-empty tail-class part after |
| `EmailPattern.SplitIsUnique` | registration.py:67 | the pattern is unambiguous: an accepted string has only one pair of split points |
| `EmailPattern.TrailingNewline` | registration.py:67-68 | `t + "\n"` is accepted iff `t` is in the language; `t + "\n\n"` is never accepted |
| `EmailPattern.Examples` | registration.py:67-68 | `john@example.com` and `a@b.c..` are accepted; `invalid-email`, `john@.com`, `user@domain.` and `@example.com` are rejected |
| `EmailPattern.NewlineExample` | registration.py:67-68 | `"john@example.com\n"` is accepted |
| `Registration.Message` | registration.py:22-30 | each outcome maps to the exact literal `register_user` returns for it, and each literal is returned for that outcome only |
| `Registration.MessagesDistinct` | registration.py:22-30 | the four returned messages are pairwise different, so the message identifies the outcome |
| `Registration.AnyHasUsername` | registration.py:42 | the front-to-back scan is true iff some record in the list has exactly this username |
| `Registration.Register` | registration.py:8-30 | taken username gives UsernameTaken whatever the password and email; otherwise a password under 6 characters gives PasswordTooShort; otherwise an email outside the pattern gives InvalidEmail; otherwise Success. Each outcome holds iff its condition does. The list is unchanged on every failure and gains exactly the record (username, password, email) at its end on success |
| `Registration.RegisterRegistered` | registration.py:29-30 | after one call, a username is registered iff it was before, or the call succeeded and was for that username |
| `Registration.RegisterPreservesUnique` | registration.py:22-29 | if usernames in the list are pairwise distinct before a call, they are after it |
| `Registration.RegisteredThenTaken` | registration.py:22-23 | after a successful registration, a second call with the same username and any password and email returns UsernameTaken and changes nothing |
| `Registration.ReplayUnique` | registration.py:4-30 | starting from the empty list, any sequence of calls keeps usernames pairwise distinct |
| `Registration.ReplayRegisteredIff` | registration.py:44-54 | after any sequence of calls on a new service, a username is registered iff some call with that username succeeded; calls that failed a check leave no trace |
| `Registration.UserRegistration.constructor` | registration.py:4-6 | a new service holds the empty list, which satisfies the uniqueness invariant |
| `Registration.UserRegistration.RegisterUser` | registration.py:8-30 | the outcome and the new list are exactly those of `Register` on the old list; uniqueness of usernames is preserved; afterwards `IsUserRegistered(u)` holds iff it held before or the call succeeded for `u` |
| `Registration.UserRegistration.IsUsernameTaken` | registration.py:32-42 | true iff some record in the list has this username; reads the list and changes nothing |
| `Registration.UserRegistration.IsUserRegistered` | registration.py:44-54 | true iff some record in the list has this username, the same predicate as `IsUsernameTaken`; reads the list and changes nothing |

## Left out

- Characters: Python's `str` is a sequence of code points and may hold lone surrogates. Dafny's `char` is a Unicode scalar value, so such strings have no counterpart. Password length is counted in characters in both.
- Dynamic typing: the model takes strings only. In Python a non-string username is compared with `==` and stored, a password needs only `len()`, and a non-string email raises TypeError in `re.match`.
- Direct access to `users_db`: the Python list is a public attribute that callers could change without going through `register_user`. Such changes are not modelled. For this reason `RegisterUser` keeps the uniqueness invariant only when it held before the call, and does not require it.
- Python's general `re` engine: only this one fixed pattern is modelled, by a dedicated recognizer.
- Concurrency: the code is single-threaded, and the atomicity of check-then-append is not modelled.
- Persistence, password hashing and any real database: the code has none.
