# User authentication API: a Dafny model

This project models the credential rules of a small Flask account API, all in
`Task5.py`. The API has three endpoints: `POST /signup`, `POST /login` and
`GET /users`. The modelled parts are:

- the email format check. The fixed regular expression
  `^[a-zA-Z0-9_.+-]+@[a-zA-Z0-9-]+\.[a-zA-Z0-9-.]+$` becomes a hand-written
  greedy recogniser (`EmailFormat.MatchesPattern`). It is proved equal to a
  declarative language: a local part, `@`, a dot-free domain label, `.`, and a
  tail (`EmailFormat.EmailForm`).
- the password strength rule: at least 8 characters, a digit and an upper-case
  letter (`PasswordPolicy.IsStrongPassword`).
- salted password hashing, reduced to its contract. `Hash` keeps the salt
  beside the derived key. `Check` re-derives the key and compares. The key
  derivation function of the hashing library is a parameter, so
  `Check(Hash(p), p)` holds whichever derivation is used.
- the user table and the three endpoints (`Accounts.UserTable`):
  - signup runs an ordered chain of early-return checks and then appends one row;
  - login is a read-only lookup followed by a digest check;
  - the listing projects every row.

Files:

| file | module | models |
|---|---|---|
| `email_format.dfy` | `EmailFormat` | `is_valid_email` |
| `password_policy.dfy` | `PasswordPolicy` | `is_strong_password` |
| `password_hashing.dfy` | `PasswordHashing` | `generate_password_hash` / `check_password_hash`, as a contract |
| `accounts.dfy` | `Accounts` | the `User` row, `Signup.post`, `Login.post`, `GetUsers.get` |

Decisions worth knowing:

- Python's `$` without `MULTILINE` also matches just before one trailing
  newline. The source therefore accepts `"a@b.c\n"`, and the model does too
  (`EmailFormat.IsValidEmail`, `EmailFormat.TrailingNewlineAccepted`).
- All characters are treated as ASCII. The pattern's classes are ASCII in
  Python as well. For the password rule this is a deviation, listed below.
- The random salt of `generate_password_hash` is a parameter of `Signup`.
- Row ids follow the storage's rule for an append-only table: the largest id
  plus one. So the `i`-th row has id `i + 1` (`Accounts.IdsInOrder`).
- Responses are `(message, status)` pairs with the source's exact messages
  and codes.

The code, not an idealised reading of the service, decides the behaviour:

- A registered email with a weak password gets the weak-password answer, not
  "Email already registered". The password check runs before the duplicate
  check (`Accounts.WeakPasswordReportedBeforeDuplicate`).
- Every signup failure, the duplicate email included, has status 400. There is
  no separate conflict status.
- The listing returns each row's stored digest under the misspelled key
  `passsword`. The comment above the endpoint says passwords are excluded. The
  model keeps the code's behaviour: `Accounts.ListingDeterminesTable` proves
  that the listing reveals the whole table, digests included.

`Accounts.SignupThenLogin` is an end-to-end usage check with no contract of
its own. For any collision-free key derivation, valid email and strong
password, it signs up, logs in, fails with a wrong password, and then tries two
more signups with that email: a strong password gets the duplicate message, a
weak one gets the password message.

## Model

| member | source | states |
|---|---|---|
| `EmailFormat.RunLength` | Task5.py:28 | the length of the longest prefix over one bracket class: every character before it is in the class, and the next one (if any) is not |
| `EmailFormat.RunLengthStopsAt` | Task5.py:28 | a run of a class that ends at the end of the string or at a character outside the class is exactly what `RunLength` finds |
| `EmailFormat.MatchesPattern` | Task5.py:28 | the anchored pattern without the `$` newline rule: it accepts exactly the declarative language `local "@" domain "." tail` (`EmailForm`) |
| `EmailFormat.IsValidEmail` | Task5.py:26-28 | `is_valid_email`: accepts exactly the strings of that language, optionally followed by one newline (the `$` rule) |
| `EmailFormat.MatchesPatternSound` | Task5.py:28 | when the greedy runs end at an `@`, then at a `.`, then at the end of the string, the string splits as local `@` domain `.` tail with non-empty parts over their classes |
| `EmailFormat.MatchesPatternComplete` | Task5.py:28 | in every such split string the greedy runs end exactly at the `@`, the first `.` after it and the end of the string, so greedy matching loses nothing against the backtracking regex |
| `EmailFormat.EmailFormShape` | Task5.py:28 | a string of the language has exactly one `@`, and the first `.` after it follows a non-empty dot-free label and precedes at least one character |
| `EmailFormat.AcceptedLanguageShape` | Task5.py:28 | the shape survives one trailing newline: a string of the language, or one followed by `"\n"`, still has a single `@` and a `.` after a non-empty dot-free label |
| `EmailFormat.ValidEmailShape` | Task5.py:26-28 | every accepted address has that shape: a single `@`, then a non-empty dot-free label and a `.` with something after it |
| `EmailFormat.NoAtRejected` | Task5.py:28 | a string without `@` is rejected |
| `EmailFormat.NoDotAfterAtRejected` | Task5.py:28 | a string with no `.` after its `@` is rejected |
| `EmailFormat.EmailFormEndsInTail` | Task5.py:28 | a string of the language never ends in a newline, because its last character is in the tail class |
| `EmailFormat.TrailingNewlineAccepted` | Task5.py:28 | an address of the language followed by `"\n"` is still accepted, although the pattern itself never matches a newline |
| `EmailFormat.ExampleAccepted` | Task5.py:28 | `user@example.com` is accepted |
| `EmailFormat.ExampleRejected` | Task5.py:28 | `bad-email` is rejected |
| `PasswordPolicy.AnyOf` | Task5.py:32 | `any(test(c) for c in s)` holds exactly when some position of `s` passes the test |
| `PasswordPolicy.IsStrongPassword` | Task5.py:30-32 | a password is strong exactly when it has at least 8 characters, some digit and some upper-case letter; no other condition applies |
| `PasswordPolicy.StrongPasswordExtends` | Task5.py:32 | there is no upper length bound: extending a strong password keeps it strong |
| `PasswordPolicy.Examples` | Task5.py:31-32 | `Passw0rd` is strong; `password` (no digit, no upper case) and `short1A` (7 characters) are not |
| `PasswordHashing.Check` | Task5.py:71 | `check_password_hash`: a digest verifies a password exactly when it is the digest its own salt yields for that password. `Hash` and `CheckOnlyOwnPassword` state what this means for a stored digest |
| `PasswordHashing.Hash` | Task5.py:55 | the digest keeps the salt it was made with and verifies against the hashed password |
| `PasswordHashing.CheckOnlyOwnPassword` | Task5.py:71 | with a collision-free key derivation, a digest verifies its own password and no other |
| `PasswordHashing.SaltedDigestsDiffer` | Task5.py:55 | hashing one password with two different salts gives two different digests |
| `Accounts.User` | Task5.py:19-23 | the row record: id, username, email and the stored digest (never the plain password, see `UserTable.Signup`); the table invariant keeps emails unique and ids in order |
| `Accounts.FirstWithEmail` | Task5.py:68 | the lookup by email finds the first row with that email, or reports that no row has it |
| `Accounts.SignupResponse` | Task5.py:42-60 | signup's answer: bad email first, then weak password, then duplicate email, each with its own message and status 400; status 201 exactly when all three checks pass |
| `Accounts.WeakPasswordReportedBeforeDuplicate` | Task5.py:46-52 | a registered email with a weak password gets the password message, not the duplicate message |
| `Accounts.AppendKeepsEmailsUnique` | Task5.py:50-58 | appending a row whose email is not yet registered keeps emails unique across the table |
| `Accounts.UserTable.constructor` | Task5.py:90-91 | a newly created table is empty and satisfies the table invariant |
| `Accounts.UserTable.Signup` | Task5.py:35-60 | answers as `SignupResponse`. On failure the table is unchanged. On success exactly one row is appended, with the next id, the given username and email and a digest that verifies the password, and that email and password then log in. Email uniqueness and id order are preserved |
| `Accounts.UserTable.Login` | Task5.py:63-74 | the answer is always either `('Login successful', 200)` or `('Invalid credentials', 401)`; success exactly when some row has the email and its digest verifies the password |
| `Accounts.FailedLoginsIndistinguishable` | Task5.py:70-72 | an unknown email and a known email with a wrong password get the identical answer |
| `Accounts.UserEntry` | Task5.py:80 | the listing's dictionary, with the misspelled key `passsword`; `GetUsers` and `ListingDeterminesTable` state that each entry gives back its row |
| `Accounts.UserTable.GetUsers` | Task5.py:77-81 | one entry per row, in table order, carrying id, username, email and the stored digest under `passsword`; each entry gives back its row |
| `Accounts.ListingDeterminesTable` | Task5.py:76-80 | two tables with the same listing hold the same rows, so the listing hides nothing, the digests included |

## Left out

- Flask setup, routing, JSON request parsing, `jsonify` and `app.run` (Task5.py:1-16, 84-92). These are transport. Each endpoint returns its message and status as a value, and the listing returns its entries. The HTTP status 200 that `jsonify` adds is not modelled.
- SQLAlchemy and SQLite (sessions, `commit`, table creation, the database file). The table is an in-memory sequence of rows owned by `Accounts.UserTable`. Rows persisting from an earlier run of the process are not modelled: the table starts empty.
- Column lengths `String(50)`, `String(100)` and `String(200)` are not modelled. SQLite does not enforce them.
- Missing JSON fields. Inputs are modelled as strings. In the source a missing field arrives as `None`. At signup, `re.match` and `len` raise `TypeError` on it, and a `None` username fails at commit. At login, a missing email runs `filter_by(email=None)` (Task5.py:68), which finds no row, so the answer is `('Invalid credentials', 401)` without an exception.
- Concurrent signups for the same email. The duplicate check is racy, and only the database's unique constraint backs it. The model is sequential.
- The internals of the hashing library: the algorithm, the random salt, the method tag inside the stored string and the constant-time comparison. The key derivation is a function parameter. The salt is a parameter of `Signup`. A digest is a record, not a formatted string, so malformed digests cannot occur.
- PasswordPolicy.IsStrongPassword: Python's `isdigit` and `isupper` are Unicode-aware, and the model tests ASCII `0-9` and `A-Z` only. For example, a password whose only upper-case letter is `É` is strong in the source and weak in the model.
- PasswordHashing.CheckOnlyOwnPassword: assumes a key derivation without collisions for one salt. No real derivation has that property: its keys have a fixed length and passwords do not, so collisions exist. They cannot feasibly be found, and a given pair of distinct passwords collides only with negligible probability.
