/** The account endpoints: signup, login and the user listing, over the user
    table they share. Each endpoint returns the message and HTTP status it
    would hand to the web layer. */
module Accounts {
  import opened EmailFormat
  import opened PasswordPolicy
  import opened PasswordHashing

  datatype Option<T> = None | Some(value: T)

  /** A row of the user table; `password` holds the digest, never the plaintext. */
  datatype User = User(id: nat, username: string, email: string, password: Digest)

  /** An endpoint's answer: a message and an HTTP status code. */
  datatype Response = Response(message: string, status: nat)

  const InvalidEmailFormat := Response("Invalid email format", 400)
  const WeakPassword :=
    Response("Password must be at least 8 characters long, contain a number, and an uppercase letter", 400)
  const EmailAlreadyRegistered := Response("Email already registered", 400)
  const UserRegistered := Response("User registered successfully", 201)
  const InvalidCredentials := Response("Invalid credentials", 401)
  const LoginSuccessful := Response("Login successful", 200)

  /** One element of the user listing. The digest travels under the key
      spelled `passsword`, as the endpoint builds it. */
  datatype UserEntry = UserEntry(id: nat, username: string, email: string, passsword: Digest)

  /** The row an entry of the listing was built from. */
  function AsUser(e: UserEntry): User {
    User(e.id, e.username, e.email, e.passsword)
  }

  /** The table's unique constraint on `email`. */
  ghost predicate EmailsUnique(users: seq<User>) {
    forall i, j :: 0 <= i < j < |users| ==> users[i].email != users[j].email
  }

  /** Row identifiers as the storage assigns them when rows are only ever
      appended: 1, 2, 3, ... in insertion order. */
  ghost predicate IdsInOrder(users: seq<User>) {
    forall i :: 0 <= i < |users| ==> users[i].id == i + 1
  }

  ghost predicate IsRegistered(users: seq<User>, email: string) {
    exists u :: u in users && u.email == email
  }

  /** `User.query.filter_by(email=email).first()`, as the position of the row. */
  function FirstWithEmail(users: seq<User>, email: string): (r: Option<nat>)
    ensures r.Some? ==>
              && r.value < |users| && users[r.value].email == email
              && forall k :: 0 <= k < r.value ==> users[k].email != email
    ensures r.None? ==> forall k :: 0 <= k < |users| ==> users[k].email != email
  {
    if users == [] then None
    else if users[0].email == email then Some(0)
    else
      match FirstWithEmail(users[1..], email)
      case None => None
      case Some(i) => Some(i + 1)
  }

  /** The answer of signup: three checks in a fixed order, the first that
      fails deciding alone, every failure with status 400. */
  function SignupResponse(users: seq<User>, email: string, password: string): (r: Response)
    ensures r == UserRegistered || r.status == 400
    ensures r == InvalidEmailFormat <==> !IsValidEmail(email)
    ensures r == WeakPassword <==> IsValidEmail(email) && !IsStrongPassword(password)
    ensures r == EmailAlreadyRegistered <==>
              IsValidEmail(email) && IsStrongPassword(password) && IsRegistered(users, email)
    ensures r == UserRegistered <==>
              IsValidEmail(email) && IsStrongPassword(password) && !IsRegistered(users, email)
  {
    if !IsValidEmail(email) then InvalidEmailFormat
    else if !IsStrongPassword(password) then WeakPassword
    else if FirstWithEmail(users, email).Some? then EmailAlreadyRegistered
    else UserRegistered
  }

  /** A registered email with a weak password reports the password, not the
      duplicate: the password check comes first. */
  lemma WeakPasswordReportedBeforeDuplicate(users: seq<User>, email: string, password: string)
    requires IsValidEmail(email) && !IsStrongPassword(password)
    requires IsRegistered(users, email)
    ensures SignupResponse(users, email, password) == WeakPassword
    ensures SignupResponse(users, email, password) != EmailAlreadyRegistered
  {
  }

  /** Appending a row whose email is new keeps emails unique. */
  lemma AppendKeepsEmailsUnique(users: seq<User>, u: User)
    requires EmailsUnique(users)
    requires !IsRegistered(users, u.email)
    ensures EmailsUnique(users + [u])
  {
  }

  /** The user table: the one piece of state the endpoints share. */
  class UserTable {
    var users: seq<User>
    const kdf: KeyDerivation

    ghost predicate Valid()
      reads this
    {
      EmailsUnique(users) && IdsInOrder(users)
    }

    /** A freshly created, empty table. */
    constructor (kdf: KeyDerivation)
      ensures Valid()
      ensures users == [] && this.kdf == kdf
    {
      this.kdf := kdf;
      users := [];
    }

    /** POST /signup. Every failure leaves the table as it was; success
        appends exactly one row, whose digest verifies the password, and the
        new account can then log in. */
    method Signup(username: string, email: string, password: string, salt: string)
      returns (resp: Response)
      requires Valid()
      modifies this
      ensures Valid()
      ensures resp == SignupResponse(old(users), email, password)
      ensures resp != UserRegistered ==> users == old(users)
      ensures resp == UserRegistered ==>
                users == old(users) + [User(|old(users)| + 1, username, email, Hash(kdf, password, salt))]
      ensures resp == UserRegistered ==>
                Check(kdf, users[|users| - 1].password, password) &&
                Login(email, password) == LoginSuccessful
    {
      if !IsValidEmail(email) {
        return InvalidEmailFormat;
      }
      if !IsStrongPassword(password) {
        return WeakPassword;
      }
      if FirstWithEmail(users, email).Some? {
        return EmailAlreadyRegistered;
      }
      var hashed := Hash(kdf, password, salt);
      var row := User(|users| + 1, username, email, hashed);
      AppendKeepsEmailsUnique(users, row);
      users := users + [row];
      assert row in users;
      return UserRegistered;
    }

    /** POST /login. Succeeds exactly when some row has the email and its
        digest verifies the password; an unknown email and a wrong password
        give the same answer. */
    function Login(email: string, password: string): (r: Response)
      reads this
      requires Valid()
      ensures r == LoginSuccessful || r == InvalidCredentials
      ensures r == LoginSuccessful <==>
                exists u :: u in users && u.email == email && Check(kdf, u.password, password)
    {
      match FirstWithEmail(users, email)
      case None => InvalidCredentials
      case Some(i) =>
        if Check(kdf, users[i].password, password) then LoginSuccessful else InvalidCredentials
    }

    /** GET /users: one entry per row, in table order, each carrying the
        row's digest, so the table can be rebuilt from the listing. */
    function GetUsers(): (r: seq<UserEntry>)
      reads this
      ensures |r| == |users|
      ensures forall i :: 0 <= i < |r| ==> AsUser(r[i]) == users[i]
    {
      seq(|users|, i reads this requires 0 <= i < |users| =>
        UserEntry(users[i].id, users[i].username, users[i].email, users[i].password))
    }
  }

  /** Login's two failure causes cannot be told apart by the caller. */
  lemma FailedLoginsIndistinguishable(
    t: UserTable, unknown: string, p: string, known: string, wrong: string)
    requires t.Valid()
    requires !IsRegistered(t.users, unknown)
    requires IsRegistered(t.users, known)
    requires forall u :: u in t.users && u.email == known ==> !Check(t.kdf, u.password, wrong)
    ensures t.Login(unknown, p) == t.Login(known, wrong) == InvalidCredentials
  {
  }

  /** Two tables with the same listing hold the same rows: the listing hides
      nothing, the stored digests included. */
  lemma ListingDeterminesTable(t1: UserTable, t2: UserTable)
    requires t1.GetUsers() == t2.GetUsers()
    ensures t1.users == t2.users
  {
  }

  /** Signup, login with the right and a wrong password, then signups for the
      same address with a strong and with a weak password. */
  method SignupThenLogin(
    kdf: KeyDerivation, email: string, password: string, wrong: string, weak: string)
    requires CollisionFree(kdf)
    requires IsValidEmail(email) && IsStrongPassword(password) && !IsStrongPassword(weak)
    requires wrong != password
  {
    var table := new UserTable(kdf);
    var r := table.Signup("alice", email, password, "s1");
    assert r == UserRegistered;
    assert table.Login(email, password) == LoginSuccessful;
    CheckOnlyOwnPassword(kdf, password, wrong, "s1");
    assert table.Login(email, wrong) == InvalidCredentials;
    r := table.Signup("alice2", email, password, "s2");
    assert r == EmailAlreadyRegistered;
    r := table.Signup("bob", email, weak, "s3");
    assert r == WeakPassword;
  }
}
