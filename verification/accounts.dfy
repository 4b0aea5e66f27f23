/**
 The user table and the two account endpoints, `register` and `login`, as pure
 transitions over an in-memory map keyed by email. The clock is a parameter.
 */
module Accounts {
  import opened Text
  import Tokens

  const MaxFailedAttempts: nat := 5
  const LockoutSeconds: nat := 300
  const MinPasswordLength: nat := 8
  const MaxPasswordBytes: nat := 72
  const DoctorRole := "doctor"

  /** A bcrypt digest, abstracted to the password it was computed from: salting
      and cost are invisible to the logic, only `verify(p, hash(p))` matters. */
  datatype PasswordHash = Digest(of: string)

  function HashPassword(password: string): PasswordHash {
    Digest(password)
  }

  predicate VerifyPassword(plain: string, hashed: PasswordHash) {
    hashed.of == plain
  }

  /** One row of the `users` table; the email is the map key. */
  datatype User = User(
    password: PasswordHash,
    role: string,
    failedAttempts: nat,
    lockedUntil: int,
    verified: bool)

  type Users = map<string, User>

  /** The row `register` inserts: only email, password and role are given, the
      other columns take their defaults. */
  function NewUser(password: string): User {
    User(HashPassword(password), DoctorRole, 0, 0, false)
  }

  /** The rule `min(8).has().uppercase().has().lowercase().has().digits().has().symbols()`. */
  predicate MeetsPolicy(password: string) {
    && |password| >= MinPasswordLength
    && HasChar(password, IsUpper)
    && HasChar(password, IsLower)
    && HasChar(password, IsDigit)
    && HasChar(password, IsSymbol)
  }

  datatype RegisterResult = Created | PasswordPolicyViolation | PasswordTooLong | UserExists

  /** `POST /register`: policy check, then the byte-length check, then the
      insert that fails on a duplicate email. Only `Created` changes the table,
      and it adds exactly one fresh, unverified doctor. */
  function Register(users: Users, email: string, password: string): (r: (RegisterResult, Users))
    ensures !MeetsPolicy(password) ==> r.0 == PasswordPolicyViolation
    ensures MeetsPolicy(password) && Utf8Length(password) > MaxPasswordBytes ==> r.0 == PasswordTooLong
    ensures r.0 == UserExists <==>
              MeetsPolicy(password) && Utf8Length(password) <= MaxPasswordBytes && email in users
    ensures r.0 == Created <==>
              MeetsPolicy(password) && Utf8Length(password) <= MaxPasswordBytes && email !in users
    ensures r.0 != Created ==> r.1 == users
    ensures r.0 == Created ==>
              && r.1.Keys == users.Keys + {email}
              && VerifyPassword(password, r.1[email].password)
              && r.1[email].role == DoctorRole
              && r.1[email].failedAttempts == 0
              && r.1[email].lockedUntil == 0
              && !r.1[email].verified
              && forall e :: e in users ==> r.1[e] == users[e]
  {
    if !MeetsPolicy(password) then (PasswordPolicyViolation, users)
    else if Utf8Length(password) > MaxPasswordBytes then (PasswordTooLong, users)
    else if email in users then (UserExists, users)
    else (Created, users[email := NewUser(password)])
  }

  /** The lock test `user[5] and user[5] > now`: a zero `locked_until` never locks. */
  predicate IsLocked(u: User, now: int) {
    u.lockedUntil != 0 && u.lockedUntil > now
  }

  /** `locked_until` written after a failed attempt brought the counter to `failed`. */
  function LockAfterFailure(failed: nat, now: int): int {
    if failed >= MaxFailedAttempts then now + LockoutSeconds else 0
  }

  datatype LoginResult =
    | InvalidCredentials
    | AccountLocked
    | EmailNotVerified
    | Bearer(accessToken: Tokens.Claims)

  /** `POST /login`, step by step: unknown email, lock check, password check
      (count the failure and maybe lock), reset both counters, verification
      check, token. */
  function Login(users: Users, email: string, password: string, now: int): (r: (LoginResult, Users))
    ensures r.1.Keys == users.Keys
    ensures forall e :: e in users && e != email ==> r.1[e] == users[e]
    ensures email in users ==>
              && r.1[email].password == users[email].password
              && r.1[email].role == users[email].role
              && r.1[email].verified == users[email].verified
    ensures r.0.Bearer? <==>
              && email in users
              && !IsLocked(users[email], now)
              && VerifyPassword(password, users[email].password)
              && users[email].verified
    ensures r.0.Bearer? ==>
              && r.0.accessToken.Access?
              && r.0.accessToken.sub == email
              && r.0.accessToken.role == users[email].role
              && Tokens.Lifetime(r.0.accessToken, now) == 3600
  {
    if email !in users then (InvalidCredentials, users)
    else
      var u := users[email];
      if IsLocked(u, now) then (AccountLocked, users)
      else if !VerifyPassword(password, u.password) then
        var failed := u.failedAttempts + 1;
        (InvalidCredentials,
         users[email := u.(failedAttempts := failed, lockedUntil := LockAfterFailure(failed, now))])
      else
        var reset := users[email := u.(failedAttempts := 0, lockedUntil := 0)];
        if !u.verified then (EmailNotVerified, reset)
        else (Bearer(Tokens.CreateToken(email, u.role, now)), reset)
  }
}
