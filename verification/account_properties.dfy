/**
 Properties of the lockout state machine over single login attempts and over
 runs of attempts, and of `register` followed by `login`.
 */
module AccountProperties {
  import opened Accounts

  /** An unknown email and a locked account are rejected whatever the password,
      and neither touches the table. */
  lemma RejectionsLeaveTableUnchanged(users: Users, email: string, password: string, now: int)
    ensures email !in users ==> Login(users, email, password, now) == (InvalidCredentials, users)
    ensures email in users && IsLocked(users[email], now) ==>
              Login(users, email, password, now) == (AccountLocked, users)
  {
  }

  /** A wrong password on an unlocked account raises the counter by exactly one
      and sets `locked_until` to now + 300 once the counter reaches five, to 0
      before that. */
  lemma WrongPasswordCounts(users: Users, email: string, password: string, now: int)
    requires email in users && !IsLocked(users[email], now)
    requires !VerifyPassword(password, users[email].password)
    ensures var (res, users') := Login(users, email, password, now);
              && res == InvalidCredentials
              && users'[email].failedAttempts == users[email].failedAttempts + 1
              && (users[email].failedAttempts + 1 >= 5 ==> users'[email].lockedUntil == now + 300)
              && (users[email].failedAttempts + 1 < 5 ==> users'[email].lockedUntil == 0)
  {
  }

  /** A correct password on an unlocked account clears both counters before the
      verification check: an unverified account is refused with the counters
      already reset, a verified one gets its token. */
  lemma CorrectPasswordResets(users: Users, email: string, password: string, now: int)
    requires email in users && !IsLocked(users[email], now)
    requires VerifyPassword(password, users[email].password)
    ensures var (res, users') := Login(users, email, password, now);
              && users'[email].failedAttempts == 0
              && users'[email].lockedUntil == 0
              && (!users[email].verified ==> res == EmailNotVerified)
              && (users[email].verified ==> res.Bearer?)
  {
  }

  /** The counter is never cleared by a lock expiring: once it has reached
      five, a single further wrong password re-locks the account at once. */
  lemma RelockAfterExpiry(users: Users, email: string, password: string, now: int)
    requires email in users && users[email].failedAttempts >= 4
    requires !IsLocked(users[email], now) && now >= 0
    requires !VerifyPassword(password, users[email].password)
    ensures var users' := Login(users, email, password, now).1;
              IsLocked(users'[email], now) && users'[email].lockedUntil == now + 300
  {
  }

  /** Login attempts with one email and one password at the given instants. */
  function LoginRun(users: Users, email: string, password: string, times: seq<int>): (users': Users)
    ensures users'.Keys == users.Keys
    decreases |times|
  {
    if |times| == 0 then users
    else Login(LoginRun(users, email, password, times[..|times| - 1]), email, password, times[|times| - 1]).1
  }

  /** Answer to attempt `k` of a run. */
  function RunAnswer(users: Users, email: string, password: string, times: seq<int>, k: nat): LoginResult
    requires k < |times|
  {
    Login(LoginRun(users, email, password, times[..k]), email, password, times[k]).0
  }

  lemma PrefixOfPrefix(times: seq<int>, k: nat)
    requires k < |times|
    ensures times[..|times| - 1][..k] == times[..k]
  {
  }

  /** Up to five consecutive wrong passwords on a clean account are each refused
      as invalid credentials; the counter equals the number of attempts and the
      account is locked exactly when it reaches five, until 300 s after the
      fifth attempt. */
  lemma {:induction false} FailuresAccumulate(users: Users, email: string, password: string, times: seq<int>)
    requires email in users
    requires users[email].failedAttempts == 0 && users[email].lockedUntil == 0
    requires !VerifyPassword(password, users[email].password)
    requires |times| <= 5
    ensures var u := LoginRun(users, email, password, times)[email];
              && u.failedAttempts == |times|
              && u.lockedUntil == (if |times| == 5 then times[4] + 300 else 0)
              && u.password == users[email].password
              && u.verified == users[email].verified
    ensures forall k | 0 <= k < |times| :: RunAnswer(users, email, password, times, k) == InvalidCredentials
    decreases |times|
  {
    if |times| > 0 {
      var init := times[..|times| - 1];
      FailuresAccumulate(users, email, password, init);
      forall k | 0 <= k < |times|
        ensures RunAnswer(users, email, password, times, k) == InvalidCredentials
      {
        if k < |times| - 1 {
          PrefixOfPrefix(times, k);
          assert RunAnswer(users, email, password, init, k) == InvalidCredentials;
        } else {
          assert times[..k] == init;
        }
      }
    }
  }

  /** Five wrong passwords lock the account: for the next 300 s every attempt,
      even with the correct password, is refused as locked and changes nothing;
      afterwards the correct password succeeds for a verified account and
      resets the counter. */
  lemma {:induction false} FiveFailuresLock(
    users: Users, email: string, wrong: string, times: seq<int>, any: string, t: int)
    requires email in users
    requires users[email].failedAttempts == 0 && users[email].lockedUntil == 0
    requires !VerifyPassword(wrong, users[email].password)
    requires |times| == 5 && times[4] >= 0
    ensures var locked := LoginRun(users, email, wrong, times);
              t < times[4] + 300 ==> Login(locked, email, any, t) == (AccountLocked, locked)
    ensures var locked := LoginRun(users, email, wrong, times);
              var (res, after) := Login(locked, email, any, t);
              t >= times[4] + 300 && VerifyPassword(any, users[email].password) ==>
                && after[email].failedAttempts == 0
                && after[email].lockedUntil == 0
                && (users[email].verified ==> res.Bearer?)
  {
    FailuresAccumulate(users, email, wrong, times);
  }

  /** Correct passwords on an unverified account: every attempt is refused as
      unverified, yet the counters stay at zero, so the verification gate never
      arms the lockout however often it is hit. */
  lemma {:induction false} UnverifiedNeverArmsLockout(users: Users, email: string, password: string, times: seq<int>)
    requires email in users && !users[email].verified
    requires VerifyPassword(password, users[email].password)
    requires |times| > 0 ==> !IsLocked(users[email], times[0])
    ensures forall k | 0 <= k < |times| :: RunAnswer(users, email, password, times, k) == EmailNotVerified
    ensures var u := LoginRun(users, email, password, times)[email];
              && u.password == users[email].password
              && !u.verified
              && (|times| > 0 ==> u.failedAttempts == 0 && u.lockedUntil == 0)
    decreases |times|
  {
    if |times| > 0 {
      var init := times[..|times| - 1];
      UnverifiedNeverArmsLockout(users, email, password, init);
      forall k | 0 <= k < |times|
        ensures RunAnswer(users, email, password, times, k) == EmailNotVerified
      {
        if k < |times| - 1 {
          PrefixOfPrefix(times, k);
          assert RunAnswer(users, email, password, init, k) == EmailNotVerified;
        } else {
          assert times[..k] == init;
        }
      }
    }
  }

  /** A freshly registered account is refused as unverified with the password
      it was registered with, and a wrong password counts one failure. */
  lemma RegisterThenLogin(users: Users, email: string, password: string, other: string, now: int)
    requires Register(users, email, password).0 == Created
    requires other != password
    ensures var users' := Register(users, email, password).1;
              && Login(users', email, password, now).0 == EmailNotVerified
              && Login(users', email, password, now).1 == users'
              && Login(users', email, other, now).0 == InvalidCredentials
              && Login(users', email, other, now).1[email].failedAttempts == 1
  {
    var users' := Register(users, email, password).1;
    assert users'[email] == NewUser(password);
  }

  /** A request to either account endpoint. */
  datatype AccountRequest =
    | SignUp(email: string, password: string)
    | SignIn(email: string, password: string, now: int)

  function Handle(users: Users, req: AccountRequest): Users {
    match req
    case SignUp(e, p) => Register(users, e, p).1
    case SignIn(e, p, t) => Login(users, e, p, t).1
  }

  function HandleAll(users: Users, reqs: seq<AccountRequest>): Users
    decreases |reqs|
  {
    if |reqs| == 0 then users else Handle(HandleAll(users, reqs[..|reqs| - 1]), reqs[|reqs| - 1])
  }

  ghost predicate NoneVerified(users: Users) {
    forall e :: e in users ==> !users[e].verified
  }

  /** No endpoint ever sets `verified`: from a table of unverified accounts
      (the empty table included), no sequence of registrations and logins ever
      yields an access token. */
  lemma {:induction false} NoLoginEverSucceeds(users: Users, reqs: seq<AccountRequest>)
    requires NoneVerified(users)
    ensures NoneVerified(HandleAll(users, reqs))
    ensures forall k | 0 <= k < |reqs| && reqs[k].SignIn? ::
              !Login(HandleAll(users, reqs[..k]), reqs[k].email, reqs[k].password, reqs[k].now).0.Bearer?
    decreases |reqs|
  {
    if |reqs| > 0 {
      var init := reqs[..|reqs| - 1];
      NoLoginEverSucceeds(users, init);
      var before := HandleAll(users, init);
      var after := Handle(before, reqs[|reqs| - 1]);
      forall e | e in after ensures !after[e].verified {
        match reqs[|reqs| - 1]
        case SignUp(em, p) =>
          if e in before {
            assert after[e] == before[e] || e == em;
          }
        case SignIn(em, p, t) =>
          assert e in before;
      }
      forall k | 0 <= k < |reqs| && reqs[k].SignIn?
        ensures !Login(HandleAll(users, reqs[..k]), reqs[k].email, reqs[k].password, reqs[k].now).0.Bearer?
      {
        if k < |reqs| - 1 {
          assert init[..k] == reqs[..k];
          assert init[k] == reqs[k];
        } else {
          assert reqs[..k] == init;
        }
      }
    }
  }
}
