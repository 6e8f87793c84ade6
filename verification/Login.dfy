/** Login with a lockout after repeated wrong passwords, and password changes
    (`app/services/auth_service.py`). The password check itself is an oracle. */
module Login {
  import opened Prelude
  import opened Sessions

  /** Bounds are those enforced by the application settings. */
  datatype Policy = Policy(maxAttempts: nat, lockout: nat) {
    predicate Valid() {
      2 <= maxAttempts && 1 <= lockout
    }
  }

  datatype Account = Account(id: nat, active: bool, failedAttempts: nat, lockedUntil: Option<int>,
                             lastLoginAt: Option<int>, passwordChangedAt: int)

  datatype Verdict = Locked | Inactive | WrongPassword | Admitted

  // ---- What an attempt does to the account ----

  predicate IsLocked(account: Account, now: int) {
    account.lockedUntil.Some? && account.lockedUntil.value > now
  }

  /** A lock that has run out is lifted, and the counter restarts. */
  function Unlocked(account: Account): Account {
    if account.lockedUntil.Some? then account.(lockedUntil := None, failedAttempts := 0) else account
  }

  function Counted(policy: Policy, account: Account, now: int): Account {
    var counted := account.(failedAttempts := account.failedAttempts + 1);
    if counted.failedAttempts >= policy.maxAttempts
    then counted.(lockedUntil := Some(now + policy.lockout))
    else counted
  }

  function Judge(account: Account, correct: bool, now: int): Verdict {
    if IsLocked(account, now) then Locked
    else if !correct then WrongPassword
    else if !account.active then Inactive
    else Admitted
  }

  function AfterAttempt(policy: Policy, account: Account, correct: bool, now: int): Account {
    match Judge(account, correct, now)
    case Locked => account
    case WrongPassword => Counted(policy, Unlocked(account), now)
    case Inactive => Unlocked(account)
    case Admitted =>
      account.(failedAttempts := 0, lockedUntil := None, lastLoginAt := Some(now))
  }

  // ---- The service ----

  class AuthService {
    const policy: Policy
    const sessions: SessionService
    var users: map<string, Account>

    constructor (policy: Policy, sessions: SessionService)
      ensures this.policy == policy && this.sessions == sessions && users == map[]
    {
      this.policy, this.sessions, users := policy, sessions, map[];
    }

    /** `correct` is the outcome of the password check; `token` is the freshly generated one. */
    method Login(username: string, correct: bool, previous: Option<Token>, token: Token, now: int)
      returns (admitted: bool)
      requires token !in sessions.records
      modifies this`users, sessions`records
      ensures admitted <==> username in old(users) && Judge(old(users[username]), correct, now) == Admitted
      ensures admitted <==>
                && username in old(users) && correct && old(users[username]).active
                && (old(users[username]).lockedUntil.Some? ==> old(users[username]).lockedUntil.value <= now)
      ensures admitted ==> token in sessions.records && sessions.records[token].user == old(users[username]).id
      ensures admitted && previous.Some? && previous.value in old(sessions.records) ==>
                previous.value in sessions.records && sessions.records[previous.value].revokedAt.Some?
      ensures username !in old(users) ==> users == old(users)
      ensures username in old(users) ==>
                users == old(users)[username := AfterAttempt(policy, old(users[username]), correct, now)]
      ensures !admitted ==> sessions.State() == old(sessions.State())
      ensures admitted ==>
                var rotated := if previous.Some? then AfterRevoke(old(sessions.State()), previous.value, now)
                               else old(sessions.State());
                sessions.State() == AfterCreate(sessions.config, rotated, token, users[username].id, now)
    {
      if username !in users {
        return false;
      }
      var user := users[username];
      if user.lockedUntil.Some? && user.lockedUntil.value > now {
        return false;
      }
      if user.lockedUntil.Some? && user.lockedUntil.value <= now {
        user := user.(lockedUntil := None);
        user := user.(failedAttempts := 0);
      }
      if !correct || !user.active {
        if !correct {
          user := user.(failedAttempts := user.failedAttempts + 1);
          if user.failedAttempts >= policy.maxAttempts {
            user := user.(lockedUntil := Some(now + policy.lockout));
          }
        }
        users := users[username := user];
        return false;
      }
      user := user.(failedAttempts := 0, lockedUntil := None, lastLoginAt := Some(now));
      users := users[username := user];
      AdmittedExactlyWhen(old(users[username]), correct, now);
      if previous.Some? {
        var _ := sessions.Revoke(previous.value, now);
      }
      var created := sessions.CreateRecord(token, user.id, now);
      admitted := true;
    }

    method ChangePassword(username: string, now: int) returns (found: bool)
      modifies this`users, sessions`records
      ensures found == (username in old(users))
      ensures !found ==> users == old(users) && sessions.State() == old(sessions.State())
      ensures found ==>
                users == old(users)[username := old(users[username]).(passwordChangedAt := now,
                                                                     failedAttempts := 0, lockedUntil := None)]
      ensures found ==>
                sessions.State() == AfterRevokeAll(old(sessions.State()), users[username].id, None, now)
    {
      if username !in users {
        return false;
      }
      users := users[username := users[username].(passwordChangedAt := now, failedAttempts := 0, lockedUntil := None)];
      var revoked := sessions.RevokeAllForUser(users[username].id, None, now);
      found := true;
    }
  }

  // ---- What an attempt amounts to ----

  /** Admitted exactly when the password is right, the account active, and no lock in force. */
  lemma AdmittedExactlyWhen(account: Account, correct: bool, now: int)
    ensures Judge(account, correct, now) == Admitted
            <==> correct && account.active && (account.lockedUntil.Some? ==> account.lockedUntil.value <= now)
  {
  }

  /** What an attempt may change: an admission clears counter and lock and dates the login; a wrong
      password outside a lock counts one, from zero if a lock has run out, and sets a lock at the
      maximum; a lock in force leaves everything as it is. Identity, activity and the date of the
      password never change. */
  lemma AttemptsChangeOnly(policy: Policy, account: Account, correct: bool, now: int)
    ensures var next := AfterAttempt(policy, account, correct, now);
            var inForce := account.lockedUntil.Some? && now < account.lockedUntil.value;
            var counter := if account.lockedUntil.Some? then 0 else account.failedAttempts;
            && next.id == account.id && next.active == account.active && next.passwordChangedAt == account.passwordChangedAt
            && (inForce ==> next == account)
            && (!inForce && correct && account.active ==>
                  next.failedAttempts == 0 && next.lockedUntil == None && next.lastLoginAt == Some(now))
            && (!inForce && !correct ==>
                  && next.failedAttempts == counter + 1 && next.lastLoginAt == account.lastLoginAt
                  && next.lockedUntil == if counter + 1 >= policy.maxAttempts then Some(now + policy.lockout) else None)
            && (!inForce && correct && !account.active ==>
                  next.failedAttempts == counter && next.lockedUntil == None && next.lastLoginAt == account.lastLoginAt)
  {
  }

  /** The lock that the last allowed wrong password sets lasts exactly the lockout period: until then
      even the right password is refused, and from then on it is admitted. */
  lemma LocksLastExactly(policy: Policy, account: Account, now: int, later: int)
    requires policy.Valid() && account.active && account.lockedUntil == None
    requires account.failedAttempts == policy.maxAttempts - 1 && now <= later
    ensures Judge(AfterAttempt(policy, account, false, now), true, later) == Admitted <==> now + policy.lockout <= later
  {
  }

  // ---- Runs of attempts on one account ----

  datatype Attempt = Attempt(now: int, correct: bool)

  function Run(policy: Policy, account: Account, run: seq<Attempt>): Account
    decreases run
  {
    if run == [] then account
    else Run(policy, AfterAttempt(policy, account, run[0].correct, run[0].now), run[1..])
  }

  /** How many attempts of the run were counted as wrong passwords. */
  function WrongPasswords(policy: Policy, account: Account, run: seq<Attempt>): nat
    decreases run
  {
    if run == [] then 0
    else (if Judge(account, run[0].correct, run[0].now) == WrongPassword then 1 else 0)
         + WrongPasswords(policy, AfterAttempt(policy, account, run[0].correct, run[0].now), run[1..])
  }

  predicate NeverAdmitted(policy: Policy, account: Account, run: seq<Attempt>)
    decreases run
  {
    run != [] ==>
      && Judge(account, run[0].correct, run[0].now) != Admitted
      && NeverAdmitted(policy, AfterAttempt(policy, account, run[0].correct, run[0].now), run[1..])
  }

  /** The clock never goes back, and the run lies between `from` and `to`. */
  predicate Within(run: seq<Attempt>, from: int, to: int)
    decreases run
  {
    from <= to && (run != [] ==> from <= run[0].now && Within(run[1..], run[0].now, to))
  }

  /** The account carries a lock exactly when its counter stands at the maximum. */
  predicate LockedAtMaximum(policy: Policy, account: Account) {
    account.failedAttempts <= policy.maxAttempts
    && (account.lockedUntil.Some? <==> account.failedAttempts == policy.maxAttempts)
  }

  /** Throughout every run, successes included, a lock is set exactly when the counter stands at
      the maximum, and an attempt inside a lock is refused and changes nothing. */
  lemma {:induction false} LockInvariant(policy: Policy, account: Account, run: seq<Attempt>, last: Attempt)
    requires policy.Valid() && LockedAtMaximum(policy, account)
    ensures var end := Run(policy, account, run);
            && LockedAtMaximum(policy, end)
            && (IsLocked(end, last.now) ==>
                  && Judge(end, last.correct, last.now) == Locked
                  && AfterAttempt(policy, end, last.correct, last.now) == end)
    decreases run
  {
    if run != [] {
      LockInvariant(policy, AfterAttempt(policy, account, run[0].correct, run[0].now), run[1..], last);
    }
  }

  /** How many wrong passwords can still be counted between `from` and `to`. */
  function Budget(policy: Policy, account: Account, from: int, to: int): int
    requires policy.Valid() && from <= to
  {
    match account.lockedUntil
    case Some(until) =>
      if to < until then 0 else policy.maxAttempts * ((to - Max(from, until)) / policy.lockout + 1)
    case None =>
      policy.maxAttempts - account.failedAttempts + policy.maxAttempts * ((to - from) / policy.lockout)
  }

  function Max(a: int, b: int): int {
    if a <= b then b else a
  }

  lemma {:induction false} WrongPasswordsWithinBudget(policy: Policy, account: Account, run: seq<Attempt>, from: int, to: int)
    requires policy.Valid() && LockedAtMaximum(policy, account)
    requires NeverAdmitted(policy, account, run) && Within(run, from, to)
    ensures WrongPasswords(policy, account, run) <= Budget(policy, account, from, to)
    decreases run
  {
    var m, l := policy.maxAttempts, policy.lockout;
    if run == [] {
      BudgetIsNatural(policy, account, from, to);
    } else {
      var now := run[0].now;
      var next := AfterAttempt(policy, account, run[0].correct, now);
      WrongPasswordsWithinBudget(policy, next, run[1..], now, to);
      assert now <= to by { assert Within(run[1..], now, to); }
      BudgetStep(policy, account, run[0], from, to);
    }
  }

  lemma BudgetIsNatural(policy: Policy, account: Account, from: int, to: int)
    requires policy.Valid() && LockedAtMaximum(policy, account) && from <= to
    ensures Budget(policy, account, from, to) >= 0
  {
    PeriodsAreMonotone(policy, from, from, to);
    if account.lockedUntil.Some? && account.lockedUntil.value <= to {
      var start := Max(from, account.lockedUntil.value);
      PeriodsAreMonotone(policy, start, start, to);
    }
  }

  lemma PeriodsAreMonotone(policy: Policy, a: int, b: int, to: int)
    requires policy.Valid() && a <= b <= to
    ensures 0 <= policy.maxAttempts * ((to - b) / policy.lockout) <= policy.maxAttempts * ((to - a) / policy.lockout)
  {
    var l := policy.lockout;
    assert 0 <= (to - b) / l <= (to - a) / l by { DivisionIsMonotone(to - b, to - a, l); }
  }

  lemma ProductIsMonotone(l: nat, a: int, b: int)
    ensures a <= b ==> l * a <= l * b
  {
  }

  lemma DivisionIsMonotone(x: nat, y: nat, l: nat)
    requires 0 < l && x <= y
    ensures 0 <= x / l <= y / l
  {
    var p, q := x / l, y / l;
    assert x == l * p + x % l && y == l * q + y % l && l * (q + 1) == l * q + l;
    ProductIsMonotone(l, q + 1, p);
  }

  /** Waiting never adds to the budget. */
  lemma BudgetOnlyShrinks(policy: Policy, account: Account, from: int, now: int, to: int)
    requires policy.Valid() && from <= now <= to
    ensures Budget(policy, account, now, to) <= Budget(policy, account, from, to)
  {
    PeriodsAreMonotone(policy, from, now, to);
    if account.lockedUntil.Some? && account.lockedUntil.value <= to {
      var until := account.lockedUntil.value;
      PeriodsAreMonotone(policy, Max(from, until), Max(now, until), to);
      assert forall q: int :: policy.maxAttempts * (q + 1) == policy.maxAttempts * q + policy.maxAttempts;
    }
  }

  /** Lifting a lock that has run out leaves the budget as it was. */
  lemma UnlockKeepsBudget(policy: Policy, account: Account, now: int, to: int)
    requires policy.Valid() && now <= to && !IsLocked(account, now)
    ensures Budget(policy, Unlocked(account), now, to) == Budget(policy, account, now, to)
  {
    if account.lockedUntil.Some? {
      var q := (to - now) / policy.lockout;
      assert policy.maxAttempts * (q + 1) == policy.maxAttempts * q + policy.maxAttempts;
    }
  }

  /** A counted wrong password uses up one. */
  lemma CountingSpendsBudget(policy: Policy, account: Account, now: int, to: int)
    requires policy.Valid() && now <= to
    requires account.lockedUntil == None && account.failedAttempts < policy.maxAttempts
    ensures 1 + Budget(policy, Counted(policy, account, now), now, to) <= Budget(policy, account, now, to)
  {
    var m, l := policy.maxAttempts, policy.lockout;
    PeriodsAreMonotone(policy, now, now, to);
    if account.failedAttempts + 1 == m && now + l <= to {
      OnePeriodLess(to - now, l);
      assert Max(now, now + l) == now + l;
    }
  }

  /** One attempt uses up what it counts. */
  lemma BudgetStep(policy: Policy, account: Account, attempt: Attempt, from: int, to: int)
    requires policy.Valid() && LockedAtMaximum(policy, account) && from <= attempt.now <= to
    requires Judge(account, attempt.correct, attempt.now) != Admitted
    ensures var next := AfterAttempt(policy, account, attempt.correct, attempt.now);
            (if Judge(account, attempt.correct, attempt.now) == WrongPassword then 1 else 0)
            + Budget(policy, next, attempt.now, to) <= Budget(policy, account, from, to)
  {
    BudgetOnlyShrinks(policy, account, from, attempt.now, to);
    if !IsLocked(account, attempt.now) {
      UnlockKeepsBudget(policy, account, attempt.now, to);
      if !attempt.correct {
        CountingSpendsBudget(policy, Unlocked(account), attempt.now, to);
      }
    }
  }

  lemma QuotientIs(x: nat, l: nat, q: nat)
    requires 0 < l && l * q <= x < l * q + l
    ensures x / l == q
  {
    var d := x / l;
    assert x == l * d + x % l && l * (q + 1) == l * q + l && l * (d + 1) == l * d + l;
    ProductIsMonotone(l, d + 1, q);
    ProductIsMonotone(l, q + 1, d);
  }

  lemma OnePeriodLess(x: nat, l: nat)
    requires 0 < l <= x
    ensures x / l == (x - l) / l + 1
  {
    var q := (x - l) / l;
    assert x - l == l * q + (x - l) % l && l * (q + 1) == l * q + l;
    QuotientIs(x, l, q + 1);
  }

  /** Guessing is bounded: without a success, a run spanning T counts at most maxAttempts wrong
      passwords for each lockout period begun, that is maxAttempts * (T div lockout + 1). */
  lemma GuessesAreBounded(policy: Policy, account: Account, run: seq<Attempt>, span: nat)
    requires policy.Valid() && account.failedAttempts == 0 && account.lockedUntil == None
    requires run != [] && Within(run, run[0].now, run[0].now + span) && NeverAdmitted(policy, account, run)
    ensures WrongPasswords(policy, account, run) <= policy.maxAttempts * (span / policy.lockout + 1)
  {
    WrongPasswordsWithinBudget(policy, account, run, run[0].now, run[0].now + span);
  }

  /** A run that reaches the bound: `left` wrong passwords at `start`, then maxAttempts more each
      time the lock runs out. */
  function Siege(policy: Policy, start: int, left: nat, periods: nat): seq<Attempt>
    decreases periods, left
  {
    if left > 0 then [Attempt(start, false)] + Siege(policy, start, left - 1, periods)
    else if periods > 0 then Siege(policy, start + policy.lockout, policy.maxAttempts, periods - 1)
    else []
  }

  lemma {:induction false} SiegeCounts(policy: Policy, account: Account, start: int, left: nat, periods: nat)
    requires policy.Valid()
    requires left > 0 ==> !IsLocked(account, start) && Unlocked(account).failedAttempts + left == policy.maxAttempts
    requires left == 0 ==> account.lockedUntil == Some(start + policy.lockout)
    ensures var run := Siege(policy, start, left, periods);
            && WrongPasswords(policy, account, run) == left + policy.maxAttempts * periods
            && NeverAdmitted(policy, account, run)
            && Within(run, start, start + policy.lockout * periods)
    decreases periods, left
  {
    var run := Siege(policy, start, left, periods);
    assert policy.lockout * periods >= 0;
    if left > 0 {
      assert run[1..] == Siege(policy, start, left - 1, periods);
      SiegeCounts(policy, AfterAttempt(policy, account, false, start), start, left - 1, periods);
    } else if periods > 0 {
      SiegeCounts(policy, account, start + policy.lockout, policy.maxAttempts, periods - 1);
      assert policy.lockout * periods == policy.lockout + policy.lockout * (periods - 1);
      assert policy.maxAttempts * periods == policy.maxAttempts + policy.maxAttempts * (periods - 1);
    }
  }

  /** The bound is exact: a fresh account can be asked that many wrong passwords. */
  lemma GuessBoundIsReached(policy: Policy, account: Account, start: int, periods: nat)
    requires policy.Valid() && account.failedAttempts == 0 && account.lockedUntil == None
    ensures var run := Siege(policy, start, policy.maxAttempts, periods);
            && Within(run, start, start + policy.lockout * periods)
            && NeverAdmitted(policy, account, run)
            && WrongPasswords(policy, account, run)
                 == policy.maxAttempts * ((policy.lockout * periods) / policy.lockout + 1)
  {
    SiegeCounts(policy, account, start, policy.maxAttempts, periods);
    var l, q := policy.lockout, periods;
    QuotientIs(l * q, l, q);
    assert policy.maxAttempts * (q + 1) == policy.maxAttempts + policy.maxAttempts * q;
  }
}
