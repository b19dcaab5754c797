/**
  Local login with lockout: a failure counter that only a success or a password reset
  clears, and a deadline that the failures at or past the threshold push forward.  Times are
  in milliseconds; an attempt reads the clock twice, for the lock check and for the deadline.
*/
module Lockout {
  import opened Arithmetic
  import opened Collections

  datatype Config = Config(maxFailedAttempts: int, lockoutMs: int) {
    /** What the configuration loader insists on. */
    predicate Accepted() { maxFailedAttempts > 0 && lockoutMs > 0 }
  }

  /** About a hundred years, the lock that disables an account. */
  const DISABLE_MS := 100 * 365 * 24 * 60 * 60 * 1000

  datatype Account = Account(failedLoginAttempts: int, lockedUntil: Option<int>)

  datatype Event =
    | Attempt(checkedAt: int, decidedAt: int, valid: bool)
    | PasswordReset(at: int)
    | Update(at: int, isEnabled: Option<bool>)
  {
    function Start(): int { if Attempt? then checkedAt else at }

    function End(): int { if Attempt? then decidedAt else at }
  }

  predicate Locked(a: Account, now: int) { a.lockedUntil.Some? && a.lockedUntil.value > now }

  /** The attempt gets past the lock check. */
  predicate Evaluated(a: Account, e: Event) { e.Attempt? && !Locked(a, e.checkedAt) }

  function Step(c: Config, a: Account, e: Event): Account {
    match e
    case Attempt(checkedAt, decidedAt, valid) =>
      if Locked(a, checkedAt) then a
      else if valid then Account(0, None)
      else
        var newFailCount := a.failedLoginAttempts + 1;
        Account(newFailCount,
                if newFailCount >= c.maxFailedAttempts then Some(decidedAt + c.lockoutMs) else a.lockedUntil)
    case PasswordReset(_) => Account(0, None)
    case Update(at, Some(false)) => a.(lockedUntil := Some(at + DISABLE_MS))
    case Update(_, Some(true)) => a.(lockedUntil := None)
    case Update(_, None) => a
  }

  function After(c: Config, a: Account, run: seq<Event>): Account {
    if run == [] then a else Step(c, After(c, a, run[..|run| - 1]), run[|run| - 1])
  }

  // ----- Counting over a run

  /** Wrong passwords that were actually checked. */
  function Failures(c: Config, a: Account, run: seq<Event>): nat {
    if run == [] then 0
    else
      var e := run[|run| - 1];
      Failures(c, a, run[..|run| - 1]) + if Evaluated(After(c, a, run[..|run| - 1]), e) && !e.valid then 1 else 0
  }

  /** Successful logins and password resets. */
  function Resets(c: Config, a: Account, run: seq<Event>): nat {
    if run == [] then 0
    else
      var e := run[|run| - 1];
      Resets(c, a, run[..|run| - 1])
      + if e.PasswordReset? || (Evaluated(After(c, a, run[..|run| - 1]), e) && e.valid) then 1 else 0
  }

  /** Administrator updates that enable or disable the account. */
  function AdminChanges(run: seq<Event>): nat {
    if run == [] then 0
    else
      AdminChanges(run[..|run| - 1]) + if run[|run| - 1].Update? && run[|run| - 1].isEnabled.Some? then 1 else 0
  }

  /** The clock never goes back within [from, to]. */
  predicate Clocked(run: seq<Event>, from: int, to: int) {
    if run == [] then from <= to
    else
      var e := run[|run| - 1];
      Clocked(run[..|run| - 1], from, e.Start()) && e.Start() <= e.End() <= to
  }

  // ----- The rate bound

  /** Failures still possible before each one locks the account: at least the next one. */
  function Slack(c: Config, a: Account): int { Max(c.maxFailedAttempts - a.failedLoginAttempts, 1) }

  /**
    The bound's bookkeeping: `gate` is the earliest time the lockout set by failures lets the
    next attempt through, `spent` the failures counted so far.
  */
  ghost predicate Budget(c: Config, a: Account, now: int, gate: int, spent: int, allowed: int, to: int)
    requires c.lockoutMs > 0
  {
    && now <= gate <= now + c.lockoutMs
    && (gate > now ==>
          a.failedLoginAttempts >= c.maxFailedAttempts && a.lockedUntil.Some? && gate <= a.lockedUntil.value)
    && a.failedLoginAttempts >= 0
    && spent + Slack(c, a) + Periods(to - gate, c.lockoutMs) <= allowed
  }

  /** Whole lockout periods in a span. */
  function Periods(span: int, l: int): int
    requires l > 0
  {
    span / l
  }

  lemma LessTime(x: int, y: int, l: int)
    requires l > 0 && x <= y
    ensures Periods(x, l) <= Periods(y, l)
  {
    FloorMonotone(x, y, l);
  }

  lemma OnePeriod(x: int, l: int)
    requires l > 0
    ensures Periods(x - l, l) == Periods(x, l) - 1
  {
    FloorShift(x, l);
  }

  /** Each event keeps the budget: a reset may cost another round of attempts, an administrator's change one. */
  lemma StepKeepsBudget(c: Config, a: Account, e: Event, now: int, gate: int, spent: int, allowed: int, to: int)
    returns (gate': int)
    requires c.lockoutMs > 0 && Budget(c, a, now, gate, spent, allowed, to)
    requires now <= e.Start() <= e.End() <= to
    ensures var a' := Step(c, a, e);
      var failed := if Evaluated(a, e) && !e.valid then 1 else 0;
      var extra := if e.PasswordReset? || (Evaluated(a, e) && e.valid) then Max(c.maxFailedAttempts, 1)
                   else if e.Update? && e.isEnabled.Some? then 1 else 0;
      Budget(c, a', e.End(), gate', spent + failed, allowed + extra, to)
  {
    hide Periods;
    var t := e.End();
    var later := Max(gate, t);
    LessTime(to - later, to - gate, c.lockoutMs);
    OnePeriod(to - t, c.lockoutMs);
    match e
    case Attempt(checkedAt, decidedAt, valid) =>
      if Locked(a, checkedAt) {
        gate' := later;
      } else if valid {
        gate' := t;
        LessTime(to - t, to - gate + c.lockoutMs, c.lockoutMs);
        OnePeriod(to - gate + c.lockoutMs, c.lockoutMs);
      } else {
        assert gate <= checkedAt;
        gate' := if a.failedLoginAttempts + 1 >= c.maxFailedAttempts then t + c.lockoutMs else t;
        assert (to - t) - c.lockoutMs == to - (t + c.lockoutMs);
      }
    case PasswordReset(_) =>
      gate' := t;
      LessTime(to - t, to - gate + c.lockoutMs, c.lockoutMs);
      OnePeriod(to - gate + c.lockoutMs, c.lockoutMs);
    case Update(_, Some(_)) =>
      gate' := t;
      LessTime(to - t, to - gate + c.lockoutMs, c.lockoutMs);
      OnePeriod(to - gate + c.lockoutMs, c.lockoutMs);
    case Update(_, None) =>
      gate' := later;
  }

  lemma BudgetAtStart(c: Config, a: Account, from: int, now: int, to: int)
    requires c.lockoutMs > 0 && a.failedLoginAttempts >= 0 && from <= now <= to
    ensures Budget(c, a, now, now, 0, Max(c.maxFailedAttempts, 1) + Periods(to - from, c.lockoutMs), to)
  {
    LessTime(to - now, to - from, c.lockoutMs);
  }

  /** Time passing only uses the budget up. */
  lemma BudgetLater(c: Config, a: Account, t: int, gate: int, spent: int, allowed: int, to: int, now: int)
    returns (gate': int)
    requires c.lockoutMs > 0 && Budget(c, a, t, gate, spent, allowed, to) && t <= now
    ensures Budget(c, a, now, gate', spent, allowed, to)
  {
    gate' := Max(gate, now);
    LessTime(to - gate', to - gate, c.lockoutMs);
  }

  lemma NoOtherIsEvaluated(a: Account, e: Event)
    ensures Evaluated(a, e) ==> e.Attempt?
  {}

  lemma {:induction false} RunKeepsBudget(c: Config, a: Account, run: seq<Event>, from: int, to: int, now: int)
    returns (gate: int)
    requires c.lockoutMs > 0 && a.failedLoginAttempts >= 0 && Clocked(run, from, now) && now <= to
    ensures Budget(c, After(c, a, run), now, gate, Failures(c, a, run),
                   (1 + Resets(c, a, run)) * Max(c.maxFailedAttempts, 1) + AdminChanges(run)
                   + Periods(to - from, c.lockoutMs), to)
    decreases |run|
  {
    hide Evaluated, Step, Budget, Periods;
    if run == [] {
      gate := now;
      BudgetAtStart(c, a, from, now, to);
    } else {
      var init, e := run[..|run| - 1], run[|run| - 1];
      var before := RunKeepsBudget(c, a, init, from, to, e.Start());
      var m := Max(c.maxFailedAttempts, 1);
      var allowed := (1 + Resets(c, a, init)) * m + AdminChanges(init) + Periods(to - from, c.lockoutMs);
      var after := StepKeepsBudget(c, After(c, a, init), e, e.Start(), before, Failures(c, a, init), allowed, to);
      Distribute(1 + Resets(c, a, init), m);
      var next := (1 + Resets(c, a, run)) * m + AdminChanges(run) + Periods(to - from, c.lockoutMs);
      var last := After(c, a, init);
      NoOtherIsEvaluated(last, e);
      var failed := if Evaluated(last, e) && !e.valid then 1 else 0;
      var extra := if e.PasswordReset? || (Evaluated(last, e) && e.valid) then m
                   else if e.Update? && e.isEnabled.Some? then 1 else 0;
      assert Failures(c, a, run) == Failures(c, a, init) + failed;
      assert next == allowed + extra;
      gate := BudgetLater(c, After(c, a, run), e.End(), after, Failures(c, a, run), next, to, now);
    }
  }

  lemma BudgetIsNotOverspent(c: Config, a: Account, now: int, gate: int, spent: int, allowed: int)
    requires c.lockoutMs > 0 && Budget(c, a, now, gate, spent, allowed, now)
    ensures spent <= allowed
  {
    FloorMonotone(-c.lockoutMs, now - gate, c.lockoutMs);
    FloorIs(-c.lockoutMs, c.lockoutMs, -1);
  }

  /**
    The lockout rate bound, over any run of attempts, resets and administrator changes on
    any account: the wrong passwords checked within a span T are at most the threshold for
    each reset and one to start with, one for each enabling or disabling, and one for each
    whole lockout period in T.
  */
  lemma LockoutBoundsGuessing(c: Config, a: Account, run: seq<Event>, from: int, to: int)
    requires c.Accepted() && a.failedLoginAttempts >= 0 && Clocked(run, from, to)
    ensures Failures(c, a, run)
            <= (1 + Resets(c, a, run)) * c.maxFailedAttempts + AdminChanges(run) + (to - from) / c.lockoutMs
  {
    hide Budget, Failures, Resets, AdminChanges, After, Clocked;
    var gate := RunKeepsBudget(c, a, run, from, to, to);
    BudgetIsNotOverspent(c, After(c, a, run), to, gate, Failures(c, a, run),
                         (1 + Resets(c, a, run)) * c.maxFailedAttempts + AdminChanges(run) + (to - from) / c.lockoutMs);
  }

  function WrongAt(t: int): Event { Attempt(t, t, false) }

  lemma Extend(c: Config, a: Account, run: seq<Event>, e: Event)
    ensures var more := run + [e];
      && After(c, a, more) == Step(c, After(c, a, run), e)
      && Failures(c, a, more) == Failures(c, a, run) + (if Evaluated(After(c, a, run), e) && !e.valid then 1 else 0)
      && Resets(c, a, more)
         == Resets(c, a, run) + (if e.PasswordReset? || (Evaluated(After(c, a, run), e) && e.valid) then 1 else 0)
      && AdminChanges(more) == AdminChanges(run) + (if e.Update? && e.isEnabled.Some? then 1 else 0)
  {
    assert (run + [e])[..|run|] == run;
  }

  lemma ClockedExtend(run: seq<Event>, from: int, t: int, e: Event, to: int)
    requires Clocked(run, from, t) && t <= e.Start() <= e.End() <= to
    ensures Clocked(run + [e], from, to)
  {
    assert (run + [e])[..|run|] == run;
    ClockedLonger(run, from, t, e.Start());
  }

  lemma ClockedLonger(run: seq<Event>, from: int, t: int, u: int)
    requires Clocked(run, from, t) && t <= u
    ensures Clocked(run, from, u)
  {}

  /** What a run from a fresh account adds up to. */
  ghost predicate Tally(c: Config, run: seq<Event>, from: int, to: int, failures: int, resets: int,
                        changes: int, last: Account) {
    && Clocked(run, from, to)
    && Failures(c, Account(0, None), run) == failures
    && Resets(c, Account(0, None), run) == resets
    && AdminChanges(run) == changes
    && After(c, Account(0, None), run) == last
  }

  /** One more event at time `t` or later. */
  lemma Append(c: Config, run: seq<Event>, from: int, t: int, failures: int, resets: int, changes: int,
               last: Account, e: Event, to: int)
    requires Tally(c, run, from, t, failures, resets, changes, last) && t <= e.Start() <= e.End() <= to
    ensures Tally(c, run + [e], from, to,
                  failures + (if Evaluated(last, e) && !e.valid then 1 else 0),
                  resets + (if e.PasswordReset? || (Evaluated(last, e) && e.valid) then 1 else 0),
                  changes + (if e.Update? && e.isEnabled.Some? then 1 else 0),
                  Step(c, last, e))
  {
    hide Step, Evaluated;
    Extend(c, Account(0, None), run, e);
    ClockedExtend(run, from, t, e, to);
  }

  /** Wrong passwords at one instant, up to the threshold, on top of a run that ends with a fresh account. */
  lemma {:induction false} Burst(c: Config, init: seq<Event>, from: int, failures: int, resets: int, n: nat)
    returns (run: seq<Event>)
    requires c.Accepted() && n <= c.maxFailedAttempts
    requires Tally(c, init, from, from, failures, resets, 0, Account(0, None))
    ensures Tally(c, run, from, from, failures + n, resets, 0,
                  Account(n, if n == c.maxFailedAttempts then Some(from + c.lockoutMs) else None))
  {
    hide Tally;
    if n == 0 {
      run := init;
    } else {
      var before := Burst(c, init, from, failures, resets, n - 1);
      run := before + [WrongAt(from)];
      Append(c, before, from, from, failures + n - 1, resets, 0, Account(n - 1, None), WrongAt(from), from);
    }
  }

  /** A full round of wrong passwords, and another after each of `r` resets. */
  lemma {:induction false} Rounds(c: Config, from: int, r: nat) returns (run: seq<Event>)
    requires c.Accepted()
    ensures Tally(c, run, from, from, (1 + r) * c.maxFailedAttempts, r, 0,
                  Account(c.maxFailedAttempts, Some(from + c.lockoutMs)))
  {
    var m := c.maxFailedAttempts;
    if r == 0 {
      run := Burst(c, [], from, 0, 0, m);
    } else {
      hide Tally;
      var before := Rounds(c, from, r - 1);
      Append(c, before, from, from, r * m, r - 1, 0, Account(m, Some(from + c.lockoutMs)), PasswordReset(from), from);
      run := Burst(c, before + [PasswordReset(from)], from, r * m, r, m);
      Distribute(r, m);
    }
  }

  /** Then one wrong password after each of `k` enablings. */
  lemma {:induction false} Enablings(c: Config, from: int, r: nat, k: nat) returns (run: seq<Event>)
    requires c.Accepted()
    ensures Tally(c, run, from, from, (1 + r) * c.maxFailedAttempts + k, r, k,
                  Account(c.maxFailedAttempts + k, Some(from + c.lockoutMs)))
  {
    hide Tally;
    if k == 0 {
      run := Rounds(c, from, r);
    } else {
      var before := Enablings(c, from, r, k - 1);
      var f, m := (1 + r) * c.maxFailedAttempts + k - 1, c.maxFailedAttempts;
      var enable := Update(from, Some(true));
      Append(c, before, from, from, f, r, k - 1, Account(m + k - 1, Some(from + c.lockoutMs)), enable, from);
      Append(c, before + [enable], from, from, f, r, k, Account(m + k - 1, None), WrongAt(from), from);
      run := before + [enable] + [WrongAt(from)];
    }
  }

  /** One wrong password at the moment the lock ends. */
  lemma AfterTheLock(c: Config, init: seq<Event>, from: int, before: int, t: int, failures: int, r: int, k: int,
                     count: int)
    requires c.Accepted() && c.maxFailedAttempts <= count + 1 && before <= t
    requires Tally(c, init, from, before, failures, r, k, Account(count, Some(t)))
    ensures Tally(c, init + [WrongAt(t)], from, t, failures + 1, r, k, Account(count + 1, Some(t + c.lockoutMs)))
  {
    hide Tally;
    Append(c, init, from, before, failures, r, k, Account(count, Some(t)), WrongAt(t), t);
  }

  /** And then one after each of `n` lockout periods. */
  lemma {:induction false} Lapses(c: Config, from: int, r: nat, k: nat, n: nat) returns (run: seq<Event>)
    requires c.Accepted()
    ensures Tally(c, run, from, from + n * c.lockoutMs, (1 + r) * c.maxFailedAttempts + k + n, r, k,
                  Account(c.maxFailedAttempts + k + n, Some(from + n * c.lockoutMs + c.lockoutMs)))
  {
    hide Tally;
    if n == 0 {
      run := Enablings(c, from, r, k);
    } else {
      var init := Lapses(c, from, r, k, n - 1);
      var before, count := from + (n - 1) * c.lockoutMs, c.maxFailedAttempts + k + n - 1;
      var failures := (1 + r) * c.maxFailedAttempts + k + n - 1;
      Distribute(n - 1, c.lockoutMs);
      AfterTheLock(c, init, from, before, before + c.lockoutMs, failures, r, k, count);
      run := init + [WrongAt(before + c.lockoutMs)];
    }
  }

  /**
    The bound is exact: for every number of resets, of administrator changes and of lockout
    periods there is a run within just those periods that reaches it.
  */
  lemma BoundIsReached(c: Config, from: int, r: nat, k: nat, n: nat) returns (run: seq<Event>)
    requires c.Accepted()
    ensures Clocked(run, from, from + n * c.lockoutMs)
    ensures Resets(c, Account(0, None), run) == r && AdminChanges(run) == k
    ensures Failures(c, Account(0, None), run) == (1 + r) * c.maxFailedAttempts + k + n
    ensures After(c, Account(0, None), run)
            == Account(c.maxFailedAttempts + k + n, Some(from + n * c.lockoutMs + c.lockoutMs))
  {
    run := Lapses(c, from, r, k, n);
  }

  // ----- A success starts afresh

  /** The run is one of attempts alone. */
  predicate AttemptsOnly(run: seq<Event>) { forall i :: 0 <= i < |run| ==> run[i].Attempt? }

  predicate AllWrong(run: seq<Event>) { forall i :: 0 <= i < |run| ==> run[i].Attempt? && !run[i].valid }

  lemma {:induction false} FewFailuresDoNotLock(c: Config, run: seq<Event>)
    requires c.Accepted() && AttemptsOnly(run) && Failures(c, Account(0, None), run) < c.maxFailedAttempts
    ensures var after := After(c, Account(0, None), run);
      after.lockedUntil == None && 0 <= after.failedLoginAttempts <= Failures(c, Account(0, None), run)
  {
    if run != [] {
      FewFailuresDoNotLock(c, run[..|run| - 1]);
    }
  }

  lemma {:induction false} WrongOnesCountUp(c: Config, run: seq<Event>)
    requires c.Accepted() && AllWrong(run) && |run| <= c.maxFailedAttempts
    ensures Failures(c, Account(0, None), run) == |run|
    ensures After(c, Account(0, None), run)
            == Account(|run|,
                       if |run| == c.maxFailedAttempts then Some(run[|run| - 1].decidedAt + c.lockoutMs) else None)
  {
    if run != [] {
      WrongOnesCountUp(c, run[..|run| - 1]);
    }
  }

  /**
    After a checked correct password, or a password reset, the account is as good as new.
    However attempts go on, fewer wrong ones than the threshold leave it open; wrong ones in
    a row are all checked up to the threshold, and the last of these locks it.
  */
  lemma SuccessStartsAfresh(c: Config, a: Account, e: Event, run: seq<Event>)
    requires c.Accepted() && AttemptsOnly(run) && (e.PasswordReset? || (Evaluated(a, e) && e.valid))
    ensures var anew := Step(c, a, e);
      && (Failures(c, anew, run) < c.maxFailedAttempts ==> After(c, anew, run).lockedUntil == None)
      && (AllWrong(run) && |run| <= c.maxFailedAttempts ==>
            && Failures(c, anew, run) == |run|
            && After(c, anew, run).lockedUntil
               == if |run| == c.maxFailedAttempts then Some(run[|run| - 1].decidedAt + c.lockoutMs) else None)
  {
    assert Step(c, a, e) == Account(0, None);
    hide Step, After, Failures;
    if Failures(c, Account(0, None), run) < c.maxFailedAttempts {
      FewFailuresDoNotLock(c, run);
    }
    if AllWrong(run) && |run| <= c.maxFailedAttempts {
      WrongOnesCountUp(c, run);
    }
  }

  /** A wrong password counts one, and a locked account's attempt counts nothing. */
  lemma AttemptCounts(c: Config, a: Account, e: Event)
    requires e.Attempt?
    ensures !Evaluated(a, e) ==> Step(c, a, e) == a
    ensures Evaluated(a, e) && !e.valid ==> Step(c, a, e).failedLoginAttempts == a.failedLoginAttempts + 1
    ensures Evaluated(a, e) && !e.valid && a.failedLoginAttempts + 1 < c.maxFailedAttempts ==>
      Step(c, a, e).lockedUntil == a.lockedUntil
  {}

  /** A disabled account checks no password for a hundred years unless it is enabled or its password reset. */
  lemma {:induction false} DisabledChecksNothing(c: Config, a: Account, at: int, run: seq<Event>, to: int)
    requires Clocked(run, at, to) && to < at + DISABLE_MS
    requires forall i :: 0 <= i < |run| ==> run[i].Attempt? || (run[i].Update? && run[i].isEnabled.None?)
    ensures var d := Step(c, a, Update(at, Some(false)));
            After(c, d, run) == d && Failures(c, d, run) == 0 && Resets(c, d, run) == 0
    ensures var d := Step(c, a, Update(at, Some(false)));
            forall u, v, valid :: Evaluated(d, Attempt(u, v, valid)) <==> at + 36_500 * 86_400_000 <= u
  {
    if run != [] {
      DisabledChecksNothing(c, a, at, run[..|run| - 1], run[|run| - 1].Start());
      StartsBeforeEnd(run, at, to);
    }
  }

  lemma StartsBeforeEnd(run: seq<Event>, from: int, to: int)
    requires run != [] && Clocked(run, from, to)
    ensures run[|run| - 1].Start() <= to
  {}

  // ----- The service on its account store

  datatype Verdict = UnknownAccount | LockedOut(until: int) | Rejected | Accepted(id: string)

  class AuthService {
    const config: Config
    const idByEmail: map<string, string>
    var accounts: map<string, Account>

    constructor (config: Config, idByEmail: map<string, string>, accounts: map<string, Account>)
      ensures this.config == config && this.idByEmail == idByEmail && this.accounts == accounts
    {
      this.config, this.idByEmail, this.accounts := config, idByEmail, accounts;
    }

    /** One credential check; `valid` is what comparing the password with the stored hash gives. */
    method ValidateLocalCredentials(email: string, valid: bool, checkedAt: int, decidedAt: int)
      returns (verdict: Verdict)
      modifies this`accounts
      ensures if email !in idByEmail || idByEmail[email] !in old(accounts)
        then verdict == UnknownAccount && accounts == old(accounts)
        else
          var id := idByEmail[email];
          var e := Attempt(checkedAt, decidedAt, valid);
          && accounts == old(accounts)[id := Step(config, old(accounts)[id], e)]
          && (verdict.LockedOut? <==> !Evaluated(old(accounts)[id], e))
          && (verdict.LockedOut? ==> old(accounts)[id].lockedUntil == Some(verdict.until))
          && (verdict == Accepted(id) <==> Evaluated(old(accounts)[id], e) && valid)
          && (verdict == Rejected <==> Evaluated(old(accounts)[id], e) && !valid)
    {
      if email !in idByEmail || idByEmail[email] !in accounts {
        return UnknownAccount;
      }
      var id := idByEmail[email];
      var account := accounts[id];
      if account.lockedUntil.Some? && account.lockedUntil.value > checkedAt {
        return LockedOut(account.lockedUntil.value);
      }
      if !valid {
        var newFailCount := account.failedLoginAttempts + 1;
        var lockedUntil :=
          if newFailCount >= config.maxFailedAttempts then Some(decidedAt + config.lockoutMs) else account.lockedUntil;
        accounts := accounts[id := Account(newFailCount, lockedUntil)];
        return Rejected;
      }
      accounts := accounts[id := Account(0, None)];
      verdict := Accepted(id);
    }

    /** The lock side of an account update; an unknown account is the store's error. */
    method UpdateAccount(id: string, isEnabled: Option<bool>, now: int) returns (r: Result<(), ()>)
      modifies this`accounts
      ensures r.Ok? <==> id in old(accounts)
      ensures accounts == if id in old(accounts)
                          then old(accounts)[id := Step(config, old(accounts)[id], Update(now, isEnabled))]
                          else old(accounts)
    {
      if id !in accounts {
        return Err(());
      }
      var lockedUntil := accounts[id].lockedUntil;
      if isEnabled == Some(false) {
        lockedUntil := Some(now + 100 * 365 * 24 * 60 * 60 * 1000);
      } else if isEnabled == Some(true) {
        lockedUntil := None;
      }
      accounts := accounts[id := accounts[id].(lockedUntil := lockedUntil)];
      r := Ok(());
    }
  }
}
