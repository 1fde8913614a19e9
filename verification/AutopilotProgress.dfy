/** Nothing an autopilot run has done can keep the flag from being cleared later. */
module AutopilotProgress {
  import opened Wrappers
  import opened Autopilot
  import opened AutopilotRuns

  lemma {:induction false} SamePrefix(on: bool, es: seq<Event>, more: seq<Event>, n: nat)
    requires n <= |es|
    ensures After(on, es + more, n) == After(on, es, n)
  {
    if n > 0 {
      SamePrefix(on, es, more, n - 1);
    }
  }

  /** The row knows no time later than the clock, and no lease that runs for more than ten minutes from it. */
  predicate UpTo(r: Row, now: Time) {
    && (r.lastRunAt.Some? ==> r.lastRunAt.value <= now)
    && (r.leaseExpiresAt.Some? ==> r.leaseExpiresAt.value <= now + 600_000)
    && LeaseColumnsAgree(r)
  }

  lemma {:induction false} RowIsUpTo(on: bool, es: seq<Event>, n: nat, now: Time)
    requires n <= |es| && forall k :: 0 <= k < n ==> es[k].now <= now
    ensures UpTo(After(on, es, n).row, now) && After(on, es, n).row.enabled == on
  {
    if n > 0 {
      RowIsUpTo(on, es, n - 1, now);
      StepIsUpTo(After(on, es, n - 1), es[n - 1], now);
    }
  }

  lemma StepIsUpTo(s: System, e: Event, now: Time)
    requires UpTo(s.row, now) && e.now <= now
    ensures UpTo(Step(s, e).row, now) && Step(s, e).row.enabled == s.row.enabled
  {
    hide AcquireGuard, LeaseFree, OwnsLease, StaysDirty, CountRun, SkipReason, Acquire, AcquireManual, FinishRun, UpTo;
    match e.action
    case DoMark(_) => QuietIsUpTo(s.row, Step(s, e).row, now);
    case DoAcquire(_, owner, reason, secs) => AcquireIsUpTo(s.row, owner, reason, secs, e.now, now);
    case DoSkip(_) => QuietIsUpTo(s.row, Step(s, e).row, now);
    case DoManual(owner) => AcquireIsUpTo(s.row, owner, "", 0, e.now, now);
    case DoNote(_) => QuietIsUpTo(s.row, Step(s, e).row, now);
    case DoRelease(_, _) => QuietIsUpTo(s.row, Step(s, e).row, now);
    case DoStart(_, _) =>
    case DoCheck(_) =>
    case DoFinish(w, productive, result) =>
      var p := PhaseOf(s, w);
      if p.Running? {
        FinishIsUpTo(s.row, p.owner, p.startedAt, productive, result, e.now, now);
      }
  }

  lemma QuietIsUpTo(r: Row, q: Row, now: Time)
    requires UpTo(r, now) && q.lastRunAt == r.lastRunAt
    requires (q.leaseOwner == r.leaseOwner && q.leaseExpiresAt == r.leaseExpiresAt) || (q.leaseOwner == None && q.leaseExpiresAt == None)
    ensures UpTo(q, now)
  {
  }

  lemma AcquireIsUpTo(r: Row, owner: string, reason: string, secs: int, t: Time, now: Time)
    requires UpTo(r, now) && t <= now
    ensures UpTo(Acquire(r, owner, reason, secs, t), now) && Acquire(r, owner, reason, secs, t).enabled == r.enabled
    ensures UpTo(AcquireManual(r, owner, t), now) && AcquireManual(r, owner, t).enabled == r.enabled
  {
    hide AcquireGuard, LeaseFree;
  }

  lemma FinishIsUpTo(r: Row, owner: string, startedAt: Time, productive: bool, result: string, t: Time, now: Time)
    requires UpTo(r, now) && t <= now
    ensures UpTo(FinishRun(r, owner, startedAt, productive, result, t), now)
    ensures FinishRun(r, owner, startedAt, productive, result, t).enabled == r.enabled
  {
    hide StaysDirty, CountRun;
  }

  /** A worker marks, acquires, starts, is checked and finishes. */
  function Cycle(w: Worker, token: string, reason: string, secs: int, result: string, t: Time): seq<Event> {
    [Event(t, DoMark(reason)), Event(t, DoAcquire(w, token, reason, secs)), Event(t + 1, DoStart(w, token)),
     Event(t + 1, DoCheck(w)), Event(t + 1, DoFinish(w, true, result))]
  }

  /** The states a cycle goes through from a state in which no lease is in time and the cooldown is over. */
  lemma CycleSteps(s: System, w: Worker, token: string, reason: string, secs: int, result: string, t: Time)
    requires PhaseOf(s, w).Idle? && s.row.enabled && LeaseFree(s.row, t)
    requires s.row.lastRunAt.None? || s.row.lastRunAt.value < t - CooldownMs(secs)
    ensures var es := Cycle(w, token, reason, secs, result, t);
      var s1 := Step(s, es[0]); var s2 := Step(s1, es[1]); var s3 := Step(s2, es[2]); var s4 := Step(s3, es[3]);
      var s5 := Step(s4, es[4]);
      && Enabled(s, es[0].action) && Enabled(s1, es[1].action) && Enabled(s2, es[2].action)
      && Enabled(s3, es[3].action) && Enabled(s4, es[4].action)
      && !s5.row.dirty && s5.row.leaseOwner.None? && s5.row.lastRunAt == Some(t + 1) && s5.row.lastResult == result
      && s5.row.counts.productiveRun == s.row.counts.productiveRun + 1
      && PhaseOf(s5, w).Idle?
  {
  }

  /** MAIN: from the end of every run with the schedule on, once the latest lease and the cooldown are over,
      any idle worker can mark, acquire, pass its check and finish, and the flag is then clear, the lease free
      and the result stored, whatever the other workers left unfinished. */
  lemma CycleCompletes(es: seq<Event>, w: Worker, token: string, reason: string, secs: int, result: string, t: Time)
    requires IsRun(true, es) && PhaseOf(After(true, es, |es|), w).Idle?
    requires forall k :: 0 <= k < |es| ==> t > es[k].now + 600_000 && t > es[k].now + secs * 1000
    ensures var all := es + Cycle(w, token, reason, secs, result, t); var r := After(true, all, |all|).row;
      && IsRun(true, all)
      && !r.dirty && r.leaseOwner.None? && r.lastRunAt == Some(t + 1) && r.lastResult == result
      && r.counts.productiveRun == After(true, es, |es|).row.counts.productiveRun + 1
  {
    hide Step, After;
    var n, cycle := |es|, Cycle(w, token, reason, secs, result, t);
    var all := es + cycle;
    FreeByThen(es, secs, t);
    CycleSteps(After(true, es, n), w, token, reason, secs, result, t);
    SamePrefix(true, es, cycle, n);
    AfterUnfolds(true, all, n + 1);
    AfterUnfolds(true, all, n + 2);
    AfterUnfolds(true, all, n + 3);
    AfterUnfolds(true, all, n + 4);
    AfterUnfolds(true, all, n + 5);
    assert all[n..] == cycle;
    forall k: nat | k < |all|
      ensures EnabledAt(true, all, k)
    {
      if k < n {
        SamePrefix(true, es, cycle, k);
        assert EnabledAt(true, es, k) && all[k] == es[k];
      } else {
        assert k == n || k == n + 1 || k == n + 2 || k == n + 3 || k == n + 4;
      }
    }
    forall i: nat, j: nat | i <= j < |all|
      ensures InOrder(all, i, j)
    {
      if j < n {
        assert InOrder(es, i, j);
      }
    }
  }

  lemma FreeByThen(es: seq<Event>, secs: int, t: Time)
    requires forall k :: 0 <= k < |es| ==> t > es[k].now + 600_000 && t > es[k].now + secs * 1000
    ensures var r := After(true, es, |es|).row;
      && r.enabled && LeaseFree(r, t) && (r.lastRunAt.None? || r.lastRunAt.value < t - CooldownMs(secs))
  {
    hide After;
    var m := if secs * 1000 > 600_000 then secs * 1000 else 600_000;
    RowIsUpTo(true, es, |es|, t - m - 1);
  }
}
