/** When two autopilot runs can be under way at once. A lease excludes other leases, but nothing stops a
    worker that is still running when its lease has expired. */
module AutopilotOverlap {
  import opened Wrappers
  import opened Autopilot
  import opened AutopilotRuns

  /** No two runs are started under one token. */
  ghost predicate OneStartPerToken(es: seq<Event>) {
    forall i, j :: 0 <= i < j < |es| && es[i].action.DoStart? && es[j].action.DoStart?
      ==> es[i].action.owner != es[j].action.owner
  }

  predicate RunsUnder(on: bool, es: seq<Event>, n: nat, w: Worker, token: string)
    requires n <= |es|
  {
    PhaseOf(After(on, es, n), w).Running? && PhaseOf(After(on, es, n), w).owner == token
  }

  /** A running worker passed its ownership check while its token was the stored one. */
  lemma {:induction false} RunPassedItsCheck(on: bool, es: seq<Event>, n: nat, w: Worker, token: string) returns (c: nat)
    requires IsRun(on, es) && n <= |es| && RunsUnder(on, es, n, w, token)
    ensures c < n && es[c].action == DoCheck(w) && OwnsLease(After(on, es, c).row, token, es[c].now)
  {
    var before := After(on, es, n - 1);
    if RunsUnder(on, es, n - 1, w, token) {
      c := RunPassedItsCheck(on, es, n - 1, w, token);
    } else {
      assert EnabledAt(on, es, n - 1);
      OnlyChecksStartRuns(before, es[n - 1], w);
      c := n - 1;
    }
  }

  lemma OnlyChecksStartRuns(s: System, e: Event, w: Worker)
    requires Enabled(s, e.action) && PhaseOf(Step(s, e), w).Running? && PhaseOf(Step(s, e), w) != PhaseOf(s, w)
    ensures PhaseOf(s, w) == Started(PhaseOf(Step(s, e), w).owner, PhaseOf(Step(s, e), w).startedAt)
    ensures e.action == DoCheck(w) && OwnsLease(s.row, PhaseOf(Step(s, e), w).owner, e.now)
  {
    hide AcquireGuard, LeaseFree, SkipReason, StaysDirty;
  }

  /** The acquire whose lease a running worker held when it was checked. */
  lemma RunHasItsLease(on: bool, es: seq<Event>, n: nat, w: Worker, token: string) returns (a: nat)
    requires IsRun(on, es) && n <= |es| && RunsUnder(on, es, n, w, token)
    ensures a < n && Acquires(After(on, es, a), es[a]) && OwnerOf(es[a].action) == token
  {
    hide After;
    var c := RunPassedItsCheck(on, es, n, w, token);
    HolderIsStored(on, es, c);
    a := Holder(on, es, c).value;
  }

  /** The token holds the lease that event `a` acquired, and it is at most ten minutes old at this time. */
  ghost predicate HoldsInTime(on: bool, es: seq<Event>, c: nat, token: string, now: Time)
    requires c <= |es|
  {
    match Holder(on, es, c)
    case None => false
    case Some(a) => a < |es| && OwnerOf(es[a].action) == token && now <= es[a].now + 600_000
  }

  lemma OwnsIffHoldsInTime(on: bool, es: seq<Event>, c: nat, token: string, now: Time)
    requires c <= |es|
    ensures OwnsLease(After(on, es, c).row, token, now) <==> HoldsInTime(on, es, c, token, now)
  {
    hide After;
    HolderIsStored(on, es, c);
  }

  /** MAIN: a worker runs under a token only after a check of its own that met the lease of that token, no
      more than ten minutes after it was acquired. */
  lemma RunWasCheckedInTime(on: bool, es: seq<Event>, n: nat, w: Worker, token: string) returns (c: nat)
    requires IsRun(on, es) && n <= |es| && RunsUnder(on, es, n, w, token)
    ensures c < n && es[c].action == DoCheck(w) && HoldsInTime(on, es, c, token, es[c].now)
  {
    hide After, RunsUnder;
    c := RunPassedItsCheck(on, es, n, w, token);
    OwnsIffHoldsInTime(on, es, c, token, es[c].now);
  }

  /** MAIN: and such a check is what decides: it lets the worker run exactly when the worker's token holds the
      lease and is in time, and otherwise sends it home. */
  lemma CheckDecides(on: bool, es: seq<Event>, c: nat, w: Worker)
    requires c < |es| && es[c].action == DoCheck(w) && PhaseOf(After(on, es, c), w).Started?
    ensures var p := PhaseOf(After(on, es, c), w);
      PhaseOf(After(on, es, c + 1), w)
        == if HoldsInTime(on, es, c, p.owner, es[c].now) then Running(p.owner, p.startedAt) else Idle
  {
    hide After, OwnsLease, HoldsInTime;
    OwnsIffHoldsInTime(on, es, c, PhaseOf(After(on, es, c), w).owner, es[c].now);
    AfterUnfolds(on, es, c + 1);
  }

  // ---- Exactly when an acquire succeeds ---------------------------------------------------------------------------

  /** No lease is held, or the one that is was acquired more than ten minutes ago. */
  ghost predicate LeaseOpen(on: bool, es: seq<Event>, j: nat, now: Time)
    requires j <= |es|
  {
    match Holder(on, es, j)
    case None => true
    case Some(a) => a < |es| && now > es[a].now + 600_000
  }

  /** No run has finished, or the last one did more than so many seconds ago. */
  predicate CooledDown(on: bool, es: seq<Event>, j: nat, secs: int, now: Time)
    requires j <= |es|
  {
    match Last(on, es, j, Finishes)
    case None => true
    case Some(f) => f < |es| && now > es[f].now + (if secs > 0 then secs * 1000 else 0)
  }

  lemma FreeIffOpen(on: bool, es: seq<Event>, j: nat, now: Time)
    requires j <= |es|
    ensures LeaseFree(After(on, es, j).row, now) <==> LeaseOpen(on, es, j, now)
  {
    hide After;
    HolderIsStored(on, es, j);
  }

  /** MAIN: in every run a scheduled acquire succeeds exactly when the schedule is on, some mark is
      outstanding, no lease is in time, and the last finish is longer ago than the cooldown. */
  lemma AcquiresIff(on: bool, es: seq<Event>, j: nat)
    requires IsRun(on, es) && j < |es| && es[j].action.DoAcquire?
    ensures AcquiresScheduled(After(on, es, j), es[j]) <==>
      && on && (exists i: nat :: Outstanding(on, es, i, j))
      && LeaseOpen(on, es, j, es[j].now) && CooledDown(on, es, j, es[j].action.cooldownSecs, es[j].now)
  {
    hide After, LeaseOpen, LeaseFree, Outstanding, IsRun;
    FreeIffOpen(on, es, j, es[j].now);
    DirtyIffOutstanding(on, es, j);
    ColumnsRememberLatest(on, es, j);
  }

  /** A manual one needs nothing but the lease. */
  lemma AcquiresManuallyIff(on: bool, es: seq<Event>, j: nat)
    requires j < |es| && es[j].action.DoManual?
    ensures AcquiresManual(After(on, es, j), es[j]) <==> LeaseOpen(on, es, j, es[j].now)
  {
    hide After, LeaseOpen, LeaseFree;
    FreeIffOpen(on, es, j, es[j].now);
  }

  /** A skip record says which of these is missing at its instant, the first in this order, and `unknown` when
      none is. */
  lemma SkipSaysWhy(on: bool, es: seq<Event>, k: nat)
    requires IsRun(on, es) && k < |es| && Skips(After(on, es, k), es[k])
    ensures var secs := PhaseOf(After(on, es, k), es[k].action.worker).cooldownSecs;
      After(on, es, k + 1).row.lastSkipReason == Some(
        if !on then "disabled"
        else if !exists i: nat :: Outstanding(on, es, i, k) then "not_dirty"
        else if !LeaseOpen(on, es, k, es[k].now) then "lease_held"
        else if !CooledDown(on, es, k, secs, es[k].now) then "cooldown"
        else "unknown")
  {
    hide After, LeaseOpen, Outstanding, IsRun;
    AfterUnfolds(on, es, k + 1);
    FreeIffOpen(on, es, k, es[k].now);
    DirtyIffOutstanding(on, es, k);
    ColumnsRememberLatest(on, es, k);
    LeaseColumnsAgreeAlways(on, es, k);
  }

  /** A worker that was idle and runs later was started in between. */
  lemma {:induction false} RunStartedSince(on: bool, es: seq<Event>, m: nat, n: nat, w: Worker) returns (i: nat)
    requires IsRun(on, es) && m <= n <= |es|
    requires PhaseOf(After(on, es, m), w).Idle?
    requires PhaseOf(After(on, es, n), w).Started? || PhaseOf(After(on, es, n), w).Running?
    ensures m <= i < n && es[i].action == DoStart(w, PhaseOf(After(on, es, n), w).owner)
  {
    var now := PhaseOf(After(on, es, n), w);
    if es[n - 1].action == DoStart(w, now.owner) {
      i := n - 1;
    } else {
      assert EnabledAt(on, es, n - 1);
      PhaseMoves(After(on, es, n - 1), es[n - 1], w);
      i := RunStartedSince(on, es, m, n - 1, w);
    }
  }

  lemma FinishIdles(s: System, e: Event)
    requires Finishes(s, e)
    ensures PhaseOf(Step(s, e), e.action.worker).Idle?
  {
  }

  /** With one start per token, the run that holds a token has not finished under it before. */
  lemma NotFinishedBefore(on: bool, es: seq<Event>, n: nat, w: Worker, token: string, k: nat)
    requires IsRun(on, es) && OneStartPerToken(es) && k < n <= |es| && RunsUnder(on, es, n, w, token)
    ensures !(Finishes(After(on, es, k), es[k]) && After(on, es, k).row.leaseOwner == Some(token))
  {
    hide After;
    if Finishes(After(on, es, k), es[k]) && After(on, es, k).row.leaseOwner == Some(token) {
      var v := es[k].action.worker;
      var first := RunHasItsStart(on, es, k, v);
      var start := RunHasItsStart(on, es, n, w);
      assert es[first].action == DoStart(v, token) && es[start].action == DoStart(w, token);
      assert first == start && v == w;
      FinishIdles(After(on, es, k), es[k]);
      AfterUnfolds(on, es, k + 1);
      var again := RunStartedSince(on, es, k + 1, n, w);
      assert false;
    }
  }

  /** Event `k` releases the lease that event `a` acquired. */
  ghost predicate ReleasesLeaseOf(on: bool, es: seq<Event>, a: nat, k: nat)
    requires k < |es|
  {
    Holder(on, es, k) == Some(a) && Releases(After(on, es, k), es[k])
  }

  /** MAIN: whenever two workers run under different tokens at once, the later lease was acquired only
      after the earlier one was past its ten minutes, or had been released under its own token. */
  lemma RunsOverlapOnlyAfterExpiry(on: bool, es: seq<Event>, n: nat, w: Worker, token: string, v: Worker, other: string)
    returns (a: nat, b: nat)
    requires IsRun(on, es) && OneStartPerToken(es) && n <= |es| && token != other
    requires RunsUnder(on, es, n, w, token) && RunsUnder(on, es, n, v, other)
    ensures a < n && Acquires(After(on, es, a), es[a]) && OwnerOf(es[a].action) == token
    ensures b < n && Acquires(After(on, es, b), es[b]) && OwnerOf(es[b].action) == other
    ensures a < b ==> es[b].now > es[a].now + LEASE_MS || exists k :: a < k < b && ReleasesLeaseOf(on, es, a, k)
    ensures b < a ==> es[a].now > es[b].now + LEASE_MS || exists k :: b < k < a && ReleasesLeaseOf(on, es, b, k)
    ensures a != b
  {
    hide After, RunsUnder;
    a := RunHasItsLease(on, es, n, w, token);
    b := RunHasItsLease(on, es, n, v, other);
    if a < b {
      EarlierLeaseIsOver(on, es, n, w, token, a, b);
    } else if b < a {
      EarlierLeaseIsOver(on, es, n, v, other, b, a);
    }
  }

  lemma EarlierLeaseIsOver(on: bool, es: seq<Event>, n: nat, w: Worker, token: string, a: nat, b: nat)
    requires IsRun(on, es) && OneStartPerToken(es) && a < b < n <= |es| && RunsUnder(on, es, n, w, token)
    requires Acquires(After(on, es, a), es[a]) && OwnerOf(es[a].action) == token && Acquires(After(on, es, b), es[b])
    ensures es[b].now > es[a].now + LEASE_MS || exists k :: a < k < b && ReleasesLeaseOf(on, es, a, k)
  {
    hide After, RunsUnder, Acquires;
    LeaseExclusion(on, es, a, b);
    if !(es[b].now > es[a].now + LEASE_MS) {
      var k :| a < k < b && EndsLeaseOf(on, es, a, k);
      HolderIsStored(on, es, k);
      NotFinishedBefore(on, es, n, w, token, k);
      assert ReleasesLeaseOf(on, es, a, k);
    }
  }

  // ---- It does happen -----------------------------------------------------------------------------------------------

  /** A run that outlives its lease, and a second one that is started meanwhile. */
  function LongRun(): seq<Event> {
    [Event(0, DoMark("edit")), Event(0, DoAcquire(0, "a", "edit", 0)), Event(1, DoStart(0, "a")), Event(1, DoCheck(0)),
     Event(LEASE_MS + 1, DoAcquire(1, "b", "edit", 0)), Event(LEASE_MS + 1, DoStart(1, "b")), Event(LEASE_MS + 1, DoCheck(1))]
  }

  /** The system after the first acquire, after the first check, and after the second acquire. */
  lemma LongRunStates()
    ensures var es := LongRun();
      && (forall k :: 0 <= k < 7 ==> Enabled(After(true, es, k), es[k].action))
      && PhaseOf(After(true, es, 7), 0) == Running("a", 1)
      && PhaseOf(After(true, es, 7), 1) == Running("b", LEASE_MS + 1)
  {
    hide After;
    var es := LongRun();
    var s0 := System(InitialRow(true), map[]);
    var s1 := Step(s0, es[0]);
    var s2 := Step(s1, es[1]);
    var s3, s4 := Step(s2, es[2]), Step(Step(s2, es[2]), es[3]);
    var s5 := Step(s4, es[4]);
    var s6, s7 := Step(s5, es[5]), Step(Step(s5, es[5]), es[6]);
    AfterUnfolds(true, es, 0);
    AfterUnfolds(true, es, 1);
    AfterUnfolds(true, es, 2);
    AfterUnfolds(true, es, 3);
    AfterUnfolds(true, es, 4);
    AfterUnfolds(true, es, 5);
    AfterUnfolds(true, es, 6);
    AfterUnfolds(true, es, 7);
    assert s2.row.leaseOwner == Some("a") && s2.row.leaseExpiresAt == Some(LEASE_MS) && s2.phases == map[];
    assert s4.phases == map[0 := Running("a", 1)] && s4.row == s2.row;
    assert s5.row.leaseOwner == Some("b") && s5.row.leaseExpiresAt == Some(LEASE_MS + 1 + LEASE_MS) && s5.phases == s4.phases;
    assert s7.phases == map[0 := Running("a", 1), 1 := Running("b", LEASE_MS + 1)];
  }

  lemma TwoRunsAtOnce()
    ensures var es := LongRun();
      IsRun(true, es) && OneStartPerToken(es) && RunsUnder(true, es, 7, 0, "a") && RunsUnder(true, es, 7, 1, "b")
  {
    hide After, Step;
    LongRunStates();
    assert "a"[0] != "b"[0];
  }
}
