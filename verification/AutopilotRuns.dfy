/** Whole runs of the autopilot protocol: any number of workers, each SQL statement one atomic
    step, arbitrary interleaving, and a clock that never goes back.

    A run is a sequence of events; `After(on, es, n)` is the system after its first `n` events.
    The event sequence itself is the history the theorems speak about. */
module AutopilotRuns {
  import opened Wrappers
  import opened Autopilot

  type Worker = nat

  /** Where a worker stands between two of its statements. */
  datatype Phase =
    | Idle
    | Skipping(reason: string, cooldownSecs: int)   // the guarded acquire failed, the skip is not yet recorded
    | Started(owner: string, startedAt: Time)       // `started_at` read, ownership not yet checked
    | Running(owner: string, startedAt: Time)       // ownership check passed

  datatype Action =
    | DoMark(reason: string)
    | DoAcquire(worker: Worker, owner: string, reason: string, cooldownSecs: int)
    | DoSkip(worker: Worker)
    | DoManual(owner: string)
    | DoNote(owner: string)
    | DoRelease(owner: string, reason: string)
    | DoStart(worker: Worker, owner: string)
    | DoCheck(worker: Worker)
    | DoFinish(worker: Worker, productive: bool, result: string)

  datatype Event = Event(now: Time, action: Action)

  datatype System = System(row: Row, phases: map<Worker, Phase>)

  function PhaseOf(s: System, w: Worker): Phase {
    if w in s.phases then s.phases[w] else Idle
  }

  /** A worker issues a statement only where its own program text has it. */
  predicate Enabled(s: System, a: Action) {
    match a
    case DoAcquire(w, _, _, _) => PhaseOf(s, w).Idle?
    case DoSkip(w) => PhaseOf(s, w).Skipping?
    case DoStart(w, _) => PhaseOf(s, w).Idle?
    case DoCheck(w) => PhaseOf(s, w).Started?
    case DoFinish(w, _, _) => PhaseOf(s, w).Running?
    case _ => true
  }

  function Step(s: System, e: Event): System {
    match e.action
    case DoMark(reason) => s.(row := MarkDirty(s.row, reason, e.now))
    case DoAcquire(w, owner, reason, c) =>
      System(Acquire(s.row, owner, reason, c, e.now),
             if AcquireGuard(s.row, c, e.now) then s.phases else s.phases[w := Skipping(reason, c)])
    case DoSkip(w) =>
      var p := PhaseOf(s, w);
      if p.Skipping? then System(RecordSkip(s.row, p.reason, p.cooldownSecs, e.now), s.phases[w := Idle]) else s
    case DoManual(owner) => s.(row := AcquireManual(s.row, owner, e.now))
    case DoNote(owner) => s.(row := NoteSpawnSuccess(s.row, owner))
    case DoRelease(owner, reason) => s.(row := Release(s.row, owner, reason))
    case DoStart(w, owner) => s.(phases := s.phases[w := Started(owner, e.now)])
    case DoCheck(w) =>
      var p := PhaseOf(s, w);
      if p.Started? then
        s.(phases := s.phases[w := if OwnsLease(s.row, p.owner, e.now) then Running(p.owner, p.startedAt) else Idle])
      else s
    case DoFinish(w, productive, result) =>
      var p := PhaseOf(s, w);
      if p.Running? then
        System(FinishRun(s.row, p.owner, p.startedAt, productive, result, e.now), s.phases[w := Idle])
      else s
  }

  function After(on: bool, es: seq<Event>, n: nat): System
    requires n <= |es|
  {
    if n == 0 then System(InitialRow(on), map[]) else Step(After(on, es, n - 1), es[n - 1])
  }

  predicate EnabledAt(on: bool, es: seq<Event>, k: nat)
    requires k < |es|
  {
    Enabled(After(on, es, k), es[k].action)
  }

  predicate InOrder(es: seq<Event>, i: nat, j: nat)
    requires i <= j < |es|
  {
    es[i].now <= es[j].now
  }

  /** Every event is enabled when it happens and the clock never goes back. */
  ghost predicate IsRun(on: bool, es: seq<Event>) {
    && (forall k: nat {:trigger EnabledAt(on, es, k)} :: k < |es| ==> EnabledAt(on, es, k))
    && (forall i: nat, j: nat {:trigger InOrder(es, i, j)} :: i <= j < |es| ==> InOrder(es, i, j))
  }

  // ---- What an event achieves in the state it meets --------------------------------------------

  predicate Marks(s: System, e: Event) { e.action.DoMark? }

  predicate AcquiresScheduled(s: System, e: Event) {
    e.action.DoAcquire? && AcquireGuard(s.row, e.action.cooldownSecs, e.now)
  }

  predicate AcquiresManual(s: System, e: Event) { e.action.DoManual? && LeaseFree(s.row, e.now) }

  predicate Acquires(s: System, e: Event) { AcquiresScheduled(s, e) || AcquiresManual(s, e) }

  predicate Skips(s: System, e: Event) { e.action.DoSkip? && PhaseOf(s, e.action.worker).Skipping? }

  predicate Releases(s: System, e: Event) {
    e.action.DoRelease? && s.row.leaseOwner == Some(e.action.owner)
  }

  /** A spawn note takes effect only while its owner token is the stored one. */
  predicate Notes(s: System, e: Event) { e.action.DoNote? && s.row.leaseOwner == Some(e.action.owner) }

  /** A finish takes effect only while its owner token is the stored one. */
  predicate Finishes(s: System, e: Event) {
    && e.action.DoFinish?
    && PhaseOf(s, e.action.worker).Running?
    && s.row.leaseOwner == Some(PhaseOf(s, e.action.worker).owner)
  }

  predicate FinishesProductively(s: System, e: Event) { Finishes(s, e) && e.action.productive }

  predicate Ends(s: System, e: Event) { Finishes(s, e) || Releases(s, e) }

  /** An acquire that replaces a lease still stored in the row. */
  predicate TakesOver(s: System, e: Event) { Acquires(s, e) && s.row.leaseOwner.Some? }

  /** How many of the first `n` events satisfy `p` in the state each of them meets. */
  function Count(on: bool, es: seq<Event>, n: nat, p: (System, Event) -> bool): nat
    requires n <= |es|
  {
    if n == 0 then 0
    else Count(on, es, n - 1, p) + (if p(After(on, es, n - 1), es[n - 1]) then 1 else 0)
  }

  // ---- Conservation ----------------------------------------------------------------------------

  /** Owner and expiry are set and cleared together. */
  predicate LeaseColumnsAgree(r: Row) { r.leaseOwner.Some? <==> r.leaseExpiresAt.Some? }

  lemma {:induction false} LeaseColumnsAgreeAlways(on: bool, es: seq<Event>, n: nat)
    requires n <= |es|
    ensures LeaseColumnsAgree(After(on, es, n).row)
  {
    if n > 0 {
      LeaseColumnsAgreeAlways(on, es, n - 1);
      StepLease(After(on, es, n - 1), es[n - 1]);
    }
  }

  function One(b: bool): nat { if b then 1 else 0 }

  /** What one step adds to each counter column. */
  lemma StepCounts(s: System, e: Event)
    ensures var c, d := s.row.counts, Step(s, e).row.counts;
      && d.dirtyMark == c.dirtyMark + One(Marks(s, e))
      && d.skip == c.skip + One(Skips(s, e))
      && d.spawnSuccess == c.spawnSuccess + One(Notes(s, e))
  {
  }

  lemma StepRuns(s: System, e: Event)
    ensures var c, d := s.row.counts, Step(s, e).row.counts;
      && d.run == c.run + One(Finishes(s, e))
      && d.productiveRun == c.productiveRun + One(FinishesProductively(s, e))
  {
  }

  lemma StepTriggers(s: System, e: Event)
    ensures var c, d := s.row.counts, Step(s, e).row.counts;
      && d.spawnAttempt == c.spawnAttempt + One(Skips(s, e)) + One(AcquiresScheduled(s, e))
      && d.trigger == c.trigger + One(Marks(s, e)) + One(Skips(s, e)) + One(AcquiresScheduled(s, e))
                      + One(AcquiresManual(s, e))
  {
  }

  /** What one step does to the lease columns. */
  lemma StepLease(s: System, e: Event)
    ensures var r, q := s.row, Step(s, e).row;
      && (Acquires(s, e) ==> q.leaseOwner == Some(OwnerOf(e.action)) && q.leaseExpiresAt == Some(e.now + LEASE_MS))
      && (Ends(s, e) ==> r.leaseOwner.Some? && q.leaseOwner.None? && q.leaseExpiresAt.None?)
      && (!Acquires(s, e) && !Ends(s, e) ==> q.leaseOwner == r.leaseOwner && q.leaseExpiresAt == r.leaseExpiresAt)
      && !(Acquires(s, e) && Ends(s, e)) && !(Finishes(s, e) && Releases(s, e))
  {
  }

  /** Every counter column is the number of events of its kind. */
  lemma {:induction false} CountersMatchHistory(on: bool, es: seq<Event>, n: nat)
    requires n <= |es|
    ensures var c := After(on, es, n).row.counts;
      && c.dirtyMark == Count(on, es, n, Marks)
      && c.skip == Count(on, es, n, Skips)
      && c.spawnSuccess == Count(on, es, n, Notes)
      && c.run == Count(on, es, n, Finishes)
      && c.productiveRun == Count(on, es, n, FinishesProductively)
      && c.spawnAttempt == Count(on, es, n, Skips) + Count(on, es, n, AcquiresScheduled)
      && c.trigger == Count(on, es, n, Marks) + c.spawnAttempt + Count(on, es, n, AcquiresManual)
  {
    if n > 0 {
      CountersMatchHistory(on, es, n - 1);
      StepCounts(After(on, es, n - 1), es[n - 1]);
      StepRuns(After(on, es, n - 1), es[n - 1]);
      StepTriggers(After(on, es, n - 1), es[n - 1]);
    }
  }

  /** Leases are conserved: each one acquired was finished, released, taken over after expiry, or
      is the one stored now. */
  lemma {:induction false} LeasesConserved(on: bool, es: seq<Event>, n: nat)
    requires n <= |es|
    ensures Count(on, es, n, Acquires)
         == Count(on, es, n, Finishes) + Count(on, es, n, Releases) + Count(on, es, n, TakesOver)
            + (if After(on, es, n).row.leaseOwner.Some? then 1 else 0)
  {
    if n > 0 {
      LeasesConserved(on, es, n - 1);
      StepLease(After(on, es, n - 1), es[n - 1]);
    }
  }

  /** The counter laws as a reader of the row sees them. */
  lemma CountersConserved(on: bool, es: seq<Event>, n: nat)
    requires n <= |es|
    ensures var r := After(on, es, n).row; var c := r.counts;
      && c.trigger == c.dirtyMark + c.spawnAttempt + Count(on, es, n, AcquiresManual)
      && c.spawnAttempt == c.skip + Count(on, es, n, AcquiresScheduled)
      && Count(on, es, n, AcquiresScheduled) + Count(on, es, n, AcquiresManual)
         == c.run + Count(on, es, n, Releases) + Count(on, es, n, TakesOver)
            + (if r.leaseOwner.Some? then 1 else 0)
      && c.productiveRun <= c.run
  {
    CountersMatchHistory(on, es, n);
    LeasesConserved(on, es, n);
    AcquiresSplit(on, es, n);
    ProductiveRunsAreRuns(on, es, n);
  }

  lemma {:induction false} AcquiresSplit(on: bool, es: seq<Event>, n: nat)
    requires n <= |es|
    ensures Count(on, es, n, Acquires)
         == Count(on, es, n, AcquiresScheduled) + Count(on, es, n, AcquiresManual)
  {
    if n > 0 {
      AcquiresSplit(on, es, n - 1);
    }
  }

  lemma {:induction false} ProductiveRunsAreRuns(on: bool, es: seq<Event>, n: nat)
    requires n <= |es|
    ensures Count(on, es, n, FinishesProductively) <= Count(on, es, n, Finishes)
  {
    if n > 0 {
      ProductiveRunsAreRuns(on, es, n - 1);
    }
  }

  // ---- Provenance: what a worker's phase says about its own past -------------------------------

  /** Event `i` is the failed acquire whose skip worker `w` still owes. */
  ghost predicate IsFailedAcquire(on: bool, es: seq<Event>, i: nat, w: Worker, p: Phase)
    requires i < |es|
  {
    && p.Skipping?
    && es[i].action.DoAcquire?
    && es[i].action.worker == w
    && es[i].action.reason == p.reason
    && es[i].action.cooldownSecs == p.cooldownSecs
    && !AcquireGuard(After(on, es, i).row, p.cooldownSecs, es[i].now)
  }

  /** Event `i` is where worker `w` read the `started_at` it now carries. */
  predicate IsStartOf(es: seq<Event>, i: nat, w: Worker, p: Phase)
    requires i < |es|
  {
    && (p.Started? || p.Running?)
    && es[i].action == DoStart(w, p.owner)
    && es[i].now == p.startedAt
  }

  /** A step moves at most the acting worker, along its own program. */
  lemma PhaseMoves(s: System, e: Event, w: Worker)
    requires Enabled(s, e.action)
    ensures var p, q := PhaseOf(s, w), PhaseOf(Step(s, e), w);
      || q == p
      || q.Idle?
      || (q.Skipping? && e.action.DoAcquire? && e.action.worker == w && !AcquiresScheduled(s, e)
          && q == Skipping(e.action.reason, e.action.cooldownSecs))
      || (q.Started? && e.action == DoStart(w, q.owner) && q.startedAt == e.now)
      || (p.Started? && q == Running(p.owner, p.startedAt))
  {
  }

  predicate ActsAs(a: Action, w: Worker) {
    match a
    case DoAcquire(v, _, _, _) => v == w
    case DoSkip(v) => v == w
    case DoStart(v, _) => v == w
    case DoCheck(v) => v == w
    case DoFinish(v, _, _) => v == w
    case _ => false
  }

  /** A worker that owes a skip record owes it for its latest statement, which was a failed acquire; so no
      failed acquire is recorded twice. */
  lemma {:induction false} SkipHasItsAcquire(on: bool, es: seq<Event>, n: nat, w: Worker) returns (i: nat)
    requires IsRun(on, es) && n <= |es|
    requires PhaseOf(After(on, es, n), w).Skipping?
    ensures i < n && IsFailedAcquire(on, es, i, w, PhaseOf(After(on, es, n), w))
    ensures forall j :: i < j < n ==> !ActsAs(es[j].action, w)
  {
    var before := After(on, es, n - 1);
    if !ActsAs(es[n - 1].action, w) {
      i := SkipHasItsAcquire(on, es, n - 1, w);
    } else {
      assert EnabledAt(on, es, n - 1);
      PhaseMoves(before, es[n - 1], w);
      i := n - 1;
    }
  }

  lemma {:induction false} RunHasItsStart(on: bool, es: seq<Event>, n: nat, w: Worker) returns (i: nat)
    requires IsRun(on, es) && n <= |es|
    requires PhaseOf(After(on, es, n), w).Started? || PhaseOf(After(on, es, n), w).Running?
    ensures i < n && IsStartOf(es, i, w, PhaseOf(After(on, es, n), w))
  {
    var before, now := PhaseOf(After(on, es, n - 1), w), PhaseOf(After(on, es, n), w);
    if es[n - 1].action == DoStart(w, now.owner) && es[n - 1].now == now.startedAt {
      i := n - 1;
    } else {
      assert EnabledAt(on, es, n - 1);
      PhaseMoves(After(on, es, n - 1), es[n - 1], w);
      i := RunHasItsStart(on, es, n - 1, w);
    }
  }

  // ---- No dirty mark is lost -------------------------------------------------------------------

  /** The `started_at` of the run that event `k` finishes. */
  function StartedAt(on: bool, es: seq<Event>, k: nat): Time
    requires k < |es| && Finishes(After(on, es, k), es[k])
  {
    PhaseOf(After(on, es, k), es[k].action.worker).startedAt
  }

  /** Event `k` finishes a run that started strictly after every mark made so far. */
  ghost predicate Discharges(on: bool, es: seq<Event>, k: nat)
    requires k < |es|
  {
    && Finishes(After(on, es, k), es[k])
    && forall m :: 0 <= m < k && es[m].action.DoMark? ==> es[m].now < StartedAt(on, es, k)
  }

  /** A mark among the first `n` events that no later event discharged. */
  ghost predicate Outstanding(on: bool, es: seq<Event>, i: nat, n: nat)
    requires n <= |es|
  {
    && i < n
    && es[i].action.DoMark?
    && forall k :: i < k < n ==> !Discharges(on, es, k)
  }

  lemma OnlyMarksStamp(s: System, e: Event)
    requires !e.action.DoMark?
    ensures Step(s, e).row.lastDirty == s.row.lastDirty
  {
  }

  /** `last_dirty_at` is the latest mark, if there was one. */
  lemma {:induction false} LastDirtyIsLatestMark(on: bool, es: seq<Event>, n: nat)
    requires IsRun(on, es) && n <= |es|
    ensures var t := After(on, es, n).row.lastDirty.at;
      && (forall m :: 0 <= m < n && es[m].action.DoMark? ==> t.Some? && es[m].now <= t.value)
      && (t.Some? ==> exists m :: 0 <= m < n && es[m].action.DoMark? && es[m].now == t.value)
  {
    if n > 0 {
      LastDirtyIsLatestMark(on, es, n - 1);
      var before, after := After(on, es, n - 1).row.lastDirty.at, After(on, es, n).row.lastDirty.at;
      if es[n - 1].action.DoMark? {
        assert after == Some(es[n - 1].now);
        forall m: nat | m < n && es[m].action.DoMark?
          ensures es[m].now <= es[n - 1].now
        {
          assert InOrder(es, m, n - 1);
        }
      } else {
        OnlyMarksStamp(After(on, es, n - 1), es[n - 1]);
      }
    }
  }

  /** The stored test of the finish statement is exactly the history's notion of discharge. */
  lemma ClearsIffDischarges(on: bool, es: seq<Event>, k: nat)
    requires IsRun(on, es) && k < |es|
    requires Finishes(After(on, es, k), es[k])
    ensures Discharges(on, es, k) ==> !After(on, es, k + 1).row.dirty
    ensures !Discharges(on, es, k) ==> After(on, es, k + 1).row.dirty == After(on, es, k).row.dirty
  {
    LastDirtyIsLatestMark(on, es, k);
    assert After(on, es, k + 1) == Step(After(on, es, k), es[k]);
  }

  lemma DirtyChangesOnlyBy(s: System, e: Event)
    requires !e.action.DoMark? && !Finishes(s, e)
    ensures Step(s, e).row.dirty == s.row.dirty
  {
  }

  /** MAIN: in every run the flag is set exactly when some mark is outstanding. */
  lemma {:induction false} DirtyIffOutstanding(on: bool, es: seq<Event>, n: nat)
    requires IsRun(on, es) && n <= |es|
    ensures After(on, es, n).row.dirty <==> exists i: nat :: Outstanding(on, es, i, n)
  {
    if n > 0 {
      var last := n - 1;
      DirtyIffOutstanding(on, es, last);
      var s := After(on, es, last);
      if es[last].action.DoMark? {
        assert Outstanding(on, es, last, n);
      } else if Finishes(s, es[last]) {
        ClearsIffDischarges(on, es, last);
        if Discharges(on, es, last) {
          assert forall i: nat :: !Outstanding(on, es, i, n);
        } else {
          OutstandingCarries(on, es, last, n);
        }
      } else {
        DirtyChangesOnlyBy(s, es[last]);
        OutstandingCarries(on, es, last, n);
      }
    }
  }

  lemma OutstandingCarries(on: bool, es: seq<Event>, last: nat, n: nat)
    requires last + 1 == n <= |es| && !es[last].action.DoMark? && !Discharges(on, es, last)
    ensures (exists i: nat :: Outstanding(on, es, i, last)) <==> (exists i: nat :: Outstanding(on, es, i, n))
  {
    forall i: nat
      ensures Outstanding(on, es, i, last) <==> Outstanding(on, es, i, n)
    {
    }
  }

  /** No mark is lost: after a mark the flag stays set until a run that started strictly later
      finishes. A run that started in the same millisecond does not count. */
  lemma NoMarkLost(on: bool, es: seq<Event>, i: nat, n: nat)
    requires IsRun(on, es) && i < n <= |es| && es[i].action.DoMark?
    requires forall k :: i < k < n && Finishes(After(on, es, k), es[k]) ==> StartedAt(on, es, k) <= es[i].now
    ensures After(on, es, n).row.dirty
  {
    forall k | i < k < n
      ensures !Discharges(on, es, k)
    {
    }
    assert Outstanding(on, es, i, n);
    DirtyIffOutstanding(on, es, n);
  }

  /** A run that clears the flag began after every mark it clears: it had the chance to see them all. */
  lemma DischargeSawEveryMark(on: bool, es: seq<Event>, k: nat) returns (start: nat)
    requires IsRun(on, es) && k < |es| && Discharges(on, es, k)
    ensures start < k
    ensures es[start].action.DoStart? && es[start].action.worker == es[k].action.worker
    ensures es[start].now == StartedAt(on, es, k)
    ensures forall m :: 0 <= m < k && es[m].action.DoMark? ==> m < start
  {
    start := RunHasItsStart(on, es, k, es[k].action.worker);
    forall m | 0 <= m < k && es[m].action.DoMark?
      ensures m < start
    {
      assert start <= m ==> InOrder(es, start, m);
    }
  }

  // ---- Lease exclusion -------------------------------------------------------------------------

  /** The event whose lease is stored after the first `n` events. */
  ghost function Holder(on: bool, es: seq<Event>, n: nat): Option<nat>
    requires n <= |es|
  {
    if n == 0 then None
    else
      var s, e := After(on, es, n - 1), es[n - 1];
      if Acquires(s, e) then Some(n - 1) else if Ends(s, e) then None else Holder(on, es, n - 1)
  }

  function OwnerOf(a: Action): string {
    match a
    case DoAcquire(_, owner, _, _) => owner
    case DoManual(owner) => owner
    case _ => ""
  }

  lemma {:induction false} HolderIsStored(on: bool, es: seq<Event>, n: nat)
    requires n <= |es|
    ensures var h, r := Holder(on, es, n), After(on, es, n).row;
      && (h.None? ==> r.leaseOwner.None? && r.leaseExpiresAt.None?)
      && (h.Some? ==>
            && h.value < n
            && Acquires(After(on, es, h.value), es[h.value])
            && r.leaseOwner == Some(OwnerOf(es[h.value].action))
            && r.leaseExpiresAt == Some(es[h.value].now + LEASE_MS))
  {
    if n > 0 {
      HolderIsStored(on, es, n - 1);
      StepLease(After(on, es, n - 1), es[n - 1]);
    }
  }

  /** Event `k` ends the very lease that event `i` acquired. */
  ghost predicate EndsLeaseOf(on: bool, es: seq<Event>, i: nat, k: nat)
    requires k < |es|
  {
    Holder(on, es, k) == Some(i) && Ends(After(on, es, k), es[k])
  }

  lemma {:induction false} LeaseStandsUntil(on: bool, es: seq<Event>, i: nat, n: nat)
    requires IsRun(on, es) && i < n <= |es|
    requires Acquires(After(on, es, i), es[i])
    ensures || Holder(on, es, n) == Some(i)
            || (exists k :: i < k < n && EndsLeaseOf(on, es, i, k))
            || (exists m :: i < m < n && Acquires(After(on, es, m), es[m]) && es[m].now > es[i].now + LEASE_MS)
  {
    if n > i + 1 {
      var last := n - 1;
      LeaseStandsUntil(on, es, i, last);
      if Holder(on, es, last) == Some(i) {
        HolderIsStored(on, es, last);
        if Acquires(After(on, es, last), es[last]) {
          AcquireNeedsFreeLease(After(on, es, last), es[last]);
        } else if Ends(After(on, es, last), es[last]) {
          assert EndsLeaseOf(on, es, i, last);
        }
      }
    }
  }

  lemma AcquireNeedsFreeLease(s: System, e: Event)
    requires Acquires(s, e)
    ensures LeaseFree(s.row, e.now)
  {
  }

  /** MAIN: two leases never overlap. A later acquire, scheduled or manual, finds the earlier lease
      already ended by its own holder or strictly past its ten minutes. */
  lemma LeaseExclusion(on: bool, es: seq<Event>, i: nat, j: nat)
    requires IsRun(on, es) && i < j < |es|
    requires Acquires(After(on, es, i), es[i]) && Acquires(After(on, es, j), es[j])
    ensures || es[j].now > es[i].now + LEASE_MS
            || exists k :: i < k < j && EndsLeaseOf(on, es, i, k)
  {
    LeaseStandsUntil(on, es, i, j);
    if Holder(on, es, j) == Some(i) {
      HolderIsStored(on, es, j);
      AcquireNeedsFreeLease(After(on, es, j), es[j]);
    } else if !exists k :: i < k < j && EndsLeaseOf(on, es, i, k) {
      var m :| i < m < j && Acquires(After(on, es, m), es[m]) && es[m].now > es[i].now + LEASE_MS;
      assert InOrder(es, m, j);
    }
  }

  /** No two acquire attempts of the run use the same owner token. */
  ghost predicate FreshTokens(es: seq<Event>) {
    forall i, j :: 0 <= i < j < |es| && IsAttempt(es[i].action) && IsAttempt(es[j].action)
      ==> OwnerOf(es[i].action) != OwnerOf(es[j].action)
  }

  predicate IsAttempt(a: Action) { a.DoAcquire? || a.DoManual? }

  /** The token on whose behalf an event acts on an existing lease. */
  function ActsFor(s: System, a: Action): Option<string> {
    match a
    case DoNote(owner) => Some(owner)
    case DoRelease(owner, _) => Some(owner)
    case DoCheck(w) => if PhaseOf(s, w).Started? then Some(PhaseOf(s, w).owner) else None
    case DoFinish(w, _, _) => if PhaseOf(s, w).Running? then Some(PhaseOf(s, w).owner) else None
    case _ => None
  }

  /** MAIN: once event `i`'s lease is no longer the stored one, nothing done under its token touches
      the row: not a finish (so neither the dirty flag nor the run count moves), not a release, not a
      spawn note, and the ownership check fails. */
  lemma StaleOwnerIsPowerless(on: bool, es: seq<Event>, i: nat, k: nat)
    requires IsRun(on, es) && FreshTokens(es) && i < k < |es|
    requires Acquires(After(on, es, i), es[i])
    requires Holder(on, es, k) != Some(i)
    requires ActsFor(After(on, es, k), es[k].action) == Some(OwnerOf(es[i].action))
    ensures After(on, es, k + 1).row == After(on, es, k).row
    ensures es[k].action.DoCheck? ==> PhaseOf(After(on, es, k + 1), es[k].action.worker) == Idle
  {
    HolderIsStored(on, es, k);
    var r := After(on, es, k).row;
    assert r.leaseOwner != Some(OwnerOf(es[i].action));
    assert After(on, es, k + 1) == Step(After(on, es, k), es[k]);
  }

  // ---- Cooldown and skip reasons ---------------------------------------------------------------

  lemma OnlyFinishesRun(s: System, e: Event)
    ensures Step(s, e).row.lastRunAt == if Finishes(s, e) then Some(e.now) else s.row.lastRunAt
  {
  }

  lemma {:induction false} LastRunIsLatestFinish(on: bool, es: seq<Event>, n: nat, i: nat)
    requires IsRun(on, es) && i < n <= |es| && Finishes(After(on, es, i), es[i])
    ensures AtOrAfter(After(on, es, n).row.lastRunAt, es[i].now)
  {
    if n == i + 1 {
      OnlyFinishesRun(After(on, es, i), es[i]);
    } else {
      LastRunIsLatestFinish(on, es, n - 1, i);
      OnlyFinishesRun(After(on, es, n - 1), es[n - 1]);
      assert InOrder(es, i, n - 1);
    }
  }

  /** Every scheduled acquire comes strictly more than its cooldown after every earlier finish. */
  lemma CooldownRespected(on: bool, es: seq<Event>, i: nat, j: nat)
    requires IsRun(on, es) && i < j < |es|
    requires Finishes(After(on, es, i), es[i]) && AcquiresScheduled(After(on, es, j), es[j])
    ensures es[j].now - es[i].now > if es[j].action.cooldownSecs > 0 then es[j].action.cooldownSecs * 1000 else 0
  {
    LastRunIsLatestFinish(on, es, j, i);
  }

  /** The recorded reason names the first clause of the acquire guard that fails at that instant,
      and 'unknown' means that none fails any more. */
  lemma SkipReasonIsExact(on: bool, es: seq<Event>, n: nat, cooldownSecs: int, now: Time)
    requires n <= |es|
    ensures var r := After(on, es, n).row; var reason := SkipReason(r, cooldownSecs, now);
      && (reason == "unknown" <==> AcquireGuard(r, cooldownSecs, now))
      && (reason == "disabled" <==> !r.enabled)
      && (reason == "not_dirty" <==> r.enabled && !r.dirty)
      && (reason == "lease_held" <==> r.enabled && r.dirty && !LeaseFree(r, now))
      && (reason == "cooldown" <==> r.enabled && r.dirty && LeaseFree(r, now) && !AcquireGuard(r, cooldownSecs, now))
  {
    LeaseColumnsAgreeAlways(on, es, n);
  }

  /** 'unknown' is only ever recorded because the world moved between the failed acquire and its
      skip record: the row changed or the clock advanced. */
  lemma UnknownMeansInterference(on: bool, es: seq<Event>, k: nat) returns (i: nat)
    requires IsRun(on, es) && k < |es| && Skips(After(on, es, k), es[k])
    requires After(on, es, k + 1).row.lastSkipReason == Some("unknown")
    ensures i < k
    ensures es[i].action.DoAcquire? && es[i].action.worker == es[k].action.worker
    ensures !AcquiresScheduled(After(on, es, i), es[i])
    ensures After(on, es, i).row != After(on, es, k).row || es[i].now < es[k].now
  {
    var w := es[k].action.worker;
    i := SkipHasItsAcquire(on, es, k, w);
    SkipReasonIsExact(on, es, k, PhaseOf(After(on, es, k), w).cooldownSecs, es[k].now);
    assert After(on, es, k + 1) == Step(After(on, es, k), es[k]);
  }

  // ---- The columns that remember the latest event ---------------------------------------------

  /** The last of the first `n` events that satisfies `p` in the state it meets. */
  function Last(on: bool, es: seq<Event>, n: nat, p: (System, Event) -> bool): (k: Option<nat>)
    requires n <= |es|
    ensures k.Some? ==> k.value < n
  {
    if n == 0 then None
    else if p(After(on, es, n - 1), es[n - 1]) then Some(n - 1)
    else Last(on, es, n - 1, p)
  }

  predicate Triggers(s: System, e: Event) { Marks(s, e) || Acquires(s, e) || Skips(s, e) }

  /** The events that write `last_skip_reason`, to a reason or to `NULL`. */
  predicate SetsSkipReason(s: System, e: Event) { AcquiresScheduled(s, e) || Skips(s, e) || Ends(s, e) }

  function ResultOf(a: Action): string { if a.DoFinish? then a.result else "" }

  /** The reason a trigger leaves behind. */
  function TriggerReason(s: System, e: Event): string {
    match e.action
    case DoMark(reason) => reason
    case DoAcquire(_, _, reason, _) => reason
    case DoSkip(w) => if PhaseOf(s, w).Skipping? then PhaseOf(s, w).reason else ""
    case DoManual(_) => "manual"
    case _ => ""
  }

  /** What an event that writes `last_skip_reason` writes: the reason of a skip or of a release, and
      otherwise nothing. */
  function SkipText(s: System, e: Event): Option<string> {
    if Skips(s, e) then
      var p := PhaseOf(s, e.action.worker);
      Some(SkipReason(s.row, p.cooldownSecs, e.now))
    else if Releases(s, e) then Some(e.action.reason)
    else None
  }

  lemma StepRemembers(s: System, e: Event)
    ensures var r, q := s.row, Step(s, e).row;
      && q.lastResult == (if Finishes(s, e) then ResultOf(e.action) else r.lastResult)
      && q.lastRunAt == (if Finishes(s, e) then Some(e.now) else r.lastRunAt)
      && q.enabled == r.enabled
  {
    hide AcquireGuard, LeaseFree, SkipReason, StaysDirty, OwnsLease;
  }

  lemma StepStampsTrigger(s: System, e: Event)
    ensures Step(s, e).row.lastTrigger
      == if Triggers(s, e) then Stamp(Some(e.now), Some(TriggerReason(s, e))) else s.row.lastTrigger
  {
    hide AcquireGuard, LeaseFree, SkipReason, StaysDirty, OwnsLease;
  }

  function MarkReason(a: Action): string { if a.DoMark? then a.reason else "" }

  lemma StepStampsMark(s: System, e: Event)
    ensures Step(s, e).row.lastDirty
      == if Marks(s, e) then Stamp(Some(e.now), Some(MarkReason(e.action))) else s.row.lastDirty
  {
    hide AcquireGuard, LeaseFree, SkipReason, StaysDirty, OwnsLease;
  }

  lemma StepExplainsSkip(s: System, e: Event)
    ensures Step(s, e).row.lastSkipReason == if SetsSkipReason(s, e) then SkipText(s, e) else s.row.lastSkipReason
  {
    hide AcquireGuard, LeaseFree, SkipReason, StaysDirty, OwnsLease;
  }

  /** In every run the remembering columns hold what the latest event of their kind wrote: the last
      trigger and the last mark with their reasons, the last effective finish with its result, and the text
      of the last skip or release unless an acquire or a finish has cleared it since. Nothing switches the
      schedule on or off. */
  lemma {:induction false} ColumnsRememberLatest(on: bool, es: seq<Event>, n: nat)
    requires n <= |es|
    ensures var r := After(on, es, n).row;
      var trigger, finish, skip := Last(on, es, n, Triggers), Last(on, es, n, Finishes), Last(on, es, n, SetsSkipReason);
      var mark := Last(on, es, n, Marks);
      && r.lastTrigger == (if trigger.Some?
            then Stamp(Some(es[trigger.value].now), Some(TriggerReason(After(on, es, trigger.value), es[trigger.value])))
            else Stamp(None, None))
      && r.lastDirty == (if mark.Some? then Stamp(Some(es[mark.value].now), Some(MarkReason(es[mark.value].action))) else Stamp(None, None))
      && r.enabled == on
      && r.lastRunAt == (if finish.Some? then Some(es[finish.value].now) else None)
      && r.lastResult == (if finish.Some? then ResultOf(es[finish.value].action) else "{}")
      && r.lastSkipReason == (if skip.Some? then SkipText(After(on, es, skip.value), es[skip.value]) else None)
  {
    hide After, Step, Triggers, Finishes, SetsSkipReason, SkipText, TriggerReason, ResultOf, Marks, MarkReason;
    AfterUnfolds(on, es, n);
    if n > 0 {
      ColumnsRememberLatest(on, es, n - 1);
      StepRemembers(After(on, es, n - 1), es[n - 1]);
      StepStampsTrigger(After(on, es, n - 1), es[n - 1]);
      StepStampsMark(After(on, es, n - 1), es[n - 1]);
      StepExplainsSkip(After(on, es, n - 1), es[n - 1]);
    }
  }

  lemma AfterUnfolds(on: bool, es: seq<Event>, n: nat)
    requires n <= |es|
    ensures After(on, es, n) == if n == 0 then System(InitialRow(on), map[]) else Step(After(on, es, n - 1), es[n - 1])
  {
  }
}
