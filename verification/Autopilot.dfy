/** The single row of `memory_autopilot_schedule` and the SQL statements that update it.

    Every statement appears twice: as a function from row to row, which the theorems about whole
    runs reason with, and as a method of `ScheduleTable` that assigns the columns in place.
    SQL `NULL` is `None`; a comparison with `NULL` is never true. Times are milliseconds, the
    resolution of `strftime('%f')`. */
module Autopilot {
  import opened Wrappers

  type Time = int

  const BACKGROUND_LEASE_SECS := 600
  const LEASE_MS: int := BACKGROUND_LEASE_SECS * 1000

  /** A `…_at` column with the `…_reason` column beside it. */
  datatype Stamp = Stamp(at: Option<Time>, reason: Option<string>)

  /** The seven counter columns. */
  datatype Counters = Counters(
    trigger: nat,
    dirtyMark: nat,
    spawnAttempt: nat,
    spawnSuccess: nat,
    run: nat,
    productiveRun: nat,
    skip: nat)

  datatype Row = Row(
    enabled: bool,
    dirty: bool,
    lastDirty: Stamp,
    lastTrigger: Stamp,
    lastRunAt: Option<Time>,
    leaseOwner: Option<string>,
    leaseExpiresAt: Option<Time>,
    lastResult: string,
    counts: Counters,
    lastSkipReason: Option<string>)

  /** The row `INSERT OR IGNORE` creates, except that `enabled` may have been set to either value. */
  function InitialRow(enabled: bool): Row {
    Row(enabled, false, Stamp(None, None), Stamp(None, None), None, None, None, "{}",
        Counters(0, 0, 0, 0, 0, 0, 0), None)
  }

  /** `julianday(t) < bound`, with `NULL` never below anything. */
  predicate Before(t: Option<Time>, bound: Time) { t.Some? && t.value < bound }

  /** `julianday(t) >= bound`, with `NULL` never at or above anything. */
  predicate AtOrAfter(t: Option<Time>, bound: Time) { t.Some? && t.value >= bound }

  /** The cooldown in milliseconds; a negative request counts as zero. */
  function CooldownMs(cooldownSecs: int): (ms: int)
    ensures ms >= 0
  {
    if cooldownSecs < 0 then 0 else cooldownSecs * 1000
  }

  predicate LeaseFree(r: Row, now: Time) { r.leaseOwner.None? || Before(r.leaseExpiresAt, now) }

  /** The `WHERE` clause of the scheduled acquire. */
  predicate AcquireGuard(r: Row, cooldownSecs: int, now: Time) {
    && r.enabled
    && r.dirty
    && LeaseFree(r, now)
    && (r.lastRunAt.None? || Before(r.lastRunAt, now - CooldownMs(cooldownSecs)))
  }

  /** The `CASE` of the skip statement. */
  function SkipReason(r: Row, cooldownSecs: int, now: Time): string {
    if !r.enabled then "disabled"
    else if !r.dirty then "not_dirty"
    else if r.leaseOwner.Some? && AtOrAfter(r.leaseExpiresAt, now) then "lease_held"
    else if r.lastRunAt.Some? && AtOrAfter(r.lastRunAt, now - CooldownMs(cooldownSecs)) then "cooldown"
    else "unknown"
  }

  // ---- The statements as functions ------------------------------------------------------------

  function MarkDirty(r: Row, reason: string, now: Time): Row {
    r.(dirty := true,
       lastDirty := Stamp(Some(now), Some(reason)),
       lastTrigger := Stamp(Some(now), Some(reason)),
       counts := r.counts.(trigger := r.counts.trigger + 1, dirtyMark := r.counts.dirtyMark + 1))
  }

  function Acquire(r: Row, owner: string, reason: string, cooldownSecs: int, now: Time): Row {
    if AcquireGuard(r, cooldownSecs, now) then
      r.(leaseOwner := Some(owner), leaseExpiresAt := Some(now + LEASE_MS),
         lastTrigger := Stamp(Some(now), Some(reason)),
         counts := r.counts.(trigger := r.counts.trigger + 1, spawnAttempt := r.counts.spawnAttempt + 1),
         lastSkipReason := None)
    else r
  }

  function RecordSkip(r: Row, reason: string, cooldownSecs: int, now: Time): Row {
    r.(counts := r.counts.(trigger := r.counts.trigger + 1,
                           spawnAttempt := r.counts.spawnAttempt + 1,
                           skip := r.counts.skip + 1),
       lastTrigger := Stamp(Some(now), Some(reason)),
       lastSkipReason := Some(SkipReason(r, cooldownSecs, now)))
  }

  function AcquireManual(r: Row, owner: string, now: Time): Row {
    if LeaseFree(r, now) then
      r.(leaseOwner := Some(owner), leaseExpiresAt := Some(now + LEASE_MS),
         lastTrigger := Stamp(Some(now), Some("manual")),
         counts := r.counts.(trigger := r.counts.trigger + 1))
    else r
  }

  function NoteSpawnSuccess(r: Row, owner: string): Row {
    if r.leaseOwner == Some(owner) then r.(counts := r.counts.(spawnSuccess := r.counts.spawnSuccess + 1)) else r
  }

  function Release(r: Row, owner: string, reason: string): Row {
    if r.leaseOwner == Some(owner) then
      r.(leaseOwner := None, leaseExpiresAt := None, lastSkipReason := Some(reason))
    else r
  }

  predicate OwnsLease(r: Row, owner: string, now: Time) {
    r.leaseOwner == Some(owner) && AtOrAfter(r.leaseExpiresAt, now)
  }

  /** A run clears the flag only if it started strictly after the last mark. */
  predicate StaysDirty(dirty: bool, lastDirtyAt: Option<Time>, startedAt: Time) {
    dirty && lastDirtyAt.Some? && !Before(lastDirtyAt, startedAt)
  }

  function CountRun(c: Counters, productive: bool): Counters {
    c.(run := c.run + 1, productiveRun := if productive then c.productiveRun + 1 else c.productiveRun)
  }

  function FinishRun(r: Row, owner: string, startedAt: Time, productive: bool, result: string, now: Time): Row {
    if r.leaseOwner == Some(owner) then
      r.(lastRunAt := Some(now),
         dirty := StaysDirty(r.dirty, r.lastDirty.at, startedAt),
         leaseOwner := None, leaseExpiresAt := None,
         lastResult := result,
         counts := CountRun(r.counts, productive),
         lastSkipReason := None)
    else r
  }

  // ---- The statements as in-place updates -----------------------------------------------------

  class ScheduleTable {
    var enabled: bool
    var dirty: bool
    var lastDirty: Stamp
    var lastTrigger: Stamp
    var lastRunAt: Option<Time>
    var leaseOwner: Option<string>
    var leaseExpiresAt: Option<Time>
    var lastResult: string
    var counts: Counters
    var lastSkipReason: Option<string>

    /** The row these columns hold. */
    function Stored(): (r: Row)
      reads this
    {
      Row(enabled, dirty, lastDirty, lastTrigger, lastRunAt, leaseOwner, leaseExpiresAt, lastResult,
          counts, lastSkipReason)
    }

    constructor ()
      ensures Stored() == InitialRow(true)
    {
      enabled, dirty := true, false;
      lastDirty, lastTrigger := Stamp(None, None), Stamp(None, None);
      lastRunAt, leaseOwner, leaseExpiresAt := None, None, None;
      lastResult, lastSkipReason := "{}", None;
      counts := Counters(0, 0, 0, 0, 0, 0, 0);
    }

    method Mark(reason: string, now: Time)
      modifies this
      ensures Stored() == MarkDirty(old(Stored()), reason, now)
    {
      dirty := true;
      lastDirty, lastTrigger := Stamp(Some(now), Some(reason)), Stamp(Some(now), Some(reason));
      counts := counts.(trigger := counts.trigger + 1, dirtyMark := counts.dirtyMark + 1);
    }

    /** The guarded `UPDATE` alone; `rowsAffected` says whether the guard held. */
    method UpdateLease(owner: string, reason: string, cooldownSecs: int, now: Time) returns (rowsAffected: nat)
      modifies this
      ensures Stored() == Acquire(old(Stored()), owner, reason, cooldownSecs, now)
      ensures rowsAffected == 1 <==> old(AcquireGuard(Stored(), cooldownSecs, now))
    {
      rowsAffected := 0;
      if AcquireGuard(Stored(), cooldownSecs, now) {
        leaseOwner, leaseExpiresAt := Some(owner), Some(now + LEASE_MS);
        lastTrigger := Stamp(Some(now), Some(reason));
        counts := counts.(trigger := counts.trigger + 1, spawnAttempt := counts.spawnAttempt + 1);
        lastSkipReason := None;
        rowsAffected := 1;
      }
    }

    method Skip(reason: string, cooldownSecs: int, now: Time)
      modifies this
      ensures Stored() == RecordSkip(old(Stored()), reason, cooldownSecs, now)
    {
      lastSkipReason := Some(SkipReason(Stored(), cooldownSecs, now));
      counts := counts.(trigger := counts.trigger + 1,
                        spawnAttempt := counts.spawnAttempt + 1,
                        skip := counts.skip + 1);
      lastTrigger := Stamp(Some(now), Some(reason));
    }

    /** Both statements with nothing interleaved. A failed acquire that is recorded in the same
        instant then never reports 'unknown', given that owner and expiry are set together. */
    method TryAcquire(owner: string, reason: string, cooldownSecs: int, now: Time, skippedAt: Time)
      returns (acquired: bool)
      requires leaseOwner.Some? <==> leaseExpiresAt.Some?
      requires now <= skippedAt
      modifies this
      ensures acquired <==> old(AcquireGuard(Stored(), cooldownSecs, now))
      ensures acquired ==> Stored() == Acquire(old(Stored()), owner, reason, cooldownSecs, now)
      ensures !acquired ==> Stored() == RecordSkip(old(Stored()), reason, cooldownSecs, skippedAt)
      ensures !acquired && skippedAt == now ==> lastSkipReason.Some? && lastSkipReason.value != "unknown"
    {
      var rowsAffected := UpdateLease(owner, reason, cooldownSecs, now);
      acquired := rowsAffected == 1;
      if !acquired {
        Skip(reason, cooldownSecs, skippedAt);
      }
    }

    method TryAcquireManual(owner: string, now: Time) returns (acquired: bool)
      modifies this
      ensures Stored() == AcquireManual(old(Stored()), owner, now)
      ensures acquired <==> old(LeaseFree(Stored(), now))
    {
      acquired := LeaseFree(Stored(), now);
      if acquired {
        leaseOwner, leaseExpiresAt := Some(owner), Some(now + LEASE_MS);
        lastTrigger := Stamp(Some(now), Some("manual"));
        counts := counts.(trigger := counts.trigger + 1);
      }
    }

    method NoteSpawn(owner: string)
      modifies this
      ensures Stored() == NoteSpawnSuccess(old(Stored()), owner)
    {
      if leaseOwner == Some(owner) {
        counts := counts.(spawnSuccess := counts.spawnSuccess + 1);
      }
    }

    method ReleaseLease(owner: string, reason: string)
      modifies this
      ensures Stored() == Release(old(Stored()), owner, reason)
    {
      if leaseOwner == Some(owner) {
        leaseOwner, leaseExpiresAt, lastSkipReason := None, None, Some(reason);
      }
    }

    method Finish(owner: string, startedAt: Time, productive: bool, result: string, now: Time)
      modifies this
      ensures Stored() == FinishRun(old(Stored()), owner, startedAt, productive, result, now)
    {
      if leaseOwner == Some(owner) {
        lastRunAt := Some(now);
        dirty := StaysDirty(dirty, lastDirty.at, startedAt);
        leaseOwner, leaseExpiresAt, lastResult := None, None, result;
        counts := CountRun(counts, productive);
        lastSkipReason := None;
      }
    }
  }
}
