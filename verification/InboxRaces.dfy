/** Inbox operations that overlap: a deletion loads its rows first and deletes them by id afterwards, and
    anything may happen in between. */
module InboxRaces {
  import opened Wrappers
  import opened JsonValue
  import opened InboxRows
  import opened Inbox
  import opened Outbox
  import opened InboxLaws

  // ---- The statements of a deletion --------------------------------------------------------------------------------

  /** The operations that load rows and then delete some of them by id. */
  predicate Deletes(op: Op) { op.DeleteByHash? || op.DeleteDropped? || op.Reject? }

  /** Whether the deletion picks this row of the table it loaded. */
  predicate Picks(rows: seq<Row>, op: Op, r: Row) {
    Deletable(op, r) || (op.Reject? && IsFound(rows, op.hash, r))
  }

  lemma PicksIsGone(rows: seq<Row>, op: Op, r: Row)
    requires Deletes(op)
    ensures RowAfter(rows, op, r) == if Picks(rows, op, r) then None else Some(r)
  {
    hide DeletableByHash, DeletableAsDropped, Trimmed, Found;
  }

  /** The `DELETE` statements of a deletion whose rows were loaded earlier, on the table as it is now. */
  function DeleteIds(rows: seq<Row>, ids: seq<int>): seq<Row> {
    if ids == [] then rows else DeleteById(DeleteIds(rows, ids[..|ids| - 1]), ids[|ids| - 1])
  }

  lemma {:induction false} DeleteByIdIs(rows: seq<Row>, id: int, r: Row)
    ensures r in DeleteById(rows, id) <==> r in rows && r.id != id
  {
    if rows != [] {
      DeleteByIdIs(rows[..|rows| - 1], id, r);
      assert rows == rows[..|rows| - 1] + [rows[|rows| - 1]];
    }
  }

  lemma {:induction false} DeleteIdsIs(rows: seq<Row>, ids: seq<int>, r: Row)
    ensures r in DeleteIds(rows, ids) <==> r in rows && r.id !in ids
  {
    hide DeleteById;
    if ids != [] {
      DeleteIdsIs(rows, ids[..|ids| - 1], r);
      DeleteByIdIs(DeleteIds(rows, ids[..|ids| - 1]), ids[|ids| - 1], r);
      assert ids == ids[..|ids| - 1] + [ids[|ids| - 1]];
    }
  }

  /** The ids a deletion will delete are those of the rows it picks. */
  lemma {:induction false} DeletedIdsAre(rows: seq<Row>, op: Op, n: nat, id: int)
    requires n <= |rows|
    ensures id in DeletedIds(rows, op, n) <==> exists k :: 0 <= k < n && rows[k].id == id && RowAfter(rows, op, rows[k]).None?
  {
    hide RowAfter;
    if n > 0 {
      DeletedIdsAre(rows, op, n - 1, id);
    }
  }

  lemma PickedById(rows: seq<Row>, op: Op, id: int)
    requires IsTable(rows) && Deletes(op)
    ensures id in DeletedIds(rows, op, |rows|) <==> RowOf(rows, id).Some? && Picks(rows, op, RowOf(rows, id).value)
  {
    hide IsTable, RowAfter, Picks, DeletedIds;
    DeletedIdsAre(rows, op, |rows|, id);
    RowOfIs(rows, id);
    forall k | 0 <= k < |rows| && rows[k].id == id
      ensures RowOf(rows, id) == Some(rows[k]) && (RowAfter(rows, op, rows[k]).None? <==> Picks(rows, op, rows[k]))
    {
      SameId(rows, rows[k], RowOf(rows, id).value);
      PicksIsGone(rows, op, rows[k]);
    }
  }

  // ---- One deletion around any operations ----------------------------------------------------------------------------

  /** MAIN: a deletion loads `rows`; any operations run to their end; then its `DELETE` statements run. A
      row that is in the table by then survives exactly when the deletion did not pick the row with its id
      in what it loaded. */
  lemma OverlapKeepsIff(rows: seq<Row>, ops: seq<Op>, op: Op, id: int)
    requires IsTable(rows) && Deletes(op) && RowOf(After(rows, ops), id).Some?
    ensures var now, loaded := After(rows, ops), RowOf(rows, id);
      RowOf(now, id).value in DeleteIds(now, DeletedIds(rows, op, |rows|)) <==>
      loaded.None? || !Picks(rows, op, loaded.value)
  {
    hide IsTable, Picks, DeletedIds, DeleteIds, After;
    var now := After(rows, ops);
    RowOfIs(now, id);
    DeleteIdsIs(now, DeletedIds(rows, op, |rows|), RowOf(now, id).value);
    PickedById(rows, op, id);
  }

  /** Nothing a deletion picks was approved when it loaded the row. */
  lemma PickedIsUnapproved(rows: seq<Row>, op: Op, r: Row)
    requires IsTable(rows) && r in rows && Picks(rows, op, r)
    ensures !SqlApproved(r.payload)
  {
    hide Parse, SqlTriaged, SqlApproved, Found, Trimmed, IsTable, LocallyApproved;
    ApprovedBothWays(r.payload);
    if op.Reject? {
      OnlyTheFound(rows, op.hash, r);
    }
  }

  /** So an approval can be lost: whichever of the two deletions by hash loaded its rows before the
      approval and deletes after it takes the freshly approved row with it. */
  lemma OverlapLosesApproval(rows: seq<Row>, hash: string, ruleId: string, at: int, op: Op)
    requires IsTable(rows) && Found(rows, hash).Some? && (op == DeleteByHash(hash) || op == Reject(hash))
    ensures var k := Found(rows, hash).value; var id := rows[k].id;
      var now := After(rows, [Approve(hash, ruleId, at, true)]);
      && RowOf(now, id).Some? && SqlApproved(RowOf(now, id).value.payload)
      && RowOf(Apply(now, op), id) == RowOf(now, id)
      && RowOf(now, id).value !in DeleteIds(now, DeletedIds(rows, op, |rows|))
  {
    hide IsTable, Apply, SqlApproved, SqlTriaged, Parse, DeletedIds, DeleteIds, Trimmed, LocallyApproved, ApprovalMark, Found, After;
    var k, approval := Found(rows, hash).value, Approve(hash, ruleId, at, true);
    var r := rows[k];
    var now := After(rows, [approval]);
    OneStep(rows, approval);
    FoundIsFirst(rows, hash);
    FoundHash(rows, hash);
    RowOfIs(rows, r.id);
    SameId(rows, r, RowOf(rows, r.id).value);
    ApplyRow(rows, approval, r.id);
    ApprovalMarks(r.payload, ruleId, at);
    OverlapKeepsIff(rows, [approval], op, r.id);
    ApplyIsTable(rows, approval);
    RowOfIs(now, r.id);
    ApplyRow(now, op, r.id);
    ApprovedIsNotPicked(now, op, RowOf(now, r.id).value);
  }

  lemma ApprovedIsNotPicked(rows: seq<Row>, op: Op, r: Row)
    requires IsTable(rows) && r in rows && SqlApproved(r.payload) && Deletes(op)
    ensures RowAfter(rows, op, r) == Some(r)
  {
    hide IsTable, SqlApproved, Picks, RowAfter;
    PicksIsGone(rows, op, r);
    if Picks(rows, op, r) {
      PickedIsUnapproved(rows, op, r);
    }
  }

  // ---- Any number of operations, statement by statement ------------------------------------------------------------

  /** A completed operation, or one statement of an operation that read its rows some time ago: a `DELETE`
      by id, a triage or an evidence mark set in whatever the payload is by now, or an approval that writes
      back the payload it read, with its mark. */
  datatype Statement =
    | Whole(op: Op)
    | DeleteOne(id: int)
    | TriageOne(id: int, mark: Triage)
    | EvidenceOne(id: int, count: nat, at: int)
    | ApproveOne(id: int, read: Payload, ruleId: string, at: int)

  predicate IsUpdate(s: Statement) { s.TriageOne? || s.EvidenceOne? || s.ApproveOne? }

  /** What an update makes of the row it names. */
  function Written(s: Statement, r: Row): Row {
    match s
    case TriageOne(_, t) => r.(payload := WithKey(r.payload, "localTriage", TriageMark(t)))
    case EvidenceOne(_, count, at) => r.(payload := WithKey(r.payload, "localEvidence", EvidenceMark(count, at)))
    case ApproveOne(_, read, ruleId, at) =>
      if read.Valid? && read.json.Obj?
      then r.(payload := WithKey(read, "localReview", ApprovalMark(ruleId, at)), status := "pending", retries := 0) else r
    case _ => r
  }

  function Execute(rows: seq<Row>, s: Statement): seq<Row> {
    match s
    case Whole(op) => Apply(rows, op)
    case DeleteOne(id) => DeleteById(rows, id)
    case _ => UpdateById(rows, s.id, (r: Row) => Written(s, r))
  }

  function Executed(rows: seq<Row>, ss: seq<Statement>): seq<Row> {
    if ss == [] then rows else Execute(Executed(rows, ss[..|ss| - 1]), ss[|ss| - 1])
  }

  lemma {:induction false} DeleteIsTable(rows: seq<Row>, id: int)
    requires IsTable(rows)
    ensures IsTable(DeleteById(rows, id))
  {
    if rows != [] {
      var front, last := rows[..|rows| - 1], rows[|rows| - 1];
      DeleteIsTable(front, id);
      assert rows == front + [last];
      forall x | x in DeleteById(front, id)
        ensures Before(x, last) && x.id != last.id
      {
        DeleteByIdIs(front, id, x);
      }
      var kept := DeleteById(front, id);
      assert forall i :: 0 <= i < |kept| ==> kept[i] in kept;
    }
  }

  lemma {:induction false} ExecutedIsTable(rows: seq<Row>, ss: seq<Statement>)
    requires IsTable(rows)
    ensures IsTable(Executed(rows, ss))
  {
    hide IsTable, Apply, DeleteById;
    if ss != [] {
      var front := Executed(rows, ss[..|ss| - 1]);
      ExecutedIsTable(rows, ss[..|ss| - 1]);
      match ss[|ss| - 1]
      case Whole(op) => ApplyIsTable(front, op);
      case DeleteOne(id) => DeleteIsTable(front, id);
      case _ => UpdateIsTable(front, ss[|ss| - 1]);
    }
  }

  lemma UpdateIsTable(rows: seq<Row>, s: Statement)
    requires IsTable(rows) && IsUpdate(s)
    ensures IsTable(Execute(rows, s))
  {
    hide WithKey, TriageMark, EvidenceMark, ApprovalMark;
  }

  lemma {:induction false} UpdateRow(rows: seq<Row>, s: Statement, id: int)
    requires IsUpdate(s)
    ensures RowOf(Execute(rows, s), id)
      == var r := RowOf(rows, id); if r.Some? && id == s.id then Some(Written(s, r.value)) else r
  {
    hide WithKey, TriageMark, EvidenceMark, ApprovalMark;
    if rows != [] {
      var front := rows[..|rows| - 1];
      UpdateRow(front, s, id);
      assert Execute(rows, s)[..|front|] == Execute(front, s);
    }
  }

  lemma {:induction false} DeleteRow(rows: seq<Row>, id: int, other: int)
    ensures RowOf(DeleteById(rows, id), other) == if other == id then None else RowOf(rows, other)
  {
    if rows != [] {
      var front, last := rows[..|rows| - 1], rows[|rows| - 1];
      DeleteRow(front, id, other);
      if last.id != id {
        assert (DeleteById(front, id) + [last])[..|DeleteById(front, id)|] == DeleteById(front, id);
      }
    }
  }

  predicate ApprovedIn(rows: seq<Row>, id: int) { RowOf(rows, id).Some? && SqlApproved(RowOf(rows, id).value.payload) }

  lemma StatementKeeps(rows: seq<Row>, s: Statement, id: int)
    requires IsTable(rows) && ApprovedIn(rows, id)
    ensures s != DeleteOne(id) ==> ApprovedIn(Execute(rows, s), id)
    ensures s == DeleteOne(id) ==> RowOf(Execute(rows, s), id).None?
  {
    hide IsTable, Apply, DeleteById, SqlApproved, RowAfter, Settled, Stored;
    var r := RowOf(rows, id).value;
    RowOfIs(rows, id);
    match s
    case Whole(op) =>
      ApplyRow(rows, op, id);
      StepKeeps(rows, op, r);
    case DeleteOne(other) =>
      DeleteRow(rows, other, id);
    case _ =>
      UpdateRow(rows, s, id);
      WrittenStaysApproved(s, r);
  }

  lemma WrittenStaysApproved(s: Statement, r: Row)
    requires IsUpdate(s) && SqlApproved(r.payload)
    ensures SqlApproved(Written(s, r).payload)
  {
    hide SqlApproved, TriageMark, EvidenceMark, ApprovalMark;
    match s
    case TriageOne(_, t) => OtherMarksKeepApproval(r.payload, "localTriage", TriageMark(t));
    case EvidenceOne(_, count, at) => OtherMarksKeepApproval(r.payload, "localEvidence", EvidenceMark(count, at));
    case ApproveOne(_, read, ruleId, at) =>
      if read.Valid? && read.json.Obj? {
        MarkApproves(read, ruleId, at);
      }
  }

  lemma MarkApproves(read: Payload, ruleId: string, at: int)
    requires read.Valid? && read.json.Obj?
    ensures SqlApproved(WithKey(read, "localReview", ApprovalMark(ruleId, at)))
  {
    assert Lower("approved") == "approved";
    assert "status"[0] == 's' && "ruleId"[0] == 'r' && "reviewedAtMs"[0] == 'r';
  }

  /** MAIN: over every interleaving of completed operations with single statements of others, an approved
      row stays in the table and stays approved exactly when none of those statements deletes its id. */
  lemma {:induction false} ApprovedIffNotNamed(rows: seq<Row>, ss: seq<Statement>, id: int)
    requires IsTable(rows) && ApprovedIn(rows, id)
    ensures (forall n :: 0 <= n <= |ss| ==> ApprovedIn(Executed(rows, ss[..n]), id)) <==> DeleteOne(id) !in ss
  {
    hide IsTable, ApprovedIn, Execute;
    if DeleteOne(id) !in ss {
      forall n | 0 <= n <= |ss|
        ensures ApprovedIn(Executed(rows, ss[..n]), id)
      {
        ApprovedUpTo(rows, ss, id, n);
      }
    } else {
      var k :| 0 <= k < |ss| && ss[k] == DeleteOne(id);
      if ApprovedIn(Executed(rows, ss[..k]), id) {
        ExecutedIsTable(rows, ss[..k]);
        StatementKeeps(Executed(rows, ss[..k]), ss[k], id);
        assert ss[..k + 1][..k] == ss[..k];
        NotApproved(Executed(rows, ss[..k + 1]), id);
      }
    }
  }

  lemma NotApproved(rows: seq<Row>, id: int)
    requires RowOf(rows, id).None?
    ensures !ApprovedIn(rows, id)
  {
  }

  lemma {:induction false} ApprovedUpTo(rows: seq<Row>, ss: seq<Statement>, id: int, n: nat)
    requires IsTable(rows) && ApprovedIn(rows, id) && DeleteOne(id) !in ss && n <= |ss|
    ensures ApprovedIn(Executed(rows, ss[..n]), id)
  {
    hide IsTable, ApprovedIn, Execute;
    if n > 0 {
      ApprovedUpTo(rows, ss, id, n - 1);
      assert ss[..n][..n - 1] == ss[..n - 1];
      ExecutedIsTable(rows, ss[..n - 1]);
      StatementKeeps(Executed(rows, ss[..n - 1]), ss[n - 1], id);
    } else {
      assert ss[..0] == [];
    }
  }

  /** The row has been in the table all the time up to statement `n`. */
  ghost predicate There(rows: seq<Row>, ss: seq<Statement>, id: int, n: nat)
    requires n <= |ss|
  {
    forall m :: 0 <= m <= n ==> RowOf(Executed(rows, ss[..m]), id).Some?
  }

  /** A pair of stored values that parses to a known triage. */
  predicate KnownPair(stored: (Option<Json>, Option<Json>)) {
    && !(stored.0.Some? && stored.1.Some?)
    && var t := ParseTriage(if stored.0.Some? then stored.0 else stored.1); t.Some? && !t.value.status.Unknown?
  }

  lemma KnownGivesPair(p: Payload)
    requires KnownTriage(p)
    ensures KnownPair(Stored(p)) && p.Valid? && p.json.Obj?
  {
    hide HasBody, ParseTriage, ParseEvidence;
  }

  /** Whatever else the payload says, such a pair is settled. */
  lemma PairSettles(p: Payload, stored: (Option<Json>, Option<Json>))
    requires p.Valid? && p.json.Obj? && Stored(p) == stored && KnownPair(stored)
    ensures Settled(p)
  {
    hide HasBody, ParseTriage, ParseEvidence;
  }

  /** The row holds this triage. */
  predicate Holds(r: Row, stored: (Option<Json>, Option<Json>)) {
    r.payload.Valid? && r.payload.json.Obj? && Stored(r.payload) == stored
  }

  /** A late statement that would store another triage: a triage mark, or an approval that read the payload
      before this triage was set. */
  predicate Overwrites(s: Statement, id: int, stored: (Option<Json>, Option<Json>)) {
    || (s.TriageOne? && s.id == id && Some(TriageMark(s.mark)) != stored.0)
    || (s.ApproveOne? && s.id == id && s.read.Valid? && s.read.json.Obj? && Stored(s.read) != stored)
  }

  lemma WriteStores(s: Statement, r: Row, stored: (Option<Json>, Option<Json>))
    requires IsUpdate(s) && Holds(r, stored)
    ensures var q := Written(s, r).payload;
      q.Valid? && q.json.Obj? && (Stored(q) == stored <==> !Overwrites(s, s.id, stored))
  {
    hide TriageMark, EvidenceMark, ApprovalMark;
    match s
    case TriageOne(_, t) => MarkKeysAreNew("localTriage");
    case EvidenceOne(_, count, at) => ReviewKeepsStored(r.payload, "localEvidence", EvidenceMark(count, at));
    case ApproveOne(_, read, ruleId, at) => ReviewKeepsStored(read, "localReview", ApprovalMark(ruleId, at));
  }

  lemma SettledStays(rows: seq<Row>, op: Op, r: Row, stored: (Option<Json>, Option<Json>))
    requires IsTable(rows) && r in rows && Holds(r, stored) && KnownPair(stored)
    ensures var s := RowAfter(rows, op, r); s.Some? ==> Holds(s.value, stored)
  {
    hide IsTable, Settled, Stored, Found, TriageRequest, Trimmed, HasHash, KnownTriage, Parse, SqlApproved, TriageHidden, LocallyApproved,
      ApprovalMark, TriageMark, EvidenceMark, KnownPair;
    PairSettles(r.payload, stored);
    StepKeeps(rows, op, r);
  }

  lemma StatementHolds(rows: seq<Row>, s: Statement, id: int, stored: (Option<Json>, Option<Json>))
    requires IsTable(rows) && RowOf(rows, id).Some? && Holds(RowOf(rows, id).value, stored) && KnownPair(stored)
    ensures var after := RowOf(Execute(rows, s), id);
      after.Some? ==> (Stored(after.value.payload) == stored <==> !Overwrites(s, id, stored))
    ensures var after := RowOf(Execute(rows, s), id);
      after.Some? && !Overwrites(s, id, stored) ==> Holds(after.value, stored)
    ensures Overwrites(s, id, stored) ==> RowOf(Execute(rows, s), id).Some?
  {
    hide IsTable, Apply, DeleteById, RowAfter, Settled, TriageMark, Written, KnownPair, Stored;
    var r := RowOf(rows, id).value;
    RowOfIs(rows, id);
    match s
    case Whole(op) =>
      ApplyRow(rows, op, id);
      SettledStays(rows, op, r, stored);
    case DeleteOne(other) =>
      DeleteRow(rows, other, id);
    case _ =>
      UpdateRow(rows, s, id);
      WriteStores(s, r, stored);
  }

  lemma {:induction false} HoldsUpTo(rows: seq<Row>, ss: seq<Statement>, id: int, n: nat, stored: (Option<Json>, Option<Json>))
    requires IsTable(rows) && RowOf(rows, id).Some? && Holds(RowOf(rows, id).value, stored) && KnownPair(stored)
    requires n <= |ss| && There(rows, ss, id, n)
    requires forall k :: 0 <= k < n ==> !Overwrites(ss[k], id, stored)
    ensures RowOf(Executed(rows, ss[..n]), id).Some? && Holds(RowOf(Executed(rows, ss[..n]), id).value, stored)
  {
    hide IsTable, Execute, Holds, Overwrites, KnownPair;
    if n > 0 {
      HoldsUpTo(rows, ss, id, n - 1, stored);
      assert ss[..n][..n - 1] == ss[..n - 1];
      ExecutedIsTable(rows, ss[..n - 1]);
      StatementHolds(Executed(rows, ss[..n - 1]), ss[n - 1], id, stored);
    } else {
      assert ss[..0] == [];
    }
  }

  ghost predicate KeepsTriage(rows: seq<Row>, ss: seq<Statement>, id: int, stored: (Option<Json>, Option<Json>)) {
    forall n :: 0 <= n <= |ss| && There(rows, ss, id, n) ==> Stored(RowOf(Executed(rows, ss[..n]), id).value.payload) == stored
  }

  /** MAIN: over the same interleavings a known triage is stored unchanged, while its row lives, exactly
      when no late statement, a triage or an approval, writes another one over it. */
  lemma TriageIffNotOverwritten(rows: seq<Row>, ss: seq<Statement>, id: int)
    requires IsTable(rows) && RowOf(rows, id).Some? && KnownTriage(RowOf(rows, id).value.payload)
    ensures var stored := Stored(RowOf(rows, id).value.payload);
      KeepsTriage(rows, ss, id, stored) <==>
      forall k :: 0 <= k < |ss| && There(rows, ss, id, k) ==> !Overwrites(ss[k], id, stored)
  {
    hide IsTable, Execute, Overwrites, Stored, KeepsTriage, There, KnownTriage, KnownPair;
    var stored := Stored(RowOf(rows, id).value.payload);
    KnownGivesPair(RowOf(rows, id).value.payload);
    assert Holds(RowOf(rows, id).value, stored);
    if forall k :: 0 <= k < |ss| && There(rows, ss, id, k) ==> !Overwrites(ss[k], id, stored) {
      KeptUnlessOverwritten(rows, ss, id, stored);
    } else {
      LostIfOverwritten(rows, ss, id, stored);
    }
  }

  lemma KeptUnlessOverwritten(rows: seq<Row>, ss: seq<Statement>, id: int, stored: (Option<Json>, Option<Json>))
    requires IsTable(rows) && RowOf(rows, id).Some? && Holds(RowOf(rows, id).value, stored) && KnownPair(stored)
    requires forall k :: 0 <= k < |ss| && There(rows, ss, id, k) ==> !Overwrites(ss[k], id, stored)
    ensures KeepsTriage(rows, ss, id, stored)
  {
    hide IsTable, Execute, Overwrites, Stored, Executed, KnownPair;
    forall n | 0 <= n <= |ss| && There(rows, ss, id, n)
      ensures Stored(RowOf(Executed(rows, ss[..n]), id).value.payload) == stored
    {
      assert forall k :: 0 <= k < n ==> There(rows, ss, id, k);
      HoldsUpTo(rows, ss, id, n, stored);
    }
  }

  lemma LostIfOverwritten(rows: seq<Row>, ss: seq<Statement>, id: int, stored: (Option<Json>, Option<Json>))
    requires IsTable(rows) && RowOf(rows, id).Some? && Holds(RowOf(rows, id).value, stored) && KnownPair(stored)
    requires exists k :: 0 <= k < |ss| && There(rows, ss, id, k) && Overwrites(ss[k], id, stored)
    ensures !KeepsTriage(rows, ss, id, stored)
  {
    hide IsTable, Execute, Overwrites, Stored, Holds, RowOf, KnownPair;
    var n := FirstOverwrite(rows, ss, id, stored);
    HoldsUpTo(rows, ss, id, n, stored);
    ExecutedIsTable(rows, ss[..n]);
    StatementHolds(Executed(rows, ss[..n]), ss[n], id, stored);
    assert ss[..n + 1][..n] == ss[..n];
    assert There(rows, ss, id, n + 1);
  }

  lemma FirstOverwrite(rows: seq<Row>, ss: seq<Statement>, id: int, stored: (Option<Json>, Option<Json>)) returns (n: nat)
    requires exists k :: 0 <= k < |ss| && There(rows, ss, id, k) && Overwrites(ss[k], id, stored)
    ensures n < |ss| && There(rows, ss, id, n) && Overwrites(ss[n], id, stored)
    ensures forall k :: 0 <= k < n ==> !Overwrites(ss[k], id, stored)
  {
    hide Overwrites, Executed;
    var last :| 0 <= last < |ss| && There(rows, ss, id, last) && Overwrites(ss[last], id, stored);
    n := 0;
    while !Overwrites(ss[n], id, stored)
      invariant n <= last && forall k :: 0 <= k < n ==> !Overwrites(ss[k], id, stored)
      decreases last - n
    {
      n := n + 1;
    }
  }

  /** And that can happen: of two triages that both loaded a row before either wrote it, the later one
      replaces the known status the first one set. */
  lemma OverlapOverwritesTriage(rows: seq<Row>, op: Op, t: Triage, id: int, late: Triage)
    requires IsTable(rows) && op.SetTriage? && TriageRequest(op.hash, op.status, op.reason, op.reference, op.at) == Ok(Some(t))
    requires RowOf(rows, id).Some? && HasHash(RowOf(rows, id).value, Trimmed(op.hash)) && !t.status.Unknown?
    requires var p := RowOf(rows, id).value.payload; !KnownTriage(p) && "local_triage" !in p.json.fields
    ensures var first, both := RowOf(Executed(rows, [Whole(op)]), id), RowOf(Executed(rows, [Whole(op), TriageOne(id, late)]), id);
      && first.Some? && KnownTriage(first.value.payload) && Stored(first.value.payload).0 == Some(TriageMark(t))
      && both.Some? && Stored(both.value.payload).0 == Some(TriageMark(late))
  {
    hide IsTable, Apply, Trimmed, TriageRequest, TriageMark, HasBody, Parse;
    var r := RowOf(rows, id).value;
    var ss := [Whole(op), TriageOne(id, late)];
    assert [Whole(op)][..0] == [] && ss[..1] == [Whole(op)];
    ApplyRow(rows, op, id);
    TriageRequested(rows, op, r, t);
    TriageMarks(r.payload, t);
    UpdateRow(Apply(rows, op), TriageOne(id, late), id);
  }
}
