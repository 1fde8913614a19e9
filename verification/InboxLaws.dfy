/** What the inbox promises about session-mined rows: three views that partition them, and marks that
    no sequence of operations takes back. */
module InboxLaws {
  import opened Wrappers
  import opened JsonValue
  import opened Text
  import opened InboxRows
  import opened Inbox
  import opened Outbox

  // ---- The three views ---------------------------------------------------------------------------------------

  datatype View = Review | Queue | Hidden

  predicate Shows(v: View, r: Row) {
    match v
    case Review => InReview(r)
    case Queue => InQueue(r)
    case Hidden => TriageHidden(r)
  }

  function Count(v: View, rows: seq<Row>): nat {
    if rows == [] then 0 else Count(v, rows[..|rows| - 1]) + if Shows(v, rows[|rows| - 1]) then 1 else 0
  }

  function SessionRows(rows: seq<Row>): nat {
    if rows == [] then 0 else SessionRows(rows[..|rows| - 1]) + if rows[|rows| - 1].session then 1 else 0
  }

  /** The three views never overlap and miss no session-mined row, so their counts add up. */
  lemma {:induction false} ViewsPartition(rows: seq<Row>)
    ensures forall i :: 0 <= i < |rows| ==>
      var r := rows[i];
      && (r.session <==> Shows(Review, r) || Shows(Queue, r) || Shows(Hidden, r))
      && !(Shows(Review, r) && Shows(Queue, r)) && !(Shows(Review, r) && Shows(Hidden, r)) && !(Shows(Queue, r) && Shows(Hidden, r))
    ensures Count(Review, rows) + Count(Queue, rows) + Count(Hidden, rows) == SessionRows(rows)
    ensures Count(Review, rows) == |ReviewList(rows)|
  {
    hide SqlApproved, SqlTriaged;
    if rows != [] {
      ViewsPartition(rows[..|rows| - 1]);
      assert rows == rows[..|rows| - 1] + [rows[|rows| - 1]];
    }
  }

  lemma {:induction false} CountSplit(v: View, a: seq<Row>, b: seq<Row>)
    ensures Count(v, a + b) == Count(v, a) + Count(v, b)
  {
    hide Shows;
    if b == [] {
      assert a + b == a;
    } else {
      assert (a + b)[..|a + b| - 1] == a + b[..|b| - 1];
      CountSplit(v, a, b[..|b| - 1]);
    }
  }

  lemma CountAt(v: View, rows: seq<Row>, k: nat, r: Row)
    requires k < |rows|
    ensures Count(v, rows[k := r]) - (if Shows(v, r) then 1 else 0)
      == Count(v, rows) - (if Shows(v, rows[k]) then 1 else 0)
  {
    hide Shows;
    assert rows == (rows[..k] + [rows[k]]) + rows[k + 1..];
    assert rows[k := r] == (rows[..k] + [r]) + rows[k + 1..];
    CountSplit(v, rows[..k] + [rows[k]], rows[k + 1..]);
    CountSplit(v, rows[..k] + [r], rows[k + 1..]);
    CountOne(v, rows[..k], rows[k]);
    CountOne(v, rows[..k], r);
  }

  lemma CountOne(v: View, rows: seq<Row>, r: Row)
    ensures Count(v, rows + [r]) == Count(v, rows) + if Shows(v, r) then 1 else 0
  {
    hide Shows;
    assert (rows + [r])[..|rows|] == rows;
  }

  /** The rows after approving: the one found is marked, nothing else changes. */
  lemma ApproveChangesOne(rows: seq<Row>, op: Op)
    requires IsTable(rows) && op.Approve?
    ensures var k := Found(rows, op.hash);
      Apply(rows, op) == if op.accepted && k.Some? then rows[k.value := ApproveRow(rows[k.value], op.ruleId, op.at)] else rows
  {
    hide IsTable, Swept, Halfway, Found, ApproveRow;
    var k := Found(rows, op.hash);
    HalfwayEnds(rows, op);
    if op.accepted && k.Some? {
      OtherIds(rows, k.value);
      var mark := (x: Row) => ApproveRow(x, op.ruleId, op.at);
      SweptUntouched(rows, op, 0, k.value);
      HalfwayUpdates(rows, op, k.value, mark);
      SweptUntouched(rows, op, k.value + 1, |rows|);
    } else {
      SweptUntouched(rows, op, 0, |rows|);
    }
  }

  /** MAIN: approving moves exactly the found row from review to the upload queue, or changes nothing. */
  lemma ApproveMovesOne(rows: seq<Row>, op: Op)
    requires IsTable(rows) && op.Approve?
    ensures var k, after := Found(rows, op.hash), Apply(rows, op);
      if op.accepted && k.Some? then
        && |after| == |rows| && Shows(Review, rows[k.value]) && Shows(Queue, after[k.value])
        && Parse(after[k.value].payload) == Parse(rows[k.value].payload)
        && (forall j :: 0 <= j < |rows| && j != k.value ==> after[j] == rows[j])
        && Count(Review, after) == Count(Review, rows) - 1
        && Count(Queue, after) == Count(Queue, rows) + 1
        && Count(Hidden, after) == Count(Hidden, rows)
      else after == rows
  {
    hide IsTable, Apply, SqlApproved, SqlTriaged, Parse, Count;
    var k := Found(rows, op.hash);
    ApproveChangesOne(rows, op);
    if op.accepted && k.Some? {
      FoundIsFirst(rows, op.hash);
      var r := rows[k.value];
      var s := ApproveRow(r, op.ruleId, op.at);
      ApprovalMarks(r.payload, op.ruleId, op.at);
      CountAt(Review, rows, k.value, s);
      CountAt(Queue, rows, k.value, s);
      CountAt(Hidden, rows, k.value, s);
    }
  }

  /** The review list only holds unapproved rows, so the second check the lookup makes never skips one. */
  lemma LookupCheckIsRedundant(r: Row, target: string)
    ensures Findable(r, target) <==> InReview(r) && HasHash(r, target)
  {
    hide Parse, SqlTriaged;
    ApprovedBothWays(r.payload);
  }

  // ---- One row, one operation --------------------------------------------------------------------------------

  /** Everything a payload says about triage. */
  function Stored(p: Payload): (Option<Json>, Option<Json>) {
    if p.Valid? && p.json.Obj? then (At(p.json.fields, "localTriage"), At(p.json.fields, "local_triage")) else (None, None)
  }

  /** Triage that no operation will write over: a known one, or one in a payload that does not parse. */
  predicate Settled(p: Payload) { KnownTriage(p) || Parse(p).None? }

  lemma ReviewKeepsStored(p: Payload, key: string, v: Json)
    requires key == "localReview" || key == "localEvidence"
    ensures Stored(WithKey(p, key, v)) == Stored(p)
  {
    MarkKeysAreNew(key);
  }

  lemma OnlyTheFound(rows: seq<Row>, hash: string, r: Row)
    requires IsTable(rows) && r in rows && IsFound(rows, hash, r)
    ensures Findable(r, Trimmed(hash))
  {
    hide Findable, Found;
    FoundIsFirst(rows, hash);
    var k := Found(rows, hash).value;
    OtherIds(rows, k);
    assert r == rows[k];
  }

  /** What no operation does to a row. */
  predicate Kept(r: Row, s: Option<Row>) {
    && (SqlApproved(r.payload) ==> s.Some? && SqlApproved(s.value.payload))
    && (Settled(r.payload) && s.Some? ==> Settled(s.value.payload) && Stored(s.value.payload) == Stored(r.payload))
    && (Settled(r.payload) && TriageHidden(r) && s.Some? ==> TriageHidden(s.value))
    && (Parse(r.payload).None? ==> s == Some(r))
  }

  lemma ApproveKeeps(r: Row, ruleId: string, at: int)
    requires Parse(r.payload).Some?
    ensures Kept(r, Some(ApproveRow(r, ruleId, at)))
  {
    hide Parse, SqlTriaged, SqlApproved, Stored, ApprovalMark;
    var mark := ApprovalMark(ruleId, at);
    ApprovalMarks(r.payload, ruleId, at);
    ReviewKeepsStored(r.payload, "localReview", mark);
  }

  lemma TriageKeeps(r: Row, target: string, t: Triage)
    ensures Kept(r, Some(TriageRow(r, target, t)))
  {
    hide Parse, SqlTriaged, SqlApproved, Stored, TriageMark;
    OtherMarksKeepApproval(r.payload, "localTriage", TriageMark(t));
  }

  lemma EvidenceKeeps(r: Row, target: string, count: nat, at: int)
    ensures Kept(r, Some(EvidenceRow(r, target, count, at)))
  {
    hide Parse, SqlTriaged, SqlApproved, Stored, EvidenceMark;
    if HasHash(r, target) {
      OtherMarksKeepApproval(r.payload, "localEvidence", EvidenceMark(count, at));
      ReviewKeepsStored(r.payload, "localEvidence", EvidenceMark(count, at));
      EvidenceMarks(r.payload, count, at);
    }
  }

  /** No operation takes back an approval or a known triage, and none touches a row that does not parse. */
  lemma StepKeeps(rows: seq<Row>, op: Op, r: Row)
    requires IsTable(rows) && r in rows
    ensures Kept(r, RowAfter(rows, op, r))
  {
    hide Parse, SqlTriaged, SqlApproved, Stored, ApproveRow, TriageRow, EvidenceRow, Found, TriageRequest, Trimmed, IsTable, LocallyApproved;
    ApprovedBothWays(r.payload);
    match op
    case Approve(hash, ruleId, at, accepted) =>
      if accepted && IsFound(rows, hash, r) {
        OnlyTheFound(rows, hash, r);
        ApproveKeeps(r, ruleId, at);
      }
    case SetTriage(hash, status, reason, reference, at) =>
      var t := TriageRequest(hash, status, reason, reference, at);
      if t.Ok? && t.value.Some? {
        TriageKeeps(r, Trimmed(hash), t.value.value);
      }
    case SetEvidence(hash, count, at) =>
      EvidenceKeeps(r, Trimmed(hash), count, at);
    case Reject(hash) =>
      if IsFound(rows, hash, r) {
        OnlyTheFound(rows, hash, r);
      }
    case _ =>
  }

  // ---- Rows by id ----------------------------------------------------------------------------------------------

  function RowOf(rows: seq<Row>, id: int): Option<Row> {
    if rows == [] then None
    else if rows[|rows| - 1].id == id then Some(rows[|rows| - 1])
    else RowOf(rows[..|rows| - 1], id)
  }

  lemma {:induction false} RowOfIs(rows: seq<Row>, id: int)
    ensures RowOf(rows, id).Some? ==> RowOf(rows, id).value in rows && RowOf(rows, id).value.id == id
    ensures RowOf(rows, id).None? <==> forall x :: x in rows ==> x.id != id
  {
    if rows != [] {
      RowOfIs(rows[..|rows| - 1], id);
      assert rows == rows[..|rows| - 1] + [rows[|rows| - 1]];
    }
  }

  lemma SameId(rows: seq<Row>, a: Row, b: Row)
    requires IsTable(rows) && a in rows && b in rows && a.id == b.id
    ensures a == b
  {
    var k :| 0 <= k < |rows| && rows[k] == a;
    OtherIds(rows, k);
  }

  lemma {:induction false} SweptRow(rows: seq<Row>, op: Op, n: nat, id: int)
    requires IsTable(rows) && n <= |rows|
    ensures RowOf(Swept(rows, op, n), id)
      == var r := RowOf(rows[..n], id); if r.None? then None else RowAfter(rows, op, r.value)
  {
    hide IsTable, RowAfter;
    if n > 0 {
      SweptRow(rows, op, n - 1, id);
      RowKeepsPlace(rows, op, rows[n - 1]);
      assert rows[..n][..n - 1] == rows[..n - 1];
      var front := Swept(rows, op, n - 1);
      if rows[n - 1].id == id {
        SweptMisses(rows, op, n - 1);
        RowOfIs(front, id);
      }
      if RowAfter(rows, op, rows[n - 1]).Some? {
        assert (front + [RowAfter(rows, op, rows[n - 1]).value])[..|front|] == front;
      }
    }
  }

  /** An operation acts on every row by itself. */
  lemma ApplyRow(rows: seq<Row>, op: Op, id: int)
    requires IsTable(rows)
    ensures var r := RowOf(rows, id);
      r.Some? ==> RowOf(Apply(rows, op), id) == RowAfter(rows, op, r.value)
  {
    hide IsTable, RowAfter, Swept, Inserted;
    if op.Enqueue? {
      assert forall r :: RowAfter(rows, op, r) == Some(r) by { EnqueueKeeps(rows, op); }
      if !HasId(rows, op.row.id) && RowOf(rows, id).Some? {
        InsertedIsTable(rows, op.row);
        var after := Inserted(rows, op.row);
        RowOfIs(rows, id);
        RowOfIs(after, id);
        SameId(after, RowOf(after, id).value, RowOf(rows, id).value);
      }
    } else {
      SweptRow(rows, op, |rows|, id);
      assert rows[..|rows|] == rows;
    }
  }

  lemma EnqueueKeeps(rows: seq<Row>, op: Op)
    requires op.Enqueue?
    ensures forall r :: RowAfter(rows, op, r) == Some(r)
  {
  }

  // ---- Whole runs ------------------------------------------------------------------------------------------------

  function After(rows: seq<Row>, ops: seq<Op>): seq<Row> {
    if ops == [] then rows else Apply(After(rows, ops[..|ops| - 1]), ops[|ops| - 1])
  }

  lemma {:induction false} AfterIsTable(rows: seq<Row>, ops: seq<Op>)
    requires IsTable(rows)
    ensures IsTable(After(rows, ops))
  {
    hide IsTable;
    if ops != [] {
      AfterIsTable(rows, ops[..|ops| - 1]);
      ApplyIsTable(After(rows, ops[..|ops| - 1]), ops[|ops| - 1]);
    }
  }

  lemma LastStep(rows: seq<Row>, ops: seq<Op>, id: int)
    requires IsTable(rows) && ops != [] && RowOf(After(rows, ops[..|ops| - 1]), id).Some?
    ensures var before, now := RowOf(After(rows, ops[..|ops| - 1]), id), RowOf(After(rows, ops), id);
      Kept(before.value, now)
  {
    hide IsTable, Kept, RowAfter, Apply;
    var front := After(rows, ops[..|ops| - 1]);
    AfterIsTable(rows, ops[..|ops| - 1]);
    ApplyRow(front, ops[|ops| - 1], id);
    RowOfIs(front, id);
    StepKeeps(front, ops[|ops| - 1], RowOf(front, id).value);
  }

  /** MAIN: an approved row stays in the table and stays approved through every sequence of operations. */
  lemma {:induction false} ApprovedForever(rows: seq<Row>, ops: seq<Op>, id: int)
    requires IsTable(rows) && RowOf(rows, id).Some? && SqlApproved(RowOf(rows, id).value.payload)
    ensures var r := RowOf(After(rows, ops), id); r.Some? && SqlApproved(r.value.payload)
  {
    hide IsTable, SqlApproved, Apply, Settled, Stored;
    if ops != [] {
      ApprovedForever(rows, ops[..|ops| - 1], id);
      LastStep(rows, ops, id);
    }
  }

  /** The row has been in the table all the time up to step `n`. */
  ghost predicate Present(rows: seq<Row>, ops: seq<Op>, id: int, n: nat)
    requires n <= |ops|
  {
    forall m :: 0 <= m <= n ==> RowOf(After(rows, ops[..m]), id).Some?
  }

  /** MAIN: a known triage status is never overwritten: while the row is in the table, its triage is
      stored as it was, and what it hid stays hidden. */
  lemma {:induction false} TriageForever(rows: seq<Row>, ops: seq<Op>, id: int, n: nat)
    requires IsTable(rows) && RowOf(rows, id).Some? && Settled(RowOf(rows, id).value.payload)
    requires n <= |ops| && Present(rows, ops, id, n)
    ensures RowOf(After(rows, ops[..n]), id).Some?
    ensures
      var r, s := RowOf(rows, id).value, RowOf(After(rows, ops[..n]), id).value;
      Stored(s.payload) == Stored(r.payload) && Settled(s.payload) && (TriageHidden(r) ==> TriageHidden(s))
  {
    hide IsTable, SqlApproved, Apply, Settled, Stored, TriageHidden;
    if n > 0 {
      TriageForever(rows, ops, id, n - 1);
      assert ops[..n][..n - 1] == ops[..n - 1];
      LastStep(rows, ops[..n], id);
    } else {
      assert ops[..0] == [];
    }
  }

  // ---- Moves between the views -----------------------------------------------------------------------------------

  predicate SameView(r: Row, s: Row) { forall v :: Shows(v, r) <==> Shows(v, s) }

  lemma TriageView(r: Row, t: Triage)
    requires r.session && Parse(r.payload).Some?
    ensures var s := r.(payload := WithKey(r.payload, "localTriage", TriageMark(t)));
      && (TriageHidden(s) <==> !t.status.Unknown?)
      && (SqlApproved(s.payload) <==> SqlApproved(r.payload))
  {
    hide Parse, SqlTriaged, SqlApproved, TriageMark;
    TriageMarks(r.payload, t);
    OtherMarksKeepApproval(r.payload, "localTriage", TriageMark(t));
  }

  /** MAIN: every way a session-mined row changes view or leaves the table. */
  lemma ViewMoves(rows: seq<Row>, op: Op, r: Row)
    requires IsTable(rows) && r in rows && r.session
    ensures var s := RowAfter(rows, op, r);
      if s.Some? && !SameView(r, s.value) then
        || (op.Approve? && InReview(r) && InQueue(s.value))
        || (op.SetTriage? && !op.status.Unknown? && !TriageHidden(r) && TriageHidden(s.value))
        || (op.SetTriage? && op.status.Unknown? && TriageHidden(r) && !Settled(r.payload) && !TriageHidden(s.value))
      else if s.None? then
        !SqlApproved(r.payload) && (op.DeleteByHash? || op.DeleteDropped? || (op.Reject? && InReview(r)))
      else true
  {
    hide Parse, SqlTriaged, SqlApproved, Stored, Found, Trimmed, IsTable, LocallyApproved, TriageMark, EvidenceMark, ApprovalMark;
    ApprovedBothWays(r.payload);
    match op
    case Approve(hash, ruleId, at, accepted) =>
      if accepted && IsFound(rows, hash, r) {
        OnlyTheFound(rows, hash, r);
        ApprovalMarks(r.payload, ruleId, at);
      }
    case SetTriage(hash, status, reason, reference, at) =>
      var t := TriageRequest(hash, status, reason, reference, at);
      if t.Ok? && t.value.Some? && HasHash(r, Trimmed(hash)) && !KnownTriage(r.payload) {
        TriageView(r, t.value.value);
      }
    case SetEvidence(hash, count, at) =>
      if HasHash(r, Trimmed(hash)) {
        EvidenceMarks(r.payload, count, at);
        OtherMarksKeepApproval(r.payload, "localEvidence", EvidenceMark(count, at));
      }
    case Reject(hash) =>
      if IsFound(rows, hash, r) {
        OnlyTheFound(rows, hash, r);
      }
    case _ =>
  }

  // ---- When hidden means hidden for good ---------------------------------------------------------------------------

  lemma {:induction false} TrimEndKeeps(s: string)
    ensures TrimEnd(s) != "" ==> s != "" && TrimEnd(s)[0] == s[0]
    ensures TrimEnd(TrimEnd(s)) == TrimEnd(s)
  {
    if s != "" && IsWhitespace(s[|s| - 1]) {
      TrimEndKeeps(s[..|s| - 1]);
    }
  }

  lemma {:induction false} TrimStartKeeps(s: string)
    ensures TrimStart(s) != "" ==> !IsWhitespace(TrimStart(s)[0])
  {
    if s != "" && IsWhitespace(s[0]) {
      TrimStartKeeps(s[1..]);
    }
  }

  lemma TrimTwice(s: string)
    ensures Trimmed(Trimmed(s)) == Trimmed(s)
  {
    hide TrimEnd;
    TrimStartKeeps(s);
    TrimEndKeeps(TrimStart(s));
    var t := Trimmed(s);
    assert TrimStart(t) == t;
  }

  /** Whether a triage request can name this row at all. */
  predicate Nameable(r: Row) {
    Parse(r.payload).Some? && Parse(r.payload).value.hash != "" && Trimmed(Parse(r.payload).value.hash) == Parse(r.payload).value.hash
  }

  /** A triage no request can ever change. */
  predicate Sealed(r: Row) { Settled(r.payload) || !Nameable(r) }

  /** Nothing but the deletion of dropped rows ever touches a row that no request can name. */
  lemma UnnameableIsFrozen(rows: seq<Row>, op: Op, r: Row)
    requires IsTable(rows) && r in rows && !Nameable(r)
    ensures RowAfter(rows, op, r) == Some(r) || RowAfter(rows, op, r) == None
  {
    hide Parse, Trimmed, TriageMark, EvidenceMark, ApprovalMark, Found, IsTable, LocallyApproved, SqlTriaged, SqlApproved, KnownTriage;
    match op
    case Approve(hash, _, _, accepted) =>
      if accepted && IsFound(rows, hash, r) {
        OnlyTheFound(rows, hash, r);
        FoundHash(rows, hash);
        TrimTwice(hash);
      }
    case SetTriage(hash, _, _, _, _) => TrimTwice(hash);
    case SetEvidence(hash, _, _) => TrimTwice(hash);
    case _ =>
  }

  lemma FoundHash(rows: seq<Row>, hash: string)
    requires Found(rows, hash).Some?
    ensures Trimmed(hash) != ""
  {
    hide Findable, Trimmed;
  }

  /** One operation leaves a sealed and hidden row sealed and hidden, or deletes it. */
  lemma SealedStep(rows: seq<Row>, op: Op, r: Row)
    requires IsTable(rows) && r in rows && Sealed(r) && TriageHidden(r)
    ensures var s := RowAfter(rows, op, r); s.Some? ==> Sealed(s.value) && TriageHidden(s.value)
  {
    hide Parse, SqlTriaged, SqlApproved, Trimmed, IsTable, RowAfter, TriageHidden, Stored;
    if Settled(r.payload) {
      StepKeeps(rows, op, r);
    } else {
      UnnameableIsFrozen(rows, op, r);
    }
  }

  /** As long as the row stays in the table, it is hidden. */
  ghost predicate HiddenAlong(rows: seq<Row>, ops: seq<Op>, id: int) {
    forall n :: 0 <= n <= |ops| && Present(rows, ops, id, n) ==> TriageHidden(RowOf(After(rows, ops[..n]), id).value)
  }

  lemma RunStep(rows: seq<Row>, ops: seq<Op>, id: int, n: nat)
    requires IsTable(rows) && 0 < n <= |ops| && Present(rows, ops, id, n)
    ensures Present(rows, ops, id, n - 1)
    ensures var front := After(rows, ops[..n - 1]);
      && IsTable(front) && RowOf(front, id).Some? && RowOf(front, id).value in front
      && RowOf(After(rows, ops[..n]), id) == RowAfter(front, ops[n - 1], RowOf(front, id).value)
      && RowAfter(front, ops[n - 1], RowOf(front, id).value).Some?
  {
    hide IsTable, RowAfter, Apply;
    var front := After(rows, ops[..n - 1]);
    assert ops[..n][..n - 1] == ops[..n - 1];
    AfterIsTable(rows, ops[..n - 1]);
    assert RowOf(After(rows, ops[..n]), id).Some?;
    ApplyRow(front, ops[n - 1], id);
    RowOfIs(front, id);
  }

  lemma {:induction false} SealedAlong(rows: seq<Row>, ops: seq<Op>, id: int, n: nat)
    requires IsTable(rows) && RowOf(rows, id).Some? && Sealed(RowOf(rows, id).value) && TriageHidden(RowOf(rows, id).value)
    requires n <= |ops| && Present(rows, ops, id, n)
    ensures RowOf(After(rows, ops[..n]), id).Some?
    ensures var s := RowOf(After(rows, ops[..n]), id).value; Sealed(s) && TriageHidden(s)
  {
    hide IsTable, RowAfter, Apply, Sealed, TriageHidden;
    if n > 0 {
      RunStep(rows, ops, id, n);
      SealedAlong(rows, ops, id, n - 1);
      SealedStep(After(rows, ops[..n - 1]), ops[n - 1], RowOf(After(rows, ops[..n - 1]), id).value);
    } else {
      assert ops[..0] == [];
    }
  }

  /** MAIN: the query hides a row by its status in any letter case, the parser only knows the exact
      names. A hidden row stays hidden through every sequence of operations, for as long as it is in the
      table, exactly when its triage is settled or no request can name it; otherwise a request with the
      status `unknown` brings it back. */
  lemma HiddenForGood(rows: seq<Row>, id: int)
    requires IsTable(rows) && RowOf(rows, id).Some? && TriageHidden(RowOf(rows, id).value)
    ensures (forall ops: seq<Op> :: HiddenAlong(rows, ops, id)) <==> Sealed(RowOf(rows, id).value)
  {
    hide Parse, SqlTriaged, SqlApproved, Trimmed, IsTable, RowAfter, TriageHidden, Apply, Settled;
    var r := RowOf(rows, id).value;
    if Sealed(r) {
      forall ops: seq<Op>
        ensures HiddenAlong(rows, ops, id)
      {
        forall n | 0 <= n <= |ops| && Present(rows, ops, id, n)
          ensures TriageHidden(RowOf(After(rows, ops[..n]), id).value)
        {
          SealedAlong(rows, ops, id, n);
        }
      }
    } else {
      var op := SetTriage(Parse(r.payload).value.hash, Unknown, "x", None, 0);
      RowOfIs(rows, id);
      HiddenIsSession(r);
      UnknownReturns(rows, op, r);
      ApplyRow(rows, op, id);
      OneStep(rows, op);
      assert [op][..1] == [op] && [op][..0] == [];
      assert Present(rows, [op], id, 1);
      assert !HiddenAlong(rows, [op], id);
    }
  }

  lemma HiddenIsSession(r: Row)
    requires TriageHidden(r)
    ensures r.session
  {
  }

  lemma OneStep(rows: seq<Row>, op: Op)
    ensures After(rows, []) == rows && After(rows, [op]) == Apply(rows, op)
  {
    hide Apply;
    assert [op][..0] == [];
  }

  predicate AsksUnknown(op: Op) { op.SetTriage? && op.status.Unknown? }

  /** Without a request for the status `unknown`, which no command sends, hidden rows stay hidden however
      their status is spelled. */
  lemma {:induction false} HiddenWithoutUnknown(rows: seq<Row>, ops: seq<Op>, id: int, n: nat)
    requires IsTable(rows) && RowOf(rows, id).Some? && TriageHidden(RowOf(rows, id).value)
    requires forall i :: 0 <= i < |ops| ==> !AsksUnknown(ops[i])
    requires n <= |ops| && Present(rows, ops, id, n)
    ensures RowOf(After(rows, ops[..n]), id).Some?
    ensures TriageHidden(RowOf(After(rows, ops[..n]), id).value)
  {
    hide IsTable, RowAfter, Apply, TriageHidden, SameView, Settled, SqlApproved, InReview, InQueue;
    if n > 0 {
      RunStep(rows, ops, id, n);
      HiddenWithoutUnknown(rows, ops, id, n - 1);
      var front := After(rows, ops[..n - 1]);
      var r := RowOf(front, id).value;
      HiddenIsSession(r);
      ViewMoves(front, ops[n - 1], r);
      HiddenIsNotReview(r);
      if SameView(r, RowAfter(front, ops[n - 1], r).value) {
        HiddenSameView(r, RowAfter(front, ops[n - 1], r).value);
      }
    } else {
      assert ops[..0] == [];
    }
  }

  lemma HiddenIsNotReview(r: Row)
    requires TriageHidden(r)
    ensures !InReview(r)
  {
  }

  lemma HiddenSameView(r: Row, s: Row)
    requires TriageHidden(r) && SameView(r, s)
    ensures TriageHidden(s)
  {
    hide SqlTriaged, SqlApproved;
    assert Shows(Hidden, r);
  }

  lemma UnknownReturns(rows: seq<Row>, op: Op, r: Row)
    requires r.session && Nameable(r) && !Settled(r.payload)
    requires op == SetTriage(Parse(r.payload).value.hash, Unknown, "x", None, 0)
    ensures RowAfter(rows, op, r).Some? && !TriageHidden(RowAfter(rows, op, r).value)
  {
    hide Parse, SqlTriaged, TriageMark, TriageRequest, Trimmed;
    UnknownRequest(op.hash);
    TriageView(r, Triage(Unknown, "x", None, 0));
  }

  lemma UnknownRequest(hash: string)
    requires hash != "" && Trimmed(hash) == hash
    ensures TriageRequest(hash, Unknown, "x", None, 0) == Ok(Some(Triage(Unknown, "x", None, 0)))
  {
    hide TrimStart, TrimEnd;
    TrimmedLetter("x");
  }

  lemma TrimmedLetter(s: string)
    requires |s| == 1 && !IsWhitespace(s[0])
    ensures TrimStart(s) == s && TrimEnd(s) == s
  {
  }

  /** A triage known only under the field's older name is invisible to the query and closed to every
      later request: an unapproved row with one stays in review until it is deleted. */
  lemma OldNameStaysInReview(rows: seq<Row>, op: Op, r: Row)
    requires r.session && KnownTriage(r.payload) && "local_triage" in r.payload.json.fields && op.SetTriage?
    ensures !TriageHidden(r) && RowAfter(rows, op, r) == Some(r)
  {
    hide HasBody, ParseTriage, ParseEvidence, Trimmed, TriageRequest;
    assert "localTriage" !in r.payload.json.fields;
  }

  /** A triage record whose status is spelled in another letter case. */
  function OtherCase(): Object {
    map["status" := Str("Superseded_By"), "reason" := Str("x"), "at" := Int(1)]
  }

  /** With such a record any candidate is hidden from review, and yet a request can bring it back. */
  lemma OtherCaseComesBack(body: Object)
    requires HasBody(body) && "local_triage" !in body && "local_evidence" !in body && "localEvidence" !in body
    requires body["content_hash"].s != "" && Trimmed(body["content_hash"].s) == body["content_hash"].s
    ensures var r := Row(1, true, 0, Valid(Obj(body["localTriage" := Obj(OtherCase())])), "pending", 0);
      TriageHidden(r) && !(forall ops: seq<Op> :: HiddenAlong([r], ops, 1))
  {
    hide OtherCase, HasBody, Trimmed;
    var r := Row(1, true, 0, Valid(Obj(body["localTriage" := Obj(OtherCase())])), "pending", 0);
    OtherCaseIsUnknown();
    BodySurvives(body, "localTriage", Obj(OtherCase()));
    MarkKeysAreNew("localTriage");
    assert StatusAt(r.payload, "localTriage") == Some(Str("Superseded_By"));
    assert Parse(r.payload).value.triage == ParseTriage(Some(Obj(OtherCase())));
    assert Nameable(r) && !Settled(r.payload);
    HiddenForGood([r], 1);
  }

  lemma OtherCaseIsUnknown()
    ensures At(OtherCase(), "status") == Some(Str("Superseded_By")) && Lower("Superseded_By") == "superseded_by"
    ensures ParseTriage(Some(Obj(OtherCase()))) == Some(Triage(Unknown, "x", None, 1))
  {
    assert "status"[0] == 's' && "reason"[0] == 'r' && "at"[0] == 'a' && "ref"[0] == 'r' && "ref"[2] == 'f' && "reason"[2] == 'a';
    assert "Superseded_By"[0] == 'S' && "superseded_by"[0] == 's' && "clustered_into"[0] == 'c' && "dropped_low_signal"[0] == 'd';
  }
}
