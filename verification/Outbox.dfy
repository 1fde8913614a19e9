/** The inbox operations as they change the outbox table, statement by statement. */
module Outbox {
  import opened Wrappers
  import opened InboxRows
  import opened Inbox

  /** `UPDATE ... WHERE id = ?`. */
  function UpdateById(rows: seq<Row>, id: int, f: Row -> Row): (r: seq<Row>)
    ensures |r| == |rows| && forall i :: 0 <= i < |r| ==> r[i] == if rows[i].id == id then f(rows[i]) else rows[i]
  {
    seq(|rows|, i requires 0 <= i < |rows| => if rows[i].id == id then f(rows[i]) else rows[i])
  }

  /** `DELETE ... WHERE id = ?`. */
  function DeleteById(rows: seq<Row>, id: int): seq<Row> {
    if rows == [] then []
    else if rows[|rows| - 1].id == id then DeleteById(rows[..|rows| - 1], id)
    else DeleteById(rows[..|rows| - 1], id) + [rows[|rows| - 1]]
  }

  lemma {:induction false} DeleteMisses(rows: seq<Row>, id: int)
    requires forall i :: 0 <= i < |rows| ==> rows[i].id != id
    ensures DeleteById(rows, id) == rows
  {
    if rows != [] {
      DeleteMisses(rows[..|rows| - 1], id);
      assert rows == rows[..|rows| - 1] + [rows[|rows| - 1]];
    }
  }

  lemma {:induction false} DeleteHits(a: seq<Row>, r: Row, b: seq<Row>)
    requires forall i :: 0 <= i < |a| ==> a[i].id != r.id
    requires forall i :: 0 <= i < |b| ==> b[i].id != r.id
    ensures DeleteById(a + [r] + b, r.id) == a + b
  {
    if b == [] {
      assert a + [r] + b == a + [r] && (a + [r])[..|a|] == a && a + b == a;
      DeleteMisses(a, r.id);
    } else {
      var front, last := b[..|b| - 1], b[|b| - 1];
      DeleteHits(a, r, front);
      assert (a + [r] + b)[..|a + [r] + b| - 1] == a + [r] + front;
      assert a + front + [last] == a + b;
    }
  }

  // ---- Sweeping the table row by row ---------------------------------------------------------------------------

  /** The table while an operation has visited the first `i` rows. */
  function Halfway(rows: seq<Row>, op: Op, i: nat): seq<Row>
    requires i <= |rows|
  {
    Swept(rows, op, i) + rows[i..]
  }

  lemma SweptMisses(rows: seq<Row>, op: Op, i: nat)
    requires i < |rows| && IsTable(rows)
    ensures forall k :: 0 <= k < |Swept(rows, op, i)| ==> Swept(rows, op, i)[k].id != rows[i].id
    ensures forall j :: i < j < |rows| ==> rows[j].id != rows[i].id
  {
    forall k | 0 <= k < |Swept(rows, op, i)|
      ensures Swept(rows, op, i)[k].id != rows[i].id
    {
      var j := SweptSource(rows, op, i, k);
    }
  }

  lemma HalfwayUpdates(rows: seq<Row>, op: Op, i: nat, f: Row -> Row)
    requires i < |rows| && IsTable(rows) && RowAfter(rows, op, rows[i]) == Some(f(rows[i]))
    ensures UpdateById(Halfway(rows, op, i), rows[i].id, f) == Halfway(rows, op, i + 1)
  {
    hide RowAfter, IsTable;
    SweptMisses(rows, op, i);
    var a, b := Swept(rows, op, i), rows[i + 1..];
    assert Halfway(rows, op, i) == a + [rows[i]] + b;
    assert Halfway(rows, op, i + 1) == a + [f(rows[i])] + b;
  }

  lemma HalfwayDeletes(rows: seq<Row>, op: Op, i: nat)
    requires i < |rows| && IsTable(rows) && RowAfter(rows, op, rows[i]) == None
    ensures DeleteById(Halfway(rows, op, i), rows[i].id) == Halfway(rows, op, i + 1)
  {
    hide RowAfter, IsTable, DeleteById;
    SweptMisses(rows, op, i);
    var a, b := Swept(rows, op, i), rows[i + 1..];
    assert Halfway(rows, op, i) == a + [rows[i]] + b;
    assert forall k :: 0 <= k < |b| ==> b[k] == rows[i + 1 + k];
    DeleteHits(a, rows[i], b);
  }

  lemma HalfwaySkips(rows: seq<Row>, op: Op, i: nat)
    requires i < |rows| && RowAfter(rows, op, rows[i]) == Some(rows[i])
    ensures Halfway(rows, op, i) == Halfway(rows, op, i + 1)
  {
    hide RowAfter;
  }

  /** An operation on one row alone. */
  lemma {:induction false} SweptUntouched(rows: seq<Row>, op: Op, i: nat, n: nat)
    requires i <= n <= |rows|
    requires forall j :: i <= j < n ==> RowAfter(rows, op, rows[j]) == Some(rows[j])
    ensures Halfway(rows, op, i) == Halfway(rows, op, n)
  {
    hide RowAfter, Halfway;
    if i < n {
      SweptUntouched(rows, op, i, n - 1);
      HalfwaySkips(rows, op, n - 1);
    }
  }

  lemma HalfwayEnds(rows: seq<Row>, op: Op)
    ensures Halfway(rows, op, 0) == rows && Halfway(rows, op, |rows|) == Swept(rows, op, |rows|)
  {
    hide RowAfter;
  }

  /** The first row an operation changes. */
  function FirstChanged(rows: seq<Row>, op: Op, n: nat): Option<int>
    requires n <= |rows|
  {
    if n == 0 then None
    else if FirstChanged(rows, op, n - 1).Some? then FirstChanged(rows, op, n - 1)
    else if Touches(rows, op, rows[n - 1]) then Some(rows[n - 1].id)
    else None
  }

  /** Whether the row is selected for the update of a triage or evidence request. */
  predicate Touches(rows: seq<Row>, op: Op, r: Row) {
    match op
    case SetTriage(hash, _, _, _, _) => HasHash(r, Trimmed(hash)) && !KnownTriage(r.payload)
    case SetEvidence(hash, count, _) => HasHash(r, Trimmed(hash)) && Parse(r.payload).value.evidence != Some(count)
    case _ => RowAfter(rows, op, r) != Some(r)
  }

  /** The ids an operation deletes, in query order. */
  function DeletedIds(rows: seq<Row>, op: Op, n: nat): seq<int>
    requires n <= |rows|
  {
    if n == 0 then []
    else DeletedIds(rows, op, n - 1) + (if RowAfter(rows, op, rows[n - 1]).None? then [rows[n - 1].id] else [])
  }

  class Table {
    var rows: seq<Row>

    ghost predicate Valid()
      reads this
    {
      IsTable(rows)
    }

    /** `set_candidate_triage`. */
    method Triage(hash: string, status: TriageStatus, reason: string, reference: Option<string>, at: int)
      returns (r: Result<Option<int>>)
      requires Valid()
      modifies this
      ensures Valid()
      ensures var op := SetTriage(hash, status, reason, reference, at);
        var request := TriageRequest(hash, status, reason, reference, at);
        && rows == Apply(old(rows), op)
        && (r.Err? <==> request.Err?)
        && (r.Err? ==> r.error == request.error)
        && (r.Ok? ==> r.value == if request.value.None? then None else FirstChanged(old(rows), op, |old(rows)|))
    {
      hide IsTable, RowAfter, Swept, KnownTriage, Parse, HasHash, Halfway, FirstChanged, Trimmed;
      ghost var op := SetTriage(hash, status, reason, reference, at);
      var snapshot := rows;
      ApplyIsTable(snapshot, op);
      HalfwayEnds(snapshot, op);
      var request := TriageRequest(hash, status, reason, reference, at);
      if request.Err? || request.value.None? {
        forall j | 0 <= j < |snapshot|
          ensures RowAfter(snapshot, op, snapshot[j]) == Some(snapshot[j])
        {
          NoRequest(snapshot, op, snapshot[j]);
        }
        SweptUntouched(snapshot, op, 0, |snapshot|);
        return if request.Err? then Err(request.error) else Ok(None);
      }
      var target, t := Trimmed(hash), request.value.value;
      var updated: Option<int> := None;
      FirstChangedStarts(snapshot, op);
      for i := 0 to |snapshot|
        invariant rows == Halfway(snapshot, op, i)
        invariant updated == FirstChanged(snapshot, op, i)
      {
        var row := snapshot[i];
        TriageRequested(snapshot, op, row, t);
        FirstChangedStep(snapshot, op, i);
        if HasHash(row, target) && !KnownTriage(row.payload) {
          var mark := (x: Row) => x.(payload := WithKey(x.payload, "localTriage", TriageMark(t)));
          HalfwayUpdates(snapshot, op, i, mark);
          rows := UpdateById(rows, row.id, mark);
          if updated.None? {
            updated := Some(row.id);
          }
        } else {
          HalfwaySkips(snapshot, op, i);
        }
      }
      r := Ok(updated);
    }

    /** `set_candidate_distinct_evidence_count`. */
    method Evidence(hash: string, count: nat, at: int) returns (updated: Option<int>)
      requires Valid()
      modifies this
      ensures Valid()
      ensures rows == Apply(old(rows), SetEvidence(hash, count, at))
      ensures updated == if Trimmed(hash) == "" || count == 0 then None
        else FirstChanged(old(rows), SetEvidence(hash, count, at), |old(rows)|)
    {
      hide IsTable, Swept, Parse, Halfway, FirstChanged, Trimmed;
      ghost var op := SetEvidence(hash, count, at);
      var snapshot := rows;
      ApplyIsTable(snapshot, op);
      HalfwayEnds(snapshot, op);
      updated := None;
      if Trimmed(hash) == "" || count == 0 {
        SweptUntouched(snapshot, op, 0, |snapshot|);
        return;
      }
      FirstChangedStarts(snapshot, op);
      for i := 0 to |snapshot|
        invariant rows == Halfway(snapshot, op, i)
        invariant updated == FirstChanged(snapshot, op, i)
      {
        var row := snapshot[i];
        FirstChangedStep(snapshot, op, i);
        if HasHash(row, Trimmed(hash)) && Parse(row.payload).value.evidence != Some(count) {
          var mark := (x: Row) => x.(payload := WithKey(x.payload, "localEvidence", EvidenceMark(count, at)));
          HalfwayUpdates(snapshot, op, i, mark);
          rows := UpdateById(rows, row.id, mark);
          if updated.None? {
            updated := Some(row.id);
          }
        } else {
          HalfwaySkips(snapshot, op, i);
        }
      }
    }

    /** `delete_session_mined_candidates_by_content_hash` and
        `delete_dropped_low_signal_session_mined_candidates`. */
    method Delete(op: Op) returns (deleted: seq<int>)
      requires Valid() && (op.DeleteByHash? || op.DeleteDropped?)
      modifies this
      ensures Valid()
      ensures rows == Apply(old(rows), op)
      ensures deleted == DeletedIds(old(rows), op, |old(rows)|)
    {
      hide IsTable, Swept, Halfway, DeletedIds, RowAfter, DeleteById;
      var snapshot := rows;
      ApplyIsTable(snapshot, op);
      HalfwayEnds(snapshot, op);
      deleted := [];
      DeletedStarts(snapshot, op);
      for i := 0 to |snapshot|
        invariant rows == Halfway(snapshot, op, i)
        invariant deleted == DeletedIds(snapshot, op, i)
      {
        var row := snapshot[i];
        DeletedStep(snapshot, op, i);
        DeleteRequested(snapshot, op, row);
        if Deletable(op, row) {
          HalfwayDeletes(snapshot, op, i);
          rows := DeleteById(rows, row.id);
          deleted := deleted + [row.id];
        } else {
          HalfwaySkips(snapshot, op, i);
          assert deleted + [] == deleted;
        }
      }
    }

    /** `find_session_mined_row_by_content_hash`. */
    method Find(hash: string) returns (k: Option<nat>)
      ensures k == Found(rows, hash)
    {
      hide Findable, Trimmed;
      if Trimmed(hash) == "" {
        return None;
      }
      for i := 0 to |rows|
        invariant Found(rows[..i], hash).None?
      {
        assert rows[..i + 1][..i] == rows[..i];
        if Findable(rows[i], Trimmed(hash)) {
          FoundStays(rows, hash, i + 1);
          return Some(i);
        }
      }
      assert rows[..|rows|] == rows;
      k := None;
    }

    /** The marking part of `approve_session_mined_candidate` and of
        `mark_session_mined_candidate_approved_for_rule`. */
    method ApproveCandidate(hash: string, ruleId: string, at: int, accepted: bool) returns (id: Option<int>)
      requires Valid()
      modifies this
      ensures Valid()
      ensures rows == Apply(old(rows), Approve(hash, ruleId, at, accepted))
      ensures id == if accepted && Found(old(rows), hash).Some? then Some(old(rows)[Found(old(rows), hash).value].id) else None
    {
      hide IsTable, Swept, Halfway, Found;
      ghost var op := Approve(hash, ruleId, at, accepted);
      var snapshot := rows;
      ApplyIsTable(snapshot, op);
      HalfwayEnds(snapshot, op);
      var k := Find(hash);
      if k.None? || !accepted {
        SweptUntouched(snapshot, op, 0, |snapshot|);
        return None;
      }
      var mark := (x: Row) => ApproveRow(x, ruleId, at);
      OtherIds(snapshot, k.value);
      SweptUntouched(snapshot, op, 0, k.value);
      HalfwayUpdates(snapshot, op, k.value, mark);
      SweptUntouched(snapshot, op, k.value + 1, |snapshot|);
      rows := UpdateById(rows, snapshot[k.value].id, mark);
      id := Some(snapshot[k.value].id);
    }

    /** `reject_session_mined_candidate`. */
    method RejectCandidate(hash: string) returns (id: Option<int>)
      requires Valid()
      modifies this
      ensures Valid()
      ensures rows == Apply(old(rows), Reject(hash))
      ensures id == if Found(old(rows), hash).Some? then Some(old(rows)[Found(old(rows), hash).value].id) else None
    {
      hide IsTable, Swept, Halfway, Found, DeleteById;
      ghost var op := Reject(hash);
      var snapshot := rows;
      ApplyIsTable(snapshot, op);
      HalfwayEnds(snapshot, op);
      var k := Find(hash);
      if k.None? {
        SweptUntouched(snapshot, op, 0, |snapshot|);
        return None;
      }
      OtherIds(snapshot, k.value);
      SweptUntouched(snapshot, op, 0, k.value);
      HalfwayDeletes(snapshot, op, k.value);
      SweptUntouched(snapshot, op, k.value + 1, |snapshot|);
      rows := DeleteById(rows, snapshot[k.value].id);
      id := Some(snapshot[k.value].id);
    }
  }

  // ---- The review section ------------------------------------------------------------------------------------------

  /** The rows the review query lists, in order. */
  function ReviewList(rows: seq<Row>): (r: seq<Row>)
    ensures |r| <= |rows|
  {
    if rows == [] then []
    else if InReview(rows[|rows| - 1]) then ReviewList(rows[..|rows| - 1]) + [rows[|rows| - 1]]
    else ReviewList(rows[..|rows| - 1])
  }

  /** The ids of those rows that parse, or of those that do not. */
  function ParsedIds(rows: seq<Row>, parsed: bool): seq<int> {
    if rows == [] then []
    else
      ParsedIds(rows[..|rows| - 1], parsed)
      + (if Parse(rows[|rows| - 1].payload).Some? == parsed then [rows[|rows| - 1].id] else [])
  }

  /** The ids of those rows that parse and then fail validation. */
  function InvalidIds(rows: seq<Row>, valid: Candidate -> bool): seq<int> {
    if rows == [] then []
    else
      var c := Parse(rows[|rows| - 1].payload);
      InvalidIds(rows[..|rows| - 1], valid) + (if c.Some? && !valid(c.value) then [rows[|rows| - 1].id] else [])
  }

  /** `load_session_mined_section`: the count, the candidates shown, and the rows warned about because they
      do not parse or, although they are shown, do not validate. */
  method LoadSection(rows: seq<Row>, limit: nat, valid: Candidate -> bool)
    returns (count: nat, latest: seq<int>, unparsed: seq<int>, invalid: seq<int>)
    ensures count == |ReviewList(rows)|
    ensures var shown := ReviewList(rows)[..if limit < count then limit else count];
      && latest == ParsedIds(shown, true)
      && unparsed == ParsedIds(shown, false)
      && invalid == InvalidIds(shown, valid)
      && |latest| + |unparsed| == |shown| && |invalid| <= |latest|
  {
    hide InReview, Parse;
    var listed := ReviewList(rows);
    count := |listed|;
    var shown := listed[..if limit < count then limit else count];
    latest, unparsed, invalid := [], [], [];
    for i := 0 to |shown|
      invariant latest == ParsedIds(shown[..i], true)
      invariant unparsed == ParsedIds(shown[..i], false)
      invariant invalid == InvalidIds(shown[..i], valid)
      invariant |latest| + |unparsed| == i && |invalid| <= |latest|
    {
      assert shown[..i + 1][..i] == shown[..i];
      var candidate := Parse(shown[i].payload);
      if candidate.Some? {
        if !valid(candidate.value) {
          invalid := invalid + [shown[i].id];
        }
        latest := latest + [shown[i].id];
      } else {
        unparsed := unparsed + [shown[i].id];
      }
    }
    assert shown[..|shown|] == shown;
  }

  lemma NoRequest(rows: seq<Row>, op: Op, r: Row)
    requires op.SetTriage?
    requires var t := TriageRequest(op.hash, op.status, op.reason, op.reference, op.at); t.Err? || t.value.None?
    ensures RowAfter(rows, op, r) == Some(r)
  {
    hide TriageRequest;
  }

  lemma TriageRequested(rows: seq<Row>, op: Op, r: Row, t: Triage)
    requires op.SetTriage? && TriageRequest(op.hash, op.status, op.reason, op.reference, op.at) == Ok(Some(t))
    ensures RowAfter(rows, op, r) == Some(TriageRow(r, Trimmed(op.hash), t))
  {
    hide TriageRequest, TriageRow;
  }

  predicate Deletable(op: Op, r: Row) {
    (op.DeleteByHash? && Trimmed(op.hash) != "" && DeletableByHash(r, Trimmed(op.hash)))
    || (op.DeleteDropped? && DeletableAsDropped(r))
  }

  lemma DeleteRequested(rows: seq<Row>, op: Op, r: Row)
    requires op.DeleteByHash? || op.DeleteDropped?
    ensures RowAfter(rows, op, r) == if Deletable(op, r) then None else Some(r)
  {
    hide DeletableByHash, DeletableAsDropped, Trimmed;
  }

  lemma FirstChangedStarts(rows: seq<Row>, op: Op)
    ensures FirstChanged(rows, op, 0) == None
  {
  }

  lemma FirstChangedStep(rows: seq<Row>, op: Op, i: nat)
    requires i < |rows|
    ensures FirstChanged(rows, op, i + 1)
      == if FirstChanged(rows, op, i).Some? then FirstChanged(rows, op, i)
         else if Touches(rows, op, rows[i]) then Some(rows[i].id) else None
  {
    hide Touches;
  }

  lemma DeletedStarts(rows: seq<Row>, op: Op)
    ensures DeletedIds(rows, op, 0) == []
  {
  }

  lemma DeletedStep(rows: seq<Row>, op: Op, i: nat)
    requires i < |rows|
    ensures DeletedIds(rows, op, i + 1)
      == DeletedIds(rows, op, i) + (if RowAfter(rows, op, rows[i]).None? then [rows[i].id] else [])
  {
    hide RowAfter;
  }

  lemma {:induction false} FoundStays(rows: seq<Row>, hash: string, n: nat)
    requires n <= |rows| && Found(rows[..n], hash).Some?
    ensures Found(rows, hash) == Found(rows[..n], hash)
  {
    hide Findable, Trimmed;
    if n < |rows| {
      assert rows[..|rows| - 1][..n] == rows[..n];
      FoundStays(rows[..|rows| - 1], hash, n);
    } else {
      assert rows[..n] == rows;
    }
  }

  lemma OtherIds(rows: seq<Row>, k: nat)
    requires k < |rows| && IsTable(rows)
    ensures forall j :: 0 <= j < |rows| && j != k ==> rows[j].id != rows[k].id
  {
    forall j | 0 <= j < |rows| && j != k
      ensures rows[j].id != rows[k].id
    {
      if j < k {
        assert rows[j].id != rows[k].id;
      } else {
        assert rows[k].id != rows[j].id;
      }
    }
  }
}
