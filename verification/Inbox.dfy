/** The outbox table and the inbox operations on its session-mined rows. */
module Inbox {
  import opened Wrappers
  import opened InboxRows

  // ---- The table ---------------------------------------------------------------------------------------------

  /** `ORDER BY created_at DESC, id DESC`. */
  predicate Before(a: Row, b: Row) { a.createdAt > b.createdAt || (a.createdAt == b.createdAt && a.id > b.id) }

  /** The rows of the table as the queries list them; `id` is the primary key. */
  predicate IsTable(rows: seq<Row>) {
    forall i, j :: 0 <= i < j < |rows| ==> Before(rows[i], rows[j]) && rows[i].id != rows[j].id
  }

  /** The operations; `accepted` says whether the candidate validated and its rule was promoted. */
  datatype Op =
    | Approve(hash: string, ruleId: string, at: int, accepted: bool)
    | SetTriage(hash: string, status: TriageStatus, reason: string, reference: Option<string>, at: int)
    | SetEvidence(hash: string, count: nat, at: int)
    | DeleteByHash(hash: string)
    | DeleteDropped
    | Reject(hash: string)
    | Enqueue(row: Row)

  function TrimmedReference(reference: Option<string>): Option<string> {
    if reference.Some? && Trimmed(reference.value) != "" then Some(Trimmed(reference.value)) else None
  }

  const SELF_REFERENCE := "session-mined local triage reference must not point at the candidate itself"
  const BLANK_REASON := "session-mined triage reason must not be empty"
  const NO_REFERENCE := "session-mined triage reference is required for superseded/clustered candidates"

  predicate NeedsReference(s: TriageStatus) { s.SupersededBy? || s.ClusteredInto? }

  /** The checks of `set_candidate_triage`, in their order; `Ok(None)` is a blank hash. */
  function TriageRequest(hash: string, status: TriageStatus, reason: string, reference: Option<string>, at: int):
    Result<Option<Triage>>
  {
    if Trimmed(hash) == "" then Ok(None)
    else if NeedsReference(status) && reference.Some? && Trimmed(reference.value) == Trimmed(hash) then
      Err(SELF_REFERENCE)
    else if Trimmed(reason) == "" then Err(BLANK_REASON)
    else if NeedsReference(status) && TrimmedReference(reference).None? then
      Err(NO_REFERENCE)
    else Ok(Some(Triage(status, Trimmed(reason), TrimmedReference(reference), at)))
  }

  /** The first row of the review list with this hash. */
  function Found(rows: seq<Row>, hash: string): (r: Option<nat>)
    ensures r.Some? ==> r.value < |rows|
  {
    if Trimmed(hash) == "" || rows == [] then None
    else
      var front := Found(rows[..|rows| - 1], hash);
      if front.Some? then front
      else if Findable(rows[|rows| - 1], Trimmed(hash)) then Some(|rows| - 1)
      else None
  }

  lemma {:induction false} FoundIsFirst(rows: seq<Row>, hash: string)
    ensures var r := Found(rows, hash);
      && (r.Some? ==> Findable(rows[r.value], Trimmed(hash)))
      && (r.Some? ==> forall j :: 0 <= j < r.value ==> !Findable(rows[j], Trimmed(hash)))
      && (r.None? ==> Trimmed(hash) == "" || forall j :: 0 <= j < |rows| ==> !Findable(rows[j], Trimmed(hash)))
  {
    hide Findable, Trimmed;
    if Trimmed(hash) != "" && rows != [] {
      FoundIsFirst(rows[..|rows| - 1], hash);
    }
  }

  predicate IsFound(rows: seq<Row>, hash: string, r: Row) {
    Found(rows, hash).Some? && rows[Found(rows, hash).value].id == r.id
  }

  /** What an operation on the table leaves of one row. */
  function RowAfter(rows: seq<Row>, op: Op, r: Row): Option<Row> {
    match op
    case Approve(hash, ruleId, at, accepted) =>
      Some(if accepted && IsFound(rows, hash, r) then ApproveRow(r, ruleId, at) else r)
    case SetTriage(hash, status, reason, reference, at) =>
      var t := TriageRequest(hash, status, reason, reference, at);
      Some(if t.Ok? && t.value.Some? then TriageRow(r, Trimmed(hash), t.value.value) else r)
    case SetEvidence(hash, count, at) =>
      Some(if Trimmed(hash) != "" && count > 0 then EvidenceRow(r, Trimmed(hash), count, at) else r)
    case DeleteByHash(hash) => if Trimmed(hash) != "" && DeletableByHash(r, Trimmed(hash)) then None else Some(r)
    case DeleteDropped => if DeletableAsDropped(r) then None else Some(r)
    case Reject(hash) => if IsFound(rows, hash, r) then None else Some(r)
    case Enqueue(_) => Some(r)
  }

  /** The first `n` rows after the operation. */
  function Swept(rows: seq<Row>, op: Op, n: nat): seq<Row>
    requires n <= |rows|
  {
    if n == 0 then []
    else match RowAfter(rows, op, rows[n - 1])
      case None => Swept(rows, op, n - 1)
      case Some(r) => Swept(rows, op, n - 1) + [r]
  }

  function Inserted(rows: seq<Row>, r: Row): seq<Row> {
    if rows == [] || Before(r, rows[0]) then [r] + rows else [rows[0]] + Inserted(rows[1..], r)
  }

  predicate HasId(rows: seq<Row>, id: int) { exists i :: 0 <= i < |rows| && rows[i].id == id }

  /** The table after an operation; an enqueued row has an id of its own. */
  function Apply(rows: seq<Row>, op: Op): seq<Row> {
    if op.Enqueue? then (if HasId(rows, op.row.id) then rows else Inserted(rows, op.row))
    else Swept(rows, op, |rows|)
  }

  lemma RowKeepsPlace(rows: seq<Row>, op: Op, r: Row)
    ensures var s := RowAfter(rows, op, r);
      s.Some? ==> s.value.id == r.id && s.value.createdAt == r.createdAt && s.value.session == r.session
  {
    hide Found, Findable, HasHash, KnownTriage, Parse, LocallyApproved, WithKey, TriageRequest;
  }

  /** Every row of a swept table comes from the row with its id. */
  lemma {:induction false} SweptSource(rows: seq<Row>, op: Op, n: nat, k: nat) returns (j: nat)
    requires n <= |rows| && k < |Swept(rows, op, n)|
    ensures j < n && RowAfter(rows, op, rows[j]) == Some(Swept(rows, op, n)[k])
    ensures Swept(rows, op, n)[k].id == rows[j].id && Swept(rows, op, n)[k].createdAt == rows[j].createdAt
    ensures |Swept(rows, op, n)| - k <= n - j
  {
    hide RowAfter;
    RowKeepsPlace(rows, op, rows[n - 1]);
    if k < |Swept(rows, op, n - 1)| {
      j := SweptSource(rows, op, n - 1, k);
    } else {
      j := n - 1;
    }
  }

  /** The table stays a table. */
  lemma {:induction false} SweptIsTable(rows: seq<Row>, op: Op, n: nat)
    requires n <= |rows| && IsTable(rows)
    ensures IsTable(Swept(rows, op, n))
  {
    hide RowAfter;
    if n > 0 {
      SweptIsTable(rows, op, n - 1);
      RowKeepsPlace(rows, op, rows[n - 1]);
      var front := Swept(rows, op, n - 1);
      forall i | 0 <= i < |front|
        ensures exists j :: 0 <= j < n - 1 && rows[j].id == front[i].id && rows[j].createdAt == front[i].createdAt
      {
        var j := SweptSource(rows, op, n - 1, i);
      }
    }
  }

  lemma TableCons(r: Row, rows: seq<Row>)
    requires IsTable(rows) && forall x :: x in rows ==> Before(r, x) && r.id != x.id
    ensures IsTable([r] + rows)
  {
    forall i, j | 0 <= i < j < |[r] + rows|
      ensures Before(([r] + rows)[i], ([r] + rows)[j]) && ([r] + rows)[i].id != ([r] + rows)[j].id
    {
      assert ([r] + rows)[j] == rows[j - 1] && rows[j - 1] in rows;
    }
  }

  lemma TableTail(rows: seq<Row>)
    requires IsTable(rows) && rows != []
    ensures IsTable(rows[1..]) && rows == [rows[0]] + rows[1..]
    ensures forall x :: x in rows[1..] ==> Before(rows[0], x) && rows[0].id != x.id
  {
  }

  lemma {:induction false} InsertedIsTable(rows: seq<Row>, r: Row)
    requires IsTable(rows) && forall x :: x in rows ==> x.id != r.id
    ensures IsTable(Inserted(rows, r))
    ensures forall x :: x in Inserted(rows, r) <==> x == r || x in rows
  {
    hide IsTable;
    if rows == [] {
      TableCons(r, rows);
    } else {
      TableTail(rows);
      if Before(r, rows[0]) {
        TableCons(r, rows);
      } else {
        InsertedIsTable(rows[1..], r);
        TableCons(rows[0], Inserted(rows[1..], r));
      }
    }
  }

  lemma ApplyIsTable(rows: seq<Row>, op: Op)
    requires IsTable(rows)
    ensures IsTable(Apply(rows, op))
  {
    hide IsTable, Swept, Inserted;
    SweptIsTable(rows, op, |rows|);
    if op.Enqueue? && !HasId(rows, op.row.id) {
      InsertedIsTable(rows, op.row);
    }
  }
}
