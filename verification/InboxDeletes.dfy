/** What each inbox operation does to one row, said in terms of the row and the request alone. */
module InboxDeletes {
  import opened Wrappers
  import opened JsonValue
  import opened Text
  import opened InboxRows
  import opened Inbox
  import opened Outbox
  import opened InboxLaws

  /** The row parses to a candidate with this hash. */
  predicate Carries(r: Row, hash: string) {
    match Parse(r.payload)
    case Some(c) => c.hash == hash
    case None => false
  }

  /** The triage the row parses to, if it has one. */
  function TriageOf(r: Row): Option<Triage> {
    match Parse(r.payload)
    case Some(c) => c.triage
    case None => None
  }

  /** White space around a hash, a reason or a reference does not count. */
  lemma TrimmedIs(a: string, mid: string, b: string)
    requires IsBlank(a) && IsBlank(b) && (mid != "" ==> !IsWhitespace(mid[0]) && !IsWhitespace(mid[|mid| - 1]))
    ensures Trimmed(a + mid + b) == mid
  {
    if mid == "" {
      TrimsToNothing(a + mid + b);
    } else {
      TrimsBothEnds(a, mid, b);
    }
  }

  // ---- Deletions ------------------------------------------------------------------------------------------------

  /** MAIN: the purge takes exactly the unapproved session-mined rows whose triage parses to the status
      "dropped, low signal". */
  lemma PurgeIff(rows: seq<Row>, r: Row)
    ensures RowAfter(rows, DeleteDropped, r).None? <==>
      && r.session && !SqlApproved(r.payload)
      && TriageOf(r).Some? && TriageOf(r).value.status == DroppedLowSignal
    ensures RowAfter(rows, DeleteDropped, r).Some? ==> RowAfter(rows, DeleteDropped, r) == Some(r)
  {
    hide Parse, SqlApproved, LocallyApproved;
    ApprovedBothWays(r.payload);
  }

  /** A deletion by hash takes exactly the unapproved session-mined rows that carry the trimmed hash. */
  lemma DeleteByHashIff(rows: seq<Row>, hash: string, r: Row)
    ensures RowAfter(rows, DeleteByHash(hash), r).None? <==>
      r.session && !SqlApproved(r.payload) && Trimmed(hash) != "" && Carries(r, Trimmed(hash))
    ensures RowAfter(rows, DeleteByHash(hash), r).Some? ==> RowAfter(rows, DeleteByHash(hash), r) == Some(r)
  {
    hide Parse, SqlApproved, LocallyApproved, Trimmed;
    ApprovedBothWays(r.payload);
  }

  /** The row stands in the review list and carries the hash. */
  predicate Listed(r: Row, hash: string) {
    r.session && !SqlApproved(r.payload) && !SqlTriaged(r.payload) && Carries(r, hash)
  }

  /** The lookup by hash finds exactly the first listed row that carries it. */
  lemma FoundIff(rows: seq<Row>, hash: string, k: nat)
    requires k < |rows|
    ensures Found(rows, hash) == Some(k) <==>
      Trimmed(hash) != "" && Listed(rows[k], Trimmed(hash)) && forall j :: 0 <= j < k ==> !Listed(rows[j], Trimmed(hash))
  {
    hide Parse, SqlApproved, SqlTriaged, LocallyApproved, Trimmed, Findable, Listed;
    FoundIsFirst(rows, hash);
    forall j | 0 <= j < |rows|
      ensures Findable(rows[j], Trimmed(hash)) <==> Listed(rows[j], Trimmed(hash))
    {
      FindableIff(rows[j], Trimmed(hash));
    }
    if Found(rows, hash).Some? {
      FoundHash(rows, hash);
    }
  }

  /** Of several candidates with the hash, the newest is found, and of those as new the one stored last. */
  lemma FoundIsNewest(rows: seq<Row>, hash: string, k: nat, j: nat)
    requires IsTable(rows) && Found(rows, hash) == Some(k) && j < |rows| && j != k && Findable(rows[j], Trimmed(hash))
    ensures rows[j].createdAt < rows[k].createdAt || (rows[j].createdAt == rows[k].createdAt && rows[j].id < rows[k].id)
  {
    hide Found, Findable, Trimmed;
    FoundIsFirst(rows, hash);
  }

  lemma FindableIff(r: Row, target: string)
    ensures Findable(r, target) <==> Listed(r, target)
  {
    hide Parse, SqlApproved, SqlTriaged, LocallyApproved;
    ApprovedBothWays(r.payload);
  }

  /** A rejection takes exactly that row. */
  lemma RejectIff(rows: seq<Row>, hash: string, k: nat)
    requires IsTable(rows) && k < |rows|
    ensures RowAfter(rows, Reject(hash), rows[k]) == if
      Trimmed(hash) != "" && Listed(rows[k], Trimmed(hash)) && forall j :: 0 <= j < k ==> !Listed(rows[j], Trimmed(hash))
      then None else Some(rows[k])
  {
    hide IsTable, Listed, Trimmed, Found;
    FoundIff(rows, hash, k);
    SameIndex(rows, hash, k);
  }

  lemma SameIndex(rows: seq<Row>, hash: string, k: nat)
    requires IsTable(rows) && k < |rows|
    ensures IsFound(rows, hash, rows[k]) <==> Found(rows, hash) == Some(k)
  {
    hide Found;
    if Found(rows, hash).Some? {
      var f := Found(rows, hash).value;
      assert f < k ==> rows[f].id != rows[k].id;
      assert k < f ==> rows[k].id != rows[f].id;
    }
  }

  /** An approval marks exactly that row, when it is accepted. */
  lemma ApproveIff(rows: seq<Row>, hash: string, ruleId: string, at: int, accepted: bool, k: nat)
    requires IsTable(rows) && k < |rows|
    ensures RowAfter(rows, Approve(hash, ruleId, at, accepted), rows[k]) == Some(if
      && accepted && Trimmed(hash) != "" && Listed(rows[k], Trimmed(hash))
      && forall j :: 0 <= j < k ==> !Listed(rows[j], Trimmed(hash))
      then ApproveRow(rows[k], ruleId, at) else rows[k])
  {
    hide IsTable, Listed, Trimmed, Found, ApproveRow;
    FoundIff(rows, hash, k);
    SameIndex(rows, hash, k);
  }

  // ---- The review list and new rows ------------------------------------------------------------------------------

  /** The review list holds the rows in review and no others, the newest first. */
  lemma {:induction false} ReviewListIs(rows: seq<Row>)
    requires IsTable(rows)
    ensures IsTable(ReviewList(rows))
    ensures forall r :: r in ReviewList(rows) <==> r in rows && r.session && !SqlApproved(r.payload) && !SqlTriaged(r.payload)
  {
    hide SqlApproved, SqlTriaged;
    if rows != [] {
      var front, last := rows[..|rows| - 1], rows[|rows| - 1];
      ReviewListIs(front);
      assert rows == front + [last];
      assert forall i :: 0 <= i < |ReviewList(front)| ==> ReviewList(front)[i] in front;
    }
  }

  /** A new row is added, with an id of its own, and no other row changes. */
  lemma EnqueueAdds(rows: seq<Row>, r: Row)
    requires IsTable(rows)
    ensures var after := Apply(rows, Enqueue(r));
      if exists x :: x in rows && x.id == r.id then after == rows else forall x :: x in after <==> x == r || x in rows
  {
    hide IsTable, Inserted;
    if !HasId(rows, r.id) {
      assert forall i :: 0 <= i < |rows| ==> rows[i].id != r.id;
      assert forall x :: x in rows ==> x.id != r.id;
      InsertedIsTable(rows, r);
    } else {
      var i :| 0 <= i < |rows| && rows[i].id == r.id;
      assert rows[i] in rows;
    }
  }

  // ---- What is written -----------------------------------------------------------------------------------------------

  /** `q` is `p` with one top-level key set and every other key as it was. */
  ghost predicate SetsKey(p: Payload, q: Payload, key: string, v: Json) {
    && p.Valid? && p.json.Obj? && q.Valid? && q.json.Obj?
    && forall k :: At(q.json.fields, k) == if k == key then Some(v) else At(p.json.fields, k)
  }

  lemma WithKeySets(p: Payload, key: string, v: Json)
    requires p.Valid? && p.json.Obj?
    ensures SetsKey(p, WithKey(p, key, v), key, v)
  {
    var o := p.json.fields;
    forall k
      ensures At(o[key := v], k) == if k == key then Some(v) else At(o, k)
    {
      if k == key {
        assert At(o[key := v], key) == Some(v);
      } else {
        assert k in o[key := v] <==> k in o;
      }
    }
  }

  lemma ParsedIsObject(p: Payload)
    requires Parse(p).Some?
    ensures p.Valid? && p.json.Obj?
  {
  }

  /** The approval that is written: status, rule and time under `localReview`, the row pending again with
      no retries, and nothing else changed. */
  lemma ApprovalIsWritten(r: Row, ruleId: string, at: int)
    requires Parse(r.payload).Some?
    ensures var s := ApproveRow(r, ruleId, at);
      && SetsKey(r.payload, s.payload, "localReview",
           Obj(map["status" := Str("approved"), "ruleId" := Str(ruleId), "reviewedAtMs" := Int(at)]))
      && s == r.(payload := s.payload, status := "pending", retries := 0)
  {
    hide Parse, SetsKey;
    ParsedIsObject(r.payload);
    WithKeySets(r.payload, "localReview", ApprovalMark(ruleId, at));
  }

  /** A triage request marks exactly the session-mined rows that carry its hash and have no triage with a
      known status. */
  lemma TriageIff(rows: seq<Row>, op: Op, t: Triage, r: Row)
    requires op.SetTriage? && TriageRequest(op.hash, op.status, op.reason, op.reference, op.at) == Ok(Some(t))
    ensures var s := RowAfter(rows, op, r);
      && s.Some?
      && if r.session && Carries(r, Trimmed(op.hash)) && (TriageOf(r).None? || TriageOf(r).value.status == Unknown)
         then SetsKey(r.payload, s.value.payload, "localTriage", TriageMark(t)) && s.value == r.(payload := s.value.payload)
         else s.value == r
  {
    hide Parse, Trimmed, TriageRequest, TriageMark, SetsKey;
    if Parse(r.payload).Some? {
      ParsedIsObject(r.payload);
      WithKeySets(r.payload, "localTriage", TriageMark(t));
    }
  }

  /** A count of distinct evidence is written to exactly the session-mined rows that carry the hash and do
      not have that count yet. */
  lemma EvidenceIff(rows: seq<Row>, hash: string, count: nat, at: int, r: Row)
    ensures var s := RowAfter(rows, SetEvidence(hash, count, at), r);
      && s.Some?
      && if && r.session && Trimmed(hash) != "" && count > 0 && Carries(r, Trimmed(hash))
            && Parse(r.payload).value.evidence != Some(count)
         then
           && SetsKey(r.payload, s.value.payload, "localEvidence",
                Obj(map["distinctEvidenceCount" := Int(count), "updatedAt" := Int(at)]))
           && s.value == r.(payload := s.value.payload)
         else s.value == r
  {
    hide Parse, Trimmed, SetsKey;
    if Parse(r.payload).Some? {
      ParsedIsObject(r.payload);
      WithKeySets(r.payload, "localEvidence", EvidenceMark(count, at));
    }
  }

  /** A request that links the candidate to itself. */
  predicate LinksToItself(hash: string, status: TriageStatus, reference: Option<string>) {
    && (status == SupersededBy || status == ClusteredInto)
    && reference.Some? && Trimmed(reference.value) == Trimmed(hash)
  }

  /** A request that links it to nothing. */
  predicate LinksToNothing(status: TriageStatus, reference: Option<string>) {
    && (status == SupersededBy || status == ClusteredInto)
    && (reference.None? || Trimmed(reference.value) == "")
  }

  /** When a triage request is refused; a blank hash is no error, and nothing is asked for. */
  lemma RefusedIff(hash: string, status: TriageStatus, reason: string, reference: Option<string>, at: int)
    ensures TriageRequest(hash, status, reason, reference, at).Err? <==>
      && Trimmed(hash) != ""
      && (LinksToItself(hash, status, reference) || Trimmed(reason) == "" || LinksToNothing(status, reference))
  {
    hide Trimmed, SELF_REFERENCE, BLANK_REASON, NO_REFERENCE;
  }

  /** And with what: the first check that fails, in this order. */
  lemma RefusedWith(hash: string, status: TriageStatus, reason: string, reference: Option<string>, at: int)
    requires TriageRequest(hash, status, reason, reference, at).Err?
    ensures TriageRequest(hash, status, reason, reference, at).error ==
      if LinksToItself(hash, status, reference) then SELF_REFERENCE else if Trimmed(reason) == "" then BLANK_REASON else NO_REFERENCE
  {
    hide Trimmed, SELF_REFERENCE, BLANK_REASON, NO_REFERENCE;
  }

  lemma BlankHashAsksNothing(hash: string, status: TriageStatus, reason: string, reference: Option<string>, at: int)
    ensures TriageRequest(hash, status, reason, reference, at) == Ok(None) <==> Trimmed(hash) == ""
  {
    hide Trimmed, SELF_REFERENCE, BLANK_REASON, NO_REFERENCE;
  }

  /** A request that is granted asks for the status and time given and the trimmed texts, a blank reference
      counting as none. */
  lemma GrantedAsks(hash: string, status: TriageStatus, reason: string, reference: Option<string>, at: int)
    ensures var q := TriageRequest(hash, status, reason, reference, at);
      q.Ok? && q.value.Some? ==> q.value.value == Triage(status, Trimmed(reason),
        if reference.Some? && Trimmed(reference.value) != "" then Some(Trimmed(reference.value)) else None, at)
  {
    hide Trimmed, SELF_REFERENCE, BLANK_REASON, NO_REFERENCE;
  }

  /** Rows of other kinds are never touched. */
  lemma OtherKindsStay(rows: seq<Row>, op: Op, r: Row)
    requires IsTable(rows) && r in rows && !r.session
    ensures RowAfter(rows, op, r) == Some(r)
  {
    hide Parse, SqlApproved, SqlTriaged, LocallyApproved, Trimmed, Found, IsTable, TriageRequest;
    match op
    case Approve(hash, _, _, accepted) =>
      if IsFound(rows, hash, r) {
        OnlyTheFound(rows, hash, r);
      }
    case Reject(hash) =>
      if IsFound(rows, hash, r) {
        OnlyTheFound(rows, hash, r);
      }
    case _ =>
  }

  // ---- Marked, then purged ---------------------------------------------------------------------------------------------

  /** MAIN: an unapproved candidate that a triage has just marked is taken by the next purge exactly when the
      status was "dropped, low signal". */
  lemma MarkedThenPurged(rows: seq<Row>, op: Op, t: Triage, id: int)
    requires IsTable(rows) && op.SetTriage? && TriageRequest(op.hash, op.status, op.reason, op.reference, op.at) == Ok(Some(t))
    requires RowOf(rows, id).Some?
    requires var r := RowOf(rows, id).value;
      && r.session && !SqlApproved(r.payload) && Carries(r, Trimmed(op.hash))
      && TriageOf(r).None? && "local_triage" !in r.payload.json.fields
    ensures RowOf(After(rows, [op, DeleteDropped]), id).None? <==> op.status == DroppedLowSignal
  {
    hide IsTable, Apply, Parse, SqlApproved, Trimmed, TriageRequest, TriageMark, LocallyApproved;
    var r, ops := RowOf(rows, id).value, [op, DeleteDropped];
    assert ops[..1] == [op] && [op][..0] == [];
    OneStep(rows, op);
    var s := r.(payload := WithKey(r.payload, "localTriage", TriageMark(t)));
    MarkedRow(rows, op, t, r);
    ApplyRow(rows, op, id);
    ApplyIsTable(rows, op);
    ApplyRow(Apply(rows, op), DeleteDropped, id);
    PurgeIff(Apply(rows, op), s);
    TriageMarks(r.payload, t);
    OtherMarksKeepApproval(r.payload, "localTriage", TriageMark(t));
    StatusIsAsked(op, t);
  }

  lemma MarkedRow(rows: seq<Row>, op: Op, t: Triage, r: Row)
    requires op.SetTriage? && TriageRequest(op.hash, op.status, op.reason, op.reference, op.at) == Ok(Some(t))
    requires r.session && Carries(r, Trimmed(op.hash)) && TriageOf(r).None?
    ensures RowAfter(rows, op, r) == Some(r.(payload := WithKey(r.payload, "localTriage", TriageMark(t))))
  {
    hide Parse, Trimmed, TriageRequest, TriageMark;
  }

  lemma StatusIsAsked(op: Op, t: Triage)
    requires op.SetTriage? && TriageRequest(op.hash, op.status, op.reason, op.reference, op.at) == Ok(Some(t))
    ensures t.status == op.status
  {
    hide Trimmed;
  }

  /** A candidate without a triage is never purged. */
  lemma UntriagedStays(rows: seq<Row>, id: int)
    requires IsTable(rows) && RowOf(rows, id).Some? && TriageOf(RowOf(rows, id).value).None?
    ensures RowOf(Apply(rows, DeleteDropped), id) == RowOf(rows, id)
  {
    hide IsTable, Apply, Parse, SqlApproved;
    PurgeIff(rows, RowOf(rows, id).value);
    ApplyRow(rows, DeleteDropped, id);
  }
}
