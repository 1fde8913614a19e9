/** Session-mined candidates in the outbox: their payloads, the three views the queries give of them,
    and what each operation does to a row. */
module InboxRows {
  import opened Wrappers
  import opened JsonValue
  import opened Text

  // ---- Payloads -------------------------------------------------------------------------------------------

  datatype TriageStatus = SupersededBy | ClusteredInto | DroppedLowSignal | Unknown

  datatype Triage = Triage(status: TriageStatus, reason: string, reference: Option<string>, at: int)

  /** The parts of a parsed candidate that the inbox looks at. */
  datatype Candidate = Candidate(hash: string, triage: Option<Triage>, evidence: Option<nat>)

  function StringKeys(): seq<string> {
    ["session_id", "source_repo", "title", "body", "gate_model", "gate_verdict", "content_hash", "origin"]
  }

  /** The fields every candidate must have, with their types. */
  predicate HasBody(o: Object) {
    && (forall i :: 0 <= i < |StringKeys()| ==> StringKeys()[i] in o && o[StringKeys()[i]].Str?)
    && "content_hash" in o && o["content_hash"].Str?
    && "ts_ms" in o && o["ts_ms"].Int?
    && "requires_human_approval" in o && o["requires_human_approval"].Bool?
    && "file_patterns" in o && o["file_patterns"].Arr?
    && forall i :: 0 <= i < |o["file_patterns"].items| ==> o["file_patterns"].items[i].Str?
  }

  /** A field that may go by an older name; a payload with both names does not parse. */
  function Renamed(o: Object, name: string, alias: string): Result<Option<Json>> {
    if name in o && alias in o then Err("duplicate field `" + name + "`")
    else if name in o then Ok(At(o, name))
    else Ok(At(o, alias))
  }

  function ParseStatus(s: string): TriageStatus {
    if s == "superseded_by" then SupersededBy
    else if s == "clustered_into" then ClusteredInto
    else if s == "dropped_low_signal" then DroppedLowSignal
    else Unknown
  }

  function StatusText(s: TriageStatus): string {
    match s
    case SupersededBy => "superseded_by"
    case ClusteredInto => "clustered_into"
    case DroppedLowSignal => "dropped_low_signal"
    case Unknown => "unknown"
  }

  predicate OptionalString(v: Option<Json>) { v.None? || v.value.Null? || v.value.Str? }

  /** `deserialize_local_triage_lossy`: a record that does not parse counts as none. */
  function ParseTriage(v: Option<Json>): Option<Triage> {
    match v
    case Some(Obj(t)) =>
      if "status" in t && t["status"].Str? && "reason" in t && t["reason"].Str?
         && "at" in t && t["at"].Int? && OptionalString(At(t, "ref"))
      then Some(Triage(ParseStatus(t["status"].s), t["reason"].s,
                       if "ref" in t && t["ref"].Str? then Some(t["ref"].s) else None, t["at"].n))
      else None
    case _ => None
  }

  function ParseEvidence(v: Option<Json>): Result<Option<nat>> {
    match v
    case None => Ok(None)
    case Some(Null) => Ok(None)
    case Some(Obj(e)) =>
      if "distinctEvidenceCount" in e && e["distinctEvidenceCount"].Int? && e["distinctEvidenceCount"].n >= 0
         && "updatedAt" in e && e["updatedAt"].Int?
      then Ok(Some(e["distinctEvidenceCount"].n)) else Err("invalid local evidence")
    case _ => Err("invalid local evidence")
  }

  /** The payload column: text that is not JSON at all, or a JSON value. */
  datatype Payload = Malformed(text: string) | Valid(json: Json)

  function Parse(p: Payload): Option<Candidate> {
    if p.Valid? && p.json.Obj? && HasBody(p.json.fields) then
      var o := p.json.fields;
      match (Renamed(o, "localTriage", "local_triage"), Renamed(o, "localEvidence", "local_evidence"))
      case (Ok(t), Ok(e)) =>
        var evidence := ParseEvidence(e);
        if evidence.Ok? then Some(Candidate(o["content_hash"].s, ParseTriage(t), evidence.value)) else None
      case _ => None
    else None
  }

  // ---- Reading marks in SQL and in Rust ------------------------------------------------------------------------

  function LowerChar(c: char): char { if 'A' <= c <= 'Z' then c - 'A' + 'a' else c }

  function Lower(s: string): (r: string)
    ensures |r| == |s| && forall i :: 0 <= i < |s| ==> r[i] == LowerChar(s[i])
  {
    seq(|s|, i requires 0 <= i < |s| => LowerChar(s[i]))
  }

  /** `json_extract(payload, '$.<outer>.status')`. */
  function StatusAt(p: Payload, outer: string): Option<Json> {
    if p.Valid? && p.json.Obj? && outer in p.json.fields && p.json.fields[outer].Obj?
    then At(p.json.fields[outer].fields, "status") else None
  }

  /** `json_valid(p) AND LOWER(COALESCE(json_extract(...), '')) = word`. The SQL text of a value that
      is no string starts with a digit, a sign or a bracket, or is empty, so it is no such word. */
  predicate SqlStatusIs(p: Payload, outer: string, word: string) {
    var v := StatusAt(p, outer);
    p.Valid? && v.Some? && v.value.Str? && Lower(v.value.s) == word
  }

  predicate SqlApproved(p: Payload) { SqlStatusIs(p, "localReview", "approved") }

  predicate SqlTriaged(p: Payload) {
    || SqlStatusIs(p, "localTriage", "superseded_by")
    || SqlStatusIs(p, "localTriage", "clustered_into")
    || SqlStatusIs(p, "localTriage", "dropped_low_signal")
  }

  /** `session_mined_locally_approved_payload`. */
  predicate LocallyApproved(p: Payload) {
    match p
    case Valid(Obj(o)) =>
      && "localReview" in o && o["localReview"].Obj?
      && "status" in o["localReview"].fields && o["localReview"].fields["status"].Str?
      && Lower(o["localReview"].fields["status"].s) == Lower("approved")
    case _ => false
  }

  /** The query lower-cases a status and compares it, the code compares ignoring ASCII case, and each walks
      the payload in its own way; they mean the same by "approved". */
  lemma ApprovedBothWays(p: Payload)
    ensures SqlApproved(p) <==> LocallyApproved(p)
  {
    assert Lower("approved") == "approved";
  }

  /** A triage that parsed to one of the three named statuses. */
  predicate KnownTriage(p: Payload) {
    Parse(p).Some? && Parse(p).value.triage.Some? && !Parse(p).value.triage.value.status.Unknown?
  }

  // ---- Rows --------------------------------------------------------------------------------------------------------

  datatype Row = Row(id: int, session: bool, createdAt: int, payload: Payload, status: string, retries: nat)

  /** The filter of the review list and of its count. */
  predicate InReview(r: Row) { r.session && !SqlApproved(r.payload) && !SqlTriaged(r.payload) }

  /** The session-mined part of the upload queue counts. */
  predicate InQueue(r: Row) { r.session && SqlApproved(r.payload) && !SqlTriaged(r.payload) }

  /** What neither of the two shows. */
  predicate TriageHidden(r: Row) { r.session && SqlTriaged(r.payload) }

  /** The row a content hash finds: `find_session_mined_row_by_content_hash` takes the first of these. */
  predicate Findable(r: Row, target: string) {
    InReview(r) && !LocallyApproved(r.payload) && Parse(r.payload).Some? && Parse(r.payload).value.hash == target
  }

  predicate HasHash(r: Row, target: string) {
    r.session && Parse(r.payload).Some? && Parse(r.payload).value.hash == target
  }

  function Trimmed(s: string): string { TrimEnd(TrimStart(s)) }

  // ---- Marks -------------------------------------------------------------------------------------------------------

  function WithKey(p: Payload, key: string, v: Json): Payload {
    if p.Valid? && p.json.Obj? then Valid(Obj(p.json.fields[key := v])) else p
  }

  function ApprovalMark(ruleId: string, at: int): Json {
    Obj(map["status" := Str("approved"), "ruleId" := Str(ruleId), "reviewedAtMs" := Int(at)])
  }

  function TriageMark(t: Triage): Json {
    var base := map["status" := Str(StatusText(t.status)), "reason" := Str(t.reason), "at" := Int(t.at)];
    Obj(if t.reference.Some? then base["ref" := Str(t.reference.value)] else base)
  }

  function EvidenceMark(count: nat, at: int): Json {
    Obj(map["distinctEvidenceCount" := Int(count), "updatedAt" := Int(at)])
  }

  function ApproveRow(r: Row, ruleId: string, at: int): Row {
    r.(payload := WithKey(r.payload, "localReview", ApprovalMark(ruleId, at)), status := "pending", retries := 0)
  }

  /** Skips rows of other hashes and rows whose triage is already known. */
  function TriageRow(r: Row, target: string, t: Triage): Row {
    if HasHash(r, target) && !KnownTriage(r.payload)
    then r.(payload := WithKey(r.payload, "localTriage", TriageMark(t))) else r
  }

  function EvidenceRow(r: Row, target: string, count: nat, at: int): Row {
    if HasHash(r, target) && Parse(r.payload).value.evidence != Some(count)
    then r.(payload := WithKey(r.payload, "localEvidence", EvidenceMark(count, at))) else r
  }

  predicate DeletableByHash(r: Row, target: string) { HasHash(r, target) && !LocallyApproved(r.payload) }

  predicate DeletableAsDropped(r: Row) {
    && r.session && !LocallyApproved(r.payload) && Parse(r.payload).Some?
    && Parse(r.payload).value.triage.Some? && Parse(r.payload).value.triage.value.status.DroppedLowSignal?
  }

  // ---- What the marks do to a payload ------------------------------------------------------------------------------

  predicate IsMarkKey(key: string) { key == "localReview" || key == "localTriage" || key == "localEvidence" }

  lemma MarkKeysAreNew(key: string)
    requires IsMarkKey(key)
    ensures forall i :: 0 <= i < |StringKeys()| ==> StringKeys()[i] != key
    ensures key != "content_hash" && key != "ts_ms" && key != "requires_human_approval" && key != "file_patterns"
    ensures key != "local_triage" && key != "local_evidence"
    ensures "localReview" != "localTriage" && "localReview" != "localEvidence" && "localTriage" != "localEvidence"
  {
    assert key[0] == 'l' && key[5] != '_';
    assert forall i :: 0 <= i < |StringKeys()| ==> StringKeys()[i][0] != 'l';
    assert "content_hash"[0] == 'c' && "ts_ms"[0] == 't' && "requires_human_approval"[0] == 'r' && "file_patterns"[0] == 'f';
    assert "local_triage"[5] == '_' && "local_evidence"[5] == '_';
    assert "localReview"[5] == 'R' && "localTriage"[5] == 'T' && "localEvidence"[5] == 'E';
  }

  lemma BodySurvives(o: Object, key: string, v: Json)
    requires IsMarkKey(key)
    ensures HasBody(o[key := v]) <==> HasBody(o)
    ensures HasBody(o) ==> o[key := v]["content_hash"] == o["content_hash"]
  {
    hide StringKeys, IsMarkKey;
    MarkKeysAreNew(key);
  }

  /** Approving leaves the candidate as it parses, and only adds the approval. */
  lemma ApprovalMarks(p: Payload, ruleId: string, at: int)
    ensures var q := WithKey(p, "localReview", ApprovalMark(ruleId, at));
      && Parse(q) == Parse(p)
      && (SqlTriaged(q) <==> SqlTriaged(p))
      && (Parse(p).Some? ==> SqlApproved(q))
  {
    hide HasBody, ParseTriage, ParseEvidence;
    if p.Valid? && p.json.Obj? {
      BodySurvives(p.json.fields, "localReview", ApprovalMark(ruleId, at));
      MarkKeysAreNew("localReview");
      assert Lower("approved") == "approved";
    }
  }

  /** Triage and evidence marks leave an approval as it is. */
  lemma OtherMarksKeepApproval(p: Payload, key: string, v: Json)
    requires key == "localTriage" || key == "localEvidence"
    ensures SqlApproved(WithKey(p, key, v)) <==> SqlApproved(p)
  {
    MarkKeysAreNew(key);
  }

  /** Evidence leaves the triage as it is, in the query's eyes and in the parser's, and can be read back. */
  lemma EvidenceMarks(p: Payload, count: nat, at: int)
    requires Parse(p).Some?
    ensures var q := WithKey(p, "localEvidence", EvidenceMark(count, at));
      && (SqlTriaged(q) <==> SqlTriaged(p))
      && (Parse(q).Some? <==> "local_evidence" !in p.json.fields)
      && (Parse(q).Some? ==> Parse(q) == Some(Parse(p).value.(evidence := Some(count))))
  {
    hide HasBody, ParseTriage;
    BodySurvives(p.json.fields, "localEvidence", EvidenceMark(count, at));
    MarkKeysAreNew("localEvidence");
    EvidenceReadsBack(count, at);
  }

  lemma EvidenceReadsBack(count: nat, at: int)
    ensures ParseEvidence(Some(EvidenceMark(count, at))) == Ok(Some(count))
  {
    assert "distinctEvidenceCount"[0] == 'd' && "updatedAt"[0] == 'u';
  }

  /** A triage mark reads back as the triage that was written. */
  lemma TriageReadsBack(t: Triage)
    ensures ParseTriage(Some(TriageMark(t))) == Some(t)
  {
    hide ParseStatus, StatusText;
    assert "status"[0] == 's' && "reason"[0] == 'r' && "reason"[2] == 'a' && "at"[0] == 'a' && "ref"[0] == 'r' && "ref"[2] == 'f';
    StatusReadsBack(t.status);
  }

  lemma StatusReadsBack(s: TriageStatus)
    ensures ParseStatus(StatusText(s)) == s
    ensures Lower(StatusText(s)) == StatusText(s)
  {
    assert "superseded_by"[0] == 's' && "clustered_into"[0] == 'c' && "dropped_low_signal"[0] == 'd' && "unknown"[0] == 'u';
  }

  /** After a triage the query sees exactly the named statuses, and the parser reads the mark back unless
      the payload also has the field under its older name. */
  lemma TriageMarks(p: Payload, t: Triage)
    requires Parse(p).Some?
    ensures var q := WithKey(p, "localTriage", TriageMark(t));
      && (SqlTriaged(q) <==> !t.status.Unknown?)
      && (Parse(q).Some? <==> "local_triage" !in p.json.fields)
      && (Parse(q).Some? ==> Parse(q) == Some(Parse(p).value.(triage := Some(t))))
  {
    hide HasBody, ParseTriage, ParseEvidence, StatusText;
    BodySurvives(p.json.fields, "localTriage", TriageMark(t));
    MarkKeysAreNew("localTriage");
    TriageReadsBack(t);
    var q := WithKey(p, "localTriage", TriageMark(t));
    assert StatusAt(q, "localTriage") == Some(Str(StatusText(t.status))) by {
      assert "status"[0] == 's' && "reason"[0] == 'r' && "at"[0] == 'a' && "ref"[0] == 'r';
    }
    StatusReadsBack(t.status);
    NamedStatuses(t.status);
  }

  lemma NamedStatuses(s: TriageStatus)
    ensures StatusText(s) == "superseded_by" || StatusText(s) == "clustered_into" || StatusText(s) == "dropped_low_signal"
      <==> !s.Unknown?
  {
    assert "superseded_by"[0] == 's' && "clustered_into"[0] == 'c' && "dropped_low_signal"[0] == 'd' && "unknown"[0] == 'u';
  }

  /** A triage known under its current name is one the query hides. */
  lemma KnownIsHidden(p: Payload)
    requires KnownTriage(p) && "local_triage" !in p.json.fields
    ensures SqlTriaged(p)
  {
    hide HasBody, ParseEvidence;
    assert p.json.fields["localTriage"].Obj?;
    var s := p.json.fields["localTriage"].fields["status"].s;
    assert !ParseStatus(s).Unknown?;
    assert Lower(s) == s by { StatusReadsBack(ParseStatus(s)); }
  }
}
