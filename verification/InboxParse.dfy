/** Which payloads are candidates, field by field, and what their marks read as. */
module InboxParse {
  import opened Wrappers
  import opened JsonValue
  import opened InboxRows

  datatype Kind = Text | Number | Flag | Texts

  datatype Field = Field(name: string, kind: Kind)

  /** The fields of a session-mined candidate. */
  function Schema(): seq<Field> {
    [Field("session_id", Text), Field("source_repo", Text), Field("title", Text), Field("body", Text),
     Field("gate_model", Text), Field("gate_verdict", Text), Field("content_hash", Text), Field("origin", Text),
     Field("ts_ms", Number), Field("requires_human_approval", Flag), Field("file_patterns", Texts)]
  }

  predicate Fits(v: Json, k: Kind) {
    match k
    case Text => v.Str?
    case Number => v.Int?
    case Flag => v.Bool?
    case Texts => v.Arr? && forall i :: 0 <= i < |v.items| ==> v.items[i].Str?
  }

  predicate FieldFits(o: Object, f: Field) { f.name in o && Fits(o[f.name], f.kind) }

  predicate FitsSchema(o: Object) { forall i :: 0 <= i < |Schema()| ==> FieldFits(o, Schema()[i]) }

  /** No triage and no evidence, under either name. */
  predicate Unmarked(o: Object) {
    "localTriage" !in o && "local_triage" !in o && "localEvidence" !in o && "local_evidence" !in o
  }

  lemma BodyIsSchema(o: Object)
    ensures HasBody(o) <==> FitsSchema(o)
  {
    forall i | 0 <= i < 8
      ensures Schema()[i] == Field(StringKeys()[i], Text)
    {
    }
    assert Schema()[8] == Field("ts_ms", Number) && Schema()[9] == Field("requires_human_approval", Flag);
    assert Schema()[10] == Field("file_patterns", Texts) && Schema()[6] == Field("content_hash", Text);
    if HasBody(o) {
      forall i | 0 <= i < |Schema()|
        ensures FieldFits(o, Schema()[i])
      {
        assert i < 8 || i == 8 || i == 9 || i == 10;
      }
    }
    if FitsSchema(o) {
      assert FieldFits(o, Schema()[6]) && FieldFits(o, Schema()[8]) && FieldFits(o, Schema()[9]) && FieldFits(o, Schema()[10]);
      forall i | 0 <= i < |StringKeys()|
        ensures StringKeys()[i] in o && o[StringKeys()[i]].Str?
      {
        assert FieldFits(o, Schema()[i]);
      }
    }
  }

  /** An unmarked payload is a candidate exactly when every field is there with its type. */
  lemma UnmarkedParsesIff(o: Object)
    requires Unmarked(o)
    ensures Parse(Valid(Obj(o))).Some? <==> FitsSchema(o)
    ensures FitsSchema(o) ==> At(o, "content_hash").Some? && o["content_hash"].Str?
    ensures FitsSchema(o) ==> Parse(Valid(Obj(o))) == Some(Candidate(o["content_hash"].s, None, None))
  {
    hide HasBody, FitsSchema;
    BodyIsSchema(o);
    HasHashText(o);
  }

  lemma HasHashText(o: Object)
    ensures HasBody(o) ==> "content_hash" in o && o["content_hash"].Str?
  {
  }

  lemma NamesDiffer()
    ensures "localTriage" != "local_triage" && "localEvidence" != "local_evidence"
    ensures "localTriage" != "localEvidence" && "localTriage" != "local_evidence"
    ensures "local_triage" != "localEvidence" && "local_triage" != "local_evidence"
    ensures forall i :: 0 <= i < |Schema()| ==> Schema()[i].name[0] != 'l'
  {
    assert "localTriage"[5] == 'T' && "localEvidence"[5] == 'E' && "local_triage"[5] == '_' && "local_evidence"[5] == '_';
    assert "local_triage"[6] == 't' && "local_evidence"[6] == 'e';
  }

  lemma MarkKeepsSchema(o: Object, name: string, v: Json)
    requires name != "" && name[0] == 'l'
    ensures FitsSchema(o[name := v]) <==> FitsSchema(o)
    ensures At(o[name := v], "content_hash") == At(o, "content_hash")
  {
    hide Schema, Fits;
    NamesDiffer();
    assert "content_hash"[0] == 'c';
    assert forall i :: 0 <= i < |Schema()| ==> (FieldFits(o[name := v], Schema()[i]) <==> FieldFits(o, Schema()[i]));
  }

  // ---- The marks ------------------------------------------------------------------------------------------------

  predicate NamesStatus(x: string, status: TriageStatus) {
    match status
    case SupersededBy => x == "superseded_by"
    case ClusteredInto => x == "clustered_into"
    case DroppedLowSignal => x == "dropped_low_signal"
    case Unknown => x != "superseded_by" && x != "clustered_into" && x != "dropped_low_signal"
  }

  /** An absent reference may also be spelled `null`. */
  predicate SpellsReference(v: Option<Json>, reference: Option<string>) {
    match reference
    case None => v == None || v == Some(Null)
    case Some(x) => v == Some(Str(x))
  }

  /** The triage record written as JSON. */
  predicate Spells(v: Json, t: Triage) {
    && v.Obj? && At(v.fields, "reason") == Some(Str(t.reason)) && At(v.fields, "at") == Some(Int(t.at))
    && SpellsReference(At(v.fields, "ref"), t.reference)
    && "status" in v.fields && v.fields["status"].Str? && NamesStatus(v.fields["status"].s, t.status)
  }

  lemma TriageReads(v: Json, t: Triage)
    ensures ParseTriage(Some(v)) == Some(t) <==> Spells(v, t)
  {
  }

  /** MAIN: a triage field never makes a candidate unreadable, under either of its names. It is read as the
      record it spells, and as none when it spells no record. */
  lemma TriageFieldIsLossy(o: Object, name: string, v: Json, t: Triage)
    requires Unmarked(o) && FitsSchema(o) && (name == "localTriage" || name == "local_triage")
    ensures var c := Parse(Valid(Obj(o[name := v])));
      && c.Some? && c.value.evidence.None?
      && (c.value.triage == Some(t) <==> Spells(v, t))
  {
    hide HasBody, FitsSchema, ParseTriage, Spells;
    NamesDiffer();
    MarkKeepsSchema(o, name, v);
    BodyIsSchema(o);
    BodyIsSchema(o[name := v]);
    TriageReads(v, t);
    assert At(o[name := v], name) == Some(v);
  }

  /** The evidence record: a count and a time. */
  predicate Counts(v: Json, count: nat) {
    && v.Obj? && At(v.fields, "distinctEvidenceCount") == Some(Int(count))
    && match At(v.fields, "updatedAt") case Some(Int(_)) => true case _ => false
  }

  lemma EvidenceReads(v: Json, count: nat)
    ensures ParseEvidence(Some(v)) == Ok(Some(count)) <==> Counts(v, count)
    ensures ParseEvidence(Some(v)) == Ok(None) <==> v == Null
  {
  }

  /** MAIN: an evidence field is read strictly: `null` is none, a record is its count, and anything else
      makes the whole candidate unreadable. */
  lemma EvidenceFieldIsStrict(o: Object, name: string, v: Json, count: nat)
    requires Unmarked(o) && FitsSchema(o) && (name == "localEvidence" || name == "local_evidence")
    ensures var c := Parse(Valid(Obj(o[name := v])));
      && (c.Some? && c.value.evidence == Some(count) <==> Counts(v, count))
      && (c.Some? && c.value.evidence == None <==> v == Null)
      && (c.Some? ==> c.value.triage.None?)
  {
    hide HasBody, FitsSchema, ParseTriage, ParseEvidence, Counts;
    NamesDiffer();
    MarkKeepsSchema(o, name, v);
    BodyIsSchema(o);
    BodyIsSchema(o[name := v]);
    EvidenceReads(v, count);
    assert At(o[name := v], name) == Some(v);
    NoMarksRead();
  }

  lemma NoMarksRead()
    ensures ParseTriage(None) == None && ParseEvidence(None) == Ok(None)
  {
  }

  /** A field under both its names makes the candidate unreadable, whatever the two hold. */
  lemma BothNamesClash(o: Object)
    requires ("localTriage" in o && "local_triage" in o) || ("localEvidence" in o && "local_evidence" in o)
    ensures Parse(Valid(Obj(o))).None?
  {
    hide HasBody, ParseTriage, ParseEvidence;
  }

  // ---- Case ---------------------------------------------------------------------------------------------------------

  predicate LowerCaseWord(word: string) { forall i :: 0 <= i < |word| ==> !('A' <= word[i] <= 'Z') }

  /** Equal, or the upper-case form of an ASCII letter. */
  predicate SameLetter(x: char, y: char) { x == y || ('a' <= y <= 'z' && x as int + 32 == y as int) }

  /** What the queries compare: a status is the word up to the case of ASCII letters. */
  lemma StatusIgnoresCase(p: Payload, outer: string, word: string)
    requires LowerCaseWord(word)
    ensures SqlStatusIs(p, outer, word) <==>
      && p.Valid? && p.json.Obj? && At(p.json.fields, outer).Some? && p.json.fields[outer].Obj?
      && match At(p.json.fields[outer].fields, "status")
         case Some(Str(s)) => |s| == |word| && forall i :: 0 <= i < |s| ==> SameLetter(s[i], word[i])
         case _ => false
  {
    forall s: string | |s| == |word|
      ensures Lower(s) == word <==> forall i :: 0 <= i < |s| ==> SameLetter(s[i], word[i])
    {
      LowerIsWord(s, word);
    }
  }

  lemma LowerIsWord(s: string, word: string)
    requires |s| == |word| && LowerCaseWord(word)
    ensures Lower(s) == word <==> forall i :: 0 <= i < |s| ==> SameLetter(s[i], word[i])
  {
    forall i | 0 <= i < |s|
      ensures Lower(s)[i] == word[i] <==> SameLetter(s[i], word[i])
    {
      var x, y := s[i], word[i];
      assert Lower(s)[i] == LowerChar(x);
    }
    if Lower(s) == word {
      assert forall i :: 0 <= i < |s| ==> Lower(s)[i] == word[i];
    }
  }
}
