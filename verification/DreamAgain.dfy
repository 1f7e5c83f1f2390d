/** The checkpoint ledger as a whole: what a compaction keeps listed, and when compacting again is a no-op. */
module DreamAgain {
  import opened Wrappers
  import opened Utf8
  import opened KeyOrder
  import opened JsonValue
  import opened LedgerIdentity
  import opened DreamFilter
  import opened CheckpointRecords
  import opened DreamCheckpoints
  import JsonParser
  import JsonWriter
  import JsonStrict

  /** A record in the current form. */
  predicate Current(d: Dreamer, r: Record) {
    && Get(r, "admissions") == Some(Arr(AdmissionsOf(r)))
    && Get(r, "admissions_settled") == Some(Int(CountOf(r)))
    && Get(r, "checkpoint_id") == Some(Str(CheckpointId(d, Decision(r))))
    && !Nothing(r)
  }

  lemma ReencodedIsCurrent(d: Dreamer, record: Record, settled: set<Receipt>)
    requires Reencode(d, record, settled).Some?
    ensures Current(d, Reencode(d, record, settled).value)
  {
    var recounted := Recounted(record, settled);
    var kept := Kept(SessionOf(record), AdmissionsOf(record), settled);
    var count := CountOf(record) + |AdmissionsOf(record)| - |kept|;
    var once := JsonParser.Put(record, Member("admissions", Arr(kept)));
    var id := Member("checkpoint_id", Str(CheckpointId(d, Decision(recounted))));
    GetPut(record, Member("admissions", Arr(kept)), "admissions");
    GetPut(once, Member("admissions_settled", Int(count)), "admissions");
    GetPut(once, Member("admissions_settled", Int(count)), "admissions_settled");
    GetPut(recounted, id, "admissions");
    GetPut(recounted, id, "admissions_settled");
    GetPut(recounted, id, "checkpoint_id");
    RelabelParts(d, recounted);
    DecisionParts(recounted);
    DecisionParts(Reencode(d, record, settled).value);
  }

  /** Re-encoding leaves a current record that lists nothing settled before. */
  lemma CurrentStays(d: Dreamer, r: Record, settled: set<Receipt>)
    requires Current(d, r) && Fresh(Listed(r), settled)
    ensures Reencode(d, r, settled) == Some(r)
  {
    KeptWhole(SessionOf(r), AdmissionsOf(r), settled);
    PutSame(r, Member("admissions", Arr(AdmissionsOf(r))));
    PutSame(r, Member("admissions_settled", Int(CountOf(r))));
    PutSame(r, Member("checkpoint_id", Str(CheckpointId(d, Decision(r)))));
    DecisionParts(r);
  }

  lemma NormalCurrent(d: Dreamer, r: Record)
    requires Lawful(d) && WellFormed(Obj(r), d.codec.nfc) && Current(d, r)
    ensures Current(d, NormalRecord(r, d.codec.nfc)) && WellFormed(Obj(NormalRecord(r, d.codec.nfc)), d.codec.nfc)
  {
    var nfc := d.codec.nfc;
    var n := NormalRecord(r, nfc);
    PlainFields();
    NormalParts(r, nfc);
    GetNormal(r, "admissions", nfc);
    GetNormal(r, "admissions_settled", nfc);
    GetNormal(r, "checkpoint_id", nfc);
    PlainId(d, Decision(r));
    SameDecision(d, r);
    SameEmptiness(r, nfc);
    JsonStrict.CanonicalAgain(Obj(r), nfc);
    assert Normal(Obj(r), nfc) == Obj(n);
  }

  lemma AsciiHead(text: string)
    requires text != "" && (text[0] as int) < 0x80
    ensures Encode(text) != [] && Encode(text)[0] == text[0] as int as byte
  {
  }

  lemma ReadBack(d: Dreamer, r: Record)
    requires Lawful(d) && WellFormed(Obj(r), d.codec.nfc)
    ensures d.codec.parse(LineOf(r, d.codec.nfc)) == Some(NormalRecord(r, d.codec.nfc))
    ensures !Blank(LineOf(r, d.codec.nfc))
    ensures LineOf(NormalRecord(r, d.codec.nfc), d.codec.nfc) == LineOf(r, d.codec.nfc)
  {
    var nfc := d.codec.nfc;
    CanonicalNormal(Obj(r), nfc);
    assert Normal(Obj(r), nfc) == Obj(NormalRecord(r, nfc));
    AsciiHead(JsonWriter.Canonical(Obj(r), nfc));
    assert LineOf(r, nfc)[0] == 123;
  }

  /** Records written alike read back alike. */
  lemma SameLine(d: Dreamer, a: Record, b: Record)
    requires Lawful(d) && WellFormed(Obj(a), d.codec.nfc) && WellFormed(Obj(b), d.codec.nfc)
    requires LineOf(a, d.codec.nfc) == LineOf(b, d.codec.nfc)
    ensures NormalRecord(a, d.codec.nfc) == NormalRecord(b, d.codec.nfc)
  {
  }

  function KeyOf(d: Dreamer, r: Record): Digest {
    Identity(d.codec, d.spec, r, LineOf(r, d.codec.nfc))
  }

  lemma KeyIsId(d: Dreamer, a: Record, b: Record, line: Bytes)
    requires Lawful(d)
    requires GetText(a, "checkpoint_id").Some? && GetText(b, "checkpoint_id").Some?
    ensures Identity(d.codec, d.spec, a, line) == KeyOf(d, a)
    ensures KeyOf(d, a) == KeyOf(d, b) <==>
            d.codec.nfc(GetText(a, "checkpoint_id").value) == d.codec.nfc(GetText(b, "checkpoint_id").value)
  {
    assert d.spec.key == ["checkpoint_id"];
    assert HasKey(d.spec, a) && HasKey(d.spec, b);
    IdentityExact(d.codec, d.spec, a, LineOf(a, d.codec.nfc), b, LineOf(b, d.codec.nfc));
  }

  lemma CurrentKeys(d: Dreamer, a: Record, b: Record)
    requires Lawful(d) && Current(d, a) && Current(d, b)
    ensures KeyOf(d, a) == KeyOf(d, b) <==> CheckpointId(d, Decision(a)) == CheckpointId(d, Decision(b))
  {
    KeyIsId(d, a, b, []);
    PlainId(d, Decision(a));
    PlainId(d, Decision(b));
  }

  lemma Shortened(d: Dreamer, r: Record, settled: set<Receipt>)
    requires Lawful(d) && WellFormed(Obj(r), d.codec.nfc) && Current(d, r)
    requires !Fresh(Listed(NormalRecord(r, d.codec.nfc)), settled)
    requires Reencode(d, NormalRecord(r, d.codec.nfc), settled).Some?
    requires WellFormed(Obj(Reencode(d, NormalRecord(r, d.codec.nfc), settled).value), d.codec.nfc)
    ensures LineOf(Reencode(d, NormalRecord(r, d.codec.nfc), settled).value, d.codec.nfc) != LineOf(r, d.codec.nfc)
  {
    var nfc := d.codec.nfc;
    var n := NormalRecord(r, nfc);
    NormalCurrent(d, r);
    var again := Reencode(d, n, settled).value;
    KeptWhole(SessionOf(n), AdmissionsOf(n), settled);
    RecountedParts(n, settled);
    RelabelParts(d, Recounted(n, settled));
    NormalParts(again, nfc);
    if LineOf(again, nfc) == LineOf(r, nfc) {
      SameLine(d, again, r);
      assert false;
    }
  }
}
