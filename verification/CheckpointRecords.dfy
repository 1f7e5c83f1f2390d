/** Checkpoint records, before and after they are written canonically and read back. */
module CheckpointRecords {
  import opened Wrappers
  import opened Utf8
  import opened KeyOrder
  import opened JsonValue
  import opened JsonNormal
  import opened LedgerIdentity
  import opened DreamFilter
  import JsonParser
  import JsonStrict
  import JsonWriter
  import TextRule

  predicate Plain(text: string) {
    forall c :: c in text ==> 'a' <= c <= 'z' || '0' <= c <= '9' || c == '_'
  }

  /** Unicode fact the model assumes: normalization neither changes lowercase ASCII words nor makes
      them of anything else. */
  ghost predicate PlainLaws(nfc: string -> string) {
    forall s, t :: Plain(t) ==> (nfc(s) == t <==> s == t)
  }

  /** Record fields, and the record a canonical line reads back as. */
  function NormalRecord(record: Record, nfc: string -> string): Record {
    Sort(NormalMembers(record, nfc))
  }

  function MapNormal(value: Option<Value>, nfc: string -> string): Option<Value> {
    match value
    case Some(v) => Some(Normal(v, nfc))
    case None => None
  }

  // ----- fields -----

  lemma {:induction false} GetPut(record: Record, m: Member<Value>, field: string)
    ensures Get(JsonParser.Put(record, m), field) == if field == m.key then Some(m.value) else Get(record, field)
  {
    if record != [] && record[0].key != m.key {
      GetPut(record[1..], m, field);
      var tail := JsonParser.Put(record[1..], m);
      assert ([record[0]] + tail)[1..] == tail;
    } else if record != [] {
      assert ([m] + record[1..])[1..] == record[1..];
    } else {
      assert [m][1..] == [];
    }
  }

  lemma {:induction false} PutSame(record: Record, m: Member<Value>)
    requires Get(record, m.key) == Some(m.value)
    ensures JsonParser.Put(record, m) == record
  {
    if record[0].key != m.key {
      PutSame(record[1..], m);
    }
    assert record == [record[0]] + record[1..];
  }

  lemma {:induction false} GetInsert(m: Member<Value>, sorted: Record, field: string)
    requires m.key !in Keys(sorted)
    ensures Get(Insert(m, sorted), field) == if field == m.key then Some(m.value) else Get(sorted, field)
  {
    if sorted == [] || !KeyLess(sorted[0].key, m.key) {
      assert ([m] + sorted)[1..] == sorted;
    } else {
      GetInsert(m, sorted[1..], field);
      var tail := Insert(m, sorted[1..]);
      assert ([sorted[0]] + tail)[1..] == tail;
    }
  }

  lemma {:induction false} GetSort(members: Record, field: string)
    requires DistinctKeys(members)
    ensures Get(Sort(members), field) == Get(members, field)
  {
    if members != [] {
      GetSort(members[1..], field);
      SortOrders(members[1..]);
      GetInsert(members[0], Sort(members[1..]), field);
    }
  }

  lemma {:induction false} GetNormalMembers(record: Record, field: string, nfc: string -> string)
    requires PlainLaws(nfc) && Plain(field)
    ensures Get(NormalMembers(record, nfc), field) == MapNormal(Get(record, field), nfc)
  {
    if record != [] {
      GetNormalMembers(record[1..], field, nfc);
      var tail := NormalMembers(record[1..], nfc);
      assert NormalMembers(record, nfc)[1..] == tail;
      assert nfc(record[0].key) == field <==> record[0].key == field;
    }
  }

  /** A field reads back as its normal value. */
  lemma GetNormal(record: Record, field: string, nfc: string -> string)
    requires NfcLaws(nfc) && PlainLaws(nfc) && Plain(field) && DistinctUnder(record, nfc)
    ensures Get(NormalRecord(record, nfc), field) == MapNormal(Get(record, field), nfc)
  {
    NormalMembersKeys(record, nfc);
    GetSort(NormalMembers(record, nfc), field);
    GetNormalMembers(record, field, nfc);
  }

  lemma {:induction false} PutAt(record: Record, m: Member<Value>) returns (i: nat)
    ensures i <= |record|
    ensures forall j :: 0 <= j < i ==> record[j].key != m.key
    ensures i == |record| ==> JsonParser.Put(record, m) == record + [m]
    ensures i < |record| ==> record[i].key == m.key && JsonParser.Put(record, m) == record[i := m]
  {
    if record == [] || record[0].key == m.key {
      i := 0;
    } else {
      var k := PutAt(record[1..], m);
      i := k + 1;
      assert forall j :: 0 < j < i ==> record[j] == record[1..][j - 1];
    }
  }

  lemma PutWellFormed(record: Record, m: Member<Value>, nfc: string -> string)
    requires PlainLaws(nfc) && Plain(m.key) && WellFormed(Obj(record), nfc) && WellFormed(m.value, nfc)
    ensures WellFormed(Obj(JsonParser.Put(record, m)), nfc)
  {
    var i := PutAt(record, m);
    var after := JsonParser.Put(record, m);
    PlainAllowed(m.key);
    forall j | 0 <= j < |record| ensures nfc(record[j].key) == nfc(m.key) <==> record[j].key == m.key {
      assert nfc(m.key) == m.key;
    }
    if i < |record| {
      assert forall j :: 0 <= j < |record| && j != i ==> nfc(record[j].key) != nfc(record[i].key);
    }
    forall a, b | 0 <= a < b < |after| ensures nfc(after[a].key) != nfc(after[b].key) {
    }
  }

  lemma PlainAllowed(text: string)
    requires Plain(text)
    ensures TextRule.Allowed(text)
  {
  }

  // ----- receipts -----

  lemma NormalText(record: Record, field: string, nfc: string -> string)
    requires NfcLaws(nfc) && PlainLaws(nfc) && Plain(field) && DistinctUnder(record, nfc)
    ensures GetText(NormalRecord(record, nfc), field) ==
            match GetText(record, field) case Some(text) => Some(nfc(text)) case None => None
  {
    GetNormal(record, field, nfc);
  }

  lemma NormalSettles(record: Record, nfc: string -> string)
    requires NfcLaws(nfc) && PlainLaws(nfc) && DistinctUnder(record, nfc)
    ensures Settles(NormalRecord(record, nfc)) <==> Settles(record)
  {
    PlainWords();
    NormalText(record, "state", nfc);
    var text := GetText(record, "state");
    if text.Some? {
      assert nfc(text.value) == "pending" <==> text.value == "pending";
      assert nfc(text.value) == "abandoned" <==> text.value == "abandoned";
    }
  }

  lemma PlainWords()
    ensures Plain("pending") && Plain("abandoned") && Plain("state") && Plain("receipt_id")
  {
  }

  lemma NormalReceipt(admission: Value, nfc: string -> string)
    requires NfcLaws(nfc) && PlainLaws(nfc) && WellFormed(admission, nfc)
    ensures SettledReceipt(Normal(admission, nfc)) ==
            match SettledReceipt(admission) case Some(r) => Some(nfc(r)) case None => None
  {
    if admission.Obj? {
      PlainWords();
      NormalSettles(admission.members, nfc);
      NormalText(admission.members, "receipt_id", nfc);
    }
  }

  function MapPair(p: Receipt, nfc: string -> string): Receipt {
    (nfc(p.0), nfc(p.1))
  }

  function MapPairs(pairs: seq<Receipt>, nfc: string -> string): (r: seq<Receipt>)
    ensures |r| == |pairs| && forall i :: 0 <= i < |r| ==> r[i] == MapPair(pairs[i], nfc)
  {
    seq(|pairs|, i requires 0 <= i < |pairs| => MapPair(pairs[i], nfc))
  }

  lemma {:induction false} NormalPairs(session: string, admissions: seq<Value>, nfc: string -> string)
    requires NfcLaws(nfc) && PlainLaws(nfc) && forall i :: 0 <= i < |admissions| ==> WellFormed(admissions[i], nfc)
    ensures Pairs(nfc(session), NormalItems(admissions, nfc)) == MapPairs(Pairs(session, admissions), nfc)
  {
    if admissions != [] {
      NormalReceipt(admissions[0], nfc);
      NormalPairs(session, admissions[1..], nfc);
      assert NormalItems(admissions, nfc)[1..] == NormalItems(admissions[1..], nfc);
    }
  }

  lemma {:induction false} GetWellFormed(record: Record, field: string, nfc: string -> string)
    requires WellFormed(Obj(record), nfc) && Get(record, field).Some?
    ensures WellFormed(Get(record, field).value, nfc)
  {
    if record[0].key != field {
      var tail := record[1..];
      assert forall i :: 0 <= i < |tail| ==> tail[i] == record[i + 1];
      GetWellFormed(tail, field, nfc);
    }
  }

  lemma AdmissionsWellFormed(record: Record, nfc: string -> string)
    requires WellFormed(Obj(record), nfc)
    ensures forall i :: 0 <= i < |AdmissionsOf(record)| ==> WellFormed(AdmissionsOf(record)[i], nfc)
  {
    if Get(record, "admissions").Some? {
      GetWellFormed(record, "admissions", nfc);
    }
  }

  lemma WellFormedDistinct(record: Record, nfc: string -> string)
    requires WellFormed(Obj(record), nfc)
    ensures DistinctUnder(record, nfc)
  {
  }

  /** The parts of a record, read back. */
  lemma NormalParts(record: Record, nfc: string -> string)
    requires NfcLaws(nfc) && PlainLaws(nfc) && WellFormed(Obj(record), nfc)
    ensures var n := NormalRecord(record, nfc);
      && SessionOf(n) == nfc(SessionOf(record))
      && AdmissionsOf(n) == NormalItems(AdmissionsOf(record), nfc)
      && CountOf(n) == CountOf(record)
      && Listed(n) == MapPairs(Listed(record), nfc)
  {
    hide WellFormed, Get, NormalRecord, Pairs;
    PlainFields();
    WellFormedDistinct(record, nfc);
    NormalText(record, "session_id", nfc);
    GetNormal(record, "admissions", nfc);
    GetNormal(record, "admissions_settled", nfc);
    assert Plain("") && nfc("") == "";
    AdmissionsWellFormed(record, nfc);
    NormalPairs(SessionOf(record), AdmissionsOf(record), nfc);
  }

  // ----- decisions -----

  lemma CanonicalNormal(v: Value, nfc: string -> string)
    requires NfcLaws(nfc) && WellFormed(v, nfc)
    ensures JsonWriter.Canonical(Normal(v, nfc), nfc) == JsonWriter.Canonical(v, nfc)
  {
    JsonStrict.CanonicalAgain(v, nfc);
  }

  lemma SamePart(record: Record, field: string, default: Value, nfc: string -> string)
    requires NfcLaws(nfc) && PlainLaws(nfc) && Plain(field) && WellFormed(Obj(record), nfc)
    requires Normal(default, nfc) == default
    ensures SameText(Member(field, Or(Get(NormalRecord(record, nfc), field), default)), Member(field, Or(Get(record, field), default)), nfc)
  {
    GetNormal(record, field, nfc);
    if Get(record, field).Some? {
      GetWellFormed(record, field, nfc);
      CanonicalNormal(Get(record, field).value, nfc);
    }
  }

  /** Two members are written alike. */
  predicate SameText(a: Member<Value>, b: Member<Value>, nfc: string -> string) {
    a.key == b.key && JsonWriter.Canonical(a.value, nfc) == JsonWriter.Canonical(b.value, nfc)
  }

  lemma {:induction false} SameMembers(a: Record, b: Record, nfc: string -> string)
    requires |a| == |b| && forall i :: 0 <= i < |a| ==> SameText(a[i], b[i], nfc)
    ensures JsonWriter.CanonicalMembers(a, nfc) == JsonWriter.CanonicalMembers(b, nfc)
  {
    if a != [] {
      SameMembers(a[1..], b[1..], nfc);
    }
  }

  lemma SameObjects(a: Record, b: Record, nfc: string -> string)
    requires |a| == |b| && forall i :: 0 <= i < |a| ==> SameText(a[i], b[i], nfc)
    ensures JsonWriter.Canonical(Obj(a), nfc) == JsonWriter.Canonical(Obj(b), nfc)
  {
    SameMembers(a, b, nfc);
  }

  lemma DefaultsAreNormal(nfc: string -> string)
    ensures Normal(Arr([]), nfc) == Arr([]) && Normal(Null, nfc) == Null && Normal(Int(0), nfc) == Int(0)
  {
  }

  /** A checkpoint read back decides what it decided, under the same id. */
  lemma SameDecision(d: Dreamer, record: Record)
    requires NfcLaws(d.codec.nfc) && PlainLaws(d.codec.nfc) && WellFormed(Obj(record), d.codec.nfc)
    ensures CheckpointId(d, Decision(NormalRecord(record, d.codec.nfc))) == CheckpointId(d, Decision(record))
  {
    hide WellFormed, Get, NormalRecord, Normal, Or, JsonWriter.Canonical;
    var nfc := d.codec.nfc;
    PlainFields();
    DefaultsAreNormal(nfc);
    SamePart(record, "session_id", Null, nfc);
    SamePart(record, "admissions", Arr([]), nfc);
    SamePart(record, "admission_failures", Int(0), nfc);
    SamePart(record, "admissions_held", Int(0), nfc);
    SamePart(record, "personal_fact_count", Int(0), nfc);
    SamePart(record, "sweep", Null, nfc);
    SameObjects(Decision(NormalRecord(record, nfc)), Decision(record), nfc);
  }

  lemma {:induction false} NormalMembersHas(members: Record, nfc: string -> string)
    ensures forall i :: 0 <= i < |members| ==> NormalMembers(members, nfc)[i].value == Normal(members[i].value, nfc)
  {
    if members != [] {
      NormalMembersHas(members[1..], nfc);
    }
  }

  lemma SortedZero(members: Record)
    ensures AllZero(Sort(members)) <==> AllZero(members)
  {
    SortOrders(members);
    forall m ensures m in Sort(members) <==> m in members {
      assert m in Sort(members) <==> m in multiset(Sort(members));
    }
  }

  lemma {:induction false} NormalZero(members: Record, nfc: string -> string)
    ensures AllZero(NormalMembers(members, nfc)) <==> AllZero(members)
  {
    NormalMembersHas(members, nfc);
    var normal := NormalMembers(members, nfc);
    if AllZero(members) {
      forall m | m in normal ensures m.value == Int(0) {
        var i :| 0 <= i < |normal| && normal[i] == m;
        assert members[i] in members;
      }
    }
    if AllZero(normal) {
      forall m | m in members ensures m.value == Int(0) {
        var i :| 0 <= i < |members| && members[i] == m;
        assert normal[i] in normal;
      }
    }
  }

  function Part(record: Record, field: string, default: Value): Value {
    Or(Get(record, field), default)
  }

  /** `checkpoint_is_empty`, read off the record. */
  predicate NothingIn(admissions: Value, failures: Value, held: Value, facts: Value, sweep: Value) {
    && admissions == Arr([]) && failures == Int(0) && held == Int(0) && facts == Int(0)
    && ZeroSweep(sweep)
  }

  predicate ZeroSweep(sweep: Value) {
    sweep.Obj? ==> AllZero(sweep.members)
  }

  predicate Nothing(record: Record) {
    NothingIn(Part(record, "admissions", Arr([])), Part(record, "admission_failures", Int(0)),
              Part(record, "admissions_held", Int(0)), Part(record, "personal_fact_count", Int(0)), Part(record, "sweep", Null))
  }

  lemma DecisionParts(record: Record)
    ensures Get(Decision(record), "session_id") == Some(Part(record, "session_id", Null))
    ensures Get(Decision(record), "admissions") == Some(Part(record, "admissions", Arr([])))
    ensures DecidedNothing(Decision(record)) <==> Nothing(record)
  {
    var r := Decision(record);
    assert Get(r, "sweep") == Get(r[1..], "sweep") == Get(r[2..], "sweep") == Get(r[3..], "sweep") == Get(r[4..], "sweep") == Get(r[5..], "sweep");
    assert Get(r, "personal_fact_count") == Get(r[1..], "personal_fact_count") == Get(r[2..], "personal_fact_count")
        == Get(r[3..], "personal_fact_count") == Get(r[4..], "personal_fact_count");
    assert Get(r, "admissions_held") == Get(r[1..], "admissions_held") == Get(r[2..], "admissions_held") == Get(r[3..], "admissions_held");
    assert Get(r, "admission_failures") == Get(r[1..], "admission_failures") == Get(r[2..], "admission_failures");
  }

  lemma NormalPart(record: Record, field: string, default: Value, nfc: string -> string)
    requires NfcLaws(nfc) && PlainLaws(nfc) && Plain(field) && WellFormed(Obj(record), nfc)
    requires Normal(default, nfc) == default
    ensures Part(NormalRecord(record, nfc), field, default) == Normal(Part(record, field, default), nfc)
  {
    GetNormal(record, field, nfc);
  }

  lemma PlainFields()
    ensures Plain("session_id") && Plain("admissions") && Plain("admission_failures") && Plain("admissions_held")
    ensures Plain("personal_fact_count") && Plain("sweep") && Plain("admissions_settled") && Plain("checkpoint_id")
  {
  }

  lemma SameSweep(sweep: Value, nfc: string -> string)
    ensures ZeroSweep(Normal(sweep, nfc)) <==> ZeroSweep(sweep)
  {
    if sweep.Obj? {
      SortedZero(NormalMembers(sweep.members, nfc));
      NormalZero(sweep.members, nfc);
    }
  }

  lemma SameEmpty(v: Value, nfc: string -> string)
    ensures Normal(v, nfc) == Arr([]) <==> v == Arr([])
    ensures Normal(v, nfc) == Int(0) <==> v == Int(0)
  {
  }

  lemma SameNothing(admissions: Value, failures: Value, held: Value, facts: Value, sweep: Value, nfc: string -> string)
    ensures NothingIn(Normal(admissions, nfc), Normal(failures, nfc), Normal(held, nfc), Normal(facts, nfc), Normal(sweep, nfc))
        <==> NothingIn(admissions, failures, held, facts, sweep)
  {
    SameEmpty(admissions, nfc);
    SameEmpty(failures, nfc);
    SameEmpty(held, nfc);
    SameEmpty(facts, nfc);
    SameSweep(sweep, nfc);
  }

  /** A checkpoint read back decided nothing exactly when it did before. */
  lemma SameEmptiness(record: Record, nfc: string -> string)
    requires NfcLaws(nfc) && PlainLaws(nfc) && WellFormed(Obj(record), nfc)
    ensures Nothing(NormalRecord(record, nfc)) <==> Nothing(record)
  {
    PlainFields();
    NormalPart(record, "admissions", Arr([]), nfc);
    NormalPart(record, "admission_failures", Int(0), nfc);
    NormalPart(record, "admissions_held", Int(0), nfc);
    NormalPart(record, "personal_fact_count", Int(0), nfc);
    NormalPart(record, "sweep", Null, nfc);
    SameNothing(Part(record, "admissions", Arr([])), Part(record, "admission_failures", Int(0)),
                Part(record, "admissions_held", Int(0)), Part(record, "personal_fact_count", Int(0)), Part(record, "sweep", Null), nfc);
  }
}
