/**
 Compacting can lose a settled receipt: a checkpoint the filter cannot write back is kept, and
 counted, under the id it states (dream.rs 190-202). When that is the id a later checkpoint is
 re-encoded to, the later one is dropped as its repeat, with all it listed.
 */
module LostReceipts {
  import opened Wrappers
  import opened Utf8
  import opened KeyOrder
  import opened JsonValue
  import opened LedgerIdentity
  import opened DreamFilter
  import opened CheckpointRecords
  import opened DreamCheckpoints
  import opened DreamAgain
  import opened CheckpointPass
  import opened CheckpointLedger
  import opened NfcMerges
  import JsonParser
  import JsonStrict
  import JsonSyntax
  import JsonWriter

  /** What a ledger of two such lines comes to. */
  lemma TheSecondIsLost(d: Dreamer, m: Bytes, n: Bytes, q: Receipt)
    requires Lawful(d) && FateOf(d, {}, m).AsWritten? && ListedOn(d, m) == []
    requires FateOf(d, {}, n).Rewritten? && ListedOn(d, n) == [q] && Says(FateOf(d, {}, n)) == [q]
    requires IdOf(d, FateOf(d, {}, m), m) == IdOf(d, FateOf(d, {}, n), n)
    ensures KeepAll(d, INITIAL, [m, n]).lines == [m]
    ensures Shadowed(d, [m, n], 1)
    ensures Elements(AllListed(d, [m, n])) == {q} && StillListed(d, [m, n]) == {}
  {
    hide FateOf, IdOf, ListedOn, Says;
    var lines := [m, n];
    NoElements();
    TwoLines(d, m, n);
    assert IdAt(d, lines, 0) == IdAt(d, lines, 1) && IdAt(d, lines, 0).Some? by { SomeId(d, m); }
    assert ShadowedBy(d, lines, 0, 1);
    WholePass(d, lines);
    OnlyTheFirstStands(d, m, n);
    SettledNext(d, lines, 1);
    AllSettled(d, lines);
    OneListed(d, m);
    NothingImaged(d.codec.nfc);
  }

  lemma SomeId(d: Dreamer, line: Bytes)
    requires FateOf(d, {}, line).AsWritten?
    ensures IdOf(d, FateOf(d, {}, line), line).Some?
  {
  }

  lemma NoElements()
    ensures Elements<Receipt>([]) == {}
  {
  }

  lemma OnlyTheFirstStands(d: Dreamer, m: Bytes, n: Bytes)
    requires FateAt(d, [m, n], 0).AsWritten? && IdAt(d, [m, n], 0).Some? && IdAt(d, [m, n], 0) == IdAt(d, [m, n], 1)
    ensures Standing(d, [m, n], 2) == [m]
  {
    assert Stands(d, [m, n], 0) && !Stands(d, [m, n], 1);
    assert Standing(d, [m, n], 1) == Standing(d, [m, n], 0) + [m] == [m];
    assert Standing(d, [m, n], 2) == [m] + [];
  }

  // ----- the ledger -----

  const BELL := "\U{7}"

  /** A held checkpoint that states an id, with a note the text rule refuses. */
  function Noted(id: string): Record {
    [Member("admissions_held", Int(1)), Member("checkpoint_id", Str(id)), Member("note", Str(BELL))]
  }

  lemma NotedFields(id: string, field: string)
    ensures Get(Noted(id), field) == if field == "admissions_held" then Some(Int(1))
                                     else if field == "checkpoint_id" then Some(Str(id))
                                     else if field == "note" then Some(Str(BELL)) else None
  {
    var r := Noted(id);
    assert r[1..] == [Member("checkpoint_id", Str(id)), Member("note", Str(BELL))] && r[1..][1..] == [Member("note", Str(BELL))];
    OneField(r[1..][1..], field);
    assert |"admissions_held"| == 15 && |"checkpoint_id"| == 13 && |"note"| == 4;
  }

  /** It cannot be written back. */
  lemma NotedIsUnwritable(d: Dreamer, id: string)
    requires Lawful(d)
    ensures Reencode(d, Noted(id), {}).Some? && !WellFormed(Obj(Reencode(d, Noted(id), {}).value), d.codec.nfc)
    ensures Listed(Noted(id)) == []
  {
    var r := Noted(id);
    NotedAdmissions(id);
    RecountFields(r, [], 0);
    var recounted := Recounted(r, {});
    assert recounted == Recount(r, [], 0);
    NotedFields(id, "admissions_held");
    NotedFields(id, "note");
    DecisionParts(recounted);
    NoteStays(d, r, recounted);
  }

  lemma NotedAdmissions(id: string)
    ensures AdmissionsOf(Noted(id)) == [] && CountOf(Noted(id)) == 0 && Listed(Noted(id)) == []
  {
    NotedFields(id, "admissions");
    NotedFields(id, "admissions_settled");
    assert |"admissions"| == 10 && |"admissions_settled"| == 18;
  }

  lemma NoteStays(d: Dreamer, r: Record, recounted: Record)
    requires recounted == Recount(r, [], 0) && Relabel(d, recounted).Some? && Get(r, "note") == Some(Str(BELL))
    ensures !WellFormed(Obj(Relabel(d, recounted).value), d.codec.nfc)
  {
    var m, n := Member("admissions", Arr([])), Member("admissions_settled", Int(0));
    var id := Member("checkpoint_id", Str(CheckpointId(d, Decision(recounted))));
    assert |"note"| == 4 && |"admissions"| == 10 && |"admissions_settled"| == 18 && |"checkpoint_id"| == 13;
    BellIsRefused(d.codec.nfc);
    GetPut(r, m, "note");
    GetPut(JsonParser.Put(r, m), n, "note");
    GetPut(recounted, id, "note");
    if WellFormed(Obj(Relabel(d, recounted).value), d.codec.nfc) {
      GetWellFormed(Relabel(d, recounted).value, "note", d.codec.nfc);
    }
  }

  lemma BellIsRefused(nfc: string -> string)
    ensures !WellFormed(Str(BELL), nfc)
  {
    assert BELL[0] in BELL;
  }

  predicate Simple(v: Value) {
    v.Str? || v == Int(1)
  }

  lemma SimpleDenotes(v: Value)
    requires Simple(v)
    ensures JsonSyntax.Grammar(JsonStrict.DocOf(v)) && JsonParser.Denote(JsonStrict.DocOf(v)) == Some(v)
  {
    if v.Str? {
      JsonStrict.QuoteIsRaw(v.text);
      JsonStrict.QuoteDecodes(v.text);
    } else {
      JsonStrict.IntReads(1);
    }
  }

  /** A record of texts and ones reads back from its plain print. */
  lemma {:induction false} FlatDenotes(members: Record)
    requires forall i :: 0 <= i < |members| ==> Simple(members[i].value)
    ensures forall i :: 0 <= i < |members| ==> JsonSyntax.GrammarPair(JsonStrict.DocMembers(members)[i])
    ensures JsonParser.DenoteMembers(JsonStrict.DocMembers(members)) == Some(members)
  {
    if members != [] {
      hide JsonWriter.QuoteBody, JsonWriter.IntText, JsonParser.Decode, JsonSyntax.RawString, JsonSyntax.NumberToken, JsonParser.NumberValue;
      var m := members[0];
      JsonStrict.QuoteIsRaw(m.key);
      JsonStrict.QuoteDecodes(m.key);
      SimpleDenotes(m.value);
      FlatDenotes(members[1..]);
      assert JsonStrict.DocMembers(members)[1..] == JsonStrict.DocMembers(members[1..]);
      assert [m] + members[1..] == members;
    }
  }

  lemma ReadsText(text: string, members: Record)
    requires JsonParser.ParseDocument(text) == Some(Obj(members))
    ensures ReadRecord(Encode(text)) == Some(members)
  {
    hide JsonParser.ParseDocument, Encode;
    var b := Encode(text);
    assert Encode(text) == b;
    EncodeInjective(NfcMerges.TextOf(b).value, text);
  }

  lemma FlatDoc(members: Record)
    requires DistinctKeys(members)
    requires forall i :: 0 <= i < |members| ==> Simple(members[i].value)
    ensures var doc := JsonStrict.DocOf(Obj(members)); JsonSyntax.Grammar(doc) && JsonParser.Denote(doc) == Some(Obj(members))
  {
    hide DistinctKeys, Keys, Simple, JsonStrict.DocMembers, JsonParser.DenoteMembers, JsonParser.Collect, JsonSyntax.GrammarPair;
    FlatDenotes(members);
    NoKeys();
    JsonStrict.CollectDistinct(members, []);
    assert [] + members == members;
  }

  lemma FlatReads(members: Record)
    requires DistinctKeys(members)
    requires forall i :: 0 <= i < |members| ==> Simple(members[i].value)
    ensures ReadRecord(Encode(JsonWriter.Print(Obj(members)))) == Some(members)
  {
    hide JsonParser.ParseDocument, JsonParser.Denote, JsonWriter.Print, JsonSyntax.Text, JsonSyntax.Grammar, JsonStrict.DocOf;
    hide ReadRecord, DistinctKeys, Encode, Simple;
    var doc := JsonStrict.DocOf(Obj(members));
    FlatDoc(members);
    JsonStrict.DocPrints(Obj(members));
    JsonStrict.Unpadded(doc);
    JsonParser.ParseExact(JsonSyntax.Padded("", doc, ""));
    ReadsText(JsonWriter.Print(Obj(members)), members);
  }

  lemma NoKeys()
    ensures Keys<Value>([]) == {}
  {
  }

  lemma ThreeDistinct(a: Member<Value>, b: Member<Value>, c: Member<Value>)
    requires a.key != b.key && a.key != c.key && b.key != c.key
    ensures DistinctKeys([a, b, c])
  {
    var all, two, one := [a, b, c], [b, c], [c];
    assert all[1..] == two && two[1..] == one && one[1..] == [];
    assert Keys(one) == {c.key};
    assert Keys(two) == {b.key, c.key};
    assert DistinctKeys(one) && DistinctKeys(two);
  }

  lemma PrintedIsNotBlank(r: Record)
    ensures !Blank(Encode(JsonWriter.Print(Obj(r))))
  {
    hide JsonWriter.Commas, JsonWriter.MemberTexts;
    var text := JsonWriter.Print(Obj(r));
    AsciiHead(text);
    assert Encode(text)[0] == 123;
  }

  lemma NotedReads(hash: string -> string, id: string)
    ensures RecordOn(DreamsWith(Same, hash), Encode(JsonWriter.Print(Obj(Noted(id))))) == Some(Noted(id))
  {
    var r := Noted(id);
    hide ReadRecord, DistinctKeys, Encode;
    assert |"admissions_held"| == 15 && |"checkpoint_id"| == 13 && |"note"| == 4;
    ThreeDistinct(r[0], r[1], r[2]);
    FlatReads(r);
    PrintedIsNotBlank(r);
  }

  /** The id the one-receipt checkpoint is re-encoded to. */
  ghost function TakenId(d: Dreamer): string {
    match Reencode(d, Checkpoint("r", false), {})
    case Some(r) => (match GetText(r, "checkpoint_id") case Some(id) => id case None => "")
    case None => ""
  }

  /** A ledger of two checkpoints whose compaction keeps the one that cannot be written back and loses
      the receipt the other lists. */
  lemma ACompactionLosesAReceipt(hash: string -> string)
    requires HashLaws(hash)
    ensures var d := DreamsWith(Same, hash);
      var m, n := Encode(JsonWriter.Print(Obj(Noted(TakenId(d))))), LineOf(Checkpoint("r", false), Same);
      && Lawful(d) && KeepAll(d, INITIAL, [m, n]).lines == [m]
      && Elements(AllListed(d, [m, n])) == {("", "r")} && StillListed(d, [m, n]) == {}
  {
    hide Lawful, WellFormed, NormalRecord, Listed, Reencode, Current, LineOf, JsonWriter.Print, Identity;
    var d, x := DreamsWith(Same, hash), Checkpoint("r", false);
    SameIsLawful(hash);
    CheckpointFacts("r", false);
    var m, n, id := Encode(JsonWriter.Print(Obj(Noted(TakenId(d))))), LineOf(x, Same), TakenId(d);
    OnSameLine(hash, x);
    var r := ListsAnew(d, {}, n, x, "r");
    NotedReads(hash, id);
    NotedIsUnwritable(d, id);
    TakenIdIsStated(d, r);
    StatedId(d, r, m, id);
    assert FateOf(d, {}, m) == AsWritten(Noted(id));
    TheSecondIsLost(d, m, n, ("", "r"));
  }

  lemma SameIsLawful(hash: string -> string)
    requires HashLaws(hash)
    ensures Lawful(DreamsWith(Same, hash))
  {
    NormalizersAreLawful();
    ModelReadsCanonical(Same);
  }

  lemma OnSameLine(hash: string -> string, r: Record)
    requires WellFormed(Obj(r), Same) && NormalRecord(r, Same) == r
    ensures RecordOn(DreamsWith(Same, hash), LineOf(r, Same)) == Some(r)
  {
    NormalizersAreLawful();
    ReadsWritten(r, Same);
    AsciiHead(JsonWriter.Canonical(Obj(r), Same));
  }

  lemma TakenIdIsStated(d: Dreamer, r: Record)
    requires Reencode(d, Checkpoint("r", false), {}) == Some(r) && Current(d, r)
    ensures GetText(r, "checkpoint_id") == Some(TakenId(d))
  {
  }

  lemma StatedId(d: Dreamer, r: Record, line: Bytes, id: string)
    requires Lawful(d) && Current(d, r) && GetText(r, "checkpoint_id") == Some(id)
    ensures Identity(d.codec, d.spec, Noted(id), line) == KeyOf(d, r)
  {
    NotedFields(id, "checkpoint_id");
    KeyIsId(d, Noted(id), r, line);
  }
}
