/**
 Compacting twice is not always compacting once: two receipts that differ only by normalization are
 two in the first pass and one in the second. The readers here are built, not assumed, so this
 module also shows that the laws a compaction assumes of its readers can be met.
 */
module NfcMerges {
  import opened Wrappers
  import opened Utf8
  import opened KeyOrder
  import opened JsonValue
  import opened LedgerLines
  import opened LedgerIdentity
  import opened DreamFilter
  import opened DreamCompaction
  import opened CheckpointRecords
  import opened DreamCheckpoints
  import opened DreamAgain
  import opened CheckpointPass
  import opened CheckpointLedger
  import opened CheckpointLaws
  import DreamLaws
  import JsonNormal
  import JsonParser
  import JsonStrict
  import JsonWriter
  import TextRule

  ghost function TextOf(b: Bytes): Option<string> {
    if exists text :: Encode(text) == b then
      var text :| Encode(text) == b;
      Some(text)
    else None
  }

  ghost function ReadRecord(b: Bytes): Option<Record> {
    match TextOf(b)
    case None => None
    case Some(text) =>
      match JsonParser.ParseDocument(text)
      case Some(Obj(members)) => Some(members)
      case _ => None
  }

  /** A codec that reads UTF-8 and RFC 8259. */
  ghost function ModelCodec(nfc: string -> string): Codec {
    Codec((b: Bytes) => ReadRecord(b), (b: Bytes) => None, nfc)
  }

  lemma ReadsWritten(record: Record, nfc: string -> string)
    requires NfcLaws(nfc) && WellFormed(Obj(record), nfc)
    ensures ReadRecord(LineOf(record, nfc)) == Some(NormalRecord(record, nfc))
  {
    var text := JsonWriter.Canonical(Obj(record), nfc);
    var read := TextOf(LineOf(record, nfc)).value;
    EncodeInjective(read, text);
    JsonStrict.CanonicalReadsBack(Obj(record), nfc);
  }

  lemma ModelReadsCanonical(nfc: string -> string)
    requires NfcLaws(nfc)
    ensures ReadsCanonical(ModelCodec(nfc))
  {
    forall record | WellFormed(Obj(record), nfc) ensures ModelCodec(nfc).parse(LineOf(record, nfc)) == Some(NormalRecord(record, nfc)) {
      ReadsWritten(record, nfc);
    }
  }

  const ANGSTROM := "\U{212B}"
  const A_RING := "\U{C5}"

  /** A normalization that knows one fact of Unicode: the angstrom sign is a capital A with ring. */
  function Compose(text: string): string {
    if text == ANGSTROM then A_RING else text
  }

  function Same(text: string): string {
    text
  }

  lemma Signs()
    ensures !Plain(ANGSTROM) && !Plain(A_RING) && ANGSTROM != A_RING
    ensures TextRule.Allowed(ANGSTROM) && TextRule.Allowed(A_RING)
  {
    assert ANGSTROM[0] == '\U{212B}' && A_RING[0] == '\U{C5}';
    assert ANGSTROM[0] in ANGSTROM && A_RING[0] in A_RING;
  }

  lemma NormalizersAreLawful()
    ensures NfcLaws(Compose) && PlainLaws(Compose) && NfcLaws(Same) && PlainLaws(Same)
  {
    Signs();
  }

  ghost function Dreams(hash: string -> string): Dreamer {
    DreamsWith(Compose, hash)
  }

  ghost function DreamsWith(nfc: string -> string, hash: string -> string): Dreamer {
    Dreamer(ModelCodec(nfc), Spec(["checkpoint_id"], ["session_id"]), true, hash)
  }

  lemma DreamsAreLawful(hash: string -> string)
    requires HashLaws(hash)
    ensures Lawful(Dreams(hash))
  {
    NormalizersAreLawful();
    ModelReadsCanonical(Compose);
  }

  function Receipted(receipt: string): Value {
    Obj([Member("receipt_id", Str(receipt))])
  }

  /** A checkpoint of the unnamed session: one settled receipt, and maybe an admission without one. */
  function Checkpoint(receipt: string, more: bool): Record {
    [Member("admissions", Arr([Receipted(receipt)] + if more then [Obj([])] else []))]
  }

  lemma OneField(r: Record, field: string)
    requires |r| == 1
    ensures Get(r, field) == if r[0].key == field then Some(r[0].value) else None
  {
  }

  lemma ReceiptedFacts(receipt: string, nfc: string -> string)
    requires TextRule.Allowed(receipt)
    ensures SettledReceipt(Receipted(receipt)) == Some(receipt) && WellFormed(Receipted(receipt), nfc)
  {
    var m := Receipted(receipt).members;
    OneField(m, "receipt_id");
    OneField(m, "state");
    assert "receipt_id"[0] != "state"[0];
    PlainWords();
    PlainAllowed("receipt_id");
  }

  lemma ItemsFacts(items: seq<Value>, receipt: string, more: bool, nfc: string -> string)
    requires TextRule.Allowed(receipt) && items == [Receipted(receipt)] + if more then [Obj([])] else []
    ensures Pairs("", items) == [("", receipt)] && |items| == (if more then 2 else 1)
    ensures WellFormed(Arr(items), nfc)
  {
    ReceiptedFacts(receipt, nfc);
    assert items[0] == Receipted(receipt) && items[1..] == if more then [Obj([])] else [];
    assert Pairs("", items[1..]) == [] by {
      if more {
        assert items[1..][1..] == [] && SettledReceipt(Obj([])) == None;
      }
    }
  }

  lemma CheckpointFacts(receipt: string, more: bool)
    requires TextRule.Allowed(receipt)
    ensures var r := Checkpoint(receipt, more);
      && WellFormed(Obj(r), Compose) && WellFormed(Obj(r), Same) && NormalRecord(r, Same) == r
      && |AdmissionsOf(r)| == (if more then 2 else 1) && CountOf(r) == 0 && Listed(r) == [("", receipt)]
  {
    var r := Checkpoint(receipt, more);
    var items := r[0].value.items;
    OneField(r, "admissions");
    OneField(r, "session_id");
    OneField(r, "admissions_settled");
    assert "admissions"[0] != "session_id"[0] && |"admissions"| != |"admissions_settled"|;
    assert AdmissionsOf(r) == items && SessionOf(r) == "" && CountOf(r) == 0;
    ItemsFacts(items, receipt, more, Compose);
    ItemsFacts(items, receipt, more, Same);
    PlainFields();
    PlainAllowed("admissions");
    SameIsNormal(items, more, receipt);
  }

  lemma SameIsNormal(items: seq<Value>, more: bool, receipt: string)
    requires items == [Receipted(receipt)] + if more then [Obj([])] else []
    ensures NormalRecord([Member("admissions", Arr(items))], Same) == [Member("admissions", Arr(items))]
  {
    var inner := [Member("receipt_id", Str(receipt))];
    assert inner[1..] == [];
    assert Sort(NormalMembers(inner, Same)) == inner by {
      assert NormalMembers(inner, Same)[1..] == [];
    }
    assert Normal(Receipted(receipt), Same) == Receipted(receipt);
    assert Normal(Obj([]), Same) == Obj([]);
    assert NormalItems(items, Same) == items by {
      assert items[0] == Receipted(receipt);
      assert more ==> items[1..] == [Obj([])] && [Obj([])][1..] == [];
    }
    var outer := [Member("admissions", Arr(items))];
    assert outer[1..] == [];
    assert NormalMembers(outer, Same)[1..] == [];
  }

  /** The ledger: two checkpoints, whose receipts read alike and whose decisions do not. */
  function Lines(): seq<Bytes> {
    [LineOf(Checkpoint(ANGSTROM, false), Same), LineOf(Checkpoint(A_RING, true), Same)]
  }

  /** A record written without normalizing reads back as it is. */
  lemma OnLine(hash: string -> string, r: Record)
    requires NfcLaws(Same) && WellFormed(Obj(r), Same) && NormalRecord(r, Same) == r
    ensures RecordOn(Dreams(hash), LineOf(r, Same)) == Some(r) && NEWLINE !in LineOf(r, Same)
  {
    var text := JsonWriter.Canonical(Obj(r), Same);
    ReadsWritten(r, Same);
    AsciiHead(text);
    assert LineOf(r, Same)[0] == 123;
    JsonWriter.CanonicalPrintsNormal(Obj(r), Same);
    assert Normal(Obj(r), Same) == Obj(r);
    PrintOneLine(Obj(r), Same);
    AsciiByteIsItsChar(text, NEWLINE);
  }

  /** A checkpoint of the unnamed session that lists one settled receipt, on a line. */
  predicate Lists(d: Dreamer, line: Bytes, record: Record, receipt: string) {
    && RecordOn(d, line) == Some(record) && WellFormed(Obj(record), d.codec.nfc)
    && Listed(record) == [("", receipt)] && 0 < |AdmissionsOf(record)| <= 2 && CountOf(record) == 0
  }

  /** A line whose receipt was not settled is rewritten, and its receipt stays listed. */
  lemma ListsAnew(d: Dreamer, settled: set<Receipt>, line: Bytes, record: Record, receipt: string) returns (r: Record)
    requires Lawful(d) && Lists(d, line, record, receipt) && ("", receipt) !in settled
    ensures FateOf(d, settled, line) == Rewritten(r) && Reencode(d, record, settled) == Some(r) && Anew(d, r, receipt, |AdmissionsOf(record)|)
  {
    Reencodes(d, settled, record, receipt);
    r := Reencode(d, record, settled).value;
    ReencodedWellFormed(d, record, settled);
    ReencodingConserves(d, record, settled);
    RewrittenFacts(d, settled, line, r);
  }

  predicate Anew(d: Dreamer, r: Record, receipt: string, size: nat) {
    && WellFormed(Obj(r), d.codec.nfc) && Current(d, r) && Listed(r) == [("", receipt)]
    && |AdmissionsOf(r)| == size && CountOf(r) == 0
  }

  lemma Reencodes(d: Dreamer, settled: set<Receipt>, record: Record, receipt: string)
    requires Listed(record) == [("", receipt)] && ("", receipt) !in settled && |AdmissionsOf(record)| > 0
    ensures Reencode(d, record, settled).Some?
    ensures var r := Reencode(d, record, settled).value;
      Listed(r) == Listed(record) && |AdmissionsOf(r)| == |AdmissionsOf(record)|
  {
    var recounted := Recounted(record, settled);
    assert Listed(record)[1..] == [];
    KeptWhole(SessionOf(record), AdmissionsOf(record), settled);
    RecountedParts(record, settled);
    DecisionParts(recounted);
    if Nothing(recounted) {
      NoneKept(recounted);
      assert false;
    }
    RelabelParts(d, recounted);
  }

  lemma DifferentDecisions(d: Dreamer, a: Record, b: Record)
    requires Lawful(d) && WellFormed(Obj(a), d.codec.nfc) && WellFormed(Obj(b), d.codec.nfc) && Current(d, a) && Current(d, b)
    requires |AdmissionsOf(a)| != |AdmissionsOf(b)|
    ensures KeyOf(d, a) != KeyOf(d, b)
  {
    if KeyOf(d, a) == KeyOf(d, b) {
      SameDecisionSize(d, a, b);
      assert false;
    }
  }

  lemma SameDecisionSize(d: Dreamer, a: Record, b: Record)
    requires Lawful(d) && WellFormed(Obj(a), d.codec.nfc) && WellFormed(Obj(b), d.codec.nfc) && Current(d, a) && Current(d, b)
    requires KeyOf(d, a) == KeyOf(d, b)
    ensures |AdmissionsOf(a)| == |AdmissionsOf(b)|
  {
    var nfc := d.codec.nfc;
    SameDecisionNormal(d, a, b);
    NormalParts(Decision(a), nfc);
    NormalParts(Decision(b), nfc);
    DecisionParts(a);
    DecisionParts(b);
  }

  /** The facts of a ledger of two lines. */
  lemma TwoLines(d: Dreamer, m: Bytes, n: Bytes)
    ensures SettledAt(d, [m, n], 0) == {} && SettledAt(d, [m, n], 1) == Elements(ListedOn(d, m))
    ensures FateAt(d, [m, n], 0) == FateOf(d, {}, m) && FateAt(d, [m, n], 1) == FateOf(d, Elements(ListedOn(d, m)), n)
  {
    NothingSettled(d, [m, n]);
    SettledNext(d, [m, n], 0);
  }

  lemma BothStand(d: Dreamer, m: Bytes, n: Bytes, a: Record, b: Record)
    requires FateAt(d, [m, n], 0) == Rewritten(a) && FateAt(d, [m, n], 1) == Rewritten(b) && KeyOf(d, a) != KeyOf(d, b)
    ensures Stands(d, [m, n], 1) && Listing(d, [m, n], 1) == Listed(NormalRecord(a, d.codec.nfc))
    ensures TextAt(d, [m, n], 1) == LineOf(b, d.codec.nfc)
  {
    assert IdAt(d, [m, n], 0) == Some(KeyOf(d, a)) && IdAt(d, [m, n], 1) == Some(KeyOf(d, b));
    assert Stands(d, [m, n], 0);
    assert Listing(d, [m, n], 0) == [];
  }

  /** A rewritten line lists a receipt that reads as one listed before it. */
  lemma AlikeIsNotQuiet(d: Dreamer, settled: set<Receipt>, line: Bytes, a: Record, b: Record, p: string, q: string)
    requires Lawful(d) && FateOf(d, settled, line) == Rewritten(b) && Anew(d, b, q, |AdmissionsOf(b)|) && |AdmissionsOf(b)| <= 2
    requires WellFormed(Obj(a), d.codec.nfc) && Listed(a) == [("", p)] && d.codec.nfc(p) == d.codec.nfc(q)
    ensures !Quiet(d, Elements(Listed(NormalRecord(a, d.codec.nfc))), LineOf(b, d.codec.nfc))
  {
    hide FateOf, Quiet, WellFormed, Reencode, LineOf, NormalRecord;
    var nfc := d.codec.nfc;
    var n, again := NormalRecord(b, nfc), Elements(Listed(NormalRecord(a, nfc)));
    WrittenReads(d, a);
    WrittenReads(d, b);
    NormalParts(b, nfc);
    assert Listed(NormalRecord(a, nfc)) == [MapPair(("", p), nfc)] && Listed(n) == [MapPair(("", q), nfc)];
    assert Listed(n)[0] in again;
    RewrittenQuiet(d, settled, line, b, again);
  }

  lemma TwoLinesChangeTwice(d: Dreamer, m: Bytes, x: Record, p: string, n: Bytes, y: Record, q: string)
    requires Lawful(d) && Lists(d, m, x, p) && Lists(d, n, y, q) && p != q && |AdmissionsOf(x)| != |AdmissionsOf(y)|
    requires d.codec.nfc(p) == d.codec.nfc(q) && DreamLaws.NoNewlines([m, n])
    ensures Terminated(Written([m, n])) && !LeftAlone(d, LedgerAfter(d, Written([m, n])))
  {
    hide FateOf, LeftAlone, LedgerAfter, Lawful, Stands, TextAt, Listing, Quiet, Listed, Written;
    var lines := [m, n];
    DreamLaws.WrittenReadsBack(lines);
    TwoLines(d, m, n);
    var a := ListsAnew(d, {}, m, x, p);
    assert ("", q) !in Elements(Listed(x));
    var b := ListsAnew(d, Elements(ListedOn(d, m)), n, y, q);
    DifferentDecisions(d, a, b);
    BothStand(d, m, n, a, b);
    AlikeIsNotQuiet(d, Elements(ListedOn(d, m)), n, a, b, p, q);
    assert !QuietAt(d, lines, 1);
    CompactedAgainExact(d, Written(lines));
  }

  /** A second compaction of this ledger is not a no-op. */
  lemma SecondCompactionChanges(hash: string -> string)
    requires HashLaws(hash)
    ensures var d := Dreams(hash); var b := Written(Lines());
      Lawful(d) && Terminated(b) && !LeftAlone(d, LedgerAfter(d, b))
  {
    hide Lawful, Written, LeftAlone, LedgerAfter, LineOf, Listed, WellFormed, NormalRecord;
    DreamsAreLawful(hash);
    Signs();
    CheckpointFacts(ANGSTROM, false);
    CheckpointFacts(A_RING, true);
    NormalizersAreLawful();
    OnLine(hash, Checkpoint(ANGSTROM, false));
    OnLine(hash, Checkpoint(A_RING, true));
    TwoLinesChangeTwice(Dreams(hash), Lines()[0], Checkpoint(ANGSTROM, false), ANGSTROM, Lines()[1], Checkpoint(A_RING, true), A_RING);
  }
}
