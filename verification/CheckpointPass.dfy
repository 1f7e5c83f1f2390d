/**
 One pass over a checkpoint ledger, whatever its lines hold (dream.rs 167-251). What becomes of a line
 is a function of the lines before it: `FateAt` says what the filter makes of it, and `PassExact` that
 a pass keeps, of each identity, the first line that decided something.
 */
module CheckpointPass {
  import opened Wrappers
  import opened Utf8
  import opened JsonValue
  import opened LedgerIdentity
  import opened DreamFilter
  import opened CheckpointRecords
  import opened DreamCheckpoints
  import opened DreamAgain
  import JsonWriter

  /** The record on a line, when it holds one. */
  function RecordOn(d: Dreamer, line: Bytes): Option<Record> {
    if Blank(line) then None else d.codec.parse(line)
  }

  /** The settled receipts a ledger lists, as it reads. */
  function ListedOn(d: Dreamer, line: Bytes): seq<Receipt> {
    match RecordOn(d, line)
    case Some(record) => Listed(record)
    case None => []
  }

  function AllListed(d: Dreamer, lines: seq<Bytes>): seq<Receipt> {
    if lines == [] then [] else ListedOn(d, lines[0]) + AllListed(d, lines[1..])
  }

  /** What the filter makes of a line: nothing of a blank one, an unreadable one as it is, a checkpoint
      that decided nothing, one it writes anew, and one it cannot write back and keeps as written. */
  datatype Fate = Skipped | Unread | Emptied | Rewritten(record: Record) | AsWritten(record: Record)

  function FateOf(d: Dreamer, settled: set<Receipt>, line: Bytes): Fate {
    match RecordOn(d, line)
    case None => if Blank(line) then Skipped else Unread
    case Some(record) =>
      match Reencode(d, record, settled)
      case None => Emptied
      case Some(r) => if WellFormed(Obj(r), d.codec.nfc) then Rewritten(r) else AsWritten(record)
  }

  function TextOf(d: Dreamer, fate: Fate, line: Bytes): Bytes {
    match fate
    case Rewritten(r) => LineOf(r, d.codec.nfc)
    case _ => line
  }

  /** The identity a line counts under: the id of what was decided, or the one the line states. */
  function IdOf(d: Dreamer, fate: Fate, line: Bytes): Option<Digest> {
    match fate
    case Rewritten(r) => Some(KeyOf(d, r))
    case AsWritten(record) => Some(Identity(d.codec, d.spec, record, line))
    case _ => None
  }

  /** The settled receipts the filter leaves a line listing. */
  function Says(fate: Fate): seq<Receipt> {
    match fate
    case Rewritten(r) => Listed(r)
    case AsWritten(record) => Listed(record)
    case _ => []
  }

  /** And how they read on the line it writes. */
  function Reads(d: Dreamer, fate: Fate): seq<Receipt> {
    match fate
    case Rewritten(r) => Listed(NormalRecord(r, d.codec.nfc))
    case _ => Says(fate)
  }

  predicate Gone(fate: Fate) {
    fate.Skipped? || fate.Emptied?
  }

  predicate Repeats(id: Option<Digest>, seen: set<Digest>) {
    id.Some? && id.value in seen
  }

  function AsSet(id: Option<Digest>): set<Digest> {
    match id
    case Some(g) => {g}
    case None => {}
  }

  /** One step of the filter. */
  lemma StepByFate(d: Dreamer, s: State, line: Bytes, fate: Fate, id: Option<Digest>)
    requires d.checkpoints && fate == FateOf(d, s.settled, line) && id == IdOf(d, fate, line)
    ensures var step := KeepStep(d, s, line);
      && step.line == (if Gone(fate) || Repeats(id, s.seen) then None else Some(TextOf(d, fate, line)))
      && step.state.seen == s.seen + AsSet(id)
      && step.state.settled == s.settled + Elements(ListedOn(d, line))
      && step.state.dropped == s.dropped + (if fate.Emptied? || Repeats(id, s.seen) then 1 else 0)
      && step.state.reencoded == s.reencoded + (if TextOf(d, fate, line) != line then 1 else 0)
  {
    hide Reencode, Listed, Identity, WellFormed, JsonWriter.Canonical, Blank;
    if RecordOn(d, line).Some? && Reencode(d, RecordOn(d, line).value, s.settled).Some? {
      ValidateExact(Obj(Reencode(d, RecordOn(d, line).value, s.settled).value), d.codec.nfc);
    }
  }

  // ----- the whole ledger -----

  /** What was settled before line `k`. */
  function SettledAt(d: Dreamer, lines: seq<Bytes>, k: nat): set<Receipt>
    requires k <= |lines|
  {
    Elements(AllListed(d, lines[..k]))
  }

  function FateAt(d: Dreamer, lines: seq<Bytes>, k: nat): Fate
    requires k < |lines|
  {
    FateOf(d, SettledAt(d, lines, k), lines[k])
  }

  function IdAt(d: Dreamer, lines: seq<Bytes>, k: nat): Option<Digest>
    requires k < |lines|
  {
    IdOf(d, FateAt(d, lines, k), lines[k])
  }

  function TextAt(d: Dreamer, lines: seq<Bytes>, k: nat): Bytes
    requires k < |lines|
  {
    TextOf(d, FateAt(d, lines, k), lines[k])
  }

  /** A line the pass keeps: it decided something, and no line before it counts under its identity. */
  predicate Stands(d: Dreamer, lines: seq<Bytes>, k: nat)
    requires k < |lines|
  {
    !Gone(FateAt(d, lines, k)) &&
    (IdAt(d, lines, k).None? || forall j :: 0 <= j < k ==> IdAt(d, lines, j) != IdAt(d, lines, k))
  }

  function Standing(d: Dreamer, lines: seq<Bytes>, n: nat): seq<Bytes>
    requires n <= |lines|
  {
    if n == 0 then []
    else Standing(d, lines, n - 1) + if Stands(d, lines, n - 1) then [TextAt(d, lines, n - 1)] else []
  }

  /** What the lines that stand list, as they read. */
  function Listing(d: Dreamer, lines: seq<Bytes>, n: nat): seq<Receipt>
    requires n <= |lines|
  {
    if n == 0 then []
    else Listing(d, lines, n - 1) + if Stands(d, lines, n - 1) then Reads(d, FateAt(d, lines, n - 1)) else []
  }

  ghost predicate SeenExactly(d: Dreamer, lines: seq<Bytes>, n: nat, seen: set<Digest>)
    requires n <= |lines|
  {
    forall g :: g in seen <==> exists j :: 0 <= j < n && IdAt(d, lines, j) == Some(g)
  }

  lemma SeenNext(d: Dreamer, lines: seq<Bytes>, n: nat, seen: set<Digest>)
    requires n < |lines| && SeenExactly(d, lines, n, seen)
    ensures SeenExactly(d, lines, n + 1, seen + AsSet(IdAt(d, lines, n)))
    ensures Stands(d, lines, n) <==> !Gone(FateAt(d, lines, n)) && !Repeats(IdAt(d, lines, n), seen)
  {
    hide IdAt;
    var id := IdAt(d, lines, n);
    forall g ensures g in seen + AsSet(id) <==> exists j :: 0 <= j < n + 1 && IdAt(d, lines, j) == Some(g) {
      if j :| 0 <= j < n + 1 && IdAt(d, lines, j) == Some(g) {
        assert j < n || j == n;
      }
    }
  }

  lemma {:induction false} AllListedConcat(d: Dreamer, a: seq<Bytes>, b: seq<Bytes>)
    ensures AllListed(d, a + b) == AllListed(d, a) + AllListed(d, b)
  {
    if a == [] {
      assert a + b == b;
    } else {
      assert (a + b)[1..] == a[1..] + b;
      AllListedConcat(d, a[1..], b);
    }
  }

  lemma OneListed(d: Dreamer, line: Bytes)
    ensures AllListed(d, [line]) == ListedOn(d, line)
  {
    assert [line][1..] == [];
  }

  lemma SettledNext(d: Dreamer, lines: seq<Bytes>, n: nat)
    requires n < |lines|
    ensures SettledAt(d, lines, n + 1) == SettledAt(d, lines, n) + Elements(ListedOn(d, lines[n]))
  {
    assert lines[..n + 1] == lines[..n] + [lines[n]];
    AllListedConcat(d, lines[..n], [lines[n]]);
    OneListed(d, lines[n]);
    ElementsConcat(AllListed(d, lines[..n]), ListedOn(d, lines[n]));
  }

  lemma {:induction false} SettledGrows(d: Dreamer, lines: seq<Bytes>, k: nat, n: nat)
    requires k <= n <= |lines|
    ensures SettledAt(d, lines, k) <= SettledAt(d, lines, n)
    decreases n - k
  {
    if k < n {
      SettledNext(d, lines, k);
      SettledGrows(d, lines, k + 1, n);
    }
  }

  lemma KeepAllPush(d: Dreamer, s: State, lines: seq<Bytes>, line: Bytes)
    ensures var before := KeepAll(d, s, lines); var step := KeepStep(d, before.state, line);
      KeepAll(d, s, lines + [line]) == Pass(step.state, before.lines + AsLines(step.line))
  {
    hide KeepStep;
    KeepAllConcat(d, s, lines, [line]);
    var before := KeepAll(d, s, lines);
    assert [line][1..] == [];
    assert KeepAll(d, before.state, [line]).lines == AsLines(KeepStep(d, before.state, line).line) + [];
  }

  /** What a pass over the first `n` lines has come to. */
  ghost predicate PassedTo(d: Dreamer, lines: seq<Bytes>, n: nat, pass: Pass)
    requires n <= |lines|
  {
    && pass.lines == Standing(d, lines, n)
    && pass.state.settled == SettledAt(d, lines, n)
    && SeenExactly(d, lines, n, pass.state.seen)
  }

  lemma PassNext(d: Dreamer, lines: seq<Bytes>, m: nat, before: Pass)
    requires d.checkpoints && m < |lines| && PassedTo(d, lines, m, before)
    ensures var step := KeepStep(d, before.state, lines[m]);
      PassedTo(d, lines, m + 1, Pass(step.state, before.lines + AsLines(step.line)))
  {
    hide KeepStep, FateOf, IdOf, TextOf, Stands, Gone, Repeats, SeenExactly, SettledAt;
    StepByFate(d, before.state, lines[m], FateAt(d, lines, m), IdAt(d, lines, m));
    SeenNext(d, lines, m, before.state.seen);
    SettledNext(d, lines, m);
  }

  lemma NothingPassed(d: Dreamer, lines: seq<Bytes>)
    ensures PassedTo(d, lines, 0, KeepAll(d, INITIAL, lines[..0]))
  {
    hide IdAt;
    assert lines[..0] == [];
  }

  lemma PassPush(d: Dreamer, lines: seq<Bytes>, m: nat, first: seq<Bytes>)
    requires d.checkpoints && m < |lines| && first == lines[..m]
    requires PassedTo(d, lines, m, KeepAll(d, INITIAL, first))
    ensures PassedTo(d, lines, m + 1, KeepAll(d, INITIAL, first + [lines[m]]))
  {
    hide KeepStep, PassedTo, KeepAll;
    KeepAllPush(d, INITIAL, first, lines[m]);
    PassNext(d, lines, m, KeepAll(d, INITIAL, first));
  }

  /** A pass keeps, of each identity, the first line that decided something: rewritten when it can be,
      else as written. It settles every receipt it reads. */
  lemma {:induction false} PassExact(d: Dreamer, lines: seq<Bytes>, n: nat)
    requires d.checkpoints && n <= |lines|
    ensures PassedTo(d, lines, n, KeepAll(d, INITIAL, lines[..n]))
  {
    hide PassedTo, KeepAll;
    if n == 0 {
      NothingPassed(d, lines);
    } else {
      PassExact(d, lines, n - 1);
      PassPush(d, lines, n - 1, lines[..n - 1]);
      assert lines[..n] == lines[..n - 1] + [lines[n - 1]];
    }
  }

  lemma WholePass(d: Dreamer, lines: seq<Bytes>)
    requires d.checkpoints
    ensures KeepAll(d, INITIAL, lines).lines == Standing(d, lines, |lines|)
    ensures SettledAt(d, lines, |lines|) == Elements(AllListed(d, lines))
  {
    assert lines[..|lines|] == lines;
    PassExact(d, lines, |lines|);
  }

  /** The first line of an identity stands. */
  lemma {:induction false} FirstStands(d: Dreamer, lines: seq<Bytes>, k: nat) returns (j: nat)
    requires k < |lines| && IdAt(d, lines, k).Some?
    ensures j <= k && Stands(d, lines, j) && IdAt(d, lines, j) == IdAt(d, lines, k)
    decreases k
  {
    if Stands(d, lines, k) {
      j := k;
    } else {
      var i :| 0 <= i < k && IdAt(d, lines, i) == IdAt(d, lines, k);
      j := FirstStands(d, lines, i);
    }
  }

  // ----- reading a pass back -----

  /** A rewritten line: a current record, which lists what its line newly listed. */
  lemma RewrittenFacts(d: Dreamer, settled: set<Receipt>, line: Bytes, r: Record)
    requires FateOf(d, settled, line) == Rewritten(r)
    ensures WellFormed(Obj(r), d.codec.nfc) && Current(d, r) && Fresh(Listed(r), settled)
    ensures settled + Elements(Listed(r)) == settled + Elements(ListedOn(d, line))
    ensures Elements(Listed(r)) <= Elements(ListedOn(d, line))
  {
    hide WellFormed, Reencode, Listed, Current;
    var record := RecordOn(d, line).value;
    ReencodedIsCurrent(d, record, settled);
    ReencodingConserves(d, record, settled);
    FreshExact(Listed(r), settled);
  }

  lemma WrittenReads(d: Dreamer, r: Record)
    requires Lawful(d) && WellFormed(Obj(r), d.codec.nfc)
    ensures RecordOn(d, LineOf(r, d.codec.nfc)) == Some(NormalRecord(r, d.codec.nfc))
    ensures Listed(NormalRecord(r, d.codec.nfc)) == MapPairs(Listed(r), d.codec.nfc)
  {
    ReadBack(d, r);
    NormalParts(r, d.codec.nfc);
  }

  /** A kept line lists what `Reads` says. */
  lemma TextReads(d: Dreamer, settled: set<Receipt>, line: Bytes, fate: Fate)
    requires Lawful(d) && fate == FateOf(d, settled, line) && !Gone(fate)
    ensures ListedOn(d, TextOf(d, fate, line)) == Reads(d, fate)
  {
    hide WellFormed, Reencode, Listed, NormalRecord, LineOf, Lawful;
    if fate.Rewritten? {
      WrittenReads(d, fate.record);
    }
  }

  lemma ListingNext(d: Dreamer, lines: seq<Bytes>, m: nat, standing: seq<Bytes>)
    requires Lawful(d) && m < |lines| && Stands(d, lines, m)
    ensures AllListed(d, standing + [TextAt(d, lines, m)]) == AllListed(d, standing) + Reads(d, FateAt(d, lines, m))
  {
    hide FateOf, TextOf, Reads, Gone, ListedOn, AllListed, Lawful, IdOf;
    TextReads(d, SettledAt(d, lines, m), lines[m], FateAt(d, lines, m));
    AllListedConcat(d, standing, [TextAt(d, lines, m)]);
    OneListed(d, TextAt(d, lines, m));
  }

  lemma {:induction false} ListingExact(d: Dreamer, lines: seq<Bytes>, n: nat)
    requires Lawful(d) && n <= |lines|
    ensures AllListed(d, Standing(d, lines, n)) == Listing(d, lines, n)
  {
    if n > 0 {
      hide FateAt, TextAt, Reads, Stands, ListedOn, AllListed, Lawful;
      var m := n - 1;
      ListingExact(d, lines, m);
      if Stands(d, lines, m) {
        ListingNext(d, lines, m, Standing(d, lines, m));
      } else {
        assert Standing(d, lines, m) + [] == Standing(d, lines, m);
        assert Listing(d, lines, m) + [] == Listing(d, lines, m);
      }
    }
  }

  /** And what a line that stands lists is listed. */
  lemma {:induction false} ListingHas(d: Dreamer, lines: seq<Bytes>, k: nat, n: nat)
    requires k < n <= |lines| && Stands(d, lines, k)
    ensures Elements(Reads(d, FateAt(d, lines, k))) <= Elements(Listing(d, lines, n))
    decreases n - k
  {
    hide FateAt, Reads, Stands;
    if k + 1 < n {
      ListingHas(d, lines, k, n - 1);
    }
  }
}
