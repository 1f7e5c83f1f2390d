/**
 What compacting a checkpoint ledger conserves, for every ledger (dream.rs 167-251). A pass loses no
 settled receipt but on a line whose identity an earlier one took by stating it: an unwritable line
 is kept, and counted, under whatever id it states.
 */
module CheckpointLedger {
  import opened Wrappers
  import opened Utf8
  import opened KeyOrder
  import opened JsonValue
  import opened LedgerIdentity
  import opened DreamFilter
  import opened CheckpointRecords
  import opened DreamCheckpoints
  import opened DreamAgain
  import opened CheckpointPass
  import JsonWriter
  import TextRule

  // ----- one id, one decision -----

  /** One id means one decision, as it reads. */
  lemma SameDecisionNormal(d: Dreamer, a: Record, b: Record)
    requires Lawful(d) && WellFormed(Obj(a), d.codec.nfc) && Current(d, a) && WellFormed(Obj(b), d.codec.nfc) && Current(d, b)
    requires KeyOf(d, a) == KeyOf(d, b)
    ensures WellFormed(Obj(Decision(a)), d.codec.nfc) && WellFormed(Obj(Decision(b)), d.codec.nfc)
    ensures NormalRecord(Decision(a), d.codec.nfc) == NormalRecord(Decision(b), d.codec.nfc)
  {
    var nfc := d.codec.nfc;
    CurrentKeys(d, a, b);
    SameSuffix("checkpoint_", d.hash(JsonWriter.Canonical(Obj(Decision(a)), nfc)), d.hash(JsonWriter.Canonical(Obj(Decision(b)), nfc)));
    DecisionWellFormed(d, a);
    DecisionWellFormed(d, b);
    SameLine(d, Decision(a), Decision(b));
  }

  lemma SameDecisionListed(d: Dreamer, a: Record, b: Record)
    requires Lawful(d) && WellFormed(Obj(a), d.codec.nfc) && Current(d, a) && WellFormed(Obj(b), d.codec.nfc) && Current(d, b)
    requires KeyOf(d, a) == KeyOf(d, b)
    ensures Image(Elements(Listed(a)), d.codec.nfc) == Image(Elements(Listed(b)), d.codec.nfc)
  {
    var nfc := d.codec.nfc;
    SameDecisionNormal(d, a, b);
    DecisionListed(d, a);
    DecisionListed(d, b);
    ImageOfSeq(Listed(a), nfc);
    ImageOfSeq(Listed(b), nfc);
  }

  lemma SameSuffix(p: string, a: string, b: string)
    requires p + a == p + b
    ensures a == b
  {
    assert a == (p + a)[|p|..] && b == (p + b)[|p|..];
  }

  lemma DecisionListed(d: Dreamer, r: Record)
    requires Lawful(d) && WellFormed(Obj(r), d.codec.nfc)
    ensures WellFormed(Obj(Decision(r)), d.codec.nfc)
    ensures Listed(NormalRecord(Decision(r), d.codec.nfc)) == MapPairs(Listed(r), d.codec.nfc)
  {
    DecisionParts(r);
    DecisionWellFormed(d, r);
    NormalParts(Decision(r), d.codec.nfc);
  }

  predicate GoodMember(m: Member<Value>, nfc: string -> string) {
    nfc(m.key) == m.key && TextRule.Allowed(m.key) && WellFormed(m.value, nfc)
  }

  lemma PartWellFormed(r: Record, field: string, default: Value, nfc: string -> string)
    requires PlainLaws(nfc) && WellFormed(Obj(r), nfc) && WellFormed(default, nfc) && Plain(field)
    ensures GoodMember(Member(field, Or(Get(r, field), default)), nfc)
  {
  }

  lemma DecisionWellFormed(d: Dreamer, r: Record)
    requires Lawful(d) && WellFormed(Obj(r), d.codec.nfc)
    ensures WellFormed(Obj(Decision(r)), d.codec.nfc)
  {
    var nfc := d.codec.nfc;
    PlainFields();
    PartWellFormed(r, "session_id", Null, nfc);
    PartWellFormed(r, "admissions", Arr([]), nfc);
    PartWellFormed(r, "admission_failures", Int(0), nfc);
    PartWellFormed(r, "admissions_held", Int(0), nfc);
    PartWellFormed(r, "personal_fact_count", Int(0), nfc);
    PartWellFormed(r, "sweep", Null, nfc);
    SixGood(Or(Get(r, "session_id"), Null), Or(Get(r, "admissions"), Arr([])), Or(Get(r, "admission_failures"), Int(0)),
            Or(Get(r, "admissions_held"), Int(0)), Or(Get(r, "personal_fact_count"), Int(0)), Or(Get(r, "sweep"), Null), nfc);
  }

  function Six(session: Value, admissions: Value, failures: Value, held: Value, facts: Value, sweep: Value): Record {
    [Member("session_id", session), Member("admissions", admissions), Member("admission_failures", failures),
     Member("admissions_held", held), Member("personal_fact_count", facts), Member("sweep", sweep)]
  }

  lemma SixGood(session: Value, admissions: Value, failures: Value, held: Value, facts: Value, sweep: Value, nfc: string -> string)
    requires GoodMember(Member("session_id", session), nfc) && GoodMember(Member("admissions", admissions), nfc)
    requires GoodMember(Member("admission_failures", failures), nfc) && GoodMember(Member("admissions_held", held), nfc)
    requires GoodMember(Member("personal_fact_count", facts), nfc) && GoodMember(Member("sweep", sweep), nfc)
    ensures WellFormed(Obj(Six(session, admissions, failures, held, facts, sweep)), nfc)
  {
    var six := Six(session, admissions, failures, held, facts, sweep);
    assert GoodMember(six[0], nfc) && GoodMember(six[1], nfc) && GoodMember(six[2], nfc);
    assert GoodMember(six[3], nfc) && GoodMember(six[4], nfc) && GoodMember(six[5], nfc);
    var lengths := [10, 10, 18, 15, 19, 5];
    assert forall i :: 0 <= i < 6 ==> |six[i].key| == lengths[i];
    assert six[0].key[0] == 's' && six[1].key[0] == 'a';
    forall i, j | 0 <= i < j < 6 ensures nfc(six[i].key) != nfc(six[j].key) {
      assert GoodMember(six[i], nfc) && GoodMember(six[j], nfc);
      if i == 0 && j == 1 {
        assert six[i].key[0] != six[j].key[0];
      } else {
        assert lengths[i] != lengths[j];
      }
    }
  }

  // ----- receipts that read alike -----

  /** Two receipts that read alike are one. */
  predicate NfcDistinct(pairs: set<Receipt>, nfc: string -> string) {
    forall p, q :: p in pairs && q in pairs && MapPair(p, nfc) == MapPair(q, nfc) ==> p == q
  }

  function Image(pairs: set<Receipt>, nfc: string -> string): set<Receipt> {
    set p | p in pairs :: MapPair(p, nfc)
  }

  lemma ImageOfSeq(pairs: seq<Receipt>, nfc: string -> string)
    ensures Elements(MapPairs(pairs, nfc)) == Image(Elements(pairs), nfc)
  {
  }

  lemma ImageUnion(a: set<Receipt>, b: set<Receipt>, nfc: string -> string)
    ensures Image(a + b, nfc) == Image(a, nfc) + Image(b, nfc)
  {
  }

  lemma FreshImage(pairs: seq<Receipt>, settled: set<Receipt>, read: set<Receipt>, nfc: string -> string)
    requires NfcLaws(nfc) && Fresh(pairs, settled) && read <= Image(settled, nfc) + settled
    requires NfcDistinct(settled + Elements(pairs), nfc)
    ensures Fresh(MapPairs(pairs, nfc), read)
  {
    FreshExact(pairs, settled);
    var mapped := MapPairs(pairs, nfc);
    forall i | 0 <= i < |mapped| ensures mapped[i] !in read {
      assert pairs[i] in Elements(pairs) && MapPair(pairs[i], nfc) == mapped[i];
      assert MapPair(mapped[i], nfc) == mapped[i];
      forall p | p in settled ensures MapPair(p, nfc) != mapped[i] && p != mapped[i] {
      }
    }
    forall i, j | 0 <= i < j < |mapped| ensures mapped[i] != mapped[j] {
      assert pairs[i] in Elements(pairs) && pairs[j] in Elements(pairs);
    }
    FreshExact(mapped, read);
  }

  // ----- nothing is lost, and when something is -----

  /** Line `k` counts under the identity of an earlier line, and one of the two is kept as written:
      its id is stated, not computed. */
  ghost predicate Shadowed(d: Dreamer, lines: seq<Bytes>, k: nat)
    requires k < |lines|
  {
    exists j :: 0 <= j < k && ShadowedBy(d, lines, j, k)
  }

  ghost predicate ShadowedBy(d: Dreamer, lines: seq<Bytes>, j: nat, k: nat)
    requires j < k < |lines|
  {
    && IdAt(d, lines, j).Some? && IdAt(d, lines, j) == IdAt(d, lines, k)
    && (FateAt(d, lines, j).AsWritten? || FateAt(d, lines, k).AsWritten?)
  }

  /** What line `k` newly lists, up to normalization. */
  function SaysAt(d: Dreamer, lines: seq<Bytes>, k: nat): set<Receipt>
    requires k < |lines|
  {
    Image(Elements(Says(FateAt(d, lines, k))), d.codec.nfc)
  }

  /** Every receipt a ledger lists is newly listed by one of its lines. */
  lemma {:induction false} SaidSomewhere(d: Dreamer, lines: seq<Bytes>, n: nat, p: Receipt) returns (k: nat)
    requires n <= |lines| && p in SettledAt(d, lines, n)
    ensures k < n && p in Elements(Says(FateAt(d, lines, k)))
  {
    NothingSettled(d, lines);
    k := n - 1;
    SettledNext(d, lines, k);
    if p in SettledAt(d, lines, k) {
      k := SaidSomewhere(d, lines, k, p);
    } else {
      NewIsSaid(d, SettledAt(d, lines, k), lines[k], p);
    }
  }

  lemma NothingSettled(d: Dreamer, lines: seq<Bytes>)
    ensures SettledAt(d, lines, 0) == {}
  {
    assert lines[..0] == [];
  }

  lemma NewIsSaid(d: Dreamer, settled: set<Receipt>, line: Bytes, p: Receipt)
    requires p in Elements(ListedOn(d, line)) && p !in settled
    ensures p in Elements(Says(FateOf(d, settled, line)))
  {
    hide Reencode, Listed, WellFormed;
    var record := RecordOn(d, line).value;
    if Reencode(d, record, settled).None? {
      DroppedListsNothingNew(d, record, settled);
    } else if FateOf(d, settled, line).Rewritten? {
      RewrittenFacts(d, settled, line, FateOf(d, settled, line).record);
    }
  }

  /** And a line says only what it lists. */
  lemma SaidIsListed(d: Dreamer, settled: set<Receipt>, line: Bytes)
    ensures Elements(Says(FateOf(d, settled, line))) <= Elements(ListedOn(d, line))
  {
    hide Reencode, Listed, WellFormed;
    if FateOf(d, settled, line).Rewritten? {
      RewrittenFacts(d, settled, line, FateOf(d, settled, line).record);
    }
  }

  lemma ImageTwice(pairs: set<Receipt>, nfc: string -> string)
    requires NfcLaws(nfc)
    ensures Image(Image(pairs, nfc), nfc) == Image(pairs, nfc)
  {
    forall p: Receipt ensures MapPair(MapPair(p, nfc), nfc) == MapPair(p, nfc) {
    }
    forall q | q in Image(pairs, nfc) ensures q in Image(Image(pairs, nfc), nfc) {
      var p :| p in pairs && q == MapPair(p, nfc);
      assert MapPair(q, nfc) == q;
    }
  }

  lemma ImageMonotone(a: set<Receipt>, b: set<Receipt>, nfc: string -> string)
    requires a <= b
    ensures Image(a, nfc) <= Image(b, nfc)
  {
  }

  /** What a line lists reads as what it says. */
  lemma ReadsAsSaid(d: Dreamer, settled: set<Receipt>, line: Bytes, fate: Fate)
    requires Lawful(d) && fate == FateOf(d, settled, line)
    ensures Image(Elements(Reads(d, fate)), d.codec.nfc) == Image(Elements(Says(fate)), d.codec.nfc)
  {
    hide Reencode, Listed, NormalRecord, LineOf;
    if fate.Rewritten? {
      WrittenReads(d, fate.record);
      ImageOfSeq(Listed(fate.record), d.codec.nfc);
      ImageTwice(Elements(Listed(fate.record)), d.codec.nfc);
    }
  }

  /** Two rewritten lines of one identity say the same. */
  lemma TwinsSayTheSame(d: Dreamer, lines: seq<Bytes>, j: nat, k: nat)
    requires Lawful(d) && j < |lines| && k < |lines| && IdAt(d, lines, j) == IdAt(d, lines, k)
    requires FateAt(d, lines, j).Rewritten? && FateAt(d, lines, k).Rewritten?
    ensures SaysAt(d, lines, j) == SaysAt(d, lines, k)
  {
    var a, b := FateAt(d, lines, j).record, FateAt(d, lines, k).record;
    RewrittenFacts(d, SettledAt(d, lines, j), lines[j], a);
    RewrittenFacts(d, SettledAt(d, lines, k), lines[k], b);
    SameDecisionListed(d, a, b);
  }

  /** What a pass leaves listed, up to normalization. */
  function StillListed(d: Dreamer, lines: seq<Bytes>): set<Receipt> {
    Image(Elements(AllListed(d, KeepAll(d, INITIAL, lines).lines)), d.codec.nfc)
  }

  /** A line that stands says it. */
  ghost predicate SaidStanding(d: Dreamer, lines: seq<Bytes>, q: Receipt, n: nat)
    requires n <= |lines|
  {
    exists j :: 0 <= j < n && Stands(d, lines, j) && q in SaysAt(d, lines, j)
  }

  lemma {:induction false} ListingSays(d: Dreamer, lines: seq<Bytes>, n: nat, q: Receipt)
    requires Lawful(d) && n <= |lines|
    ensures q in Image(Elements(Listing(d, lines, n)), d.codec.nfc) <==> SaidStanding(d, lines, q, n)
  {
    if n > 0 {
      hide FateOf, Reads, Says, Stands, Image, SaysAt;
      var m, nfc := n - 1, d.codec.nfc;
      ListingSays(d, lines, m, q);
      if Stands(d, lines, m) {
        ReadsAsSaid(d, SettledAt(d, lines, m), lines[m], FateAt(d, lines, m));
        ReadsAreSays(d, lines, m);
        ElementsConcat(Listing(d, lines, m), Reads(d, FateAt(d, lines, m)));
        ImageUnion(Elements(Listing(d, lines, m)), Elements(Reads(d, FateAt(d, lines, m))), nfc);
      } else {
        assert Listing(d, lines, m) + [] == Listing(d, lines, m);
      }
      if SaidStanding(d, lines, q, n) {
        var j :| 0 <= j < n && Stands(d, lines, j) && q in SaysAt(d, lines, j);
        assert j < m || j == m;
      }
    } else {
      NothingImaged(d.codec.nfc);
    }
  }

  lemma NothingImaged(nfc: string -> string)
    ensures Image(Elements([]), nfc) == {}
  {
  }

  lemma ReadsAreSays(d: Dreamer, lines: seq<Bytes>, k: nat)
    requires Lawful(d) && k < |lines|
    ensures Image(Elements(Reads(d, FateAt(d, lines, k))), d.codec.nfc) == SaysAt(d, lines, k)
  {
    hide FateOf, Reads;
    ReadsAsSaid(d, SettledAt(d, lines, k), lines[k], FateAt(d, lines, k));
  }

  /** After a pass a receipt is listed exactly when a line that stands said it. */
  lemma StillListedExact(d: Dreamer, lines: seq<Bytes>, q: Receipt)
    requires Lawful(d)
    ensures q in StillListed(d, lines) <==> SaidStanding(d, lines, q, |lines|)
  {
    hide SaidStanding, Image;
    WholePass(d, lines);
    ListingExact(d, lines, |lines|);
    ListingSays(d, lines, |lines|, q);
  }

  lemma SaysWithin(d: Dreamer, lines: seq<Bytes>, k: nat)
    requires k < |lines|
    ensures SaysAt(d, lines, k) <= Image(Elements(AllListed(d, lines)), d.codec.nfc)
  {
    hide FateOf, Says;
    SaidIsListed(d, SettledAt(d, lines, k), lines[k]);
    SettledNext(d, lines, k);
    SettledGrows(d, lines, k + 1, |lines|);
    assert lines[..|lines|] == lines;
    ImageMonotone(Elements(Says(FateAt(d, lines, k))), Elements(AllListed(d, lines)), d.codec.nfc);
  }

  lemma SaidHere(d: Dreamer, lines: seq<Bytes>, k: nat, p: Receipt)
    requires k < |lines| && p in Elements(Says(FateAt(d, lines, k)))
    ensures MapPair(p, d.codec.nfc) in SaysAt(d, lines, k) && IdAt(d, lines, k).Some?
  {
  }

  lemma ImageWithin(pairs: set<Receipt>, image: set<Receipt>, nfc: string -> string)
    requires forall p :: p in pairs ==> MapPair(p, nfc) in image
    ensures Image(pairs, nfc) <= image
  {
  }

  /** Compacting invents no settled receipt, whatever the ledger holds. */
  lemma NothingInvented(d: Dreamer, lines: seq<Bytes>)
    requires Lawful(d)
    ensures StillListed(d, lines) <= Image(Elements(AllListed(d, lines)), d.codec.nfc)
  {
    hide StillListed, SaysAt, Image, Stands;
    forall q | q in StillListed(d, lines) ensures q in Image(Elements(AllListed(d, lines)), d.codec.nfc) {
      StillListedExact(d, lines, q);
      var j :| 0 <= j < |lines| && Stands(d, lines, j) && q in SaysAt(d, lines, j);
      SaysWithin(d, lines, j);
    }
  }

  /** A line that is not shadowed loses nothing, be it dropped, rewritten or kept as written. */
  lemma UnshadowedIsListed(d: Dreamer, lines: seq<Bytes>, k: nat, q: Receipt)
    requires Lawful(d) && k < |lines| && !Shadowed(d, lines, k) && IdAt(d, lines, k).Some? && q in SaysAt(d, lines, k)
    ensures SaidStanding(d, lines, q, |lines|)
  {
    hide FateOf, SaysAt;
    var j := FirstStands(d, lines, k);
    if j < k {
      assert !ShadowedBy(d, lines, j, k);
      TwinsSayTheSame(d, lines, j, k);
    }
  }

  /** Compacting loses no settled receipt exactly when whatever a shadowed line says a line that stands
      says too. Shadows are the only way to lose one: a line dropped for deciding nothing new, a line
      dropped as a rewritten one's repeat and a line kept as written lose none. */
  lemma ReceiptsConservedExact(d: Dreamer, lines: seq<Bytes>)
    requires Lawful(d)
    ensures StillListed(d, lines) == Image(Elements(AllListed(d, lines)), d.codec.nfc) <==>
      forall k, q :: 0 <= k < |lines| && Shadowed(d, lines, k) && q in SaysAt(d, lines, k) ==> SaidStanding(d, lines, q, |lines|)
  {
    hide StillListed, SaysAt, Shadowed, SaidStanding, SettledAt;
    var nfc, all := d.codec.nfc, Elements(AllListed(d, lines));
    NothingInvented(d, lines);
    forall q ensures q in StillListed(d, lines) <==> SaidStanding(d, lines, q, |lines|) {
      StillListedExact(d, lines, q);
    }
    forall k | 0 <= k < |lines| ensures SaysAt(d, lines, k) <= Image(all, nfc) {
      SaysWithin(d, lines, k);
    }
    if forall k, q :: 0 <= k < |lines| && Shadowed(d, lines, k) && q in SaysAt(d, lines, k) ==> SaidStanding(d, lines, q, |lines|) {
      AllSettled(d, lines);
      forall p | p in all ensures MapPair(p, nfc) in StillListed(d, lines) {
        var k := SaidSomewhere(d, lines, |lines|, p);
        SaidHere(d, lines, k, p);
        if !Shadowed(d, lines, k) {
          UnshadowedIsListed(d, lines, k, MapPair(p, nfc));
        }
      }
      ImageWithin(all, StillListed(d, lines), nfc);
    }
  }

  lemma AllSettled(d: Dreamer, lines: seq<Bytes>)
    ensures SettledAt(d, lines, |lines|) == Elements(AllListed(d, lines))
  {
    assert lines[..|lines|] == lines;
  }

  /** So nothing is lost when a shadowed line says no more than the line that shadows it. */
  lemma ReceiptsConserved(d: Dreamer, lines: seq<Bytes>)
    requires Lawful(d)
    requires forall j, k :: 0 <= j < k < |lines| && ShadowedBy(d, lines, j, k) && Stands(d, lines, j) ==>
      SaysAt(d, lines, k) <= SaysAt(d, lines, j)
    ensures StillListed(d, lines) == Image(Elements(AllListed(d, lines)), d.codec.nfc)
  {
    hide StillListed, SaysAt, FateOf, Stands;
    forall k, q | 0 <= k < |lines| && Shadowed(d, lines, k) && q in SaysAt(d, lines, k)
      ensures SaidStanding(d, lines, q, |lines|)
    {
      var j := FirstStands(d, lines, k);
      if j < k && !ShadowedBy(d, lines, j, k) {
        TwinsSayTheSame(d, lines, j, k);
      }
    }
    ReceiptsConservedExact(d, lines);
  }

  // ----- what the re-encoded lines list -----

  /** What the lines that were written anew list, as they read. */
  function Relisted(d: Dreamer, lines: seq<Bytes>, n: nat): seq<Receipt>
    requires n <= |lines|
  {
    if n == 0 then []
    else Relisted(d, lines, n - 1) + RelistedAt(d, lines, n - 1)
  }

  function RelistedAt(d: Dreamer, lines: seq<Bytes>, k: nat): seq<Receipt>
    requires k < |lines|
  {
    if Stands(d, lines, k) && FateAt(d, lines, k).Rewritten? then Reads(d, FateAt(d, lines, k)) else []
  }

  /** They list no settled receipt twice, provided no two receipts read alike. */
  lemma {:induction false} RelistedOnce(d: Dreamer, lines: seq<Bytes>, n: nat)
    requires Lawful(d) && n <= |lines| && NfcDistinct(SettledAt(d, lines, n), d.codec.nfc)
    ensures Fresh(Relisted(d, lines, n), {})
    ensures Elements(Relisted(d, lines, n)) <= Image(SettledAt(d, lines, n), d.codec.nfc)
  {
    if n > 0 {
      hide RelistedAt, SettledAt, NfcDistinct, Image, ListedOn, Fresh, Elements, Lawful;
      var m, nfc := n - 1, d.codec.nfc;
      var settled, before, more := SettledAt(d, lines, m), Relisted(d, lines, m), RelistedAt(d, lines, m);
      SettledNext(d, lines, m);
      NfcDistinctLess(settled, SettledAt(d, lines, n), nfc);
      RelistedOnce(d, lines, m);
      RelistedNext(d, lines, m, Elements(before));
      FreshPush(before, more);
      ImageMonotone(settled, SettledAt(d, lines, n), nfc);
    }
  }

  lemma FreshPush(before: seq<Receipt>, more: seq<Receipt>)
    requires Fresh(before, {}) && Fresh(more, Elements(before))
    ensures Fresh(before + more, {}) && Elements(before + more) == Elements(before) + Elements(more)
  {
    FreshConcat(before, more, {});
    ElementsConcat(before, more);
    assert {} + Elements(before) == Elements(before);
  }

  lemma NfcDistinctLess(a: set<Receipt>, b: set<Receipt>, nfc: string -> string)
    requires a <= b && NfcDistinct(b, nfc)
    ensures NfcDistinct(a, nfc)
  {
  }

  lemma RelistedNext(d: Dreamer, lines: seq<Bytes>, k: nat, read: set<Receipt>)
    requires Lawful(d) && k < |lines| && NfcDistinct(SettledAt(d, lines, k + 1), d.codec.nfc)
    requires read <= Image(SettledAt(d, lines, k), d.codec.nfc)
    ensures Fresh(RelistedAt(d, lines, k), read)
    ensures Elements(RelistedAt(d, lines, k)) <= Image(SettledAt(d, lines, k + 1), d.codec.nfc)
  {
    hide FateOf, Reads, Stands;
    SettledNext(d, lines, k);
    if Stands(d, lines, k) && FateAt(d, lines, k).Rewritten? {
      RewrittenIsFresh(d, SettledAt(d, lines, k), lines[k], FateAt(d, lines, k).record, read);
    }
  }

  /** A rewritten line lists nothing that reads as what was settled before it. */
  lemma RewrittenIsFresh(d: Dreamer, settled: set<Receipt>, line: Bytes, r: Record, read: set<Receipt>)
    requires Lawful(d) && FateOf(d, settled, line) == Rewritten(r)
    requires NfcDistinct(settled + Elements(ListedOn(d, line)), d.codec.nfc)
    requires read <= Image(settled, d.codec.nfc) + settled
    ensures Fresh(Reads(d, Rewritten(r)), read)
    ensures Elements(Reads(d, Rewritten(r))) <= Image(settled + Elements(ListedOn(d, line)), d.codec.nfc)
  {
    hide FateOf, Listed, LineOf, NormalRecord;
    var nfc := d.codec.nfc;
    RewrittenFacts(d, settled, line, r);
    WrittenReads(d, r);
    ImageOfSeq(Listed(r), nfc);
    ImageMonotone(Elements(Listed(r)), settled + Elements(ListedOn(d, line)), nfc);
    FreshImage(Listed(r), settled, read, nfc);
  }
}
