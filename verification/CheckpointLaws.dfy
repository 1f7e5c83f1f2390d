/**
 Compacting a checkpoint ledger again (dream.rs 167-251, 289-397): when it is a no-op, for every
 newline-terminated ledger.
 */
module CheckpointLaws {
  import opened Wrappers
  import opened Utf8
  import opened KeyOrder
  import opened JsonValue
  import opened LedgerLines
  import opened LedgerIdentity
  import opened DreamFilter
  import opened DreamCompaction
  import opened CheckpointRecords
  import opened DreamCheckpoints
  import opened DreamAgain
  import opened CheckpointPass
  import opened CheckpointLedger
  import DreamLaws
  import JsonNormal
  import JsonWriter

  predicate Untouched(before: State, after: State) {
    after.dropped == before.dropped && after.reencoded == before.reencoded
  }

  /** The filter leaves a line alone when `settled` was settled before it: it cannot read it, cannot
      write it back, or writes it as it is. */
  predicate Quiet(d: Dreamer, settled: set<Receipt>, line: Bytes) {
    match FateOf(d, settled, line)
    case Emptied => false
    case Rewritten(r) => LineOf(r, d.codec.nfc) == line
    case _ => true
  }

  /** Line `k` of a ledger, as a pass keeps it, stays as it is behind what the kept lines before it
      list. */
  predicate QuietAt(d: Dreamer, lines: seq<Bytes>, k: nat)
    requires k < |lines|
  {
    Quiet(d, Elements(Listing(d, lines, k)), TextAt(d, lines, k))
  }

  ghost predicate AllQuiet(d: Dreamer, lines: seq<Bytes>, n: nat)
    requires n <= |lines|
  {
    forall k :: 0 <= k < n && Stands(d, lines, k) ==> QuietAt(d, lines, k)
  }

  // ----- one line again -----

  /** A quiet line counts again under the identity it was kept under. */
  lemma IdStays(d: Dreamer, settled: set<Receipt>, line: Bytes, fate: Fate, again: set<Receipt>)
    requires Lawful(d) && fate == FateOf(d, settled, line) && !Gone(fate)
    requires Quiet(d, again, TextOf(d, fate, line))
    ensures var text := TextOf(d, fate, line); IdOf(d, FateOf(d, again, text), text) == IdOf(d, fate, line)
  {
    hide WellFormed, Reencode, Lawful, Current, NormalRecord, LineOf, Identity;
    var text := TextOf(d, fate, line);
    match fate
    case Rewritten(r) =>
      RewrittenFacts(d, settled, line, r);
      WrittenReads(d, r);
      NormalId(d, r, text);
      match FateOf(d, again, text) {
        case Rewritten(t) => SameLineSameId(d, t, r, again, text);
        case _ =>
      }
    case AsWritten(record) =>
      match FateOf(d, again, text) {
        case Rewritten(t) =>
          RewrittenFacts(d, again, text, t);
          WrittenReads(d, t);
          NormalId(d, t, text);
        case _ =>
      }
    case _ =>
  }

  /** The id a record states is the id it has on its line. */
  lemma NormalId(d: Dreamer, r: Record, line: Bytes)
    requires Lawful(d) && WellFormed(Obj(r), d.codec.nfc) && Current(d, r)
    ensures Identity(d.codec, d.spec, NormalRecord(r, d.codec.nfc), line) == KeyOf(d, r)
  {
    var n := NormalRecord(r, d.codec.nfc);
    NormalCurrent(d, r);
    SameDecision(d, r);
    CurrentKeys(d, r, n);
    KeyIsId(d, n, n, line);
  }

  lemma SameLineSameId(d: Dreamer, t: Record, r: Record, settled: set<Receipt>, line: Bytes)
    requires Lawful(d) && WellFormed(Obj(r), d.codec.nfc) && Current(d, r)
    requires FateOf(d, settled, line) == Rewritten(t) && LineOf(t, d.codec.nfc) == LineOf(r, d.codec.nfc)
    ensures KeyOf(d, t) == KeyOf(d, r)
  {
    RewrittenFacts(d, settled, line, t);
    SameLine(d, t, r);
    NormalId(d, t, line);
    NormalId(d, r, line);
  }

  /** A rewritten line stays as it is exactly when it lists nothing listed before it, or its count
      would not fit: then it is kept as written. */
  lemma RewrittenQuiet(d: Dreamer, settled: set<Receipt>, line: Bytes, r: Record, again: set<Receipt>)
    requires Lawful(d) && FateOf(d, settled, line) == Rewritten(r)
    ensures var n := NormalRecord(r, d.codec.nfc);
      Quiet(d, again, LineOf(r, d.codec.nfc)) <==>
        Fresh(Listed(n), again) || (Reencode(d, n, again).Some? && !CountFits(n, again))
  {
    hide WellFormed, Reencode, Current, NormalRecord, LineOf, CountFits, Listed;
    var n := NormalRecord(r, d.codec.nfc);
    RewrittenFacts(d, settled, line, r);
    WrittenReads(d, r);
    ReadBack(d, r);
    NormalCurrent(d, r);
    if Fresh(Listed(n), again) {
      CurrentStays(d, n, again);
    } else if Reencode(d, n, again).Some? {
      ReencodedWellFormed(d, n, again);
      if CountFits(n, again) {
        Shortened(d, r, again);
      }
    }
  }

  // ----- the whole ledger again -----

  lemma StepGrows(d: Dreamer, t: State, line: Bytes)
    requires d.checkpoints
    ensures KeepStep(d, t, line).state.dropped >= t.dropped && KeepStep(d, t, line).state.reencoded >= t.reencoded
  {
    var fate := FateOf(d, t.settled, line);
    StepByFate(d, t, line, fate, IdOf(d, fate, line));
  }

  lemma StepUntouched(d: Dreamer, t: State, line: Bytes)
    requires d.checkpoints
    ensures var fate := FateOf(d, t.settled, line);
      Untouched(t, KeepStep(d, t, line).state) <==> Quiet(d, t.settled, line) && !Repeats(IdOf(d, fate, line), t.seen)
  {
    hide KeepStep;
    var fate := FateOf(d, t.settled, line);
    StepByFate(d, t, line, fate, IdOf(d, fate, line));
  }

  /** What a second pass has come to after `n` lines of the first: as far as every kept line stayed as
      it is, it has seen and settled what they say. */
  ghost predicate AgainSoFar(d: Dreamer, lines: seq<Bytes>, n: nat, t: State)
    requires n <= |lines|
  {
    && (Untouched(INITIAL, t) <==> AllQuiet(d, lines, n))
    && (Untouched(INITIAL, t) ==> t.settled == Elements(Listing(d, lines, n)) && SeenExactly(d, lines, n, t.seen))
  }

  /** A line the first pass did not keep changes nothing for the second. */
  lemma AgainSkips(d: Dreamer, lines: seq<Bytes>, n: nat, t: State)
    requires n < |lines| && AgainSoFar(d, lines, n, t) && !Stands(d, lines, n)
    ensures AgainSoFar(d, lines, n + 1, t)
  {
    hide FateOf, IdOf, Quiet, Stands, QuietAt;
    assert Listing(d, lines, n) + [] == Listing(d, lines, n);
    assert AllQuiet(d, lines, n + 1) <==> AllQuiet(d, lines, n);
    if Untouched(INITIAL, t) {
      SeenNext(d, lines, n, t.seen);
      SeenAlready(d, lines, n, t.seen);
    }
  }

  lemma SeenAlready(d: Dreamer, lines: seq<Bytes>, n: nat, seen: set<Digest>)
    requires n < |lines| && SeenExactly(d, lines, n, seen) && !Stands(d, lines, n)
    ensures seen + AsSet(IdAt(d, lines, n)) == seen
  {
    SeenNext(d, lines, n, seen);
  }

  lemma AllQuietNext(d: Dreamer, lines: seq<Bytes>, n: nat)
    requires n < |lines| && Stands(d, lines, n)
    ensures AllQuiet(d, lines, n + 1) <==> AllQuiet(d, lines, n) && QuietAt(d, lines, n)
  {
  }

  lemma AgainKeeps(d: Dreamer, lines: seq<Bytes>, n: nat, t: State)
    requires Lawful(d) && n < |lines| && AgainSoFar(d, lines, n, t) && Stands(d, lines, n)
    ensures AgainSoFar(d, lines, n + 1, KeepStep(d, t, TextAt(d, lines, n)).state)
  {
    hide FateOf, IdOf, TextOf, Quiet, KeepStep, Stands, AllQuiet, Reads, Repeats, Gone, SeenExactly;
    var text, fate := TextAt(d, lines, n), FateAt(d, lines, n);
    var next := KeepStep(d, t, text).state;
    StepGrows(d, t, text);
    AllQuietNext(d, lines, n);
    if Untouched(INITIAL, t) {
      var again := FateOf(d, t.settled, text);
      StepUntouched(d, t, text);
      StepByFate(d, t, text, again, IdOf(d, again, text));
      StandsIsHere(d, lines, n);
      SeenNext(d, lines, n, t.seen);
      if Quiet(d, t.settled, text) {
        IdStays(d, SettledAt(d, lines, n), lines[n], fate, t.settled);
        TextReads(d, SettledAt(d, lines, n), lines[n], fate);
        ElementsConcat(Listing(d, lines, n), Reads(d, fate));
      }
    }
  }

  lemma StandsIsHere(d: Dreamer, lines: seq<Bytes>, n: nat)
    requires n < |lines| && Stands(d, lines, n)
    ensures !Gone(FateAt(d, lines, n))
  {
  }

  /** A second pass over what a pass kept leaves it alone exactly when every kept line is quiet. */
  lemma {:induction false} AgainExact(d: Dreamer, lines: seq<Bytes>, n: nat)
    requires Lawful(d) && n <= |lines|
    ensures AgainSoFar(d, lines, n, KeepAll(d, INITIAL, Standing(d, lines, n)).state)
  {
    if n > 0 {
      hide Stands, KeepStep, KeepAll, TextAt, AgainSoFar, Lawful;
      var m := n - 1;
      var before := Standing(d, lines, m);
      AgainExact(d, lines, m);
      if Stands(d, lines, m) {
        KeepAllPush(d, INITIAL, before, TextAt(d, lines, m));
        AgainKeeps(d, lines, m, KeepAll(d, INITIAL, before).state);
      } else {
        assert before + [] == before;
        AgainSkips(d, lines, m, KeepAll(d, INITIAL, before).state);
      }
    }
  }

  /** A pass that changed nothing kept every line but blank ones, so a second one sees the same. */
  lemma {:induction false} UntouchedAgain(d: Dreamer, s: State, lines: seq<Bytes>)
    requires d.checkpoints && Untouched(s, KeepAll(d, s, lines).state)
    ensures KeepAll(d, s, KeepAll(d, s, lines).lines).state == KeepAll(d, s, lines).state
    decreases |lines|
  {
    if lines != [] {
      hide KeepStep, FateOf;
      var line, tail := lines[0], lines[1..];
      var step := KeepStep(d, s, line);
      var fate := FateOf(d, s.settled, line);
      var rest := KeepAll(d, step.state, tail).lines;
      StepByFate(d, s, line, fate, IdOf(d, fate, line));
      CountersGrow(d, step.state, tail);
      UntouchedAgain(d, step.state, tail);
      if step.line.None? {
        SkippedIsNothing(d, s, line);
        assert AsLines(None) + rest == rest;
      } else {
        assert (AsLines(step.line) + rest)[1..] == rest;
      }
    }
  }

  lemma SkippedIsNothing(d: Dreamer, s: State, line: Bytes)
    requires d.checkpoints && KeepStep(d, s, line).line.None? && Untouched(s, KeepStep(d, s, line).state)
    ensures KeepStep(d, s, line).state == s
  {
    hide Reencode, Identity, WellFormed, JsonWriter.TryCanonicalBytes;
  }

  lemma {:induction false} CountersGrow(d: Dreamer, t: State, lines: seq<Bytes>)
    requires d.checkpoints
    ensures KeepAll(d, t, lines).state.dropped >= t.dropped && KeepAll(d, t, lines).state.reencoded >= t.reencoded
    decreases |lines|
  {
    if lines != [] {
      StepGrows(d, t, lines[0]);
      CountersGrow(d, KeepStep(d, t, lines[0]).state, lines[1..]);
    }
  }

  // ----- canonical lines -----

  lemma {:induction false} QuoteOneLine(text: string)
    ensures '\n' !in JsonWriter.QuoteBody(text) && '\n' !in JsonWriter.Quoted(text)
  {
    if text != [] {
      QuoteOneLine(text[1..]);
      assert '\n' !in JsonWriter.QuoteChar(text[0]);
    }
  }

  lemma {:induction false} DecimalOneLine(n: nat)
    ensures '\n' !in JsonWriter.Decimal(n)
  {
    if n >= 10 {
      DecimalOneLine(n / 10);
    }
  }

  lemma {:induction false} CommasOneLine(parts: seq<string>)
    requires forall i :: 0 <= i < |parts| ==> '\n' !in parts[i]
    ensures '\n' !in JsonWriter.Commas(parts)
  {
    if |parts| > 1 {
      CommasOneLine(parts[1..]);
    }
  }

  lemma {:induction false} PrintOneLine(v: Value, nfc: string -> string)
    requires WellFormed(v, nfc)
    ensures '\n' !in JsonWriter.Print(v)
  {
    match v
    case Int(n) => DecimalOneLine(if n < 0 then -n else n);
    case Str(text) => QuoteOneLine(text);
    case Arr(items) =>
      ItemsOneLine(items, nfc);
      CommasOneLine(JsonWriter.PrintItems(items));
    case Obj(members) =>
      MembersOneLine(members, nfc);
      CommasOneLine(JsonWriter.MemberTexts(JsonWriter.PrintMembers(members)));
    case _ =>
  }

  lemma {:induction false} ItemsOneLine(items: seq<Value>, nfc: string -> string)
    requires forall i :: 0 <= i < |items| ==> WellFormed(items[i], nfc)
    ensures forall i :: 0 <= i < |items| ==> '\n' !in JsonWriter.PrintItems(items)[i]
  {
    if items != [] {
      PrintOneLine(items[0], nfc);
      ItemsOneLine(items[1..], nfc);
    }
  }

  lemma {:induction false} MembersOneLine(members: Record, nfc: string -> string)
    requires forall i :: 0 <= i < |members| ==> WellFormed(members[i].value, nfc)
    ensures forall i :: 0 <= i < |members| ==> '\n' !in JsonWriter.MemberTexts(JsonWriter.PrintMembers(members))[i]
  {
    if members != [] {
      PrintOneLine(members[0].value, nfc);
      QuoteOneLine(members[0].key);
      MembersOneLine(members[1..], nfc);
      assert JsonWriter.PrintMembers(members)[1..] == JsonWriter.PrintMembers(members[1..]);
    }
  }

  /** A record is written on one line. */
  lemma LineIsOneLine(d: Dreamer, r: Record)
    requires Lawful(d) && WellFormed(Obj(r), d.codec.nfc)
    ensures NEWLINE !in LineOf(r, d.codec.nfc)
  {
    var v, nfc := Obj(r), d.codec.nfc;
    JsonNormal.NormalIsNormal(v, nfc);
    JsonWriter.CanonicalPrintsNormal(v, nfc);
    PrintOneLine(Normal(v, nfc), nfc);
    AsciiByteIsItsChar(JsonWriter.Canonical(v, nfc), NEWLINE);
  }

  lemma TextIsOneLine(d: Dreamer, lines: seq<Bytes>, k: nat)
    requires Lawful(d) && k < |lines| && NEWLINE !in lines[k]
    ensures NEWLINE !in TextAt(d, lines, k)
  {
    hide Lawful, LineOf, Current;
    var fate := FateAt(d, lines, k);
    if fate.Rewritten? {
      RewrittenFacts(d, SettledAt(d, lines, k), lines[k], fate.record);
      LineIsOneLine(d, fate.record);
    }
  }

  lemma OneMore(lines: seq<Bytes>, line: Bytes)
    requires DreamLaws.NoNewlines(lines) && NEWLINE !in line
    ensures DreamLaws.NoNewlines(lines + [line])
  {
  }

  lemma {:induction false} PassKeepsLines(d: Dreamer, lines: seq<Bytes>, n: nat)
    requires Lawful(d) && n <= |lines| && DreamLaws.NoNewlines(lines)
    ensures DreamLaws.NoNewlines(Standing(d, lines, n))
  {
    if n > 0 {
      hide Stands, TextAt;
      PassKeepsLines(d, lines, n - 1);
      if Stands(d, lines, n - 1) {
        TextIsOneLine(d, lines, n - 1);
        OneMore(Standing(d, lines, n - 1), TextAt(d, lines, n - 1));
      }
    }
  }

  /** Compacting a newline-terminated checkpoint ledger again is a no-op exactly when each line the first
      compaction keeps stays as it is behind what the kept lines before it list. */
  lemma CompactedAgainExact(d: Dreamer, b: Bytes)
    requires Lawful(d) && Terminated(b)
    ensures LeftAlone(d, LedgerAfter(d, b)) <==> AllQuiet(d, WholeLines(b), |WholeLines(b)|)
  {
    hide AllQuiet, Lawful, Standing;
    var lines := WholeLines(b);
    var out := KeepAll(d, INITIAL, lines).lines;
    Checkpointed(d);
    DreamLaws.RawsHaveNoNewline(b, 0);
    WholePass(d, lines);
    PassKeepsLines(d, lines, |lines|);
    DreamLaws.WrittenReadsBack(out);
    DreamLaws.TerminatedHasNoTorn(b);
    assert Written(out) + [] == Written(out);
    AgainExact(d, lines, |lines|);
    if LeftAlone(d, b) {
      UntouchedAgain(d, INITIAL, lines);
    }
  }

  lemma Checkpointed(d: Dreamer)
    requires Lawful(d)
    ensures d.checkpoints
  {
  }

  // ----- when it is one -----

  lemma WithinMore(a: set<Receipt>, b: set<Receipt>, c: set<Receipt>, x: set<Receipt>, nfc: string -> string)
    requires a <= Image(b, nfc) + b && x <= Image(c, nfc) + c
    ensures a + x <= Image(b + c, nfc) + (b + c) && a <= Image(b + c, nfc) + (b + c)
  {
    ImageUnion(b, c, nfc);
  }

  /** What the kept lines list reads as what was settled, or is it. */
  lemma {:induction false} ListingFromSettled(d: Dreamer, lines: seq<Bytes>, n: nat)
    requires Lawful(d) && n <= |lines|
    ensures Elements(Listing(d, lines, n)) <= Image(SettledAt(d, lines, n), d.codec.nfc) + SettledAt(d, lines, n)
  {
    if n > 0 {
      hide FateOf, Reads, Stands, Image, SettledAt, ListedOn, Elements, Lawful;
      var m := n - 1;
      var fate := FateAt(d, lines, m);
      ListingFromSettled(d, lines, m);
      SettledNext(d, lines, m);
      ReadsFromLine(d, SettledAt(d, lines, m), lines[m]);
      WithinMore(Elements(Listing(d, lines, m)), SettledAt(d, lines, m), Elements(ListedOn(d, lines[m])), Elements(Reads(d, fate)), d.codec.nfc);
      ElementsConcat(Listing(d, lines, m), Reads(d, fate));
      assert Listing(d, lines, m) + [] == Listing(d, lines, m);
    }
  }

  lemma ReadsFromLine(d: Dreamer, settled: set<Receipt>, line: Bytes)
    requires Lawful(d)
    ensures var fate := FateOf(d, settled, line);
      Elements(Reads(d, fate)) <= Image(Elements(ListedOn(d, line)), d.codec.nfc) + Elements(ListedOn(d, line))
  {
    hide Reencode, Listed, NormalRecord, LineOf;
    var fate := FateOf(d, settled, line);
    SaidIsListed(d, settled, line);
    if fate.Rewritten? {
      RewrittenFacts(d, settled, line, fate.record);
      WrittenReads(d, fate.record);
      ImageOfSeq(Listed(fate.record), d.codec.nfc);
      ImageMonotone(Elements(Listed(fate.record)), Elements(ListedOn(d, line)), d.codec.nfc);
    }
  }

  /** Line `k`'s count stays an integer the canonical rule allows, whatever of it is settled. */
  predicate CountStays(d: Dreamer, line: Bytes) {
    match RecordOn(d, line)
    case Some(record) => CountOf(record) + |AdmissionsOf(record)| <= JSON_INTEGER_BOUND
    case None => true
  }

  lemma KeptAsWrittenQuiet(d: Dreamer, line: Bytes, settled: set<Receipt>, again: set<Receipt>)
    requires Lawful(d) && FateOf(d, settled, line).AsWritten? && CountStays(d, line)
    requires again <= Image(settled, d.codec.nfc) + settled
    requires NfcDistinct(settled + Elements(ListedOn(d, line)), d.codec.nfc)
    ensures Quiet(d, again, line)
  {
    hide Reencode, Listed, WellFormed, Kept;
    var record, nfc := RecordOn(d, line).value, d.codec.nfc;
    forall p | p in Elements(Listed(record)) && p in again ensures p in settled {
      AlikeIsSettled(p, settled, Elements(ListedOn(d, line)), nfc);
    }
    StillUnwritable(d, record, again, settled);
  }

  lemma AlikeIsSettled(p: Receipt, settled: set<Receipt>, more: set<Receipt>, nfc: string -> string)
    requires NfcLaws(nfc) && p in more && p in Image(settled, nfc) + settled && NfcDistinct(settled + more, nfc)
    ensures p in settled
  {
    if p in Image(settled, nfc) {
      var q :| q in settled && p == MapPair(q, nfc);
      assert MapPair(p, nfc) == MapPair(q, nfc);
    }
  }

  /** It is a no-op whenever no two settled receipts of the ledger differ only by normalization and no
      count leaves the integers the canonical rule allows, unwritable lines or not. */
  lemma CompactedCheckpointsAreSettled(d: Dreamer, b: Bytes)
    requires Lawful(d) && Terminated(b)
    requires NfcDistinct(Elements(AllListed(d, WholeLines(b))), d.codec.nfc)
    requires forall k :: 0 <= k < |WholeLines(b)| ==> CountStays(d, WholeLines(b)[k])
    ensures LeftAlone(d, LedgerAfter(d, b))
  {
    hide LeftAlone, LedgerAfter, QuietAt, CountStays, WholeLines, Stands, NfcDistinct;
    var lines := WholeLines(b);
    CompactedAgainExact(d, b);
    AllSettled(d, lines);
    forall k | 0 <= k < |lines| && Stands(d, lines, k) ensures QuietAt(d, lines, k) {
      SettledGrows(d, lines, k + 1, |lines|);
      NfcDistinctLess(SettledAt(d, lines, k + 1), SettledAt(d, lines, |lines|), d.codec.nfc);
      DistinctIsQuiet(d, lines, k);
    }
  }

  lemma DistinctIsQuiet(d: Dreamer, lines: seq<Bytes>, k: nat)
    requires Lawful(d) && k < |lines| && Stands(d, lines, k) && CountStays(d, lines[k])
    requires NfcDistinct(SettledAt(d, lines, k + 1), d.codec.nfc)
    ensures QuietAt(d, lines, k)
  {
    hide CountStays, NfcDistinct, Listed, LineOf, NormalRecord, Reencode, WellFormed;
    var settled, again, fate := SettledAt(d, lines, k), Elements(Listing(d, lines, k)), FateAt(d, lines, k);
    SettledNext(d, lines, k);
    ListingFromSettled(d, lines, k);
    match fate
    case Rewritten(r) =>
      RewrittenIsFresh(d, settled, lines[k], r, again);
      RewrittenQuiet(d, settled, lines[k], r, again);
    case AsWritten(_) => KeptAsWrittenQuiet(d, lines[k], settled, again);
    case _ =>
  }
}
