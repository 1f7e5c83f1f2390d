/**
 What a compaction may take off a checkpoint, on the records' own fields (dream.rs 222-251, session.rs
 4472-4479, 4559-4561), what it counts, and what it leaves of a torn tail.
 */
module CheckpointSettling {
  import opened Wrappers
  import opened Utf8
  import opened JsonValue
  import opened LedgerIdentity
  import opened DreamFilter
  import opened DreamCompaction
  import opened DreamCheckpoints
  import opened CheckpointPass
  import CheckpointLaws
  import DreamLaws
  import LedgerLines

  // ----- admissions by their fields -----

  /** The admission is of this receipt. */
  predicate Names(admission: Value, receipt: string) {
    admission.Obj? && Get(admission.members, "receipt_id") == Some(Str(receipt))
  }

  /** It is still to be decided, or never will be: a session resumed later can decide it again. */
  predicate Undecided(admission: Value) {
    admission.Obj? && Get(admission.members, "state") in {Some(Str("pending")), Some(Str("abandoned"))}
  }

  /** It decides the receipt. */
  predicate Decides(admission: Value, receipt: string) {
    Names(admission, receipt) && !Undecided(admission)
  }

  lemma SettledReceiptExact(admission: Value, receipt: string)
    ensures SettledReceipt(admission) == Some(receipt) <==> Decides(admission, receipt)
  {
  }

  /** Some admission before the `n`th decides the receipt. */
  predicate DecidedIn(admissions: seq<Value>, n: nat, receipt: string)
    requires n <= |admissions|
  {
    exists i :: 0 <= i < n && Decides(admissions[i], receipt)
  }

  lemma {:induction false} PairsExact(session: string, admissions: seq<Value>, p: Receipt)
    ensures p in Elements(Pairs(session, admissions)) <==> p.0 == session && DecidedIn(admissions, |admissions|, p.1)
  {
    if admissions != [] {
      var tail := admissions[1..];
      PairsExact(session, tail, p);
      PairsStep(session, admissions[0], tail);
      assert admissions == [admissions[0]] + tail;
      SettledReceiptExact(admissions[0], p.1);
      assert forall i :: 0 <= i < |tail| ==> tail[i] == admissions[i + 1];
      assert forall i :: 0 < i < |admissions| ==> admissions[i] == tail[i - 1];
    }
  }

  /** A line before the `k`th holds a checkpoint of the session that decides the receipt. */
  ghost predicate DecidedBefore(d: Dreamer, lines: seq<Bytes>, k: nat, session: string, receipt: string)
    requires k <= |lines|
  {
    exists j :: 0 <= j < k && DecidedOn(d, lines[j], session, receipt)
  }

  predicate DecidedOn(d: Dreamer, line: Bytes, session: string, receipt: string) {
    match RecordOn(d, line)
    case Some(record) => SessionOf(record) == session && DecidedIn(AdmissionsOf(record), |AdmissionsOf(record)|, receipt)
    case None => false
  }

  lemma ListedExact(d: Dreamer, line: Bytes, p: Receipt)
    ensures p in Elements(ListedOn(d, line)) <==> DecidedOn(d, line, p.0, p.1)
  {
    if RecordOn(d, line).Some? {
      PairsExact(SessionOf(RecordOn(d, line).value), AdmissionsOf(RecordOn(d, line).value), p);
    }
  }

  /** What is settled before a line is what the lines before it decide. */
  lemma {:induction false} SettledExact(d: Dreamer, lines: seq<Bytes>, k: nat, p: Receipt)
    requires k <= |lines|
    ensures p in SettledAt(d, lines, k) <==> DecidedBefore(d, lines, k, p.0, p.1)
  {
    hide SettledAt, DecidedOn, ListedOn;
    if k == 0 {
      NothingSettled(d, lines);
    } else {
      SettledExact(d, lines, k - 1, p);
      SettledNext(d, lines, k - 1);
      ListedExact(d, lines[k - 1], p);
    }
  }

  lemma NothingSettled(d: Dreamer, lines: seq<Bytes>)
    ensures SettledAt(d, lines, 0) == {}
  {
  }

  // ----- what is taken off -----

  lemma {:induction false} KeptPush(session: string, admissions: seq<Value>, last: Value, settled: set<Receipt>)
    ensures Kept(session, admissions + [last], settled) ==
      Kept(session, admissions, settled) + Kept(session, [last], settled + Elements(Pairs(session, admissions)))
    decreases |admissions|
  {
    if admissions == [] {
      assert admissions + [last] == [last] && settled + Elements(Pairs(session, admissions)) == settled;
    } else {
      var head, tail := admissions[0], admissions[1..];
      assert admissions == [head] + tail && admissions + [last] == [head] + (tail + [last]);
      KeptStep(session, head, tail + [last], settled);
      KeptStep(session, head, tail, settled);
      PairsStep(session, head, tail);
      var more := match SettledReceipt(head) case Some(r) => settled + {(session, r)} case None => settled;
      KeptPush(session, tail, last, more);
      assert more + Elements(Pairs(session, tail)) == settled + Elements(Pairs(session, admissions));
      if SettledReceipt(head).Some? && (session, SettledReceipt(head).value) in settled {
        assert more == settled;
      } else {
        LedgerLines.Associate([head], Kept(session, tail, more), Kept(session, [last], more + Elements(Pairs(session, tail))));
      }
    }
  }

  /** The `i`th admission repeats a decision: it decides a receipt that an earlier line of the session
      decided, or an earlier admission of its own. */
  ghost predicate Repeats(d: Dreamer, lines: seq<Bytes>, k: nat, session: string, admissions: seq<Value>, i: nat)
    requires k <= |lines| && i < |admissions|
  {
    exists receipt :: Decides(admissions[i], receipt) && (DecidedBefore(d, lines, k, session, receipt) || DecidedIn(admissions, i, receipt))
  }

  /** The first `n` admissions that repeat no decision. */
  ghost function Unrepeated(d: Dreamer, lines: seq<Bytes>, k: nat, session: string, admissions: seq<Value>, n: nat): seq<Value>
    requires k <= |lines| && n <= |admissions|
  {
    if n == 0 then []
    else Unrepeated(d, lines, k, session, admissions, n - 1) +
         if Repeats(d, lines, k, session, admissions, n - 1) then [] else [admissions[n - 1]]
  }

  lemma LastRepeats(d: Dreamer, lines: seq<Bytes>, k: nat, session: string, admissions: seq<Value>, i: nat, settled: set<Receipt>)
    requires k <= |lines| && i < |admissions| && settled == SettledAt(d, lines, k) + Elements(Pairs(session, admissions[..i]))
    ensures Kept(session, [admissions[i]], settled) ==
      if Repeats(d, lines, k, session, admissions, i) then [] else [admissions[i]]
  {
    hide SettledAt, DecidedBefore, Pairs, Decides;
    var last := admissions[i];
    KeptStep(session, last, [], settled);
    assert [last] + [] == [last];
    forall receipt ensures (session, receipt) in settled <==>
      DecidedBefore(d, lines, k, session, receipt) || DecidedIn(admissions, i, receipt)
    {
      SettledExact(d, lines, k, (session, receipt));
      PairsExact(session, admissions[..i], (session, receipt));
      assert DecidedIn(admissions[..i], i, receipt) <==> DecidedIn(admissions, i, receipt);
    }
    forall receipt ensures SettledReceipt(last) == Some(receipt) <==> Decides(last, receipt) {
      SettledReceiptExact(last, receipt);
    }
  }

  lemma {:induction false} KeptExact(d: Dreamer, lines: seq<Bytes>, k: nat, session: string, admissions: seq<Value>, n: nat)
    requires k <= |lines| && n <= |admissions|
    ensures Kept(session, admissions[..n], SettledAt(d, lines, k)) == Unrepeated(d, lines, k, session, admissions, n)
  {
    hide SettledAt, Repeats, Pairs;
    if n == 0 {
      assert admissions[..0] == [];
    } else {
      KeptExact(d, lines, k, session, admissions, n - 1);
      assert admissions[..n] == admissions[..n - 1] + [admissions[n - 1]];
      KeptPush(session, admissions[..n - 1], admissions[n - 1], SettledAt(d, lines, k));
      LastRepeats(d, lines, k, session, admissions, n - 1,
        SettledAt(d, lines, k) + Elements(Pairs(session, admissions[..n - 1])));
    }
  }

  /** A compaction takes off a checkpoint exactly the admissions that repeat a decision. So one that is
      pending or abandoned stays listed, and has no later one taken off. */
  lemma TakenOffExactly(d: Dreamer, lines: seq<Bytes>, k: nat)
    requires k < |lines| && FateAt(d, lines, k).Rewritten?
    ensures var record := RecordOn(d, lines[k]).value; var r := FateAt(d, lines, k).record;
      && RecordOn(d, lines[k]).Some? && SessionOf(r) == SessionOf(record)
      && AdmissionsOf(r) == Unrepeated(d, lines, k, SessionOf(record), AdmissionsOf(record), |AdmissionsOf(record)|)
      && CountOf(r) == CountOf(record) + |AdmissionsOf(record)| - |AdmissionsOf(r)|
  {
    hide SettledAt, Relabel, Recounted, Unrepeated, WellFormed;
    var record := RecordOn(d, lines[k]).value;
    var admissions := AdmissionsOf(record);
    assert admissions[..|admissions|] == admissions;
    KeptExact(d, lines, k, SessionOf(record), admissions, |admissions|);
    RecountedParts(record, SettledAt(d, lines, k));
    RelabelParts(d, Recounted(record, SettledAt(d, lines, k)));
  }

  /** Anything else stays, in its place. */
  lemma {:induction false} UndecidedStay(d: Dreamer, lines: seq<Bytes>, k: nat, session: string, admissions: seq<Value>, n: nat, i: nat)
    requires k <= |lines| && i < n <= |admissions| && (Undecided(admissions[i]) || !exists receipt :: Names(admissions[i], receipt))
    ensures admissions[i] in Unrepeated(d, lines, k, session, admissions, n)
    decreases n
  {
    if i < n - 1 {
      UndecidedStay(d, lines, k, session, admissions, n - 1, i);
    }
  }

  // ----- the counts -----

  function Unblank(lines: seq<Bytes>): nat {
    if lines == [] then 0 else Unblank(lines[1..]) + if Blank(lines[0]) then 0 else 1
  }

  lemma StepCounts(d: Dreamer, s: State, line: Bytes)
    ensures var step := KeepStep(d, s, line);
      step.state.dropped + |AsLines(step.line)| == s.dropped + (if Blank(line) then 0 else 1)
    ensures var step := KeepStep(d, s, line);
      s.reencoded <= step.state.reencoded <= s.reencoded + 1
  {
    hide Blank, Reencode, Identity, Listed;
  }

  /** Every line that is not blank is kept or counted as dropped. */
  lemma {:induction false} DroppedExact(d: Dreamer, s: State, lines: seq<Bytes>)
    ensures KeepAll(d, s, lines).state.dropped + |KeepAll(d, s, lines).lines| == s.dropped + Unblank(lines)
    decreases |lines|
  {
    hide KeepStep, Blank;
    if lines != [] {
      StepCounts(d, s, lines[0]);
      DroppedExact(d, KeepStep(d, s, lines[0]).state, lines[1..]);
    }
  }

  /** The checkpoints whose text a pass changed. */
  function Changed(d: Dreamer, lines: seq<Bytes>, n: nat): nat
    requires n <= |lines|
  {
    if n == 0 then 0
    else Changed(d, lines, n - 1) + if TextAt(d, lines, n - 1) != lines[n - 1] then 1 else 0
  }

  lemma {:induction false} ReencodedExact(d: Dreamer, lines: seq<Bytes>, n: nat)
    requires d.checkpoints && n <= |lines|
    ensures KeepAll(d, INITIAL, lines[..n]).state.reencoded == Changed(d, lines, n)
  {
    hide KeepStep, KeepAll, FateAt, IdAt, TextAt;
    if n == 0 {
      assert lines[..0] == [];
      NothingReencoded(d);
    } else {
      var m := n - 1;
      ReencodedExact(d, lines, m);
      PassExact(d, lines, m);
      assert lines[..n] == lines[..m] + [lines[m]];
      KeepAllPush(d, INITIAL, lines[..m], lines[m]);
      ReencodedNext(d, lines, m, KeepAll(d, INITIAL, lines[..m]).state);
    }
  }

  lemma NothingReencoded(d: Dreamer)
    ensures KeepAll(d, INITIAL, []).state.reencoded == 0
  {
  }

  lemma ReencodedNext(d: Dreamer, lines: seq<Bytes>, m: nat, s: State)
    requires d.checkpoints && m < |lines| && s.settled == SettledAt(d, lines, m)
    ensures KeepStep(d, s, lines[m]).state.reencoded == s.reencoded + if TextAt(d, lines, m) != lines[m] then 1 else 0
  {
    hide KeepStep, FateOf, IdOf, TextOf, SettledAt;
    StepByFate(d, s, lines[m], FateAt(d, lines, m), IdAt(d, lines, m));
  }

  // ----- the torn tail -----

  lemma KeptAreLines(d: Dreamer, b: Bytes)
    requires d.checkpoints ==> Lawful(d)
    ensures DreamLaws.NoNewlines(KeepAll(d, INITIAL, WholeLines(b)).lines)
  {
    var lines := WholeLines(b);
    DreamLaws.RawsHaveNoNewline(b, 0);
    if d.checkpoints {
      WholePass(d, lines);
      CheckpointLaws.PassKeepsLines(d, lines, |lines|);
    } else {
      DreamLaws.PlainKeepsRaw(d, INITIAL, lines);
    }
  }

  /** The torn tail as a list of at most one line. */
  function TornLines(b: Bytes): seq<Bytes> {
    if Torn(b) == [] then [] else [Torn(b)]
  }

  lemma TornIsLine(b: Bytes)
    ensures TornLine(b) == Written(TornLines(b)) && DreamLaws.NoNewlines(TornLines(b))
  {
    LedgerLines.EndIsBoundary(b, 0);
    if Torn(b) != [] {
      assert [Torn(b)][1..] == [];
    }
  }

  /** What a compaction swaps in reads as the lines one pass keeps and, after them, the torn tail as a
      line of its own: a record a writer had written but for its newline is there. */
  lemma TornTailIsKept(d: Dreamer, b: Bytes)
    requires d.checkpoints ==> Lawful(d)
    ensures WholeLines(Swapped(d, b)) == KeepAll(d, INITIAL, WholeLines(b)).lines + TornLines(b)
    ensures LedgerLines.Terminated(Swapped(d, b))
  {
    hide KeepAll, WholeLines, TornLine, TornLines, Written;
    var kept := KeepAll(d, INITIAL, WholeLines(b)).lines;
    KeptAreLines(d, b);
    TornIsLine(b);
    WrittenConcat(kept, TornLines(b));
    DreamLaws.WrittenReadsBack(kept + TornLines(b));
  }
}
