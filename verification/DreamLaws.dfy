/** What compaction keeps of a ledger without checkpoints, and what every compacted ledger reads as. */
module DreamLaws {
  import opened Wrappers
  import opened Utf8
  import opened LedgerLines
  import opened LedgerIdentity
  import opened DreamFilter
  import opened DreamCompaction

  // ----- a compacted ledger, read again -----

  predicate NoNewlines(lines: seq<Bytes>) {
    forall i :: 0 <= i < |lines| ==> NEWLINE !in lines[i]
  }

  lemma {:induction false} RawsHaveNoNewline(b: Bytes, start: nat)
    requires Boundary(b, start)
    ensures NoNewlines(Raws(LinesFrom(b, start)))
    decreases |b| - start
  {
    var e := LineEnd(b, start);
    if e < |b| {
      assert LinesFrom(b, start)[1..] == LinesFrom(b, e + 1);
      RawsHaveNoNewline(b, e + 1);
      assert NEWLINE !in b[start..e];
    }
  }

  lemma FirstWritten(tail: Bytes, line: Bytes, rest: Bytes)
    requires tail == line + [NEWLINE] + rest
    ensures |tail| == |line| + 1 + |rest|
    ensures tail[..|line|] == line && tail[|line|] == NEWLINE && tail[|line| + 1..] == rest
  {
  }

  lemma Dropped(g: Bytes, at: nat, k: nat)
    requires at + k <= |g|
    ensures g[at..][k..] == g[at + k..] && g[at..][..k] == g[at..at + k]
  {
  }

  lemma LineStarting(g: Bytes, at: nat, line: Bytes)
    requires at + |line| < |g| && g[at..at + |line|] == line && g[at + |line|] == NEWLINE && NEWLINE !in line
    ensures LinesFrom(g, at) == [Line(at, line)] + LinesFrom(g, at + |line| + 1)
  {
  }

  lemma {:induction false} WrittenEnds(lines: seq<Bytes>)
    ensures Terminated(Written(lines))
  {
    if lines != [] {
      WrittenEnds(lines[1..]);
      FirstWritten(Written(lines), lines[0], Written(lines[1..]));
    }
  }

  lemma FirstThenRest(g: Bytes, at: nat, line: Bytes, rest: Bytes, lines: seq<Bytes>)
    requires NEWLINE !in line && at <= |g| && g[at..] == line + [NEWLINE] + rest
    ensures at + |line| + 1 <= |g| && g[at + |line| + 1..] == rest
    ensures Raws(LinesFrom(g, at + |line| + 1)) == lines ==> Raws(LinesFrom(g, at)) == [line] + lines
  {
    FirstWritten(g[at..], line, rest);
    Dropped(g, at, |line|);
    Dropped(g, at, |line| + 1);
    LineStarting(g, at, line);
    RawsConcat([Line(at, line)], LinesFrom(g, at + |line| + 1));
    assert [Line(at, line)][1..] == [];
  }

  lemma NothingLeft(g: Bytes, at: nat)
    requires at <= |g| && g[at..] == []
    ensures Raws(LinesFrom(g, at)) == []
  {
  }

  lemma {:induction false} WrittenReadsFrom(g: Bytes, at: nat, lines: seq<Bytes>)
    requires NoNewlines(lines) && at <= |g| && g[at..] == Written(lines)
    ensures Raws(LinesFrom(g, at)) == lines
    decreases |lines|
  {
    hide LinesFrom, LineEnd, Raws;
    if lines == [] {
      NothingLeft(g, at);
    } else {
      var line, rest := lines[0], lines[1..];
      FirstThenRest(g, at, line, Written(rest), rest);
      WrittenReadsFrom(g, at + |line| + 1, rest);
      assert lines == [line] + rest;
    }
  }

  /** What a compaction writes reads back as the lines it kept. */
  lemma WrittenReadsBack(lines: seq<Bytes>)
    requires NoNewlines(lines)
    ensures WholeLines(Written(lines)) == lines && Terminated(Written(lines))
  {
    WrittenReadsFrom(Written(lines), 0, lines);
    WrittenEnds(lines);
  }

  lemma LineThen(b: Bytes, start: nat, e: nat)
    requires start <= e < |b| && b[e] == NEWLINE
    ensures b[start..] == b[start..e] + [NEWLINE] + b[e + 1..]
  {
  }

  lemma RawsFirst(l: Line, rest: seq<Line>)
    ensures Written(Raws([l] + rest)) == l.raw + [NEWLINE] + Written(Raws(rest))
  {
    assert ([l] + rest)[1..] == rest;
    assert ([l.raw] + Raws(rest))[1..] == Raws(rest);
  }

  lemma {:induction false} WrittenParts(b: Bytes, start: nat)
    requires start <= |b|
    ensures Written(Raws(LinesFrom(b, start))) + b[EndOfLines(b, start)..] == b[start..]
    decreases |b| - start
  {
    hide LinesFrom, EndOfLines, LineEnd, Written, Raws;
    var e := LineEnd(b, start);
    if e < |b| {
      FirstLine(b, b, start);
      WrittenParts(b, e + 1);
      var rest := LinesFrom(b, e + 1);
      RawsFirst(Line(start, b[start..e]), rest);
      LineThen(b, start, e);
      Associate(b[start..e] + [NEWLINE], Written(Raws(rest)), b[EndOfLines(b, start)..]);
    } else {
      NoLine(b, start);
      assert Written(Raws([])) == [] by { NothingWritten(); }
    }
  }

  lemma NothingWritten()
    ensures Written(Raws([])) == []
  {
  }

  /** A ledger is its whole lines, each with its newline, and its torn tail, which has none. */
  lemma LedgerIsItsLines(b: Bytes)
    ensures Written(WholeLines(b)) + Torn(b) == b
    ensures NoNewlines(WholeLines(b)) && NEWLINE !in Torn(b)
  {
    WrittenParts(b, 0);
    RawsHaveNoNewline(b, 0);
    EndIsBoundary(b, 0);
  }

  lemma TerminatedHasNoTorn(b: Bytes)
    requires Terminated(b)
    ensures TornLine(b) == []
  {
    EndAtTerminator(b, 0);
  }

  // ----- ledgers without checkpoints -----

  /** The identity a readable line counts under. */
  function LineIdentity(d: Dreamer, line: Bytes): Option<Digest> {
    if Blank(line) then None
    else match d.codec.parse(line)
      case None => None
      case Some(record) => Some(Identity(d.codec, d.spec, record, line))
  }

  /** A line worth keeping: unreadable, or the first of its identity. */
  predicate Retained(d: Dreamer, lines: seq<Bytes>, i: nat)
    requires i < |lines|
  {
    && !Blank(lines[i])
    && (LineIdentity(d, lines[i]).None? || forall j :: 0 <= j < i ==> LineIdentity(d, lines[j]) != LineIdentity(d, lines[i]))
  }

  function Selected(d: Dreamer, lines: seq<Bytes>, n: nat): seq<Bytes>
    requires n <= |lines|
  {
    if n == 0 then []
    else Selected(d, lines, n - 1) + if Retained(d, lines, n - 1) then [lines[n - 1]] else []
  }

  ghost predicate SeenExactly(d: Dreamer, lines: seq<Bytes>, n: nat, seen: set<Digest>)
    requires n <= |lines|
  {
    forall g :: g in seen <==> exists j :: 0 <= j < n && LineIdentity(d, lines[j]) == Some(g)
  }

  lemma SeenNext(d: Dreamer, lines: seq<Bytes>, n: nat, seen: set<Digest>)
    requires n < |lines| && SeenExactly(d, lines, n, seen)
    ensures SeenExactly(d, lines, n + 1, seen + match LineIdentity(d, lines[n]) case Some(g) => {g} case None => {})
    ensures Retained(d, lines, n) <==>
      !Blank(lines[n]) && (LineIdentity(d, lines[n]).None? || LineIdentity(d, lines[n]).value !in seen)
  {
  }

  lemma {:induction false} KeptSoFar(d: Dreamer, lines: seq<Bytes>, n: nat)
    requires n <= |lines| && !d.checkpoints
    ensures KeepAll(d, INITIAL, lines[..n]).lines == Selected(d, lines, n)
    ensures SeenExactly(d, lines, n, KeepAll(d, INITIAL, lines[..n]).state.seen)
  {
    if n > 0 {
      var m := n - 1;
      KeptSoFar(d, lines, m);
      var before := KeepAll(d, INITIAL, lines[..m]);
      assert lines[..n] == lines[..m] + [lines[m]];
      KeepAllConcat(d, INITIAL, lines[..m], [lines[m]]);
      OneLine(d, before.state, lines[m]);
      SeenNext(d, lines, m, before.state.seen);
      StepSees(d, before.state, lines[m]);
    }
  }

  /** What one line does to a ledger without checkpoints. */
  lemma StepSees(d: Dreamer, s: State, line: Bytes)
    requires !d.checkpoints
    ensures var step := KeepStep(d, s, line); var identity := LineIdentity(d, line);
      && step.state.seen == s.seen + (match identity case Some(g) => {g} case None => {})
      && step.line == (if !Blank(line) && (identity.None? || identity.value !in s.seen) then Some(line) else None)
      && step.state.dropped == s.dropped + (if identity.Some? && identity.value in s.seen then 1 else 0)
      && step.state.reencoded == s.reencoded
  {
  }

  /** A dream keeps, in order and as written, every unreadable line and the first line of each
      identity, and nothing else. */
  lemma FirstOfEachIsKept(d: Dreamer, lines: seq<Bytes>)
    requires !d.checkpoints
    ensures KeepAll(d, INITIAL, lines).lines == Selected(d, lines, |lines|)
  {
    KeptSoFar(d, lines, |lines|);
    assert lines[..|lines|] == lines;
  }

  lemma {:induction false} PlainAgain(d: Dreamer, s: State, t: State, lines: seq<Bytes>)
    requires !d.checkpoints && t.seen <= s.seen
    ensures var out := KeepAll(d, s, lines).lines; var again := KeepAll(d, t, out);
      again.state.dropped == t.dropped && again.state.reencoded == t.reencoded && again.lines == out
    decreases |lines|
  {
    if lines != [] {
      var step := KeepStep(d, s, lines[0]);
      StepSees(d, s, lines[0]);
      if step.line.None? {
        assert KeepAll(d, s, lines).lines == KeepAll(d, step.state, lines[1..]).lines;
        PlainAgain(d, step.state, t, lines[1..]);
      } else {
        var rest := KeepAll(d, step.state, lines[1..]).lines;
        var second := KeepStep(d, t, lines[0]);
        StepSees(d, t, lines[0]);
        PlainAgain(d, step.state, second.state, lines[1..]);
        assert ([lines[0]] + rest)[1..] == rest;
      }
    }
  }

  lemma {:induction false} PlainKeepsRaw(d: Dreamer, s: State, lines: seq<Bytes>)
    requires !d.checkpoints && NoNewlines(lines)
    ensures NoNewlines(KeepAll(d, s, lines).lines)
    decreases |lines|
  {
    if lines != [] {
      StepSees(d, s, lines[0]);
      PlainKeepsRaw(d, KeepStep(d, s, lines[0]).state, lines[1..]);
    }
  }

  /** Compacting a newline-terminated ledger again changes nothing. */
  lemma CompactedIsSettled(d: Dreamer, b: Bytes)
    requires !d.checkpoints && Terminated(b)
    ensures LeftAlone(d, LedgerAfter(d, b))
  {
    if !LeftAlone(d, b) {
      var kept := KeepAll(d, INITIAL, WholeLines(b)).lines;
      RawsHaveNoNewline(b, 0);
      PlainKeepsRaw(d, INITIAL, WholeLines(b));
      WrittenReadsBack(kept);
      TerminatedHasNoTorn(b);
      assert Written(kept) + [] == Written(kept);
      PlainAgain(d, INITIAL, INITIAL, WholeLines(b));
    }
  }
}
