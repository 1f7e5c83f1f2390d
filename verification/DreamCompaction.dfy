/** Compacting a ledger in two phases while writers append to it (dream.rs 256-397). */
module DreamCompaction {
  import opened Wrappers
  import opened Utf8
  import opened LedgerLines
  import opened LedgerIdentity
  import opened DreamFilter

  function Raws(lines: seq<Line>): (r: seq<Bytes>)
    ensures |r| == |lines|
  {
    if lines == [] then [] else [lines[0].raw] + Raws(lines[1..])
  }

  /** Lines as a compaction writes them. */
  function Written(lines: seq<Bytes>): Bytes {
    if lines == [] then [] else lines[0] + [NEWLINE] + Written(lines[1..])
  }

  /** The whole lines of a ledger. */
  function WholeLines(b: Bytes): seq<Bytes> {
    Raws(Lines(b))
  }

  /** What follows the last whole line. */
  function Torn(b: Bytes): Bytes {
    b[EndOfLines(b, 0)..]
  }

  /** A torn last line is kept, terminated. */
  function TornLine(b: Bytes): Bytes {
    if Torn(b) == [] then [] else Torn(b) + [NEWLINE]
  }

  lemma {:induction false} RawsConcat(a: seq<Line>, b: seq<Line>)
    ensures Raws(a + b) == Raws(a) + Raws(b)
  {
    if a == [] {
      assert a + b == b;
    } else {
      assert (a + b)[1..] == a[1..] + b;
      RawsConcat(a[1..], b);
    }
  }

  lemma {:induction false} WrittenConcat(a: seq<Bytes>, b: seq<Bytes>)
    ensures Written(a + b) == Written(a) + Written(b)
  {
    if a == [] {
      assert a + b == b;
    } else {
      assert (a + b)[1..] == a[1..] + b;
      WrittenConcat(a[1..], b);
      Associate(a[0] + [NEWLINE], Written(a[1..]), Written(b));
    }
  }

  /** The lines between two boundaries. */
  function Between(b: Bytes, start: nat, offset: nat): seq<Bytes>
    requires start <= offset <= |b|
  {
    Raws(LinesFrom(b[..offset], start))
  }

  lemma GrowByLine(p: Bytes, g: Bytes, start: nat, end: nat)
    requires p <= g && start <= |p| <= end && |g| == end + 1 && g[end] == NEWLINE && Boundary(g, |p|)
    requires start == |p| || p[|p| - 1] == NEWLINE
    requires forall i :: |p| <= i < end ==> g[i] != NEWLINE
    ensures LinesFrom(g, start) == LinesFrom(p, start) + [Line(|p|, g[|p|..end])]
  {
    LinesGrow(p, g, start);
    EndAtTerminator(p, start);
    LineEndUnique(g, |p|, end);
    LineEndUnique(g, |g|, |g|);
  }

  lemma BetweenNext(b: Bytes, start: nat, offset: nat, end: nat)
    requires start <= offset <= end < |b| && Boundary(b, offset)
    requires end == LineEnd(b, offset)
    ensures Between(b, start, end + 1) == Between(b, start, offset) + [b[offset..end]]
  {
    var p, g := b[..offset], b[..end + 1];
    GrowByLine(p, g, start, end);
    assert g[offset..end] == b[offset..end];
    var last := [Line(offset, b[offset..end])];
    RawsConcat(LinesFrom(p, start), last);
    assert Raws(last) == [b[offset..end]] by { assert last[1..] == []; }
  }

  lemma BetweenEnd(b: Bytes, start: nat, offset: nat)
    requires start <= offset <= |b| && Boundary(b, offset) && LineEnd(b, offset) == |b|
    ensures Between(b, start, offset) == Raws(LinesFrom(b, start)) && offset == EndOfLines(b, start)
  {
    var p := b[..offset];
    LinesGrow(p, b, start);
    EndAtTerminator(p, start);
    assert LinesFrom(p, start) + [] == LinesFrom(p, start);
  }

  lemma BetweenJoins(b: Bytes, middle: nat)
    requires Boundary(b, middle)
    ensures WholeLines(b) == Between(b, 0, middle) + Raws(LinesFrom(b, middle))
    ensures EndOfLines(b, 0) == EndOfLines(b, middle)
  {
    LinesSplit(b, middle);
    RawsConcat(Lines(b[..middle]), LinesFrom(b, middle));
  }

  /** A line end found in a prefix is the line's end. */
  lemma SeenEnd(b: Bytes, n: nat, offset: nat)
    requires offset <= n <= |b| && LineEnd(b[..n], offset) < n
    ensures LineEnd(b, offset) == LineEnd(b[..n], offset)
  {
  }

  function AsWritten(line: Option<Bytes>): Bytes {
    match line
    case Some(kept) => kept + [NEWLINE]
    case None => []
  }

  lemma WrittenLine(line: Option<Bytes>)
    ensures Written(AsLines(line)) == AsWritten(line)
  {
  }

  lemma OneLine(d: Dreamer, s: State, line: Bytes)
    ensures KeepAll(d, s, [line]) == Pass(KeepStep(d, s, line).state, AsLines(KeepStep(d, s, line).line))
  {
  }

  /** A pass over `lines` from `from` has come to `s`, and written `out`. */
  ghost predicate Passed(d: Dreamer, from: State, lines: seq<Bytes>, s: State, out: Bytes) {
    s == KeepAll(d, from, lines).state && out == Written(KeepAll(d, from, lines).lines)
  }

  lemma PassedJoins(d: Dreamer, from: State, a: seq<Bytes>, s: State, out: Bytes, b: seq<Bytes>, t: State, more: Bytes)
    requires Passed(d, from, a, s, out) && Passed(d, s, b, t, more)
    ensures Passed(d, from, a + b, t, out + more)
  {
    KeepAllConcat(d, from, a, b);
    WrittenConcat(KeepAll(d, from, a).lines, KeepAll(d, s, b).lines);
  }

  lemma PassedNext(d: Dreamer, from: State, lines: seq<Bytes>, s: State, out: Bytes, line: Bytes, step: Step)
    requires Passed(d, from, lines, s, out) && step == KeepStep(d, s, line)
    ensures Passed(d, from, lines + [line], step.state, out + AsWritten(step.line))
  {
    OneLine(d, s, line);
    WrittenLine(step.line);
    PassedJoins(d, from, lines, s, out, [line], step.state, AsWritten(step.line));
  }

  lemma PassedNothing(d: Dreamer, from: State, b: Bytes, start: nat)
    requires start <= |b|
    ensures Between(b, start, start) == [] && Passed(d, from, [], from, [])
  {
  }

  /** The copy has read the lines from `start` to `offset`, and written `out`. */
  ghost predicate Copied(d: Dreamer, from: State, b: Bytes, start: nat, offset: nat, s: State, out: Bytes, lines: nat) {
    && start <= offset && Boundary(b, offset) && lines == |Between(b, start, offset)|
    && Passed(d, from, Between(b, start, offset), s, out)
  }

  /** Where the line at `offset` ends, when its newline is among the first `n` bytes. */
  function SeenLine(b: Bytes, n: nat, offset: nat): (end: Option<nat>)
    requires n <= |b| && offset <= |b|
    ensures end.Some? ==> offset <= end.value < n
    ensures end.None? && n == |b| ==> LineEnd(b, offset) == |b|
  {
    assert b[..|b|] == b;
    if n < offset || LineEnd(b[..n], offset) == n then None else Some(LineEnd(b[..n], offset))
  }

  lemma CopiedNext(d: Dreamer, from: State, b: Bytes, start: nat, offset: nat, s: State, out: Bytes, lines: nat, n: nat, end: nat, step: Step)
    requires Copied(d, from, b, start, offset, s, out, lines) && offset <= n <= |b|
    requires SeenLine(b, n, offset) == Some(end) && step == KeepStep(d, s, b[offset..end])
    ensures Copied(d, from, b, start, end + 1, step.state, out + AsWritten(step.line), lines + 1)
  {
    SeenEnd(b, n, offset);
    BetweenNext(b, start, offset, end);
    PassedNext(d, from, Between(b, start, offset), s, out, b[offset..end], step);
  }

  /** A line goes through the filter, and what is kept of it onto the output. */
  method CopyLine(line: Bytes, filter: Filter, done: Bytes) returns (out: Bytes, ghost step: Step)
    modifies filter
    ensures step == KeepStep(filter.d, old(filter.View()), line) && filter.View() == step.state
    ensures out == done + AsWritten(step.line)
  {
    var kept := filter.Keep(line);
    step := Step(filter.View(), kept);
    out := done + AsWritten(kept);
  }

  /** `copy_lines`: the whole lines of `b` from `start` on, as far as each read finds them. The
      `i`th read finds `visible[i]` bytes of the ledger written, and past the schedule all of it. */
  method CopyLines(b: Bytes, start: nat, visible: seq<nat>, filter: Filter) returns (out: Bytes, offset: nat, lines: nat)
    requires Boundary(b, start)
    modifies filter
    ensures Copied(filter.d, old(filter.View()), b, start, offset, filter.View(), out, lines)
    ensures visible == [] ==> LineEnd(b, offset) == |b|
  {
    hide KeepAll, KeepStep, LinesFrom;
    out, offset, lines := [], start, 0;
    var round := 0;
    ghost var from := filter.View();
    PassedNothing(filter.d, from, b, start);
    while true
      invariant Copied(filter.d, from, b, start, offset, filter.View(), out, lines)
      decreases |b| - offset
    {
      var n := if round < |visible| && visible[round] < |b| then visible[round] else |b|;
      round := round + 1;
      var end := SeenLine(b, n, offset);
      if end.None? {
        return;
      }
      ghost var before, s := out, filter.View();
      ghost var step;
      out, step := CopyLine(b[offset..end.value], filter, out);
      CopiedNext(filter.d, from, b, start, offset, s, before, lines, n, end.value, step);
      offset, lines := end.value + 1, lines + 1;
    }
  }

  /** What a ledger of this name is compacted with; only indexed ledgers are. */
  function DreamerFor(name: string, codec: Codec, hash: string -> string): Option<Dreamer> {
    match SpecFor(name)
    case None => None
    case Some(spec) => Some(Dreamer(codec, spec, name == "session-checkpoints.jsonl", hash))
  }

  datatype Report = Report(lines: nat, dropped: nat, reencoded: nat, before: nat, after: nat)

  datatype Outcome = NotIndexed | Replaced | Unchanged(report: Report) | Compacted(report: Report)

  /** A compaction finds nothing left to do. */
  predicate LeftAlone(d: Dreamer, b: Bytes) {
    var s := KeepAll(d, INITIAL, WholeLines(b)).state;
    s.dropped == 0 && s.reencoded == 0
  }

  /** The ledger a compaction of `b` leaves. */
  function LedgerAfter(d: Dreamer, b: Bytes): Bytes {
    if LeftAlone(d, b) then b else Swapped(d, b)
  }

  /** What a compaction of `b` stages: the lines one pass keeps, and the torn tail. */
  function Swapped(d: Dreamer, b: Bytes): Bytes {
    Written(KeepAll(d, INITIAL, WholeLines(b)).lines) + TornLine(b)
  }

  /** A ledger's name: the file it leads to, and what was last kept of a replaced one. */
  class LedgerPath {
    var inode: nat
    var bytes: Bytes
    var backup: Option<Bytes>

    constructor (inode: nat, bytes: Bytes)
      ensures this.inode == inode && this.bytes == bytes && backup == None
    {
      this.inode, this.bytes, this.backup := inode, bytes, None;
    }

    /** Others act between the unlocked copy and the lock: writers append, or a file is swapped in. */
    method Meanwhile(arrived: Bytes, replacement: Option<(nat, Bytes)>)
      modifies this`inode, this`bytes
      ensures replacement.None? ==> bytes == old(bytes) + arrived && inode == old(inode)
      ensures replacement.Some? ==> (inode, bytes) == replacement.value
    {
      bytes := bytes + arrived;
      if replacement.Some? {
        inode, bytes := replacement.value.0, replacement.value.1;
      }
    }

    /** The unlocked copy and the locked one, with what happens between them. */
    method CopyTwice(filter: Filter, visible: seq<nat>, arrived: Bytes, replacement: Option<(nat, Bytes)>)
      returns (out: Bytes, lines: nat)
      requires replacement.Some? ==> replacement.value.0 != inode
      requires filter.View() == INITIAL
      modifies `inode, `bytes, filter
      ensures replacement.Some? <==> inode != old(inode)
      ensures replacement.Some? ==> (inode, bytes) == replacement.value
      ensures replacement.None? ==> bytes == old(bytes) + arrived && lines == |WholeLines(bytes)|
      ensures replacement.None? ==>
        && filter.View() == KeepAll(filter.d, INITIAL, WholeLines(bytes)).state
        && out == Written(KeepAll(filter.d, INITIAL, WholeLines(bytes)).lines) + TornLine(bytes)
    {
      var identity, copied := inode, 0;
      out, copied, lines := CopyLines(bytes + arrived, 0, visible, filter);
      Meanwhile(arrived, replacement);
      if inode != identity {
        return;
      }
      ghost var between := filter.View();
      var more, end, tail := CopyLines(bytes, copied, [], filter);
      BetweenEnd(bytes, copied, end);
      BetweenJoins(bytes, copied);
      PassedJoins(filter.d, INITIAL, Between(bytes, 0, copied), between, out, Raws(LinesFrom(bytes, copied)), filter.View(), more);
      var torn := bytes[end..];
      out, lines := out + more, lines + tail;
      if torn != [] {
        Associate(out, torn, [NEWLINE]);
        out := out + torn + [NEWLINE];
      } else {
        assert out + [] == out;
      }
    }

    /** `compact`: for every interleaving of writers with the unlocked copy, the file swapped in is
        one pass over the whole lines the lock finds, and the torn tail. The unlocked copy holds the
        file open, so a replacement is another file. */
    method Compact(name: string, codec: Codec, hash: string -> string, visible: seq<nat>, arrived: Bytes,
                   replacement: Option<(nat, Bytes)>, staged: nat)
      returns (outcome: Outcome)
      requires replacement.Some? ==> replacement.value.0 != inode
      modifies this
      ensures outcome.NotIndexed? <==> DreamerFor(name, codec, hash).None?
      ensures outcome.NotIndexed? ==> bytes == old(bytes) && inode == old(inode) && backup == old(backup)
      ensures outcome.Replaced? <==> !outcome.NotIndexed? && replacement.Some?
      ensures outcome.Replaced? ==> (inode, bytes) == replacement.value && backup == old(backup)
      ensures !outcome.NotIndexed? && replacement.None? ==>
        var d := DreamerFor(name, codec, hash).value;
        var whole := old(bytes) + arrived;
        var s := KeepAll(d, INITIAL, WholeLines(whole)).state;
        var report := Report(|WholeLines(whole)|, s.dropped, s.reencoded, |whole|, |Swapped(d, whole)|);
        && bytes == LedgerAfter(d, whole)
        && if LeftAlone(d, whole) then
             outcome == Unchanged(report) && inode == old(inode) && backup == old(backup)
           else
             outcome == Compacted(report) && inode == staged && backup == Some(whole)
    {
      var d := DreamerFor(name, codec, hash);
      if d.None? {
        return NotIndexed;
      }
      var identity := inode;
      var filter := new Filter(d.value);
      var out, lines := CopyTwice(filter, visible, arrived, replacement);
      if inode != identity {
        return Replaced;
      }
      var report := Report(lines, filter.dropped, filter.reencoded, |bytes|, |out|);
      if filter.dropped == 0 && filter.reencoded == 0 {
        return Unchanged(report);
      }
      backup := Some(bytes);
      inode, bytes := staged, out;
      return Compacted(report);
    }
  }
}
