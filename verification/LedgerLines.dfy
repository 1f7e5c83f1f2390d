/** An append-only ledger as bytes, and the whole lines in it. */
module LedgerLines {
  import opened Utf8
  import opened Wrappers

  const NEWLINE: byte := 10
  const CARRIAGE_RETURN: byte := 13

  /** A newline-terminated line: where it starts, and its bytes without the newline. */
  datatype Line = Line(offset: nat, raw: Bytes)

  function LineEnd(b: Bytes, from: nat): (e: nat)
    requires from <= |b|
    ensures from <= e <= |b| && (e < |b| ==> b[e] == NEWLINE)
    ensures forall i :: from <= i < e ==> b[i] != NEWLINE
    decreases |b| - from
  {
    if from == |b| || b[from] == NEWLINE then from else LineEnd(b, from + 1)
  }

  /** The whole lines that start at or after `start`. */
  function LinesFrom(b: Bytes, start: nat): seq<Line>
    requires start <= |b|
    decreases |b| - start
  {
    var e := LineEnd(b, start);
    if e == |b| then [] else [Line(start, b[start..e])] + LinesFrom(b, e + 1)
  }

  /** Where the last whole line ends. */
  function EndOfLines(b: Bytes, start: nat): (r: nat)
    requires start <= |b|
    ensures start <= r <= |b|
    decreases |b| - start
  {
    var e := LineEnd(b, start);
    if e == |b| then start else EndOfLines(b, e + 1)
  }

  function Lines(b: Bytes): seq<Line> {
    LinesFrom(b, 0)
  }

  /** An offset at which a line starts. */
  predicate Boundary(b: Bytes, c: nat) {
    c <= |b| && (c == 0 || b[c - 1] == NEWLINE)
  }

  predicate Terminated(b: Bytes) {
    Boundary(b, |b|)
  }

  function Strip(raw: Bytes): Bytes {
    if raw != [] && raw[|raw| - 1] == CARRIAGE_RETURN then raw[..|raw| - 1] else raw
  }

  predicate EndsInReturn(raw: Bytes) {
    raw != [] && raw[|raw| - 1] == CARRIAGE_RETURN
  }

  /** `line_at`: the bytes of the span, when a newline or the start of the file precedes it and a
      newline follows it. */
  function LineAt(b: Bytes, offset: nat, length: nat): Option<Bytes> {
    if offset + length < |b| && (offset == 0 || b[offset - 1] == NEWLINE) && b[offset + length] == NEWLINE
    then Some(b[offset..offset + length]) else None
  }

  lemma LineEndUnique(b: Bytes, from: nat, e: nat)
    requires from <= e <= |b| && (e < |b| ==> b[e] == NEWLINE)
    requires forall i :: from <= i < e ==> b[i] != NEWLINE
    ensures LineEnd(b, from) == e
  {
  }

  lemma {:induction false} EndIsBoundary(b: Bytes, start: nat)
    requires Boundary(b, start)
    ensures Boundary(b, EndOfLines(b, start))
    ensures forall i :: EndOfLines(b, start) <= i < |b| ==> b[i] != NEWLINE
    decreases |b| - start
  {
    var e := LineEnd(b, start);
    if e < |b| {
      EndIsBoundary(b, e + 1);
    }
  }

  lemma Associate<T>(a: seq<T>, b: seq<T>, c: seq<T>)
    ensures a + (b + c) == a + b + c
  {
  }

  lemma FirstLine(b: Bytes, g: Bytes, start: nat)
    requires start <= |b| && b <= g && LineEnd(b, start) < |b|
    ensures LineEnd(g, start) == LineEnd(b, start)
    ensures LinesFrom(g, start) == [Line(start, b[start..LineEnd(b, start)])] + LinesFrom(g, LineEnd(b, start) + 1)
    ensures EndOfLines(g, start) == EndOfLines(g, LineEnd(b, start) + 1)
  {
    var e := LineEnd(b, start);
    assert g[e] == b[e] && forall i :: start <= i < e ==> g[i] == b[i];
    LineEndUnique(g, start, e);
    assert g[start..e] == b[start..e];
  }

  lemma NoLine(b: Bytes, start: nat)
    requires start <= |b| && LineEnd(b, start) == |b|
    ensures LinesFrom(b, start) == [] && EndOfLines(b, start) == start
  {
  }

  /** A ledger that only grew keeps its whole lines; the others are read on from where they end. */
  lemma {:induction false} LinesGrow(b: Bytes, g: Bytes, start: nat)
    requires start <= |b| && b <= g
    ensures LinesFrom(g, start) == LinesFrom(b, start) + LinesFrom(g, EndOfLines(b, start))
    ensures EndOfLines(g, start) == EndOfLines(g, EndOfLines(b, start))
    decreases |b| - start
  {
    hide LinesFrom, EndOfLines;
    var e := LineEnd(b, start);
    if e < |b| {
      FirstLine(b, b, start);
      FirstLine(b, g, start);
      LinesGrow(b, g, e + 1);
      Associate([Line(start, b[start..e])], LinesFrom(b, e + 1), LinesFrom(g, EndOfLines(b, e + 1)));
    } else {
      NoLine(b, start);
      assert [] + LinesFrom(g, start) == LinesFrom(g, start);
    }
  }

  lemma {:induction false} EndAtTerminator(b: Bytes, start: nat)
    requires start <= |b| && (start == |b| || b[|b| - 1] == NEWLINE)
    ensures EndOfLines(b, start) == |b|
    decreases |b| - start
  {
    var e := LineEnd(b, start);
    if start < |b| {
      assert e < |b|;
      EndAtTerminator(b, e + 1);
    }
  }

  /** A boundary splits the lines in two. */
  lemma LinesSplit(b: Bytes, c: nat)
    requires Boundary(b, c)
    ensures Lines(b) == Lines(b[..c]) + LinesFrom(b, c)
    ensures EndOfLines(b, 0) == EndOfLines(b, c)
  {
    var p := b[..c];
    LinesGrow(p, b, 0);
    EndAtTerminator(p, 0);
  }

  /** The bytes past the last whole line hold no line. */
  lemma LinesOfWhole(b: Bytes)
    ensures Lines(b[..EndOfLines(b, 0)]) == Lines(b)
  {
    var c := EndOfLines(b, 0);
    EndIsBoundary(b, 0);
    LinesSplit(b, c);
    LineEndUnique(b, c, |b|);
  }

  lemma {:induction false} LineFacts(b: Bytes, start: nat, k: nat)
    requires Boundary(b, start) && k < |LinesFrom(b, start)|
    ensures var l := LinesFrom(b, start)[k];
      && start <= l.offset && l.offset + |l.raw| < |b|
      && Boundary(b, l.offset) && b[l.offset..l.offset + |l.raw|] == l.raw && b[l.offset + |l.raw|] == NEWLINE
      && NEWLINE !in l.raw
    decreases |b| - start
  {
    var e := LineEnd(b, start);
    if k > 0 {
      LineFacts(b, e + 1, k - 1);
    }
  }

  lemma {:induction false} OffsetsIncrease(b: Bytes, start: nat, i: nat, j: nat)
    requires Boundary(b, start) && i < j < |LinesFrom(b, start)|
    ensures LinesFrom(b, start)[i].offset < LinesFrom(b, start)[j].offset
    decreases |b| - start
  {
    var e := LineEnd(b, start);
    if i == 0 {
      LineFacts(b, e + 1, j - 1);
    } else {
      OffsetsIncrease(b, e + 1, i - 1, j - 1);
    }
  }

  /** A span is confirmed at a whole line exactly when the line keeps its length: a stored length
      with a stripped carriage return points inside the line. */
  lemma LineAtLine(b: Bytes, k: nat)
    requires k < |Lines(b)|
    ensures var l := Lines(b)[k];
      LineAt(b, l.offset, |Strip(l.raw)|) == if EndsInReturn(l.raw) then None else Some(l.raw)
  {
    LineFacts(b, 0, k);
    var l := Lines(b)[k];
    assert b[l.offset..l.offset + |l.raw|] == l.raw;
    if EndsInReturn(l.raw) {
      assert b[l.offset + |Strip(l.raw)|] == l.raw[|l.raw| - 1];
    }
  }

  lemma Pushed(b: Bytes, line: Bytes, g: Bytes)
    requires g == b + line + [NEWLINE]
    ensures b <= g && |g| == |b| + |line| + 1 && g[|b|..|b| + |line|] == line && g[|b| + |line|] == NEWLINE
  {
  }

  lemma LastLine(g: Bytes, at: nat, line: Bytes)
    requires |g| == at + |line| + 1 && g[at..at + |line|] == line && g[at + |line|] == NEWLINE && NEWLINE !in line
    ensures LinesFrom(g, at) == [Line(at, line)]
  {
  }

  /** A line written after the last newline is the one new line. */
  lemma LinesPush(b: Bytes, line: Bytes)
    requires Terminated(b) && NEWLINE !in line
    ensures Lines(b + line + [NEWLINE]) == Lines(b) + [Line(|b|, line)]
    ensures Terminated(b + line + [NEWLINE]) && EndOfLines(b + line + [NEWLINE], 0) == |b + line + [NEWLINE]|
  {
    var g := b + line + [NEWLINE];
    Pushed(b, line, g);
    LinesGrow(b, g, 0);
    EndAtTerminator(b, 0);
    LastLine(g, |b|, line);
    EndAtTerminator(g, 0);
  }

  /** Terminating a torn tail makes it one more line. */
  lemma LinesTerminate(b: Bytes)
    requires !Terminated(b)
    ensures var c := EndOfLines(b, 0);
      Lines(b + [NEWLINE]) == Lines(b) + [Line(c, b[c..])] && Terminated(b + [NEWLINE]) && NEWLINE !in b[c..]
  {
    var c := EndOfLines(b, 0);
    EndIsBoundary(b, 0);
    LinesOfWhole(b);
    assert b + [NEWLINE] == b[..c] + b[c..] + [NEWLINE];
    LinesPush(b[..c], b[c..]);
  }
}
