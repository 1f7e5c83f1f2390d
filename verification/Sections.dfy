/** Which section of a document a source range belongs to (materialize_amendment_001.py 260-289, 460-473). */
module Sections {
  import opened Wrappers
  import opened Utf8
  import opened LedgerLines

  const HASH: byte := 35
  const SPACE: byte := 32

  /** How many hash marks a line starts with. */
  function Level(line: Bytes): (n: nat)
    ensures n <= |line|
  {
    if line == [] || line[0] != HASH then 0 else 1 + Level(line[1..])
  }

  /** One to six hash marks, a space and some text. */
  predicate IsHeading(line: Bytes) {
    1 <= Level(line) <= 6 && |line| >= Level(line) + 2 && line[Level(line)] == SPACE
  }

  function Hashes(n: nat): (r: Bytes)
    ensures |r| == n && forall i :: 0 <= i < n ==> r[i] == HASH
  {
    seq(n, i => HASH)
  }

  lemma {:induction false} LevelExact(n: nat, rest: Bytes)
    requires rest == [] || rest[0] != HASH
    ensures Level(Hashes(n) + rest) == n
  {
    if n == 0 {
      assert Hashes(0) + rest == rest;
    } else {
      assert (Hashes(n) + rest)[1..] == Hashes(n - 1) + rest;
      LevelExact(n - 1, rest);
    }
  }

  lemma {:induction false} LevelHashes(line: Bytes)
    ensures line[..Level(line)] == Hashes(Level(line))
    ensures Level(line) < |line| ==> line[Level(line)] != HASH
  {
    if line != [] && line[0] == HASH {
      LevelHashes(line[1..]);
      assert line[..Level(line)] == [HASH] + line[1..][..Level(line) - 1];
    }
  }

  lemma MarksThen(line: Bytes, n: nat, text: Bytes)
    requires line == Hashes(n) + [SPACE] + text
    ensures |line| == n + 1 + |text| && Level(line) == n && line[n] == SPACE
  {
    hide Level;
    LevelExact(n, [SPACE] + text);
    assert Hashes(n) + [SPACE] + text == Hashes(n) + ([SPACE] + text);
  }

  lemma MarksOf(line: Bytes, n: nat)
    requires Level(line) == n < |line| && line[n] == SPACE
    ensures line == Hashes(n) + [SPACE] + line[n + 1..]
  {
    LevelHashes(line);
    assert line == line[..n] + [line[n]] + line[n + 1..];
  }

  /** A heading is one to six hash marks, a space and at least one byte more, and its level is their number. */
  lemma HeadingExact(line: Bytes, n: nat)
    ensures IsHeading(line) && Level(line) == n <==>
      1 <= n <= 6 && |line| >= n + 2 && line == Hashes(n) + [SPACE] + line[n + 1..]
  {
    hide Level, Hashes;
    if |line| >= n + 2 && line == Hashes(n) + [SPACE] + line[n + 1..] {
      MarksThen(line, n, line[n + 1..]);
    }
    if IsHeading(line) && Level(line) == n {
      MarksOf(line, n);
    }
  }

  function LineFrom(b: Bytes, p: nat): Bytes
    requires p <= |b|
  {
    b[p..LineEnd(b, p)]
  }

  predicate HeadingAt(b: Bytes, p: nat) {
    p < |b| && Boundary(b, p) && IsHeading(LineFrom(b, p))
  }

  function LevelAt(b: Bytes, p: nat): nat
    requires p <= |b|
  {
    Level(LineFrom(b, p))
  }

  function NextLine(b: Bytes, p: nat): (next: nat)
    requires p < |b|
    ensures p < next <= |b|
  {
    if LineEnd(b, p) < |b| then LineEnd(b, p) + 1 else |b|
  }

  lemma NoneInside(b: Bytes, p: nat)
    requires p < |b|
    ensures forall q :: p < q < NextLine(b, p) ==> !HeadingAt(b, q)
    ensures NextLine(b, p) < |b| ==> Boundary(b, NextLine(b, p))
  {
  }

  /** `containing_heading`: the last heading that starts before the source. */
  method ContainingHeading(b: Bytes, sourceStart: nat) returns (found: Option<nat>)
    ensures found.Some? ==> HeadingAt(b, found.value) && found.value < sourceStart
    ensures forall p: nat :: HeadingAt(b, p) && p < sourceStart ==> found.Some? && p <= found.value
  {
    found := None;
    var cursor := 0;
    while cursor < |b| && cursor < sourceStart
      invariant cursor <= |b| && (cursor < |b| ==> Boundary(b, cursor))
      invariant found.Some? ==> HeadingAt(b, found.value) && found.value < sourceStart
      invariant forall p: nat :: HeadingAt(b, p) && p < cursor ==> found.Some? && p <= found.value
      decreases |b| - cursor
    {
      NoneInside(b, cursor);
      if IsHeading(LineFrom(b, cursor)) {
        found := Some(cursor);
      }
      cursor := NextLine(b, cursor);
    }
  }

  /** A section: the bytes after a heading's line, up to the next heading that is not below it. */
  predicate Section(b: Bytes, heading: nat, start: nat, end: nat) {
    && heading < |b| && start == NextLine(b, heading) && start <= end <= |b|
    && (forall p :: start <= p < end && HeadingAt(b, p) ==> LevelAt(b, p) > LevelAt(b, heading))
    && (end < |b| ==> HeadingAt(b, end) && LevelAt(b, end) <= LevelAt(b, heading))
  }

  /** `section_extent`. */
  method SectionExtent(b: Bytes, heading: nat) returns (start: nat, end: nat)
    requires HeadingAt(b, heading)
    ensures Section(b, heading, start, end)
  {
    start := NextLine(b, heading);
    NoneInside(b, heading);
    var cursor := start;
    while cursor < |b|
      invariant start <= cursor <= |b| && (cursor < |b| ==> Boundary(b, cursor))
      invariant forall p :: start <= p < cursor && HeadingAt(b, p) ==> LevelAt(b, p) > LevelAt(b, heading)
      decreases |b| - cursor
    {
      NoneInside(b, cursor);
      if IsHeading(LineFrom(b, cursor)) && LevelAt(b, cursor) <= LevelAt(b, heading) {
        return start, cursor;
      }
      cursor := NextLine(b, cursor);
    }
    end := |b|;
  }

  /** A source lies in its containing heading's section exactly when it starts past the heading's
      line and no heading at that level or above starts inside it. */
  lemma ContainedExact(b: Bytes, heading: nat, start: nat, end: nat, from: nat, to: nat)
    requires HeadingAt(b, heading) && Section(b, heading, start, end) && heading < from < to <= |b|
    requires forall p: nat :: HeadingAt(b, p) && p < from ==> p <= heading
    ensures start <= from && to <= end <==>
      start <= from && !exists p :: from <= p < to && HeadingAt(b, p) && LevelAt(b, p) <= LevelAt(b, heading)
  {
  }
}
