/**
 The splice of an amendment into a base document (materialize_amendment_001.py 51-60, 240-257, 511-538):
 the stream the tool writes, against the writes applied one at a time, and where each byte of it
 comes from.
 */
module Splice {
  import opened Wrappers
  import opened Utf8
  import LedgerIdentity

  /** A write: the base range it replaces (empty for an insertion) and what it puts there. */
  datatype Row<T> = Row(start: nat, end: nat, ordinal: nat, body: seq<T>)

  datatype Error = Mixed | Overlapping

  // ----- occurrences -----

  /** The places at or after `from` where the needle stands. */
  ghost function Places(body: Bytes, needle: Bytes, from: nat): set<nat> {
    set p: nat | from <= p <= |body| && LedgerIdentity.OccursAt(body, needle, p)
  }

  lemma PlacesFrom(body: Bytes, needle: Bytes, from: nat, at: nat)
    requires from <= at <= |body| && LedgerIdentity.OccursAt(body, needle, at)
    requires forall p :: from <= p < at ==> !LedgerIdentity.OccursAt(body, needle, p)
    ensures Places(body, needle, from) == {at} + Places(body, needle, at + 1)
    ensures |Places(body, needle, from)| == 1 + |Places(body, needle, at + 1)|
  {
  }

  /** `occurrence_count`: every place is counted, also where occurrences overlap. */
  method OccurrenceCount(body: Bytes, needle: Bytes) returns (count: nat)
    ensures count == |Places(body, needle, 0)|
  {
    count := 0;
    var cursor := 0;
    while cursor <= |body|
      invariant cursor <= |body| + 1
      invariant count + |Places(body, needle, cursor)| == |Places(body, needle, 0)|
      decreases |body| + 1 - cursor
    {
      var offset := LedgerIdentity.FindFrom(body, needle, cursor);
      if offset.None? {
        assert Places(body, needle, cursor) == {};
        return;
      }
      PlacesFrom(body, needle, cursor, offset.value);
      count := count + 1;
      cursor := offset.value + 1;
    }
    assert Places(body, needle, cursor) == {};
  }

  // ----- layout -----

  predicate Before<T>(a: Row<T>, b: Row<T>) {
    a.start < b.start || (a.start == b.start && a.ordinal < b.ordinal)
  }

  function Insert<T>(row: Row<T>, sorted: seq<Row<T>>): seq<Row<T>> {
    if sorted == [] || Before(row, sorted[0]) then [row] + sorted else [sorted[0]] + Insert(row, sorted[1..])
  }

  /** By offset, then ordinal. */
  function Sort<T>(rows: seq<Row<T>>): seq<Row<T>> {
    if rows == [] then [] else Insert(rows[0], Sort(rows[1..]))
  }

  predicate InOrder<T>(rows: seq<Row<T>>) {
    forall i, j :: 0 <= i < j < |rows| ==> Before(rows[i], rows[j])
  }

  predicate DistinctOrdinals<T>(rows: seq<Row<T>>) {
    forall i, j :: 0 <= i < j < |rows| ==> rows[i].ordinal != rows[j].ordinal
  }

  lemma {:induction false} InsertContents<T>(row: Row<T>, sorted: seq<Row<T>>)
    ensures multiset(Insert(row, sorted)) == multiset{row} + multiset(sorted)
  {
    if sorted != [] && !Before(row, sorted[0]) {
      InsertContents(row, sorted[1..]);
      assert sorted == [sorted[0]] + sorted[1..];
    }
  }

  lemma OrderedFirst<T>(first: Row<T>, rest: seq<Row<T>>)
    requires InOrder(rest) && forall r :: r in rest ==> Before(first, r)
    ensures InOrder([first] + rest)
  {
  }

  lemma OrderedRest<T>(sorted: seq<Row<T>>)
    requires InOrder(sorted) && sorted != []
    ensures InOrder(sorted[1..]) && forall r :: r in sorted[1..] ==> Before(sorted[0], r)
  {
  }

  lemma {:induction false} InsertSorted<T>(row: Row<T>, sorted: seq<Row<T>>)
    requires InOrder(sorted) && forall s :: s in sorted ==> s.ordinal != row.ordinal
    ensures InOrder(Insert(row, sorted))
  {
    if sorted == [] {
    } else {
      var first, tail := sorted[0], sorted[1..];
      assert sorted == [first] + tail;
      OrderedRest(sorted);
      if Before(row, first) {
        OrderedFirst(row, sorted);
      } else {
        InsertSorted(row, tail);
        InsertContents(row, tail);
        forall r | r in Insert(row, tail) ensures Before(first, r) {
          assert r in multiset(Insert(row, tail));
        }
        OrderedFirst(first, Insert(row, tail));
      }
    }
  }

  lemma {:induction false} SortSorts<T>(rows: seq<Row<T>>)
    requires DistinctOrdinals(rows)
    ensures InOrder(Sort(rows)) && multiset(Sort(rows)) == multiset(rows)
  {
    if rows != [] {
      var tail := rows[1..];
      assert rows == [rows[0]] + tail;
      SortSorts(tail);
      forall s | s in Sort(tail) ensures s.ordinal != rows[0].ordinal {
        assert s in multiset(Sort(tail));
        var k :| 0 <= k < |tail| && tail[k] == s;
        assert rows[k + 1] == s;
      }
      InsertSorted(rows[0], Sort(tail));
      InsertContents(rows[0], Sort(tail));
    }
  }

  /** Only insertions share an offset. */
  predicate Unmixed<T>(rows: seq<Row<T>>) {
    forall i, j :: 0 <= i < j < |rows| && rows[i].start == rows[j].start ==> rows[i].end == rows[i].start && rows[j].end == rows[j].start
  }

  /** Every write starts where the ones before it have ended. */
  predicate Apart<T>(rows: seq<Row<T>>, cursor: nat) {
    rows == [] || (cursor <= rows[0].start && Apart(rows[1..], rows[0].end))
  }

  predicate Within<T>(rows: seq<Row<T>>, size: nat) {
    forall i :: 0 <= i < |rows| ==> rows[i].start <= rows[i].end <= size
  }

  lemma {:induction false} ApartExact<T>(rows: seq<Row<T>>, cursor: nat)
    requires forall i :: 0 <= i < |rows| ==> rows[i].start <= rows[i].end
    ensures Apart(rows, cursor) <==>
      && (forall i :: 0 <= i < |rows| ==> cursor <= rows[i].start)
      && (forall i, j :: 0 <= i < j < |rows| ==> rows[i].end <= rows[j].start)
  {
    if rows != [] {
      var tail := rows[1..];
      ApartExact(tail, rows[0].end);
      assert forall i :: 0 <= i < |tail| ==> tail[i] == rows[i + 1];
      assert forall i :: 0 < i < |rows| ==> rows[i] == tail[i - 1];
    }
  }

  /** The indices below `n` of the rows at an offset, in order. */
  predicate Group<T>(rows: seq<Row<T>>, n: nat, offset: nat, group: seq<nat>)
    requires n <= |rows|
  {
    && (forall a :: 0 <= a < |group| ==> group[a] < n && rows[group[a]].start == offset)
    && (forall a, b :: 0 <= a < b < |group| ==> group[a] < group[b])
    && (forall x :: 0 <= x < n && rows[x].start == offset ==> x in group)
  }

  predicate Grouped<T>(rows: seq<Row<T>>, n: nat, grouped: map<nat, seq<nat>>)
    requires n <= |rows|
  {
    && (forall o :: o in grouped ==> Group(rows, n, o, grouped[o]) && grouped[o] != [])
    && (forall k :: 0 <= k < n ==> rows[k].start in grouped)
  }

  lemma GroupOther<T>(rows: seq<Row<T>>, n: nat, offset: nat, group: seq<nat>)
    requires n < |rows| && Group(rows, n, offset, group) && rows[n].start != offset
    ensures Group(rows, n + 1, offset, group)
  {
  }

  lemma GroupThis<T>(rows: seq<Row<T>>, n: nat, group: seq<nat>)
    requires n < |rows| && Group(rows, n, rows[n].start, group)
    ensures Group(rows, n + 1, rows[n].start, group + [n])
  {
  }

  /** An offset no row below `n` has. */
  lemma GroupNone<T>(rows: seq<Row<T>>, n: nat, grouped: map<nat, seq<nat>>)
    requires n < |rows| && Grouped(rows, n, grouped) && rows[n].start !in grouped
    ensures Group(rows, n, rows[n].start, [])
  {
  }

  /** What one key of the map holds after row `n`. */
  lemma GroupAt<T>(rows: seq<Row<T>>, n: nat, grouped: map<nat, seq<nat>>, p: nat, group: seq<nat>)
    requires n < |rows| && Group(rows, n, rows[n].start, group)
    requires p != rows[n].start ==> p in grouped && Group(rows, n, p, grouped[p]) && grouped[p] != []
    ensures var after := grouped[rows[n].start := group + [n]]; Group(rows, n + 1, p, after[p]) && after[p] != []
  {
    hide Group;
    if p == rows[n].start {
      GroupThis(rows, n, group);
    } else {
      GroupOther(rows, n, p, grouped[p]);
    }
  }

  lemma GroupedNext<T>(rows: seq<Row<T>>, n: nat, grouped: map<nat, seq<nat>>)
    requires n < |rows| && Grouped(rows, n, grouped)
    ensures var o := rows[n].start;
      Grouped(rows, n + 1, grouped[o := (if o in grouped then grouped[o] else []) + [n]])
  {
    hide Group;
    var o := rows[n].start;
    var group := if o in grouped then grouped[o] else [];
    if o !in grouped {
      GroupNone(rows, n, grouped);
    }
    var after := grouped[o := group + [n]];
    forall p | p in after ensures Group(rows, n + 1, p, after[p]) && after[p] != [] {
      GroupAt(rows, n, grouped, p, group);
    }
  }

  /** The rows by offset. */
  method GroupRows<T>(rows: seq<Row<T>>) returns (grouped: map<nat, seq<nat>>)
    ensures Grouped(rows, |rows|, grouped)
  {
    grouped := map[];
    for i := 0 to |rows|
      invariant Grouped(rows, i, grouped)
    {
      GroupedNext(rows, i, grouped);
      var o := rows[i].start;
      grouped := grouped[o := (if o in grouped then grouped[o] else []) + [i]];
    }
  }

  /** Several rows at an offset are all insertions. */
  predicate UnmixedAt<T>(rows: seq<Row<T>>, offset: nat) {
    forall i, j :: 0 <= i < j < |rows| && rows[i].start == offset && rows[j].start == offset ==>
      rows[i].end == offset && rows[j].end == offset
  }

  lemma GroupDecides<T>(rows: seq<Row<T>>, offset: nat, group: seq<nat>)
    requires Group(rows, |rows|, offset, group)
    ensures UnmixedAt(rows, offset) <==> !(|group| > 1 && exists x :: x in group && rows[x].end != offset)
  {
    if |group| > 1 && exists x :: x in group && rows[x].end != offset {
      var a :| 0 <= a < |group| && rows[group[a]].end != offset;
      var b := if a == 0 then 1 else 0;
      assert group[a] != group[b] && rows[group[b]].start == offset;
    } else {
      forall i, j | 0 <= i < j < |rows| && rows[i].start == offset && rows[j].start == offset
        ensures rows[i].end == offset && rows[j].end == offset
      {
        assert i in group && j in group;
        assert |group| > 1;
      }
    }
  }

  /** The check of every group of several. */
  method FindMixed<T>(rows: seq<Row<T>>) returns (mixed: bool)
    ensures mixed <==> !Unmixed(rows)
  {
    var grouped := GroupRows(rows);
    var offsets := grouped.Keys;
    while offsets != {}
      invariant offsets <= grouped.Keys && forall o :: o in grouped && o !in offsets ==> UnmixedAt(rows, o)
      decreases offsets
    {
      var o :| o in offsets;
      GroupDecides(rows, o, grouped[o]);
      if |grouped[o]| > 1 && exists x :: x in grouped[o] && rows[x].end != o {
        return true;
      }
      offsets := offsets - {o};
    }
    return false;
  }

  // ----- the splice -----

  function Stream<T>(base: seq<T>, cursor: nat, rows: seq<Row<T>>): seq<T>
    requires cursor <= |base| && Within(rows, |base|) && Apart(rows, cursor)
    decreases |rows|
  {
    if rows == [] then base[cursor..]
    else base[cursor..rows[0].start] + rows[0].body + Stream(base, rows[0].end, rows[1..])
  }

  /** The splice loop over sorted rows: chunks of the base and new bodies in turn, or the first overlap. */
  method SpliceRows(base: Bytes, rows: seq<Row<byte>>) returns (r: Result<Bytes, Error>)
    requires Within(rows, |base|)
    ensures r == if Apart(rows, 0) then Ok(Stream(base, 0, rows)) else Err(Overlapping)
  {
    var cursor: nat := 0;
    var chunks: Bytes := [];
    for i := 0 to |rows|
      invariant cursor <= |base|
      invariant Within(rows[i..], |base|)
      invariant Apart(rows, 0) <==> Apart(rows[i..], cursor)
      invariant Apart(rows, 0) ==> chunks + Stream(base, cursor, rows[i..]) == Stream(base, 0, rows)
    {
      var row := rows[i];
      assert rows[i..][0] == row && rows[i..][1..] == rows[i + 1..];
      if row.start < cursor {
        return Err(Overlapping);
      }
      if Apart(rows, 0) {
        Joined(chunks, base[cursor..row.start], row.body, Stream(base, row.end, rows[i + 1..]));
      }
      chunks := chunks + base[cursor..row.start];
      chunks := chunks + row.body;
      cursor := row.end;
    }
    assert rows[|rows|..] == [];
    return Ok(chunks + base[cursor..]);
  }

  lemma Joined<T>(a: seq<T>, b: seq<T>, c: seq<T>, d: seq<T>)
    ensures a + (b + c + d) == a + b + c + d
  {
  }

  /** One path of `materialize`: sort, check the layout, splice. */
  method MaterializePath(base: Bytes, rows: seq<Row<byte>>) returns (r: Result<Bytes, Error>)
    requires Within(rows, |base|) && DistinctOrdinals(rows)
    ensures multiset(Sort(rows)) == multiset(rows) && Within(Sort(rows), |base|)
    ensures var sorted := Sort(rows); forall i, j :: 0 <= i < j < |sorted| ==>
      sorted[i].start < sorted[j].start || (sorted[i].start == sorted[j].start && sorted[i].ordinal < sorted[j].ordinal)
    ensures r == if !Unmixed(Sort(rows)) then Err(Mixed)
                 else if !Apart(Sort(rows), 0) then Err(Overlapping)
                 else Ok(Stream(base, 0, Sort(rows)))
  {
    SortSorts(rows);
    var sorted := Sort(rows);
    forall i | 0 <= i < |sorted| ensures sorted[i].start <= sorted[i].end <= |base| {
      assert sorted[i] in multiset(sorted);
    }
    var mixed := FindMixed(sorted);
    if mixed {
      return Err(Mixed);
    }
    r := SpliceRows(base, sorted);
  }

  // ----- what the splice means -----

  /** One write on its own. */
  function Write<T>(text: seq<T>, row: Row<T>): seq<T>
    requires row.start <= row.end <= |text|
  {
    text[..row.start] + row.body + text[row.end..]
  }

  /** The writes one at a time, the last one first. */
  function WriteEach<T>(base: seq<T>, rows: seq<Row<T>>): (r: seq<T>)
    requires Within(rows, |base|) && Apart(rows, 0)
    ensures r == base[..FirstStart(base, rows)] + Stream(base, FirstStart(base, rows), rows)
    decreases |rows|
  {
    if rows == [] then
      base
    else
      ApartTail(rows);
      var after := WriteEach(base, rows[1..]);
      WriteFirst(base, rows, after);
      Write(after, rows[0])
  }

  function FirstStart<T>(base: seq<T>, rows: seq<Row<T>>): nat {
    if rows == [] then |base| else rows[0].start
  }

  lemma ApartTail<T>(rows: seq<Row<T>>)
    requires rows != [] && Apart(rows, 0)
    ensures Apart(rows[1..], 0)
  {
  }

  lemma StreamFrom<T>(base: seq<T>, cursor: nat, rows: seq<Row<T>>)
    requires cursor <= |base| && Within(rows, |base|) && Apart(rows, cursor)
    ensures cursor <= FirstStart(base, rows) <= |base| && Apart(rows, FirstStart(base, rows))
    ensures Stream(base, cursor, rows) == base[cursor..FirstStart(base, rows)] + Stream(base, FirstStart(base, rows), rows)
  {
  }

  lemma Prepend<T>(a: seq<T>, b: seq<T>, c: seq<T>)
    ensures a + b + c == a + ([] + b + c)
  {
  }

  lemma WriteFirst<T>(base: seq<T>, rows: seq<Row<T>>, after: seq<T>)
    requires rows != [] && Within(rows, |base|) && Apart(rows, 0)
    requires Within(rows[1..], |base|) && Apart(rows[1..], FirstStart(base, rows[1..])) && FirstStart(base, rows[1..]) <= |base|
    requires after == base[..FirstStart(base, rows[1..])] + Stream(base, FirstStart(base, rows[1..]), rows[1..])
    ensures rows[0].end <= |after|
    ensures Write(after, rows[0]) == base[..rows[0].start] + Stream(base, rows[0].start, rows)
  {
    var row, tail := rows[0], rows[1..];
    var next := FirstStart(base, tail);
    StreamFrom(base, row.end, tail);
    SplitAt(base, row.start, row.end, next, Stream(base, next, tail), after);
    assert base[row.start..row.start] == [];
    Prepend(base[..row.start], row.body, Stream(base, row.end, tail));
  }

  lemma SplitAt<T>(base: seq<T>, a: nat, b: nat, c: nat, rest: seq<T>, after: seq<T>)
    requires a <= b <= c <= |base| && after == base[..c] + rest
    ensures b <= |after| && after[..a] == base[..a] && after[b..] == base[b..c] + rest
  {
  }

  function Growth<T>(rows: seq<Row<T>>): int {
    if rows == [] then 0 else |rows[0].body| - (rows[0].end - rows[0].start) + Growth(rows[1..])
  }

  lemma {:induction false} StreamLength<T>(base: seq<T>, cursor: nat, rows: seq<Row<T>>)
    requires cursor <= |base| && Within(rows, |base|) && Apart(rows, cursor)
    ensures |Stream(base, cursor, rows)| == |base| - cursor + Growth(rows)
    decreases |rows|
  {
    if rows != [] {
      StreamLength(base, rows[0].end, rows[1..]);
    }
  }

  /** The ascending stream is the writes applied one at a time in descending order, each of which
      lengthens what it writes into by what its body adds. */
  lemma StreamIsWriteEach<T>(base: seq<T>, rows: seq<Row<T>>)
    requires Within(rows, |base|) && Apart(rows, 0)
    ensures Stream(base, 0, rows) == WriteEach(base, rows)
    ensures |WriteEach(base, rows)| == |base| + Growth(rows)
  {
    StreamLength(base, 0, rows);
  }

  // ----- where each element ends up -----

  /** An element of the stream by where it comes from: the base, or a place in a row's body. */
  datatype Item = Base(at: nat) | New(row: nat, at: nat)

  function Bases(from: nat, to: nat): (r: seq<Item>)
    requires from <= to
    ensures |r| == to - from && forall i :: 0 <= i < |r| ==> r[i] == Base(from + i)
  {
    seq(to - from, (i: nat) => Base(from + i))
  }

  function News(k: nat, size: nat): (r: seq<Item>)
    ensures |r| == size && forall i :: 0 <= i < |r| ==> r[i] == New(k, i)
  {
    seq(size, (i: nat) => New(k, i))
  }

  /** The stream as items, from row `k` on. */
  function Items<T>(size: nat, cursor: nat, rows: seq<Row<T>>, k: nat): seq<Item>
    requires k <= |rows| && cursor <= size && Within(rows, size) && Apart(rows[k..], cursor)
    decreases |rows| - k
  {
    if k == |rows| then Bases(cursor, size)
    else Bases(cursor, rows[k].start) + News(k, |rows[k].body|) + Items(size, rows[k].end, rows, k + 1)
  }

  /** The item there is at a place of the stream. */
  ghost predicate Is<T>(base: seq<T>, rows: seq<Row<T>>, item: Item, x: T) {
    match item
    case Base(i) => i < |base| && base[i] == x
    case New(k, j) => k < |rows| && j < |rows[k].body| && rows[k].body[j] == x
  }

  lemma {:induction false} StreamIsItems<T>(base: seq<T>, cursor: nat, rows: seq<Row<T>>, k: nat)
    requires k <= |rows| && cursor <= |base| && Within(rows, |base|) && Within(rows[k..], |base|) && Apart(rows[k..], cursor)
    ensures var stream := Stream(base, cursor, rows[k..]); var items := Items(|base|, cursor, rows, k);
      |stream| == |items| && forall p :: 0 <= p < |items| ==> Is(base, rows, items[p], stream[p])
    decreases |rows| - k
  {
    if k < |rows| {
      var row := rows[k];
      assert rows[k..][0] == row && rows[k..][1..] == rows[k + 1..];
      StreamIsItems(base, row.end, rows, k + 1);
      var a, b, c := Bases(cursor, row.start), News(k, |row.body|), Items(|base|, row.end, rows, k + 1);
      var x, y, z := base[cursor..row.start], row.body, Stream(base, row.end, rows[k + 1..]);
      forall p | 0 <= p < |a + b + c| ensures Is(base, rows, (a + b + c)[p], (x + y + z)[p]) {
        if p < |a| {
        } else if p < |a| + |b| {
        } else {
          assert (a + b + c)[p] == c[p - |a| - |b|] && (x + y + z)[p] == z[p - |a| - |b|];
        }
      }
    }
  }

  /** The order items stand in: base bytes by offset, rows in their order, and what a row writes just
      before the base byte it is written at. */
  predicate Precedes<T>(rows: seq<Row<T>>, x: Item, y: Item) {
    match (x, y)
    case (Base(i), Base(j)) => i < j
    case (New(k, a), New(l, b)) => k < l || (k == l && a < b)
    case (Base(i), New(l, _)) => l < |rows| && i < rows[l].start
    case (New(k, _), Base(j)) => k < |rows| && rows[k].start <= j
  }

  predicate Ordered<T>(rows: seq<Row<T>>, items: seq<Item>) {
    forall p, q :: 0 <= p < q < |items| ==> Precedes(rows, items[p], items[q])
  }

  /** Base bytes outside every write, and everything written. */
  predicate Stays<T>(size: nat, cursor: nat, rows: seq<Row<T>>, k: nat, x: Item) {
    match x
    case Base(i) => cursor <= i < size && forall l :: k <= l < |rows| ==> !(rows[l].start <= i < rows[l].end)
    case New(l, j) => k <= l < |rows| && j < |rows[l].body|
  }

  lemma StaysSplit<T>(size: nat, cursor: nat, rows: seq<Row<T>>, k: nat, x: Item)
    requires k < |rows| && cursor <= size && Within(rows, size) && Apart(rows[k..], cursor)
    ensures Stays(size, cursor, rows, k, x) <==>
      || (x.Base? && cursor <= x.at < rows[k].start)
      || (x.New? && x.row == k && x.at < |rows[k].body|)
      || Stays(size, rows[k].end, rows, k + 1, x)
  {
    ApartExact(rows[k..], cursor);
    forall l | k < l < |rows| ensures rows[k].end <= rows[l].start {
      assert rows[k..][0] == rows[k] && rows[k..][l - k] == rows[l];
    }
  }

  lemma {:induction false} ItemsExact<T>(size: nat, cursor: nat, rows: seq<Row<T>>, k: nat)
    requires k <= |rows| && cursor <= size && Within(rows, size) && Apart(rows[k..], cursor)
    ensures forall x :: x in Items(size, cursor, rows, k) <==> Stays(size, cursor, rows, k, x)
    ensures Ordered(rows, Items(size, cursor, rows, k))
    decreases |rows| - k
  {
    if k == |rows| {
      forall x ensures x in Bases(cursor, size) <==> Stays(size, cursor, rows, k, x) {
        if x.Base? && cursor <= x.at < size {
          assert Bases(cursor, size)[x.at - cursor] == x;
        }
      }
    } else {
      var row := rows[k];
      assert rows[k..][0] == row && rows[k..][1..] == rows[k + 1..];
      ItemsExact(size, row.end, rows, k + 1);
      var a, b, c := Bases(cursor, row.start), News(k, |row.body|), Items(size, row.end, rows, k + 1);
      forall x ensures x in a + b + c <==> Stays(size, cursor, rows, k, x) {
        StaysSplit(size, cursor, rows, k, x);
        InThree(a, b, c, x);
        if x.Base? && cursor <= x.at < row.start {
          assert a[x.at - cursor] == x;
        }
        if x.New? && x.row == k && x.at < |row.body| {
          assert b[x.at] == x;
        }
      }
      forall x | x in c ensures Stays(size, row.end, rows, k + 1, x) {
      }
      ItemsJoin(size, cursor, rows, k, a, b, c);
    }
  }

  lemma InThree<T>(a: seq<T>, b: seq<T>, c: seq<T>, x: T)
    ensures x in a + b + c <==> x in a || x in b || x in c
  {
  }

  lemma ItemsJoin<T>(size: nat, cursor: nat, rows: seq<Row<T>>, k: nat, a: seq<Item>, b: seq<Item>, c: seq<Item>)
    requires k < |rows| && cursor <= size && Within(rows, size) && Apart(rows[k..], cursor)
    requires cursor <= rows[k].start && a == Bases(cursor, rows[k].start) && b == News(k, |rows[k].body|)
    requires forall x :: x in c ==> Stays(size, rows[k].end, rows, k + 1, x)
    requires Ordered(rows, c)
    ensures Ordered(rows, a + b + c)
  {
    var all := a + b + c;
    ApartExact(rows[k..], cursor);
    forall l | k < l < |rows| ensures rows[k].end <= rows[l].start {
      assert rows[k..][0] == rows[k] && rows[k..][l - k] == rows[l];
    }
    forall p, q | 0 <= p < q < |all| ensures Precedes(rows, all[p], all[q]) {
      if q >= |a| + |b| {
        assert all[q] == c[q - |a| - |b|] && all[q] in c;
        if p >= |a| + |b| {
          assert all[p] == c[p - |a| - |b|];
        }
      }
    }
  }

  /** The stream holds exactly the base bytes outside every write, in order, and every body, at its
      offset and, among those of one offset, in ordinal order. */
  lemma StreamExact<T>(base: seq<T>, rows: seq<Row<T>>)
    requires Within(rows, |base|) && InOrder(rows) && Apart(rows, 0)
    ensures var stream := Stream(base, 0, rows); var items := Items(|base|, 0, rows, 0);
      && |stream| == |items| == |base| + Growth(rows)
      && (forall p :: 0 <= p < |items| ==> Is(base, rows, items[p], stream[p]))
      && Ordered(rows, items)
      && (forall x :: x in items <==> Stays(|base|, 0, rows, 0, x))
  {
    assert rows[0..] == rows;
    StreamIsItems(base, 0, rows, 0);
    ItemsExact(|base|, 0, rows, 0);
    StreamLength(base, 0, rows);
  }
}
