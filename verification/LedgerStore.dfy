/** The index's transactions, and the operations that read and write a ledger through them. */
module LedgerStore {
  import opened Wrappers
  import opened Utf8
  import opened LedgerLines
  import opened LedgerIdentity
  import opened LedgerIndex

  /** One SQLite transaction over a ledger's rows. Dropping it rolls it back. */
  class Transaction {
    var cursor: Option<Cursor>
    var keys: map<Digest, Span>
    var tags: map<(Digest, nat), nat>

    ghost function State(): Index
      reads this
    {
      Index(cursor, Tables(keys, tags))
    }

    constructor (ix: Index)
      ensures State() == ix
    {
      cursor, keys, tags := ix.cursor, ix.tables.keys, ix.tables.tags;
    }

    method InsertTag(tag: Digest, span: Span)
      modifies this`tags
      ensures tags == InsertTags(old(tags), [tag], span)
    {
      var row := (tag, span.offset);
      if row !in tags {
        tags := tags[row := span.length];
      }
      assert [tag][1..] == [];
    }

    /** `insert`: a record's key, then each tag field it holds a string at. */
    method Insert(c: Codec, spec: Spec, record: Record, line: Bytes, offset: nat)
      modifies this`keys, this`tags
      ensures keys == InsertKey(old(keys), Identity(c, spec, record, line), Span(offset, |line|))
      ensures tags == InsertTags(old(tags), RecordTags(record, spec.tags), Span(offset, |line|))
    {
      var span := Span(offset, |line|);
      var key := IdentityOf(c, spec, record, line);
      if key !in keys {
        keys := keys[key := span];
      }
      for i := 0 to |spec.tags|
        invariant keys == InsertKey(old(keys), Identity(c, spec, record, line), span)
        invariant InsertTags(tags, RecordTags(record, spec.tags[i..]), span) == InsertTags(old(tags), RecordTags(record, spec.tags), span)
      {
        assert spec.tags[i..][1..] == spec.tags[i + 1..];
        match GetText(record, spec.tags[i]) {
          case Some(value) =>
            ghost var rest := RecordTags(record, spec.tags[i + 1..]);
            InsertTagsConcat(tags, [Tag(spec.tags[i], value)], rest, span);
            InsertTag(Tag(spec.tags[i], value), span);
          case None =>
            assert RecordTags(record, spec.tags[i..]) == RecordTags(record, spec.tags[i + 1..]);
        }
      }
    }

    /** `insert_unreadable`: each value the line's bytes spell for each tag field. */
    method InsertUnreadable(c: Codec, spec: Spec, line: Bytes, offset: nat)
      modifies this`tags
      ensures tags == InsertTags(old(tags), SpelledTags(c, line, spec.tags), Span(offset, |line|))
    {
      var span := Span(offset, |line|);
      for i := 0 to |spec.tags|
        invariant InsertTags(tags, SpelledTags(c, line, spec.tags[i..]), span) == InsertTags(old(tags), SpelledTags(c, line, spec.tags), span)
      {
        assert spec.tags[i..][1..] == spec.tags[i + 1..];
        var values := SpelledStrings(c, line, spec.tags[i]);
        InsertTagsConcat(tags, ValueTags(spec.tags[i], values), SpelledTags(c, line, spec.tags[i + 1..]), span);
        InsertValues(spec.tags[i], values, span);
      }
    }

    method InsertValues(field: string, values: seq<string>, span: Span)
      modifies this`tags
      ensures tags == InsertTags(old(tags), ValueTags(field, values), span)
    {
      for k := 0 to |values|
        invariant InsertTags(tags, ValueTags(field, values[k..]), span) == InsertTags(old(tags), ValueTags(field, values), span)
      {
        assert values[k..][1..] == values[k + 1..];
        InsertTagsConcat(tags, [Tag(field, values[k])], ValueTags(field, values[k + 1..]), span);
        InsertTag(Tag(field, values[k]), span);
      }
    }

    method SetCursor(f: File, length: nat)
      requires length <= |f.bytes|
      modifies this`cursor
      ensures cursor == Some(CursorAt(f, length))
    {
      cursor := Some(CursorAt(f, length));
    }

    /** `catch_up`: reads what was appended since the cursor, or everything. */
    method CatchUp(c: Codec, spec: Spec, f: File, budget: Option<nat>) returns (caughtUp: bool)
      modifies this
      ensures (caughtUp, State()) == LedgerIndex.CatchUp(c, spec, f, old(State()), budget)
    {
      var start := 0;
      if Current(cursor, f) {
        start := cursor.value.length;
        if start == |f.bytes| {
          return true;
        }
      } else {
        keys, tags := map[], map[];
      }
      if budget.Some? && |f.bytes| - start > budget.value {
        return false;
      }
      var offset := IndexLines(c, spec, f.bytes, start);
      SetCursor(f, offset);
      return true;
    }

    /** The reading loop of `catch_up`: every whole line from `start`; an unterminated last line is
        left for a later reader. Returns where it stopped. */
    method IndexLines(c: Codec, spec: Spec, b: Bytes, start: nat) returns (offset: nat)
      requires start <= |b|
      modifies this`keys, this`tags
      ensures offset == EndOfLines(b, start)
      ensures Tables(keys, tags) == IndexAll(c, spec, old(Tables(keys, tags)), LinesFrom(b, start))
    {
      hide IndexAll, IndexLine, LinesFrom, EndOfLines;
      offset := start;
      ghost var before := Tables(keys, tags);
      while LineEnd(b, offset) < |b|
        invariant start <= offset <= |b|
        invariant SameFrom(c, spec, b, before, start, Tables(keys, tags), offset)
        decreases |b| - offset
      {
        var end := LineEnd(b, offset);
        NextLine(c, spec, b, before, start, Tables(keys, tags), offset, end);
        IndexOne(c, spec, Line(offset, b[offset..end]));
        offset := end + 1;
      }
      NoMoreLines(c, spec, b, Tables(keys, tags), offset);
    }

    method IndexOne(c: Codec, spec: Spec, l: Line)
      modifies this`keys, this`tags
      ensures Tables(keys, tags) == IndexLine(c, spec, old(Tables(keys, tags)), l)
    {
      var line := Strip(l.raw);
      match c.parse(line) {
        case Some(record) => Insert(c, spec, record, line, l.offset);
        case None => InsertUnreadable(c, spec, line, l.offset);
      }
    }

    /** `rebuild`: forget the ledger and read it again from the start. */
    method Rebuild(c: Codec, spec: Spec, f: File, budget: Option<nat>) returns (caughtUp: bool)
      modifies this
      ensures (caughtUp, State()) == LedgerIndex.CatchUp(c, spec, f, FORGOTTEN, budget)
    {
      cursor, keys, tags := None, map[], map[];
      caughtUp := CatchUp(c, spec, f, budget);
    }

    /** The rows tagged with one of `values`, sorted and without repeats. */
    method SpansOf(field: string, values: seq<string>) returns (spans: seq<Span>)
      ensures Ordered(spans) && forall s :: s in spans <==> s in SpansFor(Tables(keys, tags), field, values)
    {
      spans := SortDedup(SpansFor(Tables(keys, tags), field, values));
    }

    /** One pass of `tagged`: reads each named line back, or stops at the first the ledger does not hold. */
    method ReadSpans(c: Codec, b: Bytes, field: string, values: seq<string>) returns (lines: Option<seq<Bytes>>)
      ensures Tagged(c, b, Tables(keys, tags), field, values, lines)
    {
      var spans := SpansOf(field, values);
      var kept: seq<Bytes> := [];
      assert spans[0..] == spans;
      OntoNothing(Confirm(c, b, spans, field, values));
      for i := 0 to |spans|
        invariant Confirm(c, b, spans, field, values) == Onto(kept, Confirm(c, b, spans[i..], field, values))
      {
        assert spans[i..][1..] == spans[i + 1..];
        var line := LineAt(b, spans[i].offset, spans[i].length);
        if line.None? || !Carries(c, line.value, field, values) {
          return None;
        }
        OntoTwice(kept, line.value, Confirm(c, b, spans[i + 1..], field, values));
        kept := kept + [line.value];
      }
      lines := Some(kept);
      assert kept + [] == kept;
    }
  }

  /** Reading on from `offset` with `t` ends as reading on from `start` with `before` does. */
  ghost predicate SameFrom(c: Codec, spec: Spec, b: Bytes, before: Tables, start: nat, t: Tables, offset: nat)
    requires start <= |b| && offset <= |b|
  {
    && EndOfLines(b, offset) == EndOfLines(b, start)
    && IndexAll(c, spec, t, LinesFrom(b, offset)) == IndexAll(c, spec, before, LinesFrom(b, start))
  }

  lemma IndexAllPush(c: Codec, spec: Spec, t: Tables, l: Line, rest: seq<Line>)
    ensures IndexAll(c, spec, t, [l] + rest) == IndexAll(c, spec, IndexLine(c, spec, t, l), rest)
  {
  }

  lemma NextLine(c: Codec, spec: Spec, b: Bytes, before: Tables, start: nat, t: Tables, offset: nat, end: nat)
    requires start <= |b| && offset <= |b| && end == LineEnd(b, offset) && end < |b|
    requires SameFrom(c, spec, b, before, start, t, offset)
    ensures SameFrom(c, spec, b, before, start, IndexLine(c, spec, t, Line(offset, b[offset..end])), end + 1)
  {
    hide IndexAll, IndexLine, LinesFrom, EndOfLines, LineEnd;
    FirstLine(b, b, offset);
    IndexAllPush(c, spec, t, Line(offset, b[offset..end]), LinesFrom(b, end + 1));
  }

  lemma NoMoreLines(c: Codec, spec: Spec, b: Bytes, t: Tables, offset: nat)
    requires offset <= |b| && LineEnd(b, offset) == |b|
    ensures EndOfLines(b, offset) == offset && IndexAll(c, spec, t, LinesFrom(b, offset)) == t
  {
  }

  lemma OntoNothing(rest: Option<seq<Bytes>>)
    ensures Onto([], rest) == rest
  {
    if rest.Some? {
      assert [] + rest.value == rest.value;
    }
  }

  ghost function Onto(kept: seq<Bytes>, rest: Option<seq<Bytes>>): Option<seq<Bytes>> {
    match rest
    case Some(lines) => Some(kept + lines)
    case None => None
  }

  lemma OntoTwice(kept: seq<Bytes>, line: Bytes, rest: Option<seq<Bytes>>)
    ensures Onto(kept, Onto([line], rest)) == Onto(kept + [line], rest)
  {
    if rest.Some? {
      Associate(kept, [line], rest.value);
    }
  }

  lemma {:induction false} InsertTagsConcat(tags: map<(Digest, nat), nat>, a: seq<Digest>, b: seq<Digest>, span: Span)
    ensures InsertTags(tags, a + b, span) == InsertTags(InsertTags(tags, a, span), b, span)
    decreases |a|
  {
    if a == [] {
      assert a + b == b;
    } else {
      var row := (a[0], span.offset);
      assert (a + b)[1..] == a[1..] + b;
      InsertTagsConcat(if row in tags then tags else tags[row := span.length], a[1..], b, span);
    }
  }

  predicate Precedes(a: Span, b: Span)
    ensures Precedes(a, b) <==> Before(a, b)
  {
    a.offset < b.offset || (a.offset == b.offset && a.length < b.length)
  }

  /** `sort_unstable` and `dedup` on the collected rows. */
  method SortDedup(rows: set<Span>) returns (spans: seq<Span>)
    ensures Ordered(spans) && forall s :: s in spans <==> s in rows
  {
    spans := [];
    var left := rows;
    while left != {}
      invariant left <= rows && Ordered(spans)
      invariant forall s :: s in spans <==> s in rows && s !in left
      decreases left
    {
      var s :| s in left;
      spans := InsertSorted(s, spans);
      left := left - {s};
    }
  }

  method InsertSorted(s: Span, spans: seq<Span>) returns (r: seq<Span>)
    requires Ordered(spans) && s !in spans
    ensures Ordered(r) && forall x :: x in r <==> x == s || x in spans
  {
    var i := 0;
    while i < |spans| && Precedes(spans[i], s)
      invariant 0 <= i <= |spans| && forall k :: 0 <= k < i ==> Before(spans[k], s)
    {
      i := i + 1;
    }
    r := spans[..i] + [s] + spans[i..];
    assert forall k :: i <= k < |spans| ==> Before(s, spans[k]) by {
      forall k | i <= k < |spans| ensures Before(s, spans[k]) {
        assert spans[i] in spans;
        if k > i {
          assert Before(spans[i], spans[k]);
        }
      }
    }
    assert spans == spans[..i] + spans[i..];
  }

  /** A ledger file and its committed index. */
  class Ledger {
    var file: File
    var committed: Index

    constructor (file: File)
      ensures this.file == file && committed == FORGOTTEN
    {
      this.file := file;
      committed := FORGOTTEN;
    }

    /** `append`. `indexed` is false when the process dies, or the index fails, once the line is
        written: the transaction is then rolled back. */
    method Append(c: Codec, spec: Spec, canonical: Bytes, indexed: bool) returns (answer: Appended)
      modifies this
      ensures (file, committed, answer) == LedgerIndex.Append(c, spec, old(file), old(committed), canonical, indexed)
    {
      var parsed := c.parse(canonical);
      if parsed.None? {
        return NotAnObject;
      }
      var tx := new Transaction(committed);
      var caughtUp := tx.CatchUp(c, spec, file, HOOK);
      if !caughtUp {
        return Behind;
      }
      var key := IdentityOf(c, spec, parsed.value, canonical);
      var present := key in tx.keys;
      if present && !Confirmed(c, spec, file, tx.keys[key], key) {
        caughtUp := tx.Rebuild(c, spec, file, HOOK);
        if !caughtUp {
          committed := Index(tx.cursor, Tables(tx.keys, tx.tags));
          return Behind;
        }
        present := key in tx.keys && Confirmed(c, spec, file, tx.keys[key], key);
      }
      if present {
        committed := Index(tx.cursor, Tables(tx.keys, tx.tags));
        return Present;
      }
      var offset := |RecordOffsetBytes(file.bytes)|;
      file := WriteLine(file, canonical);
      tx.Insert(c, spec, parsed.value, canonical, offset);
      tx.SetCursor(file, |file.bytes|);
      if indexed {
        committed := Index(tx.cursor, Tables(tx.keys, tx.tags));
      }
      return Written;
    }

    /** `read_tagged`. */
    method ReadTagged(c: Codec, spec: Spec, field: string, values: seq<string>) returns (answer: Answer)
      modifies this`committed
      ensures LedgerIndex.ReadTagged(c, spec, file, old(committed), field, values, committed, answer)
    {
      if field !in spec.tags {
        return NotIndexed;
      }
      var tx := new Transaction(committed);
      var caughtUp := tx.CatchUp(c, spec, file, HOOK);
      if !caughtUp {
        return TooFarBehind;
      }
      var lines := tx.ReadSpans(c, file.bytes, field, values);
      if lines.None? {
        caughtUp := tx.Rebuild(c, spec, file, HOOK);
        if !caughtUp {
          committed := Index(tx.cursor, Tables(tx.keys, tx.tags));
          return TooFarBehind;
        }
        lines := tx.ReadSpans(c, file.bytes, field, values);
        if lines.None? {
          return Disagrees;
        }
      }
      committed := Index(tx.cursor, Tables(tx.keys, tx.tags));
      return Found(lines.value);
    }

    /** `refresh`: catches up however far behind the index is. */
    method Refresh(c: Codec, spec: Spec)
      modifies this`committed
      ensures committed == LedgerIndex.CatchUp(c, spec, file, old(committed), None).1
    {
      var tx := new Transaction(committed);
      var caughtUp := tx.CatchUp(c, spec, file, None);
      committed := Index(tx.cursor, Tables(tx.keys, tx.tags));
    }
  }
}
