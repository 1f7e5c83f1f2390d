/** `read_tagged` refines a scan of the whole ledger. */
module LedgerReads {
  import opened Wrappers
  import opened Utf8
  import opened LedgerLines
  import opened LedgerIdentity
  import opened LedgerIndex

  /** Field names carry no NUL, so no two (field, value) pairs are hashed alike. */
  predicate PlainSpec(spec: Spec) {
    forall i :: 0 <= i < |spec.tags| ==> NUL !in spec.tags[i]
  }

  /** The answer's reference: the whole lines that carry one of the values, in ledger order. */
  function CarryingLines(c: Codec, lines: seq<Line>, field: string, values: seq<string>): seq<Line> {
    if lines == [] then []
    else (if Carries(c, Strip(lines[0].raw), field, values) then [lines[0]] else []) + CarryingLines(c, lines[1..], field, values)
  }

  function Texts(lines: seq<Line>): seq<Bytes> {
    if lines == [] then [] else [lines[0].raw] + Texts(lines[1..])
  }

  function SpanOf(l: Line): Span {
    Span(l.offset, |Strip(l.raw)|)
  }

  // ----- the rows of the tables -----

  lemma {:induction false} InsertTagsExact(tags: map<(Digest, nat), nat>, added: seq<Digest>, span: Span, row: (Digest, nat))
    ensures var r := InsertTags(tags, added, span);
      && (row in r <==> row in tags || (row.1 == span.offset && row.0 in added))
      && (row in r ==> r[row] == if row in tags then tags[row] else span.length)
    decreases |added|
  {
    if added != [] {
      var first := (added[0], span.offset);
      InsertTagsExact(if first in tags then tags else tags[first := span.length], added[1..], span, row);
    }
  }

  ghost predicate Tags(c: Codec, spec: Spec, l: Line, row: (Digest, nat)) {
    row.1 == l.offset && row.0 in TagsOf(c, spec, Strip(l.raw))
  }

  /** The `tags` rows a scan builds: one for each line and each tag it carries. */
  lemma {:induction false} TagRows(c: Codec, spec: Spec, t: Tables, lines: seq<Line>, row: (Digest, nat))
    ensures row in IndexAll(c, spec, t, lines).tags <==> row in t.tags || exists k :: 0 <= k < |lines| && Tags(c, spec, lines[k], row)
    decreases |lines|
  {
    if lines != [] {
      LineRow(c, spec, t, lines[0], row);
      TagRows(c, spec, IndexLine(c, spec, t, lines[0]), lines[1..], row);
      assert forall k :: 0 < k < |lines| ==> lines[k] == lines[1..][k - 1];
      assert forall k :: 0 <= k < |lines[1..]| ==> lines[1..][k] == lines[k + 1];
    }
  }

  lemma LineRow(c: Codec, spec: Spec, t: Tables, l: Line, row: (Digest, nat))
    ensures var r := IndexLine(c, spec, t, l).tags;
      && (row in r <==> row in t.tags || Tags(c, spec, l, row))
      && (row in r ==> r[row] == if row in t.tags then t.tags[row] else SpanOf(l).length)
  {
    InsertTagsExact(t.tags, TagsOf(c, spec, Strip(l.raw)), SpanOf(l), row);
  }

  lemma {:induction false} TagRowStays(c: Codec, spec: Spec, t: Tables, lines: seq<Line>, row: (Digest, nat))
    requires row in t.tags
    ensures row in IndexAll(c, spec, t, lines).tags && IndexAll(c, spec, t, lines).tags[row] == t.tags[row]
    decreases |lines|
  {
    if lines != [] {
      LineRow(c, spec, t, lines[0], row);
      TagRowStays(c, spec, IndexLine(c, spec, t, lines[0]), lines[1..], row);
    }
  }

  lemma Around(lines: seq<Line>, k: nat)
    requires k < |lines|
    ensures lines == lines[..k] + ([lines[k]] + lines[k + 1..])
  {
  }

  lemma TagRowLength(c: Codec, spec: Spec, lines: seq<Line>, row: (Digest, nat), k: nat)
    requires k < |lines| && Tags(c, spec, lines[k], row)
    requires forall i :: 0 <= i < k ==> lines[i].offset < lines[k].offset
    ensures var t := IndexAll(c, spec, EMPTY, lines); row in t.tags && t.tags[row] == SpanOf(lines[k]).length
  {
    var before, l, after := lines[..k], lines[k], lines[k + 1..];
    var t := IndexAll(c, spec, EMPTY, before);
    TagRows(c, spec, EMPTY, before, row);
    LineRow(c, spec, t, l, row);
    TagRowStays(c, spec, IndexLine(c, spec, t, l), after, row);
    Around(lines, k);
    IndexAllConcat(c, spec, EMPTY, before, [l] + after);
    assert ([l] + after)[1..] == after;
  }

  // ----- a line is tagged exactly when it carries the value -----

  lemma {:induction false} RecordTagged(record: Record, fields: seq<string>, field: string, value: string)
    requires NUL !in field && forall i :: 0 <= i < |fields| ==> NUL !in fields[i]
    ensures Tag(field, value) in RecordTags(record, fields) <==> field in fields && GetText(record, field) == Some(value)
  {
    if fields != [] {
      RecordTagged(record, fields[1..], field, value);
      if GetText(record, fields[0]).Some? {
        TagInjective(field, value, fields[0], GetText(record, fields[0]).value);
      }
    }
  }

  lemma {:induction false} ValueTagged(own: string, values: seq<string>, field: string, value: string)
    requires NUL !in field && NUL !in own
    ensures Tag(field, value) in ValueTags(own, values) <==> field == own && value in values
  {
    if values != [] {
      TagInjective(field, value, own, values[0]);
      ValueTagged(own, values[1..], field, value);
    }
  }

  lemma {:induction false} SpelledTagged(c: Codec, text: Bytes, fields: seq<string>, field: string, value: string)
    requires NUL !in field && forall i :: 0 <= i < |fields| ==> NUL !in fields[i]
    ensures Tag(field, value) in SpelledTags(c, text, fields) <==> field in fields && value in Spelled(c, text, field)
  {
    if fields != [] {
      ValueTagged(fields[0], Spelled(c, text, fields[0]), field, value);
      SpelledTagged(c, text, fields[1..], field, value);
    }
  }

  lemma CarriesTagged(c: Codec, spec: Spec, text: Bytes, field: string, values: seq<string>)
    requires PlainSpec(spec) && field in spec.tags
    ensures Carries(c, text, field, values) <==> exists i :: 0 <= i < |values| && Tag(field, values[i]) in TagsOf(c, spec, text)
  {
    forall i | 0 <= i < |values|
      ensures Tag(field, values[i]) in TagsOf(c, spec, text) <==>
        match c.parse(text)
        case Some(record) => GetText(record, field) == Some(values[i])
        case None => values[i] in Spelled(c, text, field)
    {
      match c.parse(text) {
        case Some(record) => RecordTagged(record, spec.tags, field, values[i]);
        case None => SpelledTagged(c, text, spec.tags, field, values[i]);
      }
    }
  }

  ghost predicate Increasing(lines: seq<Line>) {
    forall i, j :: 0 <= i < j < |lines| ==> lines[i].offset < lines[j].offset
  }

  lemma LinesIncrease(b: Bytes)
    ensures Increasing(Lines(b))
  {
    forall i, j | 0 <= i < j < |Lines(b)| ensures Lines(b)[i].offset < Lines(b)[j].offset {
      OffsetsIncrease(b, 0, i, j);
    }
  }

  /** The spans an index of some lines names are those of the carrying ones. */
  lemma SpansOfLines(c: Codec, spec: Spec, lines: seq<Line>, field: string, values: seq<string>, s: Span)
    requires PlainSpec(spec) && field in spec.tags && Increasing(lines)
    ensures s in SpansFor(IndexAll(c, spec, EMPTY, lines), field, values) <==>
      exists k :: 0 <= k < |lines| && s == SpanOf(lines[k]) && Carries(c, Strip(lines[k].raw), field, values)
  {
    var t := IndexAll(c, spec, EMPTY, lines);
    if s in SpansFor(t, field, values) {
      var row :| row in t.tags && s == Span(row.1, t.tags[row]) && exists i :: 0 <= i < |values| && row.0 == Tag(field, values[i]);
      TagRows(c, spec, EMPTY, lines, row);
      var k :| 0 <= k < |lines| && Tags(c, spec, lines[k], row);
      TagRowLength(c, spec, lines, row, k);
      CarriesTagged(c, spec, Strip(lines[k].raw), field, values);
    }
    if k :| 0 <= k < |lines| && s == SpanOf(lines[k]) && Carries(c, Strip(lines[k].raw), field, values) {
      CarriesTagged(c, spec, Strip(lines[k].raw), field, values);
      var i :| 0 <= i < |values| && Tag(field, values[i]) in TagsOf(c, spec, Strip(lines[k].raw));
      var row := (Tag(field, values[i]), lines[k].offset);
      assert Tags(c, spec, lines[k], row);
      TagRowLength(c, spec, lines, row, k);
    }
  }

  /** So a faithful index names exactly the spans of the ledger's carrying lines. */
  lemma SpansExact(c: Codec, spec: Spec, b: Bytes, field: string, values: seq<string>, s: Span)
    requires PlainSpec(spec) && field in spec.tags
    ensures s in SpansFor(IndexOf(c, spec, b), field, values) <==>
      exists k :: 0 <= k < |Lines(b)| && s == SpanOf(Lines(b)[k]) && Carries(c, Strip(Lines(b)[k].raw), field, values)
  {
    LinesIncrease(b);
    SpansOfLines(c, spec, Lines(b), field, values, s);
  }

  // ----- reading the spans back -----

  lemma {:induction false} OrderedUnique(a: seq<Span>, b: seq<Span>)
    requires Ordered(a) && Ordered(b) && forall s :: s in a <==> s in b
    ensures a == b
  {
    assert a != [] ==> a[0] in b;
    assert b != [] ==> b[0] in a;
    if a != [] && b != [] {
      assert a[0] == b[0];
      forall s ensures s in a[1..] <==> s in b[1..] {
        assert s in a[1..] ==> s in a && Before(a[0], s);
        assert s in b[1..] ==> s in b && Before(b[0], s);
      }
      OrderedUnique(a[1..], b[1..]);
    }
  }

  function Spans(lines: seq<Line>): (r: seq<Span>)
    ensures |r| == |lines| && forall i :: 0 <= i < |r| ==> r[i] == SpanOf(lines[i])
  {
    seq(|lines|, i requires 0 <= i < |lines| => SpanOf(lines[i]))
  }

  /** The carrying lines are lines of the ledger, in its order. */
  lemma {:induction false} CarryingFacts(c: Codec, lines: seq<Line>, field: string, values: seq<string>)
    requires Increasing(lines)
    ensures var r := CarryingLines(c, lines, field, values);
      && (forall l :: l in r <==> l in lines && Carries(c, Strip(l.raw), field, values))
      && Increasing(r)
  {
    if lines != [] {
      var tail := CarryingLines(c, lines[1..], field, values);
      CarryingFacts(c, lines[1..], field, values);
      forall i | 0 <= i < |tail| ensures lines[0].offset < tail[i].offset {
        assert tail[i] in lines[1..];
      }
      assert forall l :: l in lines <==> l == lines[0] || l in lines[1..];
    }
  }

  lemma {:induction false} ConfirmCarrying(c: Codec, b: Bytes, lines: seq<Line>, field: string, values: seq<string>)
    requires forall l :: l in lines ==> l in Lines(b) && Carries(c, Strip(l.raw), field, values)
    ensures Confirm(c, b, Spans(lines), field, values) ==
            if exists l :: l in lines && EndsInReturn(l.raw) then None else Some(Texts(lines))
  {
    if lines != [] {
      var l := lines[0];
      assert l in lines;
      var k :| 0 <= k < |Lines(b)| && Lines(b)[k] == l;
      LineAtLine(b, k);
      assert Spans(lines)[1..] == Spans(lines[1..]);
      forall m | m in lines[1..] ensures m in lines {
      }
      ConfirmCarrying(c, b, lines[1..], field, values);
      assert forall m :: m in lines <==> m == l || m in lines[1..];
    }
  }

  lemma SpanOfMember(lines: seq<Line>, s: Span)
    ensures s in Spans(lines) <==> exists l :: l in lines && s == SpanOf(l)
  {
  }

  lemma CarryingSpan(c: Codec, spec: Spec, lines: seq<Line>, field: string, values: seq<string>, s: Span)
    requires PlainSpec(spec) && field in spec.tags && Increasing(lines)
    ensures s in Spans(CarryingLines(c, lines, field, values)) <==> s in SpansFor(IndexAll(c, spec, EMPTY, lines), field, values)
  {
    SpansOfLines(c, spec, lines, field, values, s);
    SpanOfMember(CarryingLines(c, lines, field, values), s);
    CarryingFacts(c, lines, field, values);
    if k :| 0 <= k < |lines| && s == SpanOf(lines[k]) && Carries(c, Strip(lines[k].raw), field, values) {
      assert lines[k] in lines;
    }
  }

  /** The order fixes what one pass reads. */
  lemma TaggedUnique(c: Codec, b: Bytes, t: Tables, field: string, values: seq<string>, spans: seq<Span>, r: Option<seq<Bytes>>)
    requires Ordered(spans) && forall s :: s in spans <==> s in SpansFor(t, field, values)
    ensures Tagged(c, b, t, field, values, r) <==> r == Confirm(c, b, spans, field, values)
  {
    forall other | Ordered(other) && (forall s :: s in other <==> s in SpansFor(t, field, values)) ensures other == spans {
      OrderedUnique(other, spans);
    }
  }

  /** One pass over an index of some of the ledger's lines reads back exactly the carrying ones among
      them, unless one of those ends in a carriage return: such a line is stored without it, and no read
      of the ledger confirms it. */
  lemma TaggedOver(c: Codec, spec: Spec, b: Bytes, lines: seq<Line>, field: string, values: seq<string>, r: Option<seq<Bytes>>)
    requires PlainSpec(spec) && field in spec.tags && Increasing(lines) && forall l :: l in lines ==> l in Lines(b)
    ensures Tagged(c, b, IndexAll(c, spec, EMPTY, lines), field, values, r) <==>
      r == if exists l :: l in CarryingLines(c, lines, field, values) && EndsInReturn(l.raw) then None
           else Some(Texts(CarryingLines(c, lines, field, values)))
  {
    var carrying, named := CarryingLines(c, lines, field, values), SpansFor(IndexAll(c, spec, EMPTY, lines), field, values);
    CarryingFacts(c, lines, field, values);
    ConfirmCarrying(c, b, carrying, field, values);
    forall s ensures s in Spans(carrying) <==> s in named {
      CarryingSpan(c, spec, lines, field, values, s);
    }
    TaggedUnique(c, b, IndexAll(c, spec, EMPTY, lines), field, values, Spans(carrying), r);
  }

  /** Over a faithful index: all the ledger's carrying lines. */
  lemma TaggedExact(c: Codec, spec: Spec, b: Bytes, field: string, values: seq<string>, r: Option<seq<Bytes>>)
    requires PlainSpec(spec) && field in spec.tags
    ensures Tagged(c, b, IndexOf(c, spec, b), field, values, r) <==>
      r == if ReturnEnded(c, b, field, values) then None else Some(Texts(CarryingLines(c, Lines(b), field, values)))
  {
    LinesIncrease(b);
    TaggedOver(c, spec, b, Lines(b), field, values, r);
  }

  ghost predicate ReturnEnded(c: Codec, b: Bytes, field: string, values: seq<string>) {
    exists l :: l in CarryingLines(c, Lines(b), field, values) && EndsInReturn(l.raw)
  }

  /** From a trusted index, an answer is exactly what a scan of the whole ledger finds: the whole
      lines carrying one of the values, in ledger order, once each. There is one within the budget
      exactly when no such line ends in a carriage return. */
  lemma ReadTaggedExact(c: Codec, spec: Spec, f: File, ix: Index, field: string, values: seq<string>, ix': Index, answer: Answer)
    requires PlainSpec(spec) && Trusted(c, spec, f, ix)
    requires ReadTagged(c, spec, f, ix, field, values, ix', answer)
    ensures answer.Found? ==> answer.lines == Texts(CarryingLines(c, Lines(f.bytes), field, values))
    ensures answer.Found? <==> field in spec.tags && CatchUp(c, spec, f, ix, HOOK).0 && !ReturnEnded(c, f.bytes, field, values)
    ensures Trusted(c, spec, f, ix')
  {
    if field in spec.tags && CatchUp(c, spec, f, ix, HOOK).0 {
      CatchUpExact(c, spec, f, ix, HOOK);
      var ix1 := CatchUp(c, spec, f, ix, HOOK).1;
      var (again, ix2) := CatchUp(c, spec, f, FORGOTTEN, HOOK);
      if again {
        CatchUpExact(c, spec, f, FORGOTTEN, HOOK);
      }
      var reference := if ReturnEnded(c, f.bytes, field, values) then None else Some(Texts(CarryingLines(c, Lines(f.bytes), field, values)));
      forall r ensures Tagged(c, f.bytes, ix1.tables, field, values, r) <==> r == reference {
        TaggedExact(c, spec, f.bytes, field, values, r);
      }
    }
  }

  lemma {:induction false} ConfirmSound(c: Codec, b: Bytes, spans: seq<Span>, field: string, values: seq<string>)
    ensures var r := Confirm(c, b, spans, field, values);
      r.Some? ==> |r.value| == |spans| && forall i :: 0 <= i < |spans| ==>
        LineAt(b, spans[i].offset, spans[i].length) == Some(r.value[i]) && Carries(c, r.value[i], field, values)
  {
    if spans != [] {
      ConfirmSound(c, b, spans[1..], field, values);
    }
  }

  /** Whatever the index holds, an answer holds only what the ledger confirms: each line starts and
      ends at a line boundary and carries a value, in ledger order, none twice. */
  lemma ReadTaggedSound(c: Codec, spec: Spec, f: File, ix: Index, field: string, values: seq<string>, ix': Index, answer: Answer)
    requires ReadTagged(c, spec, f, ix, field, values, ix', answer) && answer.Found?
    ensures exists spans: seq<Span> :: Ordered(spans) && |spans| == |answer.lines| && forall i :: 0 <= i < |spans| ==>
      LineAt(f.bytes, spans[i].offset, spans[i].length) == Some(answer.lines[i]) && Carries(c, answer.lines[i], field, values)
  {
    var t :| Tagged(c, f.bytes, t, field, values, Some(answer.lines));
    var spans :| Ordered(spans) && Some(answer.lines) == Confirm(c, f.bytes, spans, field, values);
    ConfirmSound(c, f.bytes, spans, field, values);
  }
}
