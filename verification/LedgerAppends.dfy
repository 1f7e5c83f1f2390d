/** `append` acts on the ledger's word, and every run of writers, readers and crashes keeps the index trusted. */
module LedgerAppends {
  import opened Wrappers
  import opened Utf8
  import opened LedgerLines
  import opened LedgerIdentity
  import opened LedgerIndex
  import opened LedgerReads

  predicate Identified(c: Codec, spec: Spec, l: Line, key: Digest) {
    c.parse(Strip(l.raw)).Some? && Identity(c, spec, c.parse(Strip(l.raw)).value, Strip(l.raw)) == key
  }

  function FirstWith(c: Codec, spec: Spec, lines: seq<Line>, key: Digest): Option<Line> {
    if lines == [] then None
    else if Identified(c, spec, lines[0], key) then Some(lines[0])
    else FirstWith(c, spec, lines[1..], key)
  }

  lemma {:induction false} FirstWithExact(c: Codec, spec: Spec, lines: seq<Line>, key: Digest)
    ensures FirstWith(c, spec, lines, key).Some? <==> exists l :: l in lines && Identified(c, spec, l, key)
    ensures FirstWith(c, spec, lines, key).Some? ==>
      FirstWith(c, spec, lines, key).value in lines && Identified(c, spec, FirstWith(c, spec, lines, key).value, key)
  {
    if lines != [] {
      FirstWithExact(c, spec, lines[1..], key);
      assert forall l :: l in lines <==> l == lines[0] || l in lines[1..];
    }
  }

  /** And it is the first. */
  lemma {:induction false} FirstWithIsFirst(c: Codec, spec: Spec, lines: seq<Line>, key: Digest, k: nat)
    requires k < |lines| && Identified(c, spec, lines[k], key) && forall j :: 0 <= j < k ==> !Identified(c, spec, lines[j], key)
    ensures FirstWith(c, spec, lines, key) == Some(lines[k])
  {
    if k > 0 {
      assert !Identified(c, spec, lines[0], key);
      FirstWithIsFirst(c, spec, lines[1..], key, k - 1);
    }
  }

  /** The `keys` rows a scan builds: the first line with each identity. */
  lemma {:induction false} KeyRows(c: Codec, spec: Spec, t: Tables, lines: seq<Line>, key: Digest)
    ensures var keys, first := IndexAll(c, spec, t, lines).keys, FirstWith(c, spec, lines, key);
      && (key in keys <==> key in t.keys || first.Some?)
      && (key in keys ==> keys[key] == if key in t.keys then t.keys[key] else SpanOf(first.value))
    decreases |lines|
  {
    if lines != [] {
      KeyRows(c, spec, IndexLine(c, spec, t, lines[0]), lines[1..], key);
    }
  }

  /** The first line with the key, when the ledger can confirm it. */
  predicate Known(c: Codec, spec: Spec, b: Bytes, key: Digest) {
    var first := FirstWith(c, spec, Lines(b), key);
    first.Some? && !EndsInReturn(first.value.raw)
  }

  lemma LookupExact(c: Codec, spec: Spec, f: File, key: Digest)
    ensures Lookup(c, spec, f, IndexOf(c, spec, f.bytes), key) <==> Known(c, spec, f.bytes, key)
    ensures key in IndexOf(c, spec, f.bytes).keys <==> FirstWith(c, spec, Lines(f.bytes), key).Some?
  {
    var lines := Lines(f.bytes);
    KeyRows(c, spec, EMPTY, lines, key);
    FirstWithExact(c, spec, lines, key);
    if FirstWith(c, spec, lines, key).Some? {
      var l := FirstWith(c, spec, lines, key).value;
      var k :| 0 <= k < |lines| && lines[k] == l;
      LineAtLine(f.bytes, k);
    }
  }

  /** Whatever the index holds, a record is suppressed only when the span read back from the ledger
      carries its identity, and the ledger changes only when the record is written. */
  lemma AppendSound(c: Codec, spec: Spec, f: File, ix: Index, canonical: Bytes, indexed: bool)
    ensures var (g, _, answer) := Append(c, spec, f, ix, canonical, indexed);
      && (answer == Present ==> exists span :: Confirmed(c, spec, f, span, Identity(c, spec, c.parse(canonical).value, canonical)))
      && g == (if answer == Written then WriteLine(f, canonical) else f)
  {
    if c.parse(canonical).Some? {
      var key := Identity(c, spec, c.parse(canonical).value, canonical);
      var ix1, ix2 := CatchUp(c, spec, f, ix, HOOK).1, CatchUp(c, spec, f, FORGOTTEN, HOOK).1;
      assert Lookup(c, spec, f, ix1.tables, key) ==> Confirmed(c, spec, f, ix1.tables.keys[key], key);
      assert Lookup(c, spec, f, ix2.tables, key) ==> Confirmed(c, spec, f, ix2.tables.keys[key], key);
    }
  }

  /** From a trusted index the answer is exact: within the budget, Present if and only if the first
      whole line with the identity is one the ledger can confirm. */
  lemma AppendExact(c: Codec, spec: Spec, f: File, ix: Index, canonical: Bytes, indexed: bool)
    requires Trusted(c, spec, f, ix) && c.parse(canonical).Some?
    ensures var key := Identity(c, spec, c.parse(canonical).value, canonical);
      var answer := Append(c, spec, f, ix, canonical, indexed).2;
      var caughtUp := CatchUp(c, spec, f, ix, HOOK).0;
      && (answer == Present <==> caughtUp && Known(c, spec, f.bytes, key))
      && (answer == Written ==> caughtUp && !Known(c, spec, f.bytes, key))
      && (caughtUp && FirstWith(c, spec, Lines(f.bytes), key).None? ==> answer == Written)
  {
    var key := Identity(c, spec, c.parse(canonical).value, canonical);
    LookupExact(c, spec, f, key);
    if CatchUp(c, spec, f, ix, HOOK).0 {
      CatchUpExact(c, spec, f, ix, HOOK);
    }
    if CatchUp(c, spec, f, FORGOTTEN, HOOK).0 {
      CatchUpExact(c, spec, f, FORGOTTEN, HOOK);
    }
  }

  /** A record's line: one line, no carriage return at its end. */
  predicate CleanLine(canonical: Bytes) {
    NEWLINE !in canonical && !EndsInReturn(canonical)
  }

  /** The torn tail as the line it becomes once terminated. */
  function TornLine(b: Bytes): Line {
    Line(EndOfLines(b, 0), b[EndOfLines(b, 0)..])
  }

  /** Whether leaving the torn tail unread loses nothing: there is none, or reading it adds no row. */
  predicate TornHarmless(c: Codec, spec: Spec, b: Bytes) {
    Terminated(b) || IndexLine(c, spec, IndexOf(c, spec, b), TornLine(b)) == IndexOf(c, spec, b)
  }

  /** Two lines at different offsets: the first adds a row exactly when it still does under the second. */
  lemma FirstLineShows(c: Codec, spec: Spec, t: Tables, a: Line, b: Line)
    requires a.offset != b.offset
    ensures IndexLine(c, spec, IndexLine(c, spec, t, a), b) == IndexLine(c, spec, t, b) <==> IndexLine(c, spec, t, a) == t
  {
    var t1 := IndexLine(c, spec, t, a);
    var full, short := IndexLine(c, spec, t1, b), IndexLine(c, spec, t, b);
    if full == short {
      forall row ensures (row in t1.tags <==> row in t.tags) && (row in t.tags ==> t1.tags[row] == t.tags[row]) {
        InsertTagsExact(t.tags, TagsOf(c, spec, Strip(a.raw)), SpanOf(a), row);
        InsertTagsExact(t1.tags, TagsOf(c, spec, Strip(b.raw)), SpanOf(b), row);
        InsertTagsExact(t.tags, TagsOf(c, spec, Strip(b.raw)), SpanOf(b), row);
      }
      assert t1.tags == t.tags;
      forall key ensures (key in t1.keys <==> key in t.keys) && (key in t.keys ==> t1.keys[key] == t.keys[key]) {
        assert key in full.keys <==> key in short.keys;
        assert key in t1.keys && key !in t.keys ==> full.keys[key] == SpanOf(a);
        assert key in short.keys && key !in t.keys ==> short.keys[key] == SpanOf(b);
      }
      assert t1.keys == t.keys;
    }
  }

  /** The lines after a write: the torn tail, if any, and the record. */
  lemma WrittenLines(f: File, canonical: Bytes)
    requires NEWLINE !in canonical
    ensures var g, record := WriteLine(f, canonical).bytes, Line(|RecordOffsetBytes(f.bytes)|, canonical);
      && Terminated(g) && EndOfLines(g, 0) == |g|
      && Lines(g) == Lines(f.bytes) + (if Terminated(f.bytes) then [record] else [TornLine(f.bytes), record])
  {
    var b := f.bytes;
    var base := RecordOffsetBytes(b);
    if !Terminated(b) {
      LinesTerminate(b);
    }
    LinesPush(base, canonical);
    if !Terminated(b) {
      Associate(Lines(b), [TornLine(b)], [Line(|base|, canonical)]);
      assert [TornLine(b)] + [Line(|base|, canonical)] == [TornLine(b), Line(|base|, canonical)];
    }
  }

  lemma WrittenIndex(c: Codec, spec: Spec, f: File, canonical: Bytes)
    requires NEWLINE !in canonical
    ensures var record := Line(|RecordOffsetBytes(f.bytes)|, canonical);
      IndexOf(c, spec, WriteLine(f, canonical).bytes) ==
      IndexLine(c, spec, if Terminated(f.bytes) then IndexOf(c, spec, f.bytes)
                         else IndexLine(c, spec, IndexOf(c, spec, f.bytes), TornLine(f.bytes)), record)
  {
    var b, record := f.bytes, Line(|RecordOffsetBytes(f.bytes)|, canonical);
    WrittenLines(f, canonical);
    var more := if Terminated(b) then [record] else [TornLine(b), record];
    IndexAllConcat(c, spec, EMPTY, Lines(b), more);
    var t := IndexOf(c, spec, b);
    if Terminated(b) {
      assert more[1..] == [];
    } else {
      assert more[1..] == [record] && more[1..][1..] == [];
      assert IndexAll(c, spec, t, more) == IndexAll(c, spec, IndexLine(c, spec, t, TornLine(b)), more[1..]);
    }
  }

  /** What an indexed write leaves in the index, whatever rebuilding came before it. */
  lemma WrittenTables(c: Codec, spec: Spec, f: File, ix: Index, canonical: Bytes)
    requires Trusted(c, spec, f, ix) && Append(c, spec, f, ix, canonical, true).2 == Written
    ensures c.parse(canonical).Some?
    ensures var (g, ix', _) := Append(c, spec, f, ix, canonical, true);
      && g == WriteLine(f, canonical) && ix'.cursor == Some(CursorAt(g, |g.bytes|))
      && ix'.tables == InsertRecord(c, spec, IndexOf(c, spec, f.bytes), Line(|RecordOffsetBytes(f.bytes)|, canonical))
  {
    CatchUpExact(c, spec, f, ix, HOOK);
    if CatchUp(c, spec, f, FORGOTTEN, HOOK).0 {
      CatchUpExact(c, spec, f, FORGOTTEN, HOOK);
    }
  }

  lemma RecordIndexedAsLine(c: Codec, spec: Spec, t: Tables, l: Line)
    requires CleanLine(l.raw) && c.parse(l.raw).Some?
    ensures InsertRecord(c, spec, t, l) == IndexLine(c, spec, t, l)
  {
  }

  lemma TrustAtEnd(c: Codec, spec: Spec, g: File, ix: Index)
    requires ix.cursor == Some(CursorAt(g, |g.bytes|)) && Terminated(g.bytes)
    ensures Trusted(c, spec, g, ix) <==> ix.tables == IndexOf(c, spec, g.bytes)
  {
    assert g.bytes[..|g.bytes|] == g.bytes;
  }

  /** After an indexed write the index is trusted if and only if the torn tail, if there was one,
      held nothing to index: the cursor moves past it without reading it. */
  lemma AppendKeepsTrust(c: Codec, spec: Spec, f: File, ix: Index, canonical: Bytes)
    requires Trusted(c, spec, f, ix) && CleanLine(canonical)
    requires Append(c, spec, f, ix, canonical, true).2 == Written
    ensures var (g, ix', _) := Append(c, spec, f, ix, canonical, true);
      Trusted(c, spec, g, ix') <==> TornHarmless(c, spec, f.bytes)
  {
    var ix' := Append(c, spec, f, ix, canonical, true).1;
    var g, record := WriteLine(f, canonical), Line(|RecordOffsetBytes(f.bytes)|, canonical);
    var t := IndexOf(c, spec, f.bytes);
    WrittenTables(c, spec, f, ix, canonical);
    RecordIndexedAsLine(c, spec, t, record);
    WrittenLines(f, canonical);
    WrittenIndex(c, spec, f, canonical);
    TrustAtEnd(c, spec, g, ix');
    if !Terminated(f.bytes) {
      FirstLineShows(c, spec, t, TornLine(f.bytes), record);
    }
  }

  // ----- what a torn tail costs -----

  /** The torn tail holds a whole new record that lacks only its newline. */
  predicate ReadableTorn(c: Codec, spec: Spec, b: Bytes, key: Digest) {
    var torn := TornLine(b).raw;
    && !Terminated(b) && !EndsInReturn(torn) && c.parse(torn).Some? && Identity(c, spec, c.parse(torn).value, torn) == key
    && FirstWith(c, spec, Lines(b), key).None?
  }

  /** An indexed write behind a torn tail: the index has every line but the torn one, and takes itself
      to be up to date. */
  lemma WrittenBehindTorn(c: Codec, spec: Spec, f: File, ix: Index, canonical: Bytes)
    requires Trusted(c, spec, f, ix) && CleanLine(canonical) && !Terminated(f.bytes)
    requires Append(c, spec, f, ix, canonical, true).2 == Written
    ensures var (g, ix', _) := Append(c, spec, f, ix, canonical, true); var record := Line(|RecordOffsetBytes(f.bytes)|, canonical);
      && CatchUp(c, spec, g, ix', HOOK) == (true, ix')
      && ix'.tables == IndexAll(c, spec, EMPTY, Lines(f.bytes) + [record])
      && Lines(g.bytes) == Lines(f.bytes) + [TornLine(f.bytes), record] && Terminated(g.bytes)
  {
    var record := Line(|RecordOffsetBytes(f.bytes)|, canonical);
    WrittenTables(c, spec, f, ix, canonical);
    RecordIndexedAsLine(c, spec, IndexOf(c, spec, f.bytes), record);
    WrittenLines(f, canonical);
    IndexAllConcat(c, spec, EMPTY, Lines(f.bytes), [record]);
    assert [record][1..] == [];
  }

  /** The torn record can be appended again: the index does not know it, so the ledger then holds two
      lines of one identity. */
  lemma TornRecordIsWrittenTwice(c: Codec, spec: Spec, f: File, ix: Index, canonical: Bytes, key: Digest, indexed: bool)
    requires Trusted(c, spec, f, ix) && CleanLine(canonical) && ReadableTorn(c, spec, f.bytes, key)
    requires Append(c, spec, f, ix, canonical, true).2 == Written && Identity(c, spec, c.parse(canonical).value, canonical) != key
    ensures var (g, ix', _) := Append(c, spec, f, ix, canonical, true);
      var (h, _, answer) := Append(c, spec, g, ix', TornLine(f.bytes).raw, indexed);
      && answer == Written
      && exists i, j :: 0 <= i < j < |Lines(h.bytes)| && Identified(c, spec, Lines(h.bytes)[i], key) && Identified(c, spec, Lines(h.bytes)[j], key)
  {
    hide CatchUp, IndexAll, Lines, Trusted;
    var (g, ix', _) := Append(c, spec, f, ix, canonical, true);
    var torn, lines := TornLine(f.bytes), Lines(f.bytes);
    WrittenBehindTorn(c, spec, f, ix, canonical);
    KeyRows(c, spec, EMPTY, lines + [Line(|RecordOffsetBytes(f.bytes)|, canonical)], key);
    OnlyIn(c, spec, lines, Line(|RecordOffsetBytes(f.bytes)|, canonical), key);
    assert key !in ix'.tables.keys;
    LinesTerminate(f.bytes);
    WrittenLines(g, torn.raw);
    TwiceThere(c, spec, lines, torn, Line(|RecordOffsetBytes(f.bytes)|, canonical), Line(|RecordOffsetBytes(g.bytes)|, torn.raw), key);
  }

  lemma OnlyIn(c: Codec, spec: Spec, lines: seq<Line>, record: Line, key: Digest)
    requires FirstWith(c, spec, lines, key).None? && !Identified(c, spec, record, key)
    ensures FirstWith(c, spec, lines + [record], key).None?
  {
    FirstWithExact(c, spec, lines, key);
    FirstWithExact(c, spec, lines + [record], key);
  }

  lemma TwiceThere(c: Codec, spec: Spec, lines: seq<Line>, torn: Line, record: Line, again: Line, key: Digest)
    requires Identified(c, spec, torn, key) && Identified(c, spec, again, key)
    ensures var all := lines + [torn, record] + [again];
      exists i, j :: 0 <= i < j < |all| && Identified(c, spec, all[i], key) && Identified(c, spec, all[j], key)
  {
    var all := lines + [torn, record] + [again];
    assert all[|lines|] == torn && all[|lines| + 2] == again;
  }

  /** And a tagged read answers without it: with the carrying lines but the torn one, though a scan of the
      ledger finds that too when it carries one of the values. */
  lemma ReadableTornTailIsLost(c: Codec, spec: Spec, f: File, ix: Index, canonical: Bytes, field: string, values: seq<string>, ix'': Index, lines: seq<Bytes>)
    requires PlainSpec(spec) && field in spec.tags && Trusted(c, spec, f, ix) && CleanLine(canonical) && !Terminated(f.bytes)
    requires Append(c, spec, f, ix, canonical, true).2 == Written
    requires var (g, ix', _) := Append(c, spec, f, ix, canonical, true);
      ReadTagged(c, spec, g, ix', field, values, ix'', Found(lines))
    ensures var g := WriteLine(f, canonical); var record := Line(|RecordOffsetBytes(f.bytes)|, canonical);
      && lines == Texts(CarryingLines(c, Lines(f.bytes) + [record], field, values))
      && (Carries(c, Strip(TornLine(f.bytes).raw), field, values) ==> TornLine(f.bytes) in CarryingLines(c, Lines(g.bytes), field, values))
  {
    hide CatchUp, IndexAll, Lines, Trusted, Tagged, Append, Carries;
    var (g, ix', _) := Append(c, spec, f, ix, canonical, true);
    var record := Line(|RecordOffsetBytes(f.bytes)|, canonical);
    var some, whole := Lines(f.bytes) + [record], Lines(g.bytes);
    AppendSound(c, spec, f, ix, canonical, true);
    WrittenBehindTorn(c, spec, f, ix, canonical);
    LinesIncrease(g.bytes);
    assert Increasing(some) by { SomeIncrease(Lines(f.bytes), TornLine(f.bytes), record); }
    CarryingFacts(c, some, field, values);
    CarryingFacts(c, whole, field, values);
    forall r ensures Tagged(c, g.bytes, ix'.tables, field, values, r) <==> r == Reference(c, some, field, values) {
      TaggedOver(c, spec, g.bytes, some, field, values, r);
    }
    RebuiltDisagrees(c, spec, g, some, field, values);
  }

  lemma SomeIncrease(lines: seq<Line>, torn: Line, record: Line)
    requires Increasing(lines + [torn, record])
    ensures Increasing(lines + [record])
  {
    var all, some := lines + [torn, record], lines + [record];
    assert all[|lines| + 1] == record && forall i :: 0 <= i < |lines| ==> all[i] == some[i];
  }

  /** What one pass over an index of these lines reads. */
  ghost function Reference(c: Codec, lines: seq<Line>, field: string, values: seq<string>): Option<seq<Bytes>> {
    if exists l :: l in CarryingLines(c, lines, field, values) && EndsInReturn(l.raw) then None
    else Some(Texts(CarryingLines(c, lines, field, values)))
  }

  /** Where a pass over some lines fails, one over a rebuilt index fails too. */
  lemma RebuiltDisagrees(c: Codec, spec: Spec, g: File, some: seq<Line>, field: string, values: seq<string>)
    requires PlainSpec(spec) && field in spec.tags && Increasing(some) && forall l :: l in some ==> l in Lines(g.bytes)
    ensures Reference(c, some, field, values) == None && CatchUp(c, spec, g, FORGOTTEN, HOOK).0 ==>
      forall r :: Tagged(c, g.bytes, CatchUp(c, spec, g, FORGOTTEN, HOOK).1.tables, field, values, r) ==> r == None
  {
    hide Tagged, Carries;
    if Reference(c, some, field, values) == None && CatchUp(c, spec, g, FORGOTTEN, HOOK).0 {
      CatchUpExact(c, spec, g, FORGOTTEN, HOOK);
      LinesIncrease(g.bytes);
      CarryingFacts(c, some, field, values);
      CarryingFacts(c, Lines(g.bytes), field, values);
      forall r ensures Tagged(c, g.bytes, IndexOf(c, spec, g.bytes), field, values, r) ==> r == None {
        TaggedExact(c, spec, g.bytes, field, values, r);
      }
    }
  }

  // ----- runs -----

  datatype State = State(file: File, index: Index)

  datatype Event =
    | Appending(canonical: Bytes, indexed: bool)
    | Grown(more: Bytes)
    | IndexDeleted
    | Replaced(file: File)
    | Reading(field: string, values: seq<string>)
    | Refreshed

  /** The cursor can tell: if it takes the new file for the one it read, it took the old one for
      it too, and what it had read is still there. */
  ghost predicate Noticed(ix: Index, f: File, g: File) {
    Current(ix.cursor, g) ==>
      Current(ix.cursor, f) && g.bytes[..ix.cursor.value.length] == f.bytes[..ix.cursor.value.length]
  }

  lemma NoticedKeepsTrust(c: Codec, spec: Spec, f: File, g: File, ix: Index)
    requires Trusted(c, spec, f, ix) && Noticed(ix, f, g)
    ensures Trusted(c, spec, g, ix)
  {
  }

  /** A ledger the cursor had read, that only grew, is always noticed. */
  lemma GrowthIsNoticed(ix: Index, f: File, more: Bytes)
    requires Current(ix.cursor, f)
    ensures Noticed(ix, f, f.(bytes := f.bytes + more))
  {
  }

  /** One event: an append through the index, a write around it (whole or torn, by a process that
      died before indexing it), the loss of the index, a replaced ledger, a read, or a refresh. */
  ghost predicate Next(c: Codec, spec: Spec, s: State, e: Event, s': State) {
    match e
    case Appending(canonical, indexed) =>
      var (g, ix, _) := Append(c, spec, s.file, s.index, canonical, indexed);
      && s' == State(g, ix) && CleanLine(canonical)
      && (if indexed then TornHarmless(c, spec, s.file.bytes) else Noticed(s.index, s.file, g))
    case Grown(more) =>
      && s' == State(s.file.(bytes := s.file.bytes + more), s.index)
      && Noticed(s.index, s.file, s'.file)
    case IndexDeleted => s' == State(s.file, FORGOTTEN)
    case Replaced(g) => s' == State(g, s.index) && Noticed(s.index, s.file, g)
    case Reading(field, values) =>
      s'.file == s.file && exists answer :: ReadTagged(c, spec, s.file, s.index, field, values, s'.index, answer)
    case Refreshed => s' == State(s.file, CatchUp(c, spec, s.file, s.index, None).1)
  }

  lemma NextKeepsTrust(c: Codec, spec: Spec, s: State, e: Event, s': State)
    requires PlainSpec(spec) && Next(c, spec, s, e, s') && Trusted(c, spec, s.file, s.index)
    ensures Trusted(c, spec, s'.file, s'.index)
  {
    match e
    case Appending(canonical, indexed) => AppendingKeepsTrust(c, spec, s, canonical, indexed, s');
    case Grown(_) => NoticedKeepsTrust(c, spec, s.file, s'.file, s.index);
    case IndexDeleted =>
    case Replaced(g) => NoticedKeepsTrust(c, spec, s.file, g, s.index);
    case Reading(field, values) =>
      var answer :| ReadTagged(c, spec, s.file, s.index, field, values, s'.index, answer);
      ReadTaggedExact(c, spec, s.file, s.index, field, values, s'.index, answer);
    case Refreshed => CatchUpExact(c, spec, s.file, s.index, None);
  }

  lemma CatchUpKeepsTrust(c: Codec, spec: Spec, f: File, ix: Index)
    requires Trusted(c, spec, f, ix)
    ensures Trusted(c, spec, f, CatchUp(c, spec, f, ix, HOOK).1)
  {
    if CatchUp(c, spec, f, ix, HOOK).0 {
      CatchUpExact(c, spec, f, ix, HOOK);
    }
  }

  lemma UnwrittenKeepsTrust(c: Codec, spec: Spec, f: File, ix: Index, canonical: Bytes, indexed: bool)
    requires Trusted(c, spec, f, ix) && Append(c, spec, f, ix, canonical, indexed).2 != Written
    ensures Trusted(c, spec, f, Append(c, spec, f, ix, canonical, indexed).1)
  {
    hide Lookup, Identity, CatchUp, WriteLine, InsertRecord;
    CatchUpKeepsTrust(c, spec, f, ix);
    CatchUpKeepsTrust(c, spec, f, FORGOTTEN);
  }

  lemma UnindexedKeepsIndex(c: Codec, spec: Spec, f: File, ix: Index, canonical: Bytes)
    requires Append(c, spec, f, ix, canonical, false).2 == Written
    ensures Append(c, spec, f, ix, canonical, false).1 == ix
  {
  }

  lemma AppendingKeepsTrust(c: Codec, spec: Spec, s: State, canonical: Bytes, indexed: bool, s': State)
    requires Next(c, spec, s, Appending(canonical, indexed), s') && Trusted(c, spec, s.file, s.index)
    ensures Trusted(c, spec, s'.file, s'.index)
  {
    hide Append, Trusted, Noticed, TornHarmless;
    AppendSound(c, spec, s.file, s.index, canonical, indexed);
    if Append(c, spec, s.file, s.index, canonical, indexed).2 != Written {
      UnwrittenKeepsTrust(c, spec, s.file, s.index, canonical, indexed);
    } else if indexed {
      AppendKeepsTrust(c, spec, s.file, s.index, canonical);
    } else {
      UnindexedKeepsIndex(c, spec, s.file, s.index, canonical);
      NoticedKeepsTrust(c, spec, s.file, s'.file, s.index);
    }
  }

  ghost predicate Run(c: Codec, spec: Spec, states: seq<State>, events: seq<Event>) {
    && |states| == |events| + 1
    && forall i :: 0 <= i < |events| ==> Next(c, spec, states[i], events[i], states[i + 1])
  }

  /** In every run, at every point, a tagged read that answers returns exactly the scan's answer. */
  lemma {:induction false} RunReadsExactly(c: Codec, spec: Spec, states: seq<State>, events: seq<Event>, at: nat)
    requires PlainSpec(spec) && Run(c, spec, states, events) && at < |states|
    requires Trusted(c, spec, states[0].file, states[0].index)
    ensures Trusted(c, spec, states[at].file, states[at].index)
    ensures forall field, values, ix', lines ::
      ReadTagged(c, spec, states[at].file, states[at].index, field, values, ix', Found(lines)) ==>
      lines == Texts(CarryingLines(c, Lines(states[at].file.bytes), field, values))
  {
    hide CatchUp, Append, Carries, Lines;
    if at > 0 {
      RunReadsExactly(c, spec, states, events, at - 1);
      NextKeepsTrust(c, spec, states[at - 1], events[at - 1], states[at]);
    }
    forall field, values, ix', lines | ReadTagged(c, spec, states[at].file, states[at].index, field, values, ix', Found(lines))
      ensures lines == Texts(CarryingLines(c, Lines(states[at].file.bytes), field, values)) {
      ReadTaggedExact(c, spec, states[at].file, states[at].index, field, values, ix', Found(lines));
    }
  }

  /** No two lines hold records with one identity, and every line can be confirmed. */
  ghost predicate DistinctRecords(c: Codec, spec: Spec, b: Bytes) {
    && Terminated(b)
    && (forall l :: l in Lines(b) ==> !EndsInReturn(l.raw))
    && (forall i, j, key :: 0 <= i < j < |Lines(b)| && Identified(c, spec, Lines(b)[i], key) ==> !Identified(c, spec, Lines(b)[j], key))
  }

  lemma AppendKeepsDistinct(c: Codec, spec: Spec, f: File, ix: Index, canonical: Bytes, indexed: bool)
    requires Trusted(c, spec, f, ix) && CleanLine(canonical) && DistinctRecords(c, spec, f.bytes)
    ensures var g := Append(c, spec, f, ix, canonical, indexed).0;
      DistinctRecords(c, spec, g.bytes) && f.bytes <= g.bytes
  {
    AppendSound(c, spec, f, ix, canonical, indexed);
    var (g, _, answer) := Append(c, spec, f, ix, canonical, indexed);
    if answer == Written {
      AppendExact(c, spec, f, ix, canonical, indexed);
      var key := Identity(c, spec, c.parse(canonical).value, canonical);
      FirstWithExact(c, spec, Lines(f.bytes), key);
      WrittenLines(f, canonical);
      var before, record := Lines(f.bytes), Line(|f.bytes|, canonical);
      assert Lines(g.bytes) == before + [record];
      forall i, j, k | 0 <= i < j < |Lines(g.bytes)| && Identified(c, spec, Lines(g.bytes)[i], k)
        ensures !Identified(c, spec, Lines(g.bytes)[j], k) {
        assert Lines(g.bytes)[i] == before[i] && before[i] in before;
        if j < |before| {
          assert Lines(g.bytes)[j] == before[j];
        }
      }
    }
  }

  lemma StepKeepsDistinct(c: Codec, spec: Spec, s: State, e: Event, s': State)
    requires PlainSpec(spec) && Next(c, spec, s, e, s') && !e.Grown? && !e.Replaced?
    requires Trusted(c, spec, s.file, s.index) && DistinctRecords(c, spec, s.file.bytes)
    ensures DistinctRecords(c, spec, s'.file.bytes) && s.file.bytes <= s'.file.bytes
  {
    if e.Appending? {
      AppendKeepsDistinct(c, spec, s.file, s.index, e.canonical, e.indexed);
    }
  }

  /** Whatever writers and crashes between a write and its indexing, a ledger written only through
      `append` keeps its identities pairwise distinct, and what was written first stands. */
  lemma {:induction false} AppendsKeepDistinct(c: Codec, spec: Spec, states: seq<State>, events: seq<Event>, at: nat)
    requires PlainSpec(spec) && Run(c, spec, states, events) && at < |states|
    requires forall i :: 0 <= i < |events| ==> !events[i].Grown? && !events[i].Replaced?
    requires Trusted(c, spec, states[0].file, states[0].index) && DistinctRecords(c, spec, states[0].file.bytes)
    ensures DistinctRecords(c, spec, states[at].file.bytes) && states[0].file.bytes <= states[at].file.bytes
  {
    hide CatchUp, Append, Trusted, DistinctRecords, Next;
    if at > 0 {
      AppendsKeepDistinct(c, spec, states, events, at - 1);
      RunReadsExactly(c, spec, states, events, at - 1);
      StepKeepsDistinct(c, spec, states[at - 1], events[at - 1], states[at]);
    }
  }
}
