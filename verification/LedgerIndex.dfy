/**
 The persisted identity index over an append-only ledger (ledger_index.rs). The ledger is the
 authority; the `keys`, `tags` and `cursor` tables are a projection that catches up with it, checks
 every answer against it, and is rebuilt when it disagrees.
 */
module LedgerIndex {
  import opened Wrappers
  import opened Utf8
  import opened LedgerLines
  import opened LedgerIdentity

  const INDEX_VERSION := 2
  const TAIL_BYTES := 64
  const HOOK_CATCH_UP_BYTES := 64 * 1024 * 1024

  datatype File = File(device: int, inode: int, bytes: Bytes)

  datatype Span = Span(offset: nat, length: nat)

  datatype Cursor = Cursor(version: int, device: int, inode: int, length: nat, tail: Bytes)

  /** Rows of one ledger: `keys` by key, `tags` by (tag, offset). */
  datatype Tables = Tables(keys: map<Digest, Span>, tags: map<(Digest, nat), nat>)

  datatype Index = Index(cursor: Option<Cursor>, tables: Tables)

  const EMPTY := Tables(map[], map[])

  /** The tags a line is stored under: a record's tag fields, or what an unreadable line spells. */
  function TagsOf(c: Codec, spec: Spec, text: Bytes): seq<Digest> {
    match c.parse(text)
    case Some(record) => RecordTags(record, spec.tags)
    case None => SpelledTags(c, text, spec.tags)
  }

  function RecordTags(record: Record, fields: seq<string>): seq<Digest> {
    if fields == [] then []
    else (match GetText(record, fields[0]) case Some(v) => [Tag(fields[0], v)] case None => []) + RecordTags(record, fields[1..])
  }

  function SpelledTags(c: Codec, text: Bytes, fields: seq<string>): seq<Digest> {
    if fields == [] then [] else ValueTags(fields[0], Spelled(c, text, fields[0])) + SpelledTags(c, text, fields[1..])
  }

  function ValueTags(field: string, values: seq<string>): seq<Digest> {
    if values == [] then [] else [Tag(field, values[0])] + ValueTags(field, values[1..])
  }

  /** INSERT OR IGNORE: the row that is there stands. */
  function InsertKey(keys: map<Digest, Span>, key: Digest, span: Span): map<Digest, Span> {
    if key in keys then keys else keys[key := span]
  }

  function InsertTags(tags: map<(Digest, nat), nat>, added: seq<Digest>, span: Span): map<(Digest, nat), nat>
    decreases |added|
  {
    if added == [] then tags
    else
      var row := (added[0], span.offset);
      InsertTags(if row in tags then tags else tags[row := span.length], added[1..], span)
  }

  /** What reading one whole line adds: `insert`, or `insert_unreadable`. */
  function IndexLine(c: Codec, spec: Spec, t: Tables, l: Line): Tables {
    var text := Strip(l.raw);
    var span := Span(l.offset, |text|);
    Tables(
      match c.parse(text) case Some(record) => InsertKey(t.keys, Identity(c, spec, record, text), span) case None => t.keys,
      InsertTags(t.tags, TagsOf(c, spec, text), span))
  }

  function IndexAll(c: Codec, spec: Spec, t: Tables, lines: seq<Line>): Tables
    decreases |lines|
  {
    if lines == [] then t else IndexAll(c, spec, IndexLine(c, spec, t, lines[0]), lines[1..])
  }

  /** The index a reader of the whole ledger would build. */
  function IndexOf(c: Codec, spec: Spec, b: Bytes): Tables {
    IndexAll(c, spec, EMPTY, Lines(b))
  }

  function ReadTail(b: Bytes, length: nat): Bytes
    requires length <= |b|
  {
    b[(if length < TAIL_BYTES then 0 else length - TAIL_BYTES)..length]
  }

  function CursorAt(f: File, length: nat): Cursor
    requires length <= |f.bytes|
  {
    Cursor(INDEX_VERSION, f.device, f.inode, length, ReadTail(f.bytes, length))
  }

  /** Whether the cursor takes `f` for the ledger it read: same device, inode and last bytes. */
  predicate Current(cursor: Option<Cursor>, f: File) {
    cursor.Some? && cursor.value.length <= |f.bytes| && cursor.value == CursorAt(f, cursor.value.length)
  }

  /** `catch_up`: false when the ledger is further ahead than the budget. */
  function CatchUp(c: Codec, spec: Spec, f: File, ix: Index, budget: Option<nat>): (r: (bool, Index)) {
    if Current(ix.cursor, f) && ix.cursor.value.length == |f.bytes| then (true, ix)
    else
      var start := if Current(ix.cursor, f) then ix.cursor.value.length else 0;
      var tables := if Current(ix.cursor, f) then ix.tables else EMPTY;
      if budget.Some? && |f.bytes| - start > budget.value then (false, Index(ix.cursor, tables))
      else
        (true, Index(Some(CursorAt(f, EndOfLines(f.bytes, start))), IndexAll(c, spec, tables, LinesFrom(f.bytes, start))))
  }

  const HOOK := Some(HOOK_CATCH_UP_BYTES)

  const FORGOTTEN := Index(None, EMPTY)

  // ----- append -----

  datatype Appended = Present | Written | Behind | NotAnObject

  predicate Confirmed(c: Codec, spec: Spec, f: File, span: Span, key: Digest) {
    match LineAt(f.bytes, span.offset, span.length)
    case Some(line) => c.parse(line).Some? && Identity(c, spec, c.parse(line).value, line) == key
    case None => false
  }

  predicate Lookup(c: Codec, spec: Spec, f: File, t: Tables, key: Digest) {
    key in t.keys && Confirmed(c, spec, f, t.keys[key], key)
  }

  /** `write_line` (store.rs 550-576): a torn tail is terminated before the record is written. */
  function WriteLine(f: File, canonical: Bytes): File {
    f.(bytes := RecordOffsetBytes(f.bytes) + canonical + [NEWLINE])
  }

  function RecordOffsetBytes(b: Bytes): Bytes {
    if Terminated(b) then b else b + [NEWLINE]
  }

  /** What `append` leaves: the ledger, the committed index, and its answer. `indexed` is false
      when the process dies, or the index fails, after the line was written. */
  function Append(c: Codec, spec: Spec, f: File, ix: Index, canonical: Bytes, indexed: bool): (File, Index, Appended) {
    match c.parse(canonical)
    case None => (f, ix, NotAnObject)
    case Some(record) =>
      var (ok, ix1) := CatchUp(c, spec, f, ix, HOOK);
      if !ok then (f, ix, Behind)
      else
        var key := Identity(c, spec, record, canonical);
        if Lookup(c, spec, f, ix1.tables, key) then (f, ix1, Present)
        else if key !in ix1.tables.keys then WriteRecord(c, spec, f, ix, ix1, canonical, indexed)
        else
          var (again, ix2) := CatchUp(c, spec, f, FORGOTTEN, HOOK);
          if !again then (f, ix2, Behind)
          else if Lookup(c, spec, f, ix2.tables, key) then (f, ix2, Present)
          else WriteRecord(c, spec, f, ix, ix2, canonical, indexed)
  }

  function WriteRecord(c: Codec, spec: Spec, f: File, committed: Index, tx: Index, canonical: Bytes, indexed: bool): (File, Index, Appended)
    requires c.parse(canonical).Some?
  {
    var g := WriteLine(f, canonical);
    var line := Line(|RecordOffsetBytes(f.bytes)|, canonical);
    (g, if indexed then Index(Some(CursorAt(g, |g.bytes|)), InsertRecord(c, spec, tx.tables, line)) else committed, Written)
  }

  /** `insert` for a line just written: its length is the line's, nothing stripped. */
  function InsertRecord(c: Codec, spec: Spec, t: Tables, l: Line): Tables
    requires c.parse(l.raw).Some?
  {
    var record := c.parse(l.raw).value;
    var span := Span(l.offset, |l.raw|);
    Tables(InsertKey(t.keys, Identity(c, spec, record, l.raw), span), InsertTags(t.tags, RecordTags(record, spec.tags), span))
  }

  // ----- read_tagged -----

  datatype Answer = NotIndexed | TooFarBehind | Found(lines: seq<Bytes>) | Disagrees

  ghost predicate Before(a: Span, b: Span) {
    a.offset < b.offset || (a.offset == b.offset && a.length < b.length)
  }

  ghost predicate Ordered(spans: seq<Span>) {
    forall i, j :: 0 <= i < j < |spans| ==> Before(spans[i], spans[j])
  }

  /** The spans the `tags` table names for one of `values`. */
  function SpansFor(t: Tables, field: string, values: seq<string>): set<Span> {
    set row | row in t.tags && (exists i :: 0 <= i < |values| && row.0 == Tag(field, values[i])) :: Span(row.1, t.tags[row])
  }

  /** The spans' lines, when the ledger holds every one whole and with the tag. */
  function Confirm(c: Codec, b: Bytes, spans: seq<Span>, field: string, values: seq<string>): Option<seq<Bytes>> {
    if spans == [] then Some([])
    else
      match LineAt(b, spans[0].offset, spans[0].length)
      case None => None
      case Some(line) =>
        if !Carries(c, line, field, values) then None
        else match Confirm(c, b, spans[1..], field, values)
          case None => None
          case Some(rest) => Some([line] + rest)
  }

  /** One pass of `tagged`: the named spans in order, read back. */
  ghost predicate Tagged(c: Codec, b: Bytes, t: Tables, field: string, values: seq<string>, r: Option<seq<Bytes>>) {
    exists spans :: Ordered(spans) && (forall s :: s in spans <==> s in SpansFor(t, field, values)) && r == Confirm(c, b, spans, field, values)
  }

  /** What `read_tagged` may answer, and the index it leaves committed. */
  ghost predicate ReadTagged(c: Codec, spec: Spec, f: File, ix: Index, field: string, values: seq<string>, ix': Index, answer: Answer) {
    var (ok, ix1) := CatchUp(c, spec, f, ix, HOOK);
    var (again, ix2) := CatchUp(c, spec, f, FORGOTTEN, HOOK);
    if field !in spec.tags then answer == NotIndexed && ix' == ix
    else if !ok then answer == TooFarBehind && ix' == ix
    else
      || (answer.Found? && ix' == ix1 && Tagged(c, f.bytes, ix1.tables, field, values, Some(answer.lines)))
      || (&& Tagged(c, f.bytes, ix1.tables, field, values, None)
          && if !again then answer == TooFarBehind && ix' == ix2
             else || (answer.Found? && ix' == ix2 && Tagged(c, f.bytes, ix2.tables, field, values, Some(answer.lines)))
                  || (answer == Disagrees && ix' == ix && Tagged(c, f.bytes, ix2.tables, field, values, None)))
  }

  // ----- the projection agrees with the ledger -----

  /** The invariant every process leaves behind: when the cursor takes the file for the ledger it
      read, the tables are what a scan of that much of the ledger builds. */
  ghost predicate Trusted(c: Codec, spec: Spec, f: File, ix: Index) {
    Current(ix.cursor, f) ==>
      && Boundary(f.bytes, ix.cursor.value.length)
      && ix.tables == IndexOf(c, spec, f.bytes[..ix.cursor.value.length])
  }

  lemma {:induction false} IndexAllConcat(c: Codec, spec: Spec, t: Tables, a: seq<Line>, b: seq<Line>)
    ensures IndexAll(c, spec, t, a + b) == IndexAll(c, spec, IndexAll(c, spec, t, a), b)
    decreases |a|
  {
    if a == [] {
      assert a + b == b;
    } else {
      assert (a + b)[1..] == a[1..] + b;
      IndexAllConcat(c, spec, IndexLine(c, spec, t, a[0]), a[1..], b);
    }
  }

  /** Incremental catch-up equals indexing the ledger from its first byte. */
  lemma CatchUpExact(c: Codec, spec: Spec, f: File, ix: Index, budget: Option<nat>)
    requires Trusted(c, spec, f, ix)
    requires CatchUp(c, spec, f, ix, budget).0
    ensures var ix1 := CatchUp(c, spec, f, ix, budget).1;
      && Current(ix1.cursor, f) && ix1.cursor.value.length == EndOfLines(f.bytes, 0)
      && ix1.tables == IndexOf(c, spec, f.bytes)
      && Trusted(c, spec, f, ix1)
  {
    var b := f.bytes;
    var start := if Current(ix.cursor, f) then ix.cursor.value.length else 0;
    assert b[..0] == [];
    LinesSplit(b, start);
    IndexAllConcat(c, spec, EMPTY, Lines(b[..start]), LinesFrom(b, start));
    EndIsBoundary(b, 0);
    LinesOfWhole(b);
    if start == |b| {
      assert b[..start] == b;
    } else {
      assert Lines([]) == [];
    }
  }
}
