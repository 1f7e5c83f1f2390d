/** What identifies a ledger's records and what readers look them up by (ledger_index.rs 52-135, 270-324). */
module LedgerIdentity {
  import opened Wrappers
  import opened Utf8
  import opened KeyOrder
  import opened JsonValue
  import JsonWriter
  import JsonStrict
  import LedgerLines

  type Record = seq<Member<Value>>

  datatype Spec = Spec(key: seq<string>, tags: seq<string>)

  /** The ledgers that are indexed. */
  function SpecFor(name: string): Option<Spec> {
    match name
    case "observations.jsonl" => Some(Spec(["observation_id"], ["source_identity"]))
    case "session-events.jsonl" => Some(Spec(["session_id", "event_id"], ["session_id"]))
    case "atoms.jsonl" => Some(Spec(["atom_id"], ["observation_id"]))
    case "session-checkpoints.jsonl" => Some(Spec(["checkpoint_id"], ["session_id"]))
    case "candidates.jsonl" => Some(Spec(["candidate_id"], ["session_id"]))
    case _ => None
  }

  /** The readers the index calls: a line as a record, a quoted string as text, and NFC. */
  datatype Codec = Codec(parse: Bytes -> Option<Record>, unquote: Bytes -> Option<string>, nfc: string -> string)

  /** SHA-256 as an ideal hash: two digests are equal exactly when the hashed bytes are. */
  datatype Digest = Sha256(preimage: Bytes)

  function Get(record: Record, field: string): Option<Value> {
    if record == [] then None
    else if record[0].key == field then Some(record[0].value)
    else Get(record[1..], field)
  }

  /** The string a record holds at `field`, when it holds one. */
  function GetText(record: Record, field: string): Option<string> {
    match Get(record, field)
    case Some(Str(text)) => Some(text)
    case _ => None
  }

  predicate HasKey(spec: Spec, record: Record) {
    forall i :: 0 <= i < |spec.key| ==> GetText(record, spec.key[i]).Some?
  }

  function KeyTexts(fields: seq<string>, record: Record): seq<string>
    requires forall i :: 0 <= i < |fields| ==> GetText(record, fields[i]).Some?
  {
    if fields == [] then [] else [GetText(record, fields[0]).value] + KeyTexts(fields[1..], record)
  }

  const NUL: char := 0 as char

  function Joined(texts: seq<string>, nfc: string -> string): string {
    if texts == [] then "" else [NUL] + JsonWriter.Canonical(Str(texts[0]), nfc) + Joined(texts[1..], nfc)
  }

  /** `identity`: the digest of the key fields' values, or of the whole line when one is missing. */
  function Identity(c: Codec, spec: Spec, record: Record, line: Bytes): Digest {
    if HasKey(spec, record) then Sha256(Encode("key" + Joined(KeyTexts(spec.key, record), c.nfc)))
    else Sha256(Encode("line" + [NUL]) + line)
  }

  /** What the key fields from the i-th on add to the text that is hashed. */
  function JoinedFrom(c: Codec, spec: Spec, record: Record, i: nat): string
    requires i <= |spec.key| && HasKey(spec, record)
  {
    Joined(KeyTexts(spec.key[i..], record), c.nfc)
  }

  lemma JoinedStart(c: Codec, spec: Spec, record: Record)
    requires HasKey(spec, record)
    ensures JoinedFrom(c, spec, record, 0) == Joined(KeyTexts(spec.key, record), c.nfc)
    ensures JoinedFrom(c, spec, record, |spec.key|) == ""
  {
    assert spec.key[0..] == spec.key;
  }

  lemma JoinedNext(c: Codec, spec: Spec, record: Record, i: nat, text: string)
    requires i < |spec.key| && HasKey(spec, record)
    ensures text + JoinedFrom(c, spec, record, i) ==
            text + [NUL] + JsonWriter.Canonical(Str(GetText(record, spec.key[i]).value), c.nfc) + JoinedFrom(c, spec, record, i + 1)
  {
    hide JsonWriter.Canonical;
    var value, rest := GetText(record, spec.key[i]).value, KeyTexts(spec.key[i + 1..], record);
    assert spec.key[i..][1..] == spec.key[i + 1..];
    assert KeyTexts(spec.key[i..], record) == [value] + rest && ([value] + rest)[1..] == rest;
  }

  /** The loop of `identity`, with its early return. */
  method IdentityOf(c: Codec, spec: Spec, record: Record, line: Bytes) returns (r: Digest)
    ensures r == Identity(c, spec, record, line)
  {
    hide JsonWriter.Canonical, Encode, JoinedFrom;
    var text := "key";
    if HasKey(spec, record) {
      JoinedStart(c, spec, record);
    }
    for i := 0 to |spec.key|
      invariant forall k :: 0 <= k < i ==> GetText(record, spec.key[k]).Some?
      invariant HasKey(spec, record) ==> text + JoinedFrom(c, spec, record, i) == "key" + JoinedFrom(c, spec, record, 0)
    {
      match GetText(record, spec.key[i]) {
        case Some(value) =>
          if HasKey(spec, record) {
            JoinedNext(c, spec, record, i, text);
          }
          text := text + [NUL] + JsonWriter.Canonical(Str(value), c.nfc);
        case None =>
          return Sha256(Encode("line" + [NUL]) + line);
      }
    }
    assert text + "" == text;
    return Sha256(Encode(text));
  }

  function Tag(field: string, value: string): Digest {
    Sha256(Encode(field + [NUL] + value))
  }

  lemma {:induction false} SplitAtNul(a: string, x: string, b: string, y: string)
    requires NUL !in a && NUL !in b
    requires x == "" || x[0] == NUL
    requires y == "" || y[0] == NUL
    requires a + x == b + y
    ensures a == b && x == y
  {
    assert a == "" ==> a + x == x;
    assert b == "" ==> b + y == y;
    assert a != "" ==> (a + x)[0] == a[0] && a[0] in a;
    assert b != "" ==> (b + y)[0] == b[0] && b[0] in b;
    if a != "" && b != "" {
      assert (a + x)[1..] == a[1..] + x && (b + y)[1..] == b[1..] + y;
      SplitAtNul(a[1..], x, b[1..], y);
      assert a == [a[0]] + a[1..] && b == [b[0]] + b[1..];
    }
  }

  /** Tags of different fields or values differ. */
  lemma TagInjective(f: string, v: string, g: string, w: string)
    requires NUL !in f && NUL !in g
    ensures Tag(f, v) == Tag(g, w) <==> f == g && v == w
  {
    if Tag(f, v) == Tag(g, w) {
      assert f + [NUL] + v == f + ([NUL] + v) && g + [NUL] + w == g + ([NUL] + w);
      EncodeInjective(f + [NUL] + v, g + [NUL] + w);
      SplitAtNul(f, [NUL] + v, g, [NUL] + w);
      assert v == ([NUL] + v)[1..] && w == ([NUL] + w)[1..];
    }
  }

  lemma {:induction false} QuotedHasNoNul(text: string)
    ensures NUL !in JsonWriter.QuoteBody(text) && NUL !in JsonWriter.Quoted(text)
  {
    if text != [] {
      QuotedHasNoNul(text[1..]);
      assert NUL !in JsonWriter.QuoteChar(text[0]);
    }
  }

  lemma QuotedInjective(s: string, t: string)
    requires JsonWriter.Quoted(s) == JsonWriter.Quoted(t)
    ensures s == t
  {
    var a, b := JsonWriter.QuoteBody(s), JsonWriter.QuoteBody(t);
    assert a == JsonWriter.Quoted(s)[1..|a| + 1] && b == JsonWriter.Quoted(t)[1..|b| + 1];
    JsonStrict.QuoteDecodes(s);
    JsonStrict.QuoteDecodes(t);
  }

  lemma DropNul(p: string, x: string)
    ensures ([NUL] + p + x)[1..] == p + x
  {
  }

  lemma {:induction false} JoinedInjective(a: seq<string>, b: seq<string>, nfc: string -> string)
    requires |a| == |b| && Joined(a, nfc) == Joined(b, nfc)
    ensures forall i :: 0 <= i < |a| ==> nfc(a[i]) == nfc(b[i])
  {
    if a != [] {
      var p, q := JsonWriter.Quoted(nfc(a[0])), JsonWriter.Quoted(nfc(b[0]));
      var x, y := Joined(a[1..], nfc), Joined(b[1..], nfc);
      QuotedHasNoNul(nfc(a[0]));
      QuotedHasNoNul(nfc(b[0]));
      DropNul(p, x);
      DropNul(q, y);
      assert p + x == q + y;
      SplitAtNul(p, x, q, y);
      QuotedInjective(nfc(a[0]), nfc(b[0]));
      JoinedInjective(a[1..], b[1..], nfc);
    }
  }

  lemma {:induction false} JoinedDetermined(a: seq<string>, b: seq<string>, nfc: string -> string)
    requires |a| == |b| && forall i :: 0 <= i < |a| ==> nfc(a[i]) == nfc(b[i])
    ensures Joined(a, nfc) == Joined(b, nfc)
  {
    if a != [] {
      JoinedDetermined(a[1..], b[1..], nfc);
    }
  }

  lemma {:induction false} KeyTextsAt(fields: seq<string>, record: Record)
    requires forall i :: 0 <= i < |fields| ==> GetText(record, fields[i]).Some?
    ensures |KeyTexts(fields, record)| == |fields|
    ensures forall i :: 0 <= i < |fields| ==> KeyTexts(fields, record)[i] == GetText(record, fields[i]).value
  {
    if fields != [] {
      KeyTextsAt(fields[1..], record);
    }
  }

  /** A record's identity is its key fields' values, up to NFC, and nothing else; a record without
      them is identified by its line, and never collides with one that has them. */
  lemma IdentityExact(c: Codec, spec: Spec, r: Record, line: Bytes, s: Record, other: Bytes)
    ensures Identity(c, spec, r, line) == Identity(c, spec, s, other) <==>
      if HasKey(spec, r) then
        && HasKey(spec, s)
        && forall i :: 0 <= i < |spec.key| ==>
             c.nfc(GetText(r, spec.key[i]).value) == c.nfc(GetText(s, spec.key[i]).value)
      else !HasKey(spec, s) && line == other
  {
    var prefix := Encode("line" + [NUL]);
    assert "line" + [NUL] == ['l'] + ("ine" + [NUL]);
    EncodeConcat(['l'], "ine" + [NUL]);
    assert EncodeChar('l') == Encode(['l']) by { assert ['l'][1..] == []; }
    if HasKey(spec, r) {
      KeyTextsAt(spec.key, r);
    }
    if HasKey(spec, s) {
      KeyTextsAt(spec.key, s);
    }
    if HasKey(spec, r) && HasKey(spec, s) {
      var a, b := KeyTexts(spec.key, r), KeyTexts(spec.key, s);
      if Identity(c, spec, r, line) == Identity(c, spec, s, other) {
        EncodeInjective("key" + Joined(a, c.nfc), "key" + Joined(b, c.nfc));
        assert Joined(a, c.nfc) == ("key" + Joined(a, c.nfc))[3..] == ("key" + Joined(b, c.nfc))[3..];
        JoinedInjective(a, b, c.nfc);
      } else if forall i :: 0 <= i < |spec.key| ==> c.nfc(a[i]) == c.nfc(b[i]) {
        JoinedDetermined(a, b, c.nfc);
      }
    } else if !HasKey(spec, r) && !HasKey(spec, s) {
      assert line == (prefix + line)[|prefix|..] && other == (prefix + other)[|prefix|..];
    } else {
      assert prefix[0] == 'l' as int as byte;
      assert forall t :: Encode("key" + t)[0] == 'k' as int as byte by {
        forall t ensures Encode("key" + t)[0] == 'k' as int as byte {
          assert ("key" + t)[0] == 'k';
          assert Encode("key" + t) == EncodeChar('k') + Encode(("key" + t)[1..]);
        }
      }
      assert forall l: Bytes :: (prefix + l)[0] == 'l' as int as byte;
    }
  }

  // ----- unreadable lines -----

  predicate OccursAt(line: Bytes, needle: Bytes, at: nat) {
    at + |needle| <= |line| && line[at..at + |needle|] == needle
  }

  /** `bytes_find` from `from` on: the first occurrence, if any. */
  function FindFrom(line: Bytes, needle: Bytes, from: nat): (r: Option<nat>)
    requires from <= |line|
    ensures r.Some? ==> from <= r.value && OccursAt(line, needle, r.value)
    ensures r.Some? ==> forall p :: from <= p < r.value ==> !OccursAt(line, needle, p)
    ensures r.None? ==> forall p :: from <= p ==> !OccursAt(line, needle, p)
    decreases |line| - from
  {
    if OccursAt(line, needle, from) then Some(from)
    else if from == |line| then None
    else FindFrom(line, needle, from + 1)
  }

  const QUOTE: byte := 34
  const BACKSLASH: byte := 92
  const COLON: byte := 58

  /** The index of the quote that closes a string, stepping over escaped bytes; past the end when
      the string is cut off. */
  function StringEnd(line: Bytes, from: nat): (e: nat)
    ensures from <= e
    decreases |line| - from
  {
    if from >= |line| || line[from] == QUOTE then from
    else StringEnd(line, from + (if line[from] == BACKSLASH then 2 else 1))
  }

  /** The JSON string written at `start` and there whole. */
  function StringAt(c: Codec, line: Bytes, start: nat): Option<string> {
    if start >= |line| || line[start] != QUOTE then None
    else
      var end := StringEnd(line, start + 1);
      if end >= |line| then None else c.unquote(line[start..end + 1])
  }

  /** How many backslashes stand in a row right before `at`, from `from` on. */
  function Slashes(line: Bytes, from: nat, at: nat): nat
    requires from <= at <= |line|
  {
    if at == from || line[at - 1] != BACKSLASH then 0 else 1 + Slashes(line, from, at - 1)
  }

  /** A quote that no backslash escapes: an even number of them stands before it. */
  predicate ClosingQuote(line: Bytes, from: nat, at: nat) {
    from <= at < |line| && line[at] == QUOTE && Slashes(line, from, at) % 2 == 0
  }

  lemma {:induction false} StringEndFrom(line: Bytes, start: nat, from: nat)
    requires start <= from && (from <= |line| ==> Slashes(line, start, from) % 2 == 0)
    ensures var end := StringEnd(line, from);
      && (end < |line| ==> ClosingQuote(line, start, end))
      && forall at :: from <= at < end ==> !ClosingQuote(line, start, at)
    decreases |line| - from
  {
    if from < |line| && line[from] != QUOTE {
      if line[from] == BACKSLASH {
        assert from + 2 <= |line| ==> Slashes(line, start, from + 1) == 1 + Slashes(line, start, from);
        assert !ClosingQuote(line, start, from + 1);
        StringEndFrom(line, start, from + 2);
      } else {
        StringEndFrom(line, start, from + 1);
      }
    }
  }

  /** The string that opens at `start` ends with the first quote that no backslash escapes, and is read as
      what stands from the one quote to the other. */
  lemma StringAtExact(c: Codec, line: Bytes, start: nat, end: nat, from: nat)
    requires start < |line| && line[start] == QUOTE && from == start + 1
    requires ClosingQuote(line, from, end) && forall at :: from <= at < end ==> !ClosingQuote(line, from, at)
    ensures StringAt(c, line, start) == c.unquote(line[start..end + 1])
  {
    StringEndFrom(line, from, from);
  }

  /** Nothing is read where no string opens, or none is closed. */
  lemma NoStringAt(c: Codec, line: Bytes, start: nat, from: nat)
    requires from == start + 1
    requires start >= |line| || line[start] != QUOTE || forall at :: from <= at ==> !ClosingQuote(line, from, at)
    ensures StringAt(c, line, start) == None
  {
    if start < |line| && line[start] == QUOTE {
      StringEndFrom(line, from, from);
    }
  }

  function FieldMarker(field: string, nfc: string -> string): Bytes {
    Encode(JsonWriter.Canonical(Str(field), nfc)) + [COLON]
  }

  function SpelledFrom(c: Codec, line: Bytes, marker: Bytes, from: nat): seq<string>
    requires from <= |line| && marker != []
    decreases |line| - from
  {
    match FindFrom(line, marker, from)
    case None => []
    case Some(at) => AsSeq(StringAt(c, line, at + |marker|)) + SpelledFrom(c, line, marker, at + |marker|)
  }

  function AsSeq(value: Option<string>): seq<string> {
    match value
    case Some(v) => [v]
    case None => []
  }

  /** `spelled_strings`: every string written right after the field's marker in the line. */
  function Spelled(c: Codec, line: Bytes, field: string): seq<string> {
    SpelledFrom(c, line, FieldMarker(field, c.nfc), 0)
  }

  /** The inner loop of `spelled_strings`: the string at `start`, when it is there whole. */
  method ReadQuoted(c: Codec, line: Bytes, start: nat) returns (value: Option<string>)
    ensures value == StringAt(c, line, start)
  {
    if start >= |line| || line[start] != QUOTE {
      return None;
    }
    var end := start + 1;
    while end < |line| && line[end] != QUOTE
      invariant start + 1 <= end && StringEnd(line, end) == StringEnd(line, start + 1)
      decreases |line| - end
    {
      end := end + (if line[end] == BACKSLASH then 2 else 1);
    }
    if end < |line| {
      value := c.unquote(line[start..end + 1]);
    } else {
      value := None;
    }
  }

  /** One round of the scan: what it has, what it finds next, and what is left. */
  lemma SpelledNext(c: Codec, line: Bytes, marker: Bytes, from: nat, at: nat, values: seq<string>, all: seq<string>)
    requires from <= |line| && marker != [] && FindFrom(line, marker, from) == Some(at)
    requires values + SpelledFrom(c, line, marker, from) == all
    ensures at + |marker| <= |line|
    ensures values + AsSeq(StringAt(c, line, at + |marker|)) + SpelledFrom(c, line, marker, at + |marker|) == all
  {
  }

  lemma SpelledDone(c: Codec, line: Bytes, marker: Bytes, from: nat, values: seq<string>)
    requires from <= |line| && marker != [] && FindFrom(line, marker, from).None?
    ensures values + SpelledFrom(c, line, marker, from) == values
  {
  }

  lemma SpelledNothing(c: Codec, line: Bytes, marker: Bytes)
    requires marker != []
    ensures [] + SpelledFrom(c, line, marker, 0) == SpelledFrom(c, line, marker, 0)
  {
  }

  /** `spelled_strings`. */
  method SpelledStrings(c: Codec, line: Bytes, field: string) returns (values: seq<string>)
    ensures values == Spelled(c, line, field)
  {
    values := SpelledAfter(c, line, FieldMarker(field, c.nfc));
  }

  /** Its loop. */
  method SpelledAfter(c: Codec, line: Bytes, marker: Bytes) returns (values: seq<string>)
    requires marker != []
    ensures values == SpelledFrom(c, line, marker, 0)
  {
    hide SpelledFrom, FindFrom, StringAt;
    values := [];
    var from := 0;
    SpelledNothing(c, line, marker);
    ghost var all := SpelledFrom(c, line, marker, 0);
    var found := FindFrom(line, marker, from);
    while found.Some?
      invariant from <= |line| && found == FindFrom(line, marker, from)
      invariant values + SpelledFrom(c, line, marker, from) == all
      decreases |line| - from
    {
      SpelledNext(c, line, marker, from, found.value, values, all);
      from := found.value + |marker|;
      var value := ReadQuoted(c, line, from);
      values := values + AsSeq(value);
      found := FindFrom(line, marker, from);
    }
    SpelledDone(c, line, marker, from, values);
  }

  /** Occurrences of the marker that overlap would be missed; a marker with no border has none. */
  predicate NoBorder(marker: Bytes) {
    forall k :: 0 < k < |marker| ==> marker[k..] != marker[..|marker| - k]
  }

  lemma OverlapIsBorder(line: Bytes, marker: Bytes, p: nat, q: nat)
    requires OccursAt(line, marker, p) && OccursAt(line, marker, q) && p < q < p + |marker|
    ensures marker[q - p..] == marker[..|marker| - (q - p)]
  {
  }

  lemma NoOverlap(line: Bytes, marker: Bytes, p: nat, q: nat)
    requires NoBorder(marker) && OccursAt(line, marker, p) && OccursAt(line, marker, q) && p < q
    ensures p + |marker| <= q
  {
    if q < p + |marker| {
      OverlapIsBorder(line, marker, p, q);
      assert false;
    }
  }

  /** The marker stands at `p`, right before a whole string that reads as `value`. */
  predicate SpelledAt(c: Codec, line: Bytes, marker: Bytes, p: nat, value: string) {
    OccursAt(line, marker, p) && StringAt(c, line, p + |marker|) == Some(value)
  }

  /** Before an occurrence there is a first one. */
  lemma FirstOccurrence(line: Bytes, marker: Bytes, from: nat, p: nat) returns (at: nat)
    requires from <= p && OccursAt(line, marker, p)
    ensures from <= at <= p && OccursAt(line, marker, at) && FindFrom(line, marker, from) == Some(at)
  {
    at := FindFrom(line, marker, from).value;
  }

  /** The first occurrence settles a value, or leaves it to the rest of the line. */
  lemma FirstOrLater(c: Codec, line: Bytes, marker: Bytes, from: nat, value: string, at: nat)
    requires from <= |line| && marker != [] && FindFrom(line, marker, from) == Some(at)
    ensures at + |marker| <= |line|
    ensures value in SpelledFrom(c, line, marker, from) <==>
            StringAt(c, line, at + |marker|) == Some(value) || value in SpelledFrom(c, line, marker, at + |marker|)
  {
  }

  lemma {:induction false} SpelledSomewhere(c: Codec, line: Bytes, marker: Bytes, from: nat, value: string) returns (p: nat)
    requires from <= |line| && marker != [] && value in SpelledFrom(c, line, marker, from)
    ensures from <= p && SpelledAt(c, line, marker, p, value)
    decreases |line| - from
  {
    hide StringAt, SpelledFrom, OccursAt;
    var at := FirstSpelled(c, line, marker, from, value);
    if StringAt(c, line, at + |marker|) == Some(value) {
      p := at;
    } else {
      p := SpelledSomewhere(c, line, marker, at + |marker|, value);
    }
  }

  lemma FirstSpelled(c: Codec, line: Bytes, marker: Bytes, from: nat, value: string) returns (at: nat)
    requires from <= |line| && marker != [] && value in SpelledFrom(c, line, marker, from)
    ensures from <= at && at + |marker| <= |line| && OccursAt(line, marker, at)
    ensures StringAt(c, line, at + |marker|) == Some(value) || value in SpelledFrom(c, line, marker, at + |marker|)
  {
    at := FindFrom(line, marker, from).value;
    FirstOrLater(c, line, marker, from, value, at);
  }

  /** The first occurrence is `p`, or the scan goes on to before `p`. */
  lemma OneOfThem(c: Codec, line: Bytes, marker: Bytes, from: nat, value: string, p: nat) returns (next: nat)
    requires from <= p <= |line| && marker != [] && NoBorder(marker) && SpelledAt(c, line, marker, p, value)
    ensures p + |marker| <= |line|
    ensures next == p + |marker| ==> value in SpelledFrom(c, line, marker, from)
    ensures next != p + |marker| ==> from < next <= p
    ensures next <= |line| && (value in SpelledFrom(c, line, marker, next) ==> value in SpelledFrom(c, line, marker, from))
  {
    hide StringAt, SpelledFrom;
    var at := FirstOccurrence(line, marker, from, p);
    next := at + |marker|;
    if at < p {
      NoOverlap(line, marker, at, p);
    }
    FirstOrLater(c, line, marker, from, value, at);
  }

  lemma {:induction false} SpelledFound(c: Codec, line: Bytes, marker: Bytes, from: nat, value: string, p: nat)
    requires from <= p <= |line| && marker != [] && NoBorder(marker) && SpelledAt(c, line, marker, p, value)
    ensures value in SpelledFrom(c, line, marker, from)
    decreases p - from
  {
    var next := OneOfThem(c, line, marker, from, value, p);
    if next != p + |marker| {
      SpelledFound(c, line, marker, next, value, p);
    }
  }

  /** The scan misses nothing: a value is found exactly when somewhere in the line the marker
      stands right before a whole string that reads as the value. */
  lemma SpelledExact(c: Codec, line: Bytes, field: string, value: string)
    requires PlainField(field) && c.nfc(field) == field
    ensures value in Spelled(c, line, field) <==> exists p :: SpelledAt(c, line, FieldMarker(field, c.nfc), p, value)
  {
    PlainMarker(field, c.nfc);
    SpelledIff(c, line, FieldMarker(field, c.nfc), value);
  }

  lemma SpelledIff(c: Codec, line: Bytes, marker: Bytes, value: string)
    requires marker != [] && NoBorder(marker)
    ensures value in SpelledFrom(c, line, marker, 0) <==> exists p :: SpelledAt(c, line, marker, p, value)
  {
    if value in SpelledFrom(c, line, marker, 0) {
      var p := SpelledSomewhere(c, line, marker, 0, value);
    }
    if p :| SpelledAt(c, line, marker, p, value) {
      SpelledFound(c, line, marker, 0, value, p);
    }
  }

  /** A field name as the ledgers use them: lowercase ASCII words. */
  predicate PlainField(field: string) {
    field != [] && forall i :: 0 <= i < |field| ==> 'a' <= field[i] <= 'z' || field[i] == '_'
  }

  lemma PlainChar(c: char)
    requires 'a' <= c <= 'z' || c == '_'
    ensures JsonWriter.QuoteChar(c) == [c] && EncodeChar(c) == [c as int as byte]
  {
  }

  lemma {:induction false} PlainQuote(field: string)
    requires forall i :: 0 <= i < |field| ==> 'a' <= field[i] <= 'z' || field[i] == '_'
    ensures |Encode(JsonWriter.QuoteBody(field))| == |field|
    ensures forall i :: 0 <= i < |field| ==> Encode(JsonWriter.QuoteBody(field))[i] == field[i] as int as byte
  {
    if field != [] {
      hide JsonWriter.QuoteChar;
      PlainQuote(field[1..]);
      PlainChar(field[0]);
      assert JsonWriter.QuoteBody(field) == [field[0]] + JsonWriter.QuoteBody(field[1..]);
      assert JsonWriter.QuoteBody(field)[1..] == JsonWriter.QuoteBody(field[1..]);
    }
  }

  /** The markers the ledgers' fields are spelled with have no border. */
  lemma PlainMarker(field: string, nfc: string -> string)
    requires PlainField(field) && nfc(field) == field
    ensures NoBorder(FieldMarker(field, nfc))
  {
    var marker := FieldMarker(field, nfc);
    var body := JsonWriter.QuoteBody(field);
    PlainQuote(field);
    EncodeConcat("\"" + body, "\"");
    EncodeConcat("\"", body);
    assert Encode("\"") == [QUOTE] by { assert "\""[1..] == []; }
    assert marker == [QUOTE] + Encode(body) + [QUOTE] + [COLON];
    forall k | 0 < k < |marker| ensures marker[k..] != marker[..|marker| - k] {
      var tail, head := marker[k..], marker[..|marker| - k];
      assert tail[0] == marker[k] && head[0] == QUOTE;
      assert k == |field| + 1 ==> tail[1] == COLON && head[1] == Encode(body)[0];
    }
  }

  /** Whether `line` carries `field` = one of `values`: as a record, or as its bytes spell it. */
  predicate Carries(c: Codec, line: Bytes, field: string, values: seq<string>) {
    match c.parse(line)
    case Some(record) => GetText(record, field).Some? && GetText(record, field).value in values
    case None => exists i :: 0 <= i < |Spelled(c, line, field)| && Spelled(c, line, field)[i] in values
  }
}
