/** The RFC 8785 writer (json.rs 62-157). */
module JsonWriter {
  import opened Wrappers
  import opened KeyOrder
  import opened JsonValue
  import Hex
  import Utf8

  /** One character inside a JSON string, by the escape set of RFC 8785 section 3.2.2.2. */
  function QuoteChar(c: char): string {
    match c
    case '"' => "\\\""
    case '\\' => "\\\\"
    case '\n' => "\\n"
    case '\r' => "\\r"
    case '\t' => "\\t"
    case _ =>
      if c as int == 8 then "\\b"
      else if c as int == 0xc then "\\f"
      else if (c as int) < 0x20 then "\\u" + Hex.Format(c as int)
      else [c]
  }

  function QuoteBody(text: string): string {
    if text == [] then "" else QuoteChar(text[0]) + QuoteBody(text[1..])
  }

  function Quoted(text: string): string {
    "\"" + QuoteBody(text) + "\""
  }

  function Decimal(n: nat): (r: string)
    ensures r != []
  {
    if n < 10 then [Hex.Digit(n)] else Decimal(n / 10) + [Hex.Digit(n % 10)]
  }

  function IntText(n: int): string {
    if n < 0 then "-" + Decimal(-n) else Decimal(n)
  }

  /** `canonical_unchecked`: text normalised and members sorted on the way out. */
  function Canonical(v: Value, nfc: string -> string): string {
    match v
    case Null => "null"
    case Bool(b) => if b then "true" else "false"
    case Int(n) => IntText(n)
    case Float(token) => token
    case Str(text) => Quoted(nfc(text))
    case Arr(items) => "[" + Commas(CanonicalItems(items, nfc)) + "]"
    case Obj(members) => "{" + Commas(MemberTexts(Sort(CanonicalMembers(members, nfc)))) + "}"
  }

  function CanonicalItems(items: seq<Value>, nfc: string -> string): (r: seq<string>)
    ensures |r| == |items|
  {
    if items == [] then [] else [Canonical(items[0], nfc)] + CanonicalItems(items[1..], nfc)
  }

  /** Each member under its normalised key, its value already written. */
  function CanonicalMembers(members: seq<Member<Value>>, nfc: string -> string): (r: seq<Member<string>>)
    ensures |r| == |members|
  {
    if members == [] then []
    else [Member(nfc(members[0].key), Canonical(members[0].value, nfc))] + CanonicalMembers(members[1..], nfc)
  }

  function MemberTexts(members: seq<Member<string>>): (r: seq<string>)
    ensures |r| == |members|
  {
    if members == [] then []
    else [Quoted(members[0].key) + ":" + members[0].value] + MemberTexts(members[1..])
  }

  function Commas(parts: seq<string>): string {
    if parts == [] then "" else if |parts| == 1 then parts[0] else parts[0] + "," + Commas(parts[1..])
  }

  /** `try_canonical_bytes`: the bytes of a record, or the rule that refuses it. */
  function TryCanonicalBytes(v: Value, nfc: string -> string): Result<Utf8.Bytes, Refusal> {
    match Validate(v, nfc)
    case Some(refusal) => Err(refusal)
    case None => Ok(Utf8.Encode(Canonical(v, nfc)))
  }

  /** A value written as it stands: no normalising, no sorting. */
  function Print(v: Value): string {
    match v
    case Null => "null"
    case Bool(b) => if b then "true" else "false"
    case Int(n) => IntText(n)
    case Float(token) => token
    case Str(text) => Quoted(text)
    case Arr(items) => "[" + Commas(PrintItems(items)) + "]"
    case Obj(members) => "{" + Commas(MemberTexts(PrintMembers(members))) + "}"
  }

  function PrintItems(items: seq<Value>): (r: seq<string>)
    ensures |r| == |items|
  {
    if items == [] then [] else [Print(items[0])] + PrintItems(items[1..])
  }

  function PrintMembers(members: seq<Member<Value>>): (r: seq<Member<string>>)
    ensures |r| == |members|
  {
    if members == [] then []
    else [Member(members[0].key, Print(members[0].value))] + PrintMembers(members[1..])
  }

  lemma QuoteNext(value: string, i: nat, r: string)
    requires i < |value|
    ensures r + QuoteBody(value[i..]) == r + QuoteChar(value[i]) + QuoteBody(value[i + 1..])
  {
  }

  /** The loop of `write_string`. */
  method WriteString(value: string, out: string) returns (r: string)
    ensures r == out + Quoted(value)
  {
    hide QuoteBody, QuoteChar;
    r := out + "\"";
    ghost var all := r + QuoteBody(value);
    assert value[0..] == value;
    for i := 0 to |value|
      invariant r + QuoteBody(value[i..]) == all
    {
      QuoteNext(value, i, r);
      r := r + QuoteChar(value[i]);
    }
    assert value[|value|..] == "" && QuoteBody("") == "" && r + "" == r by {
      QuoteNothing();
    }
    r := r + "\"";
  }

  lemma QuoteNothing()
    ensures QuoteBody("") == ""
  {
  }

  lemma {:induction false} InsertPrinted(m: Member<Value>, sorted: seq<Member<Value>>)
    ensures PrintMembers(Insert(m, sorted)) == Insert(Member(m.key, Print(m.value)), PrintMembers(sorted))
  {
    if sorted == [] || !KeyLess(sorted[0].key, m.key) {
      assert ([m] + sorted)[1..] == sorted;
    } else {
      InsertPrinted(m, sorted[1..]);
      assert Insert(m, sorted)[1..] == Insert(m, sorted[1..]);
    }
  }

  lemma {:induction false} SortPrinted(members: seq<Member<Value>>)
    ensures PrintMembers(Sort(members)) == Sort(PrintMembers(members))
  {
    if members != [] {
      SortPrinted(members[1..]);
      InsertPrinted(members[0], Sort(members[1..]));
      assert PrintMembers(members)[1..] == PrintMembers(members[1..]);
    }
  }

  /** Normalising and sorting on the way out is writing the normal value as it stands. */
  lemma {:induction false} CanonicalPrintsNormal(v: Value, nfc: string -> string)
    ensures Canonical(v, nfc) == Print(Normal(v, nfc))
  {
    match v
    case Arr(items) => CanonicalPrintsItems(items, nfc);
    case Obj(members) =>
      CanonicalPrintsMembers(members, nfc);
      SortPrinted(NormalMembers(members, nfc));
    case _ =>
  }

  lemma {:induction false} CanonicalPrintsItems(items: seq<Value>, nfc: string -> string)
    ensures CanonicalItems(items, nfc) == PrintItems(NormalItems(items, nfc))
  {
    if items != [] {
      CanonicalPrintsNormal(items[0], nfc);
      CanonicalPrintsItems(items[1..], nfc);
    }
  }

  lemma {:induction false} CanonicalPrintsMembers(members: seq<Member<Value>>, nfc: string -> string)
    ensures CanonicalMembers(members, nfc) == PrintMembers(NormalMembers(members, nfc))
  {
    if members != [] {
      CanonicalPrintsNormal(members[0].value, nfc);
      CanonicalPrintsMembers(members[1..], nfc);
      assert NormalMembers(members, nfc)[1..] == NormalMembers(members[1..], nfc);
    }
  }
}
