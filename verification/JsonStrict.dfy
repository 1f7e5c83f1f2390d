/**
 Canonical bytes and the strict parser (json.rs 62-67, 463-486), end to end: canonical bytes are one
 form per meaning, the strict parser reads them back, and writing the result again changes nothing.
 */
module JsonStrict {
  import opened Wrappers
  import opened KeyOrder
  import opened JsonSyntax
  import opened JsonValue
  import opened JsonNormal
  import opened JsonWriter
  import opened DuplicateKeys
  import opened JsonParser
  import Hex
  import TextRule
  import Utf8

  datatype KeyIdentity = DecodedText | NormalizedText

  /** `object_key`: a key as the parser will read it; one it would refuse stays as written. */
  function ObjectKey(raw: string, identity: KeyIdentity, nfc: string -> string): string {
    match Decode(raw)
    case Some(decoded) => if identity == DecodedText then decoded else nfc(decoded)
    case None => raw
  }

  function KeyOf(identity: KeyIdentity, nfc: string -> string): string -> string {
    raw => ObjectKey(raw, identity, nfc)
  }

  datatype StrictError = DuplicateKey | InvalidJson | Refused(refusal: Refusal)

  /** `parse_strict_value`, on text. */
  function ParseStrict(text: string, nfc: string -> string): Result<Value, StrictError> {
    if !Scan(text, [], false, KeyOf(NormalizedText, nfc)) then Err(DuplicateKey)
    else match ParseDocument(text)
      case None => Err(InvalidJson)
      case Some(v) =>
        match Validate(v, nfc)
        case Some(refusal) => Err(Refused(refusal))
        case None => Ok(v)
  }

  /** What the strict parser does with every well-formed text. */
  lemma ParseStrictExact(p: Padded, nfc: string -> string)
    requires GrammarPadded(p)
    ensures ParseStrict(PaddedText(p), nfc) ==
            if Repeats(p.doc, KeyOf(NormalizedText, nfc)) then Err(DuplicateKey)
            else match Denote(p.doc)
              case None => Err(InvalidJson)
              case Some(v) =>
                match Validate(v, nfc)
                case Some(refusal) => Err(Refused(refusal))
                case None => Ok(v)
  {
    ScanExact(p, KeyOf(NormalizedText, nfc));
    ParseExact(p);
  }

  /** The text a value is printed as, token by token. */
  function DocOf(v: Value): Doc {
    match v
    case Null => Word("null")
    case Bool(b) => Word(if b then "true" else "false")
    case Int(n) => Number(IntText(n))
    case Float(token) => Number(token)
    case Str(text) => Quote(QuoteBody(text))
    case Arr(items) => Array("", DocItems(items))
    case Obj(members) => Object("", DocMembers(members))
  }

  function DocItems(items: seq<Value>): (r: seq<Padded>)
    ensures |r| == |items|
  {
    if items == [] then [] else [Padded("", DocOf(items[0]), "")] + DocItems(items[1..])
  }

  function DocMembers(members: seq<Member<Value>>): (r: seq<Pair>)
    ensures |r| == |members|
  {
    if members == [] then []
    else [Pair("", QuoteBody(members[0].key), "", Padded("", DocOf(members[0].value), ""))] + DocMembers(members[1..])
  }

  lemma {:induction false} DocPrints(v: Value)
    ensures Text(DocOf(v)) == Print(v)
  {
    match v
    case Arr(items) => if items != [] { DocItemsPrint(items); }
    case Obj(members) => if members != [] { DocMembersPrint(members); }
    case _ =>
  }

  function AfterComma(rest: string, none: bool): string {
    if none then "" else "," + rest
  }

  lemma CommasStep(part: string, rest: seq<string>)
    ensures Commas([part] + rest) == part + AfterComma(Commas(rest), rest == [])
  {
  }

  lemma ItemsStep(p: Padded, rest: seq<Padded>)
    ensures ItemsText([p] + rest) == PaddedText(p) + AfterComma(if rest == [] then "" else ItemsText(rest), rest == [])
  {
  }

  lemma MembersStep(p: Pair, rest: seq<Pair>)
    ensures MembersText([p] + rest) == PairText(p) + AfterComma(if rest == [] then "" else MembersText(rest), rest == [])
  {
  }

  lemma Unpadded(doc: Doc)
    ensures PaddedText(Padded("", doc, "")) == Text(doc)
  {
  }

  lemma UnpaddedPair(key: string, doc: Doc)
    ensures PairText(Pair("", QuoteBody(key), "", Padded("", doc, ""))) == Quoted(key) + ":" + Text(doc)
  {
  }

  lemma {:induction false} DocItemsPrint(items: seq<Value>)
    requires items != []
    ensures ItemsText(DocItems(items)) == Commas(PrintItems(items))
  {
    var tail := items[1..];
    DocPrints(items[0]);
    Unpadded(DocOf(items[0]));
    ItemsStep(Padded("", DocOf(items[0]), ""), DocItems(tail));
    CommasStep(Print(items[0]), PrintItems(tail));
    if tail != [] {
      DocItemsPrint(tail);
    }
  }

  lemma {:induction false} DocMembersPrint(members: seq<Member<Value>>)
    requires members != []
    ensures MembersText(DocMembers(members)) == Commas(MemberTexts(PrintMembers(members)))
  {
    var m, tail := members[0], members[1..];
    DocPrints(m.value);
    UnpaddedPair(m.key, DocOf(m.value));
    MembersStep(Pair("", QuoteBody(m.key), "", Padded("", DocOf(m.value), "")), DocMembers(tail));
    assert PrintMembers(members)[1..] == PrintMembers(tail);
    CommasStep(Quoted(m.key) + ":" + Print(m.value), MemberTexts(PrintMembers(tail)));
    if tail != [] {
      DocMembersPrint(tail);
    }
  }

  lemma QuoteCharDecodes(c: char, rest: string)
    ensures DecodeOne(QuoteChar(c) + rest) == Some(Decoded(c, |QuoteChar(c)|))
  {
    var s := QuoteChar(c) + rest;
    if (c as int) < 0x20 && c !in "\n\r\t" && c as int != 8 && c as int != 0xc {
      assert s[2..] == Hex.Format(c as int) + rest;
      Hex.ReadFormat(c as int, rest);
    }
  }

  /** A written string reads back as itself. */
  lemma {:induction false} QuoteDecodes(text: string)
    ensures Decode(QuoteBody(text)) == Some(text)
  {
    if text != [] {
      var head, tail := QuoteChar(text[0]), QuoteBody(text[1..]);
      QuoteCharDecodes(text[0], tail);
      assert (head + tail)[|head|..] == tail;
      QuoteDecodes(text[1..]);
      assert [text[0]] + text[1..] == text;
    }
  }

  lemma {:induction false} PlainRaw(s: string, rest: string)
    requires forall i :: 0 <= i < |s| ==> s[i] != '"' && s[i] != '\\'
    requires RawString(rest)
    ensures RawString(s + rest)
  {
    if s == [] {
      assert s + rest == rest;
    } else {
      assert (s + rest)[1..] == s[1..] + rest;
      PlainRaw(s[1..], rest);
    }
  }

  lemma {:induction false} QuoteIsRaw(text: string)
    ensures RawString(QuoteBody(text))
  {
    if text != [] {
      var head, tail := QuoteChar(text[0]), QuoteBody(text[1..]);
      QuoteIsRaw(text[1..]);
      if head[0] == '\\' {
        assert (head + tail)[2..] == head[2..] + tail;
        PlainRaw(head[2..], tail);
      } else {
        assert (head + tail)[1..] == tail;
      }
    }
  }

  lemma {:induction false} DecimalExact(n: nat)
    ensures Digits(Decimal(n)) == |Decimal(n)|
    ensures Nat(Decimal(n)) == n
    ensures |Decimal(n)| > 1 ==> Decimal(n)[0] != '0'
    ensures n > 0 ==> Decimal(n)[0] != '0'
  {
    if n < 10 {
      assert Decimal(n)[1..] == [] && Decimal(n)[..0] == [];
    } else {
      DecimalExact(n / 10);
      var front := Decimal(n / 10);
      DigitsPush(front, Hex.Digit(n % 10));
      assert (front + [Hex.Digit(n % 10)])[..|front|] == front;
    }
  }

  lemma {:induction false} DigitsPush(s: string, c: char)
    requires Digits(s) == |s| && IsDigit(c)
    ensures Digits(s + [c]) == |s| + 1
  {
    if s == [] {
      assert s + [c] == [c] && [c][1..] == [];
    } else {
      assert (s + [c])[1..] == s[1..] + [c];
      DigitsPush(s[1..], c);
    }
  }

  /** A written integer is one number token and reads back as itself. */
  lemma IntReads(n: int)
    requires -JSON_INTEGER_BOUND <= n <= JSON_INTEGER_BOUND
    ensures NumberToken(IntText(n)) && NumberValue(IntText(n)) == Int(n)
  {
    var m := if n < 0 then -n else n;
    var digits := Decimal(m);
    DecimalExact(m);
    assert digits[|digits|..] == [];
    if n < 0 {
      assert IntText(n)[1..] == digits;
    } else {
      assert IsDigit(digits[0]);
    }
  }

  /** Printing a well-formed value in which no object repeats a key denotes that value. */
  lemma {:induction false} DocDenotes(v: Value, nfc: string -> string)
    requires IsNormal(v, nfc) && WellFormed(v, nfc)
    ensures Grammar(DocOf(v)) && Denote(DocOf(v)) == Some(v)
    ensures !Repeats(DocOf(v), KeyOf(NormalizedText, nfc))
    decreases v, 2
  {
    match v
    case Int(n) => IntReads(n);
    case Str(text) =>
      QuoteIsRaw(text);
      QuoteDecodes(text);
    case Arr(items) => DocItemsDenote(items, nfc);
    case Obj(members) => DocObjectDenotes(members, nfc);
    case _ =>
  }

  lemma {:induction false} DocObjectDenotes(members: seq<Member<Value>>, nfc: string -> string)
    requires IsNormal(Obj(members), nfc) && WellFormed(Obj(members), nfc)
    ensures Grammar(DocOf(Obj(members))) && Denote(DocOf(Obj(members))) == Some(Obj(members))
    ensures !Repeats(DocOf(Obj(members)), KeyOf(NormalizedText, nfc))
    decreases members, 1
  {
    DocMembersDenote(members, nfc);
    DocMembersDistinct(members, {}, nfc);
    RepeatsFromExact(DocMembers(members), {}, KeyOf(NormalizedText, nfc));
    AscendingDistinct(members);
    CollectDistinct(members, []);
    assert [] + members == members;
  }

  lemma {:induction false} DocItemsDenote(items: seq<Value>, nfc: string -> string)
    requires forall i :: 0 <= i < |items| ==> IsNormal(items[i], nfc) && WellFormed(items[i], nfc)
    ensures forall i :: 0 <= i < |items| ==> GrammarPadded(DocItems(items)[i])
    ensures DenoteItems(DocItems(items)) == Some(items)
    ensures forall i :: 0 <= i < |items| ==> !Repeats(DocItems(items)[i].doc, KeyOf(NormalizedText, nfc))
  {
    if items != [] {
      DocDenotes(items[0], nfc);
      DocItemsDenote(items[1..], nfc);
      assert DocItems(items)[1..] == DocItems(items[1..]);
      assert [items[0]] + items[1..] == items;
    }
  }

  lemma {:induction false} DocMembersDenote(members: seq<Member<Value>>, nfc: string -> string)
    requires forall i :: 0 <= i < |members| ==> IsNormal(members[i].value, nfc) && WellFormed(members[i].value, nfc)
    ensures forall i :: 0 <= i < |members| ==> GrammarPair(DocMembers(members)[i])
    ensures DenoteMembers(DocMembers(members)) == Some(members)
    decreases members, 0
  {
    if members != [] {
      DocDenotes(members[0].value, nfc);
      QuoteIsRaw(members[0].key);
      QuoteDecodes(members[0].key);
      DocMembersDenote(members[1..], nfc);
      assert DocMembers(members)[1..] == DocMembers(members[1..]);
      assert [members[0]] + members[1..] == members;
    }
  }

  lemma {:induction false} DocMembersDistinct(members: seq<Member<Value>>, seen: set<string>, nfc: string -> string)
    requires Ascending(members) && Keys(members) !! seen
    requires forall i :: 0 <= i < |members| ==>
      nfc(members[i].key) == members[i].key && IsNormal(members[i].value, nfc) && WellFormed(members[i].value, nfc)
    ensures !RepeatsFrom(DocMembers(members), seen, KeyOf(NormalizedText, nfc))
    decreases members, 0
  {
    if members != [] {
      var key := members[0].key;
      QuoteDecodes(key);
      assert KeyOf(NormalizedText, nfc)(QuoteBody(key)) == key;
      DocDenotes(members[0].value, nfc);
      AscendingDistinct(members);
      DocMembersDistinct(members[1..], seen + {key}, nfc);
      assert DocMembers(members)[1..] == DocMembers(members[1..]);
    }
  }

  lemma {:induction false} PutNew(members: seq<Member<Value>>, m: Member<Value>)
    requires m.key !in Keys(members)
    ensures Put(members, m) == members + [m]
    ensures Keys(members + [m]) == Keys(members) + {m.key}
  {
    if members == [] {
      assert [] + [m] == [m] && [m][1..] == [];
    } else {
      PutNew(members[1..], m);
      assert members == [members[0]] + members[1..];
      assert (members + [m])[1..] == members[1..] + [m];
    }
  }

  lemma {:induction false} CollectDistinct(members: seq<Member<Value>>, into: seq<Member<Value>>)
    requires DistinctKeys(members) && Keys(members) !! Keys(into)
    ensures Collect(members, into) == into + members
    decreases |members|
  {
    if members != [] {
      PutNew(into, members[0]);
      CollectDistinct(members[1..], into + [members[0]]);
      assert into + [members[0]] + members[1..] == into + members;
    }
  }

  /** The strict parser accepts canonical text and returns the normal value, with the meaning
      that was written. */
  lemma CanonicalReadsBack(v: Value, nfc: string -> string)
    requires NfcLaws(nfc) && WellFormed(v, nfc)
    ensures ParseStrict(Canonical(v, nfc), nfc) == Ok(Normal(v, nfc))
    ensures Meaning(Normal(v, nfc), nfc) == Meaning(v, nfc)
  {
    var w := Normal(v, nfc);
    NormalIsNormal(v, nfc);
    NormalKeepsMeaning(v, nfc);
    CanonicalPrintsNormal(v, nfc);
    DocPrints(w);
    DocDenotes(w, nfc);
    var p := Padded("", DocOf(w), "");
    assert PaddedText(p) == Print(w);
    ParseStrictExact(p, nfc);
    ValidateExact(w, nfc);
  }

  /** Canonicalising what the strict parser read back changes nothing. */
  lemma CanonicalAgain(v: Value, nfc: string -> string)
    requires NfcLaws(nfc) && WellFormed(v, nfc)
    ensures Canonical(Normal(v, nfc), nfc) == Canonical(v, nfc)
    ensures WellFormed(Normal(v, nfc), nfc)
  {
    NormalIdempotent(v, nfc);
    NormalIsNormal(v, nfc);
    CanonicalPrintsNormal(v, nfc);
    CanonicalPrintsNormal(Normal(v, nfc), nfc);
  }

  /** Two records have equal canonical bytes exactly when they say the same thing: equal trees
      after NFC, object members in any order. */
  lemma CanonicalBytesUnique(a: Value, b: Value, nfc: string -> string)
    requires NfcLaws(nfc)
    requires TryCanonicalBytes(a, nfc).Ok? && TryCanonicalBytes(b, nfc).Ok?
    ensures TryCanonicalBytes(a, nfc) == TryCanonicalBytes(b, nfc) <==> Meaning(a, nfc) == Meaning(b, nfc)
  {
    ValidateExact(a, nfc);
    ValidateExact(b, nfc);
    CanonicalReadsBack(a, nfc);
    CanonicalReadsBack(b, nfc);
    if TryCanonicalBytes(a, nfc) == TryCanonicalBytes(b, nfc) {
      Utf8.EncodeInjective(Canonical(a, nfc), Canonical(b, nfc));
    }
    if Meaning(a, nfc) == Meaning(b, nfc) {
      NormalIsNormal(a, nfc);
      NormalIsNormal(b, nfc);
      MeaningDeterminesNormal(Normal(a, nfc), Normal(b, nfc), nfc);
      CanonicalPrintsNormal(a, nfc);
      CanonicalPrintsNormal(b, nfc);
    }
  }
}
