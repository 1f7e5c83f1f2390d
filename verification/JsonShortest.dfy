/**
 What canonical text is besides one that reads back (RFC 8785 sections 3.2.1 and 3.2.2): the shortest
 well-formed text of its value, with every character written as itself that may be.
 */
module JsonShortest {
  import opened Wrappers
  import opened KeyOrder
  import opened JsonSyntax
  import opened JsonValue
  import opened JsonWriter
  import opened JsonParser
  import Hex
  import JsonStrict

  // ----- strings -----

  /** A stretch without quotes and backslashes, inside quotes. */
  lemma {:induction false} RawAfter(s: string, k: nat)
    requires k <= |s| && RawString(s) && forall i :: 0 <= i < k ==> s[i] != '\\'
    ensures RawString(s[k..])
    decreases k
  {
    if k > 0 {
      RawAfter(s[1..], k - 1);
      assert s[1..][k - 1..] == s[k..];
    } else {
      assert s[0..] == s;
    }
  }

  lemma HexIsPlain(s: string)
    requires Hex.ReadBy(s, Hex.AnyNibble).Some?
    ensures |s| >= 4 && forall i :: 0 <= i < 4 ==> s[i] != '\\'
  {
  }

  /** Past one decoded character the rest still stands between quotes. */
  lemma RawRest(raw: string)
    requires raw != [] && RawString(raw) && DecodeOne(raw).Some?
    ensures RawString(raw[DecodeOne(raw).value.width..])
  {
    hide Hex.ReadBy, Hex.Pair;
    if raw[0] == '\\' && raw[1] == 'u' {
      HexIsPlain(raw[2..]);
      RawAfter(raw[2..], 4);
      assert raw[2..][4..] == raw[6..];
      if DecodeOne(raw).value.width == 12 {
        HexIsPlain(raw[8..]);
        assert raw[6..][2..] == raw[8..];
        RawAfter(raw[8..], 4);
        assert raw[8..][4..] == raw[12..];
      }
    }
  }

  lemma QuoteCharShortest(raw: string)
    requires raw != [] && RawString(raw) && DecodeOne(raw).Some?
    ensures |QuoteChar(DecodeOne(raw).value.c)| <= DecodeOne(raw).value.width
  {
  }

  /** No raw string that reads as a text is shorter than the one written for it. */
  lemma {:induction false} QuoteIsShortest(raw: string, text: string)
    requires RawString(raw) && Decode(raw) == Some(text)
    ensures |QuoteBody(text)| <= |raw|
    decreases |raw|
  {
    hide DecodeOne, QuoteChar, RawString;
    if raw != [] {
      var one := DecodeOne(raw).value;
      RawRest(raw);
      QuoteCharShortest(raw);
      QuoteIsShortest(raw[one.width..], text[1..]);
    }
  }

  /** The hexadecimal digits of every escape are lowercase. */
  predicate LowerHex(raw: string)
    decreases |raw|
  {
    raw == [] ||
    match DecodeOne(raw)
    case None => true
    case Some(Decoded(_, n)) =>
      && (raw[0] == '\\' && raw[1] == 'u' ==> forall i :: 2 <= i < 6 && i < |raw| ==> !('A' <= raw[i] <= 'F'))
      && LowerHex(raw[n..])
  }

  lemma DigitOf(c: char)
    requires Hex.AnyNibble(c).Some? && !('A' <= c <= 'F')
    ensures Hex.Digit(Hex.AnyNibble(c).value) == c
  {
  }

  lemma UnitFormat(s: string)
    requires |s| >= 4 && Hex.ReadBy(s, Hex.AnyNibble).Some? && forall i :: 0 <= i < 4 ==> !('A' <= s[i] <= 'F')
    ensures Hex.Format(Hex.ReadBy(s, Hex.AnyNibble).value) == s[..4]
  {
    DigitOf(s[0]);
    DigitOf(s[1]);
    DigitOf(s[2]);
    DigitOf(s[3]);
  }

  lemma QuoteCharOnly(raw: string)
    requires raw != [] && RawString(raw) && DecodeOne(raw).Some? && LowerHex(raw)
    requires |QuoteChar(DecodeOne(raw).value.c)| == DecodeOne(raw).value.width
    ensures QuoteChar(DecodeOne(raw).value.c) == raw[..DecodeOne(raw).value.width]
  {
    hide Hex.Format, Hex.Digit, Hex.Combine;
    if raw[0] == '\\' && raw[1] == 'u' {
      assert raw[2..][..4] == raw[2..6] && raw[..6] == "\\u" + raw[2..6];
      assert forall i :: 0 <= i < 4 ==> raw[2..][i] == raw[i + 2];
      UnitFormat(raw[2..]);
    }
  }

  /** And in lowercase no other is as short: the canonical string is the one shortest form. */
  lemma {:induction false} ShortestIsQuoted(raw: string, text: string)
    requires RawString(raw) && Decode(raw) == Some(text) && LowerHex(raw) && |raw| == |QuoteBody(text)|
    ensures raw == QuoteBody(text)
    decreases |raw|
  {
    hide DecodeOne, QuoteChar, RawString;
    if raw != [] {
      var one := DecodeOne(raw).value;
      var rest := raw[one.width..];
      RawRest(raw);
      QuoteCharShortest(raw);
      QuoteIsShortest(rest, text[1..]);
      QuoteCharOnly(raw);
      ShortestIsQuoted(rest, text[1..]);
      assert raw == raw[..one.width] + rest;
    }
  }

  /** A character that need not be escaped. */
  predicate Unescaped(c: char) {
    c != '"' && c != '\\' && (c as int) >= 0x20
  }

  /** Text without a quote, a backslash or a control character is written as itself, slashes and
      non-ASCII characters included. */
  lemma {:induction false} PlainIsItself(text: string)
    requires forall c :: c in text ==> Unescaped(c)
    ensures QuoteBody(text) == text
  {
    if text != [] {
      PlainIsItself(text[1..]);
      assert Unescaped(text[0]);
      assert text == [text[0]] + text[1..];
    }
  }

  predicate LowerDigit(c: char) {
    '0' <= c <= '9' || 'a' <= c <= 'f'
  }

  lemma LowFormat(u: Hex.CodeUnit)
    requires u < 0x20
    ensures var f := Hex.Format(u); f[..2] == "00" && LowerDigit(f[2]) && LowerDigit(f[3])
  {
    assert u / 16 / 16 / 16 == 0 && u / 16 / 16 % 16 == 0;
    var f := Hex.Format(u);
    assert f[0] == '0' && f[1] == '0';
  }

  lemma FormatReads(u: Hex.CodeUnit)
    ensures Hex.ReadBy(Hex.Format(u), Hex.LowerNibble) == Some(u)
  {
    hide Hex.Format, Hex.ReadBy;
    Hex.ReadFormat(u, "");
    assert Hex.Format(u) + "" == Hex.Format(u);
  }

  /** The five control characters with a short escape take two characters; each other one is the escape
      of its code in four lowercase digits, two of them zero. */
  lemma ControlIsEscaped(c: char)
    requires (c as int) < 0x20
    ensures var r := QuoteChar(c);
      if c as int in {8, 9, 10, 12, 13} then |r| == 2
      else |r| == 6 && r[..4] == "\\u00" && LowerDigit(r[4]) && LowerDigit(r[5]) && Hex.ReadBy(r[2..], Hex.LowerNibble) == Some(c as int)
    ensures DecodeOne(QuoteChar(c)) == Some(Decoded(c, |QuoteChar(c)|))
  {
    hide Hex.Format, Hex.ReadBy, DecodeOne;
    JsonStrict.QuoteCharDecodes(c, "");
    assert QuoteChar(c) + "" == QuoteChar(c);
    if c as int !in {8, 9, 10, 12, 13} {
      LowFormat(c as int);
      FormatReads(c as int);
      var f := Hex.Format(c as int);
      assert QuoteChar(c) == "\\u" + f && ("\\u" + f)[2..] == f && ("\\u" + f)[..4] == "\\u" + f[..2];
    }
  }

  // ----- numbers -----

  lemma {:induction false} DecimalIsShortest(digits: string)
    requires digits != "" && Digits(digits) == |digits|
    ensures |Decimal(Nat(digits))| <= |digits|
  {
    DigitsPrefix(digits);
    var front := digits[..|digits| - 1];
    if front == "" {
      assert Nat(front) == 0;
    } else {
      DecimalIsShortest(front);
      assert Nat(digits) / 10 == Nat(front);
    }
  }

  lemma NumberIsShortest(token: string)
    requires NumberToken(token)
    ensures |Print(NumberValue(token))| <= |token|
  {
    var negative := token[0] == '-';
    var digits := if negative then token[1..] else token;
    if digits != "" && Digits(digits) == |digits| {
      DecimalIsShortest(digits);
    }
  }

  // ----- whole texts -----

  /** What a member takes, with its comma. */
  function MemberSize(m: Member<Value>): nat {
    |QuoteBody(m.key)| + 4 + |Print(m.value)|
  }

  function Size(members: seq<Member<Value>>): nat {
    if members == [] then 0 else MemberSize(members[0]) + Size(members[1..])
  }

  lemma {:induction false} ObjectSize(members: seq<Member<Value>>)
    ensures |Commas(MemberTexts(PrintMembers(members)))| == if members == [] then 0 else Size(members) - 1
  {
    if members != [] {
      var m, tail := members[0], members[1..];
      ObjectSize(tail);
      assert PrintMembers(members) == [Member(m.key, Print(m.value))] + PrintMembers(tail);
      assert PrintMembers(members)[1..] == PrintMembers(tail);
      JsonStrict.CommasStep(Quoted(m.key) + ":" + Print(m.value), MemberTexts(PrintMembers(tail)));
    }
  }

  lemma {:induction false} PutSize(members: seq<Member<Value>>, m: Member<Value>)
    ensures Size(Put(members, m)) <= Size(members) + MemberSize(m) && Put(members, m) != []
  {
    if members == [] {
      assert [m][1..] == [];
    } else if members[0].key == m.key {
      assert ([m] + members[1..])[1..] == members[1..];
    } else {
      var tail := Put(members[1..], m);
      PutSize(members[1..], m);
      assert ([members[0]] + tail)[1..] == tail;
    }
  }

  lemma {:induction false} CollectSize(members: seq<Member<Value>>, into: seq<Member<Value>>)
    ensures Size(Collect(members, into)) <= Size(members) + Size(into)
    ensures members != [] || into != [] ==> Collect(members, into) != []
    decreases |members|
  {
    if members != [] {
      PutSize(into, members[0]);
      CollectSize(members[1..], Put(into, members[0]));
    }
  }

  lemma SizeStep(m: Member<Value>, rest: seq<Member<Value>>)
    ensures Size([m] + rest) == MemberSize(m) + Size(rest)
  {
    assert ([m] + rest)[1..] == rest;
  }

  lemma ItemsLength(p: Padded, rest: seq<Padded>)
    ensures |ItemsText([p] + rest)| == |PaddedText(p)| + if rest == [] then 0 else 1 + |ItemsText(rest)|
  {
    JsonStrict.ItemsStep(p, rest);
  }

  lemma MembersLength(p: Pair, rest: seq<Pair>)
    ensures |MembersText([p] + rest)| == |PairText(p)| + if rest == [] then 0 else 1 + |MembersText(rest)|
    ensures |PairText(p)| >= |p.raw| + 3 + |Text(p.value.doc)|
  {
    JsonStrict.MembersStep(p, rest);
  }

  lemma DenotedItems(p: Padded, rest: seq<Padded>)
    requires DenoteItems([p] + rest).Some?
    ensures Denote(p.doc).Some? && DenoteItems(rest).Some?
    ensures DenoteItems([p] + rest).value == [Denote(p.doc).value] + DenoteItems(rest).value
  {
    assert ([p] + rest)[1..] == rest;
  }

  lemma DenotedMembers(p: Pair, rest: seq<Pair>)
    requires DenoteMembers([p] + rest).Some?
    ensures Decode(p.raw).Some? && Denote(p.value.doc).Some? && DenoteMembers(rest).Some?
    ensures DenoteMembers([p] + rest).value == [Member(Decode(p.raw).value, Denote(p.value.doc).value)] + DenoteMembers(rest).value
  {
    assert ([p] + rest)[1..] == rest;
  }

  /** Every text of a value is at least as long as the value printed. */
  lemma {:induction false} PrintIsShortest(doc: Doc)
    requires Grammar(doc) && Denote(doc).Some?
    ensures |Print(Denote(doc).value)| <= |Text(doc)|
    decreases doc, 2
  {
    match doc
    case Word(_) =>
    case Number(token) => NumberIsShortest(token);
    case Quote(raw) => QuoteIsShortest(raw, Decode(raw).value);
    case Array(_, items) =>
      if items != [] {
        ItemsAreShortest(items);
      }
    case Object(_, members) =>
      if members != [] {
        ObjectIsShortest(members, DenoteMembers(members).value);
      }
  }

  lemma ObjectIsShortest(members: seq<Pair>, list: seq<Member<Value>>)
    requires members != [] && DenoteMembers(members) == Some(list) && forall i :: 0 <= i < |members| ==> GrammarPair(members[i])
    ensures |Commas(MemberTexts(PrintMembers(Collect(list, []))))| <= |MembersText(members)|
    decreases members, 2
  {
    CollectSize(list, []);
    ObjectSize(Collect(list, []));
    MembersAreShortest(members);
  }

  lemma {:induction false} ItemsAreShortest(items: seq<Padded>)
    requires items != [] && DenoteItems(items).Some? && forall i :: 0 <= i < |items| ==> GrammarPadded(items[i])
    ensures |Commas(PrintItems(DenoteItems(items).value))| <= |ItemsText(items)|
    decreases items, 1
  {
    hide DenoteItems, ItemsText, Commas, Denote, Text, Grammar;
    var p, tail := items[0], items[1..];
    assert items == [p] + tail && GrammarPadded(p);
    DenotedItems(p, tail);
    ItemsLength(p, tail);
    PrintIsShortest(p.doc);
    PrintedStep(Denote(p.doc).value, DenoteItems(tail).value);
    if tail == [] {
      NothingDenoted();
    } else {
      ItemsAreShortest(tail);
    }
  }

  lemma PrintedStep(v: Value, rest: seq<Value>)
    ensures |Commas(PrintItems([v] + rest))| == |Print(v)| + if rest == [] then 0 else 1 + |Commas(PrintItems(rest))|
  {
    assert ([v] + rest)[1..] == rest;
    JsonStrict.CommasStep(Print(v), PrintItems(rest));
  }

  lemma NothingDenoted()
    ensures DenoteItems([]) == Some([]) && DenoteMembers([]) == Some([])
  {
  }

  lemma {:induction false} MembersAreShortest(members: seq<Pair>)
    requires members != [] && DenoteMembers(members).Some? && forall i :: 0 <= i < |members| ==> GrammarPair(members[i])
    ensures Size(DenoteMembers(members).value) - 1 <= |MembersText(members)|
    decreases members, 1
  {
    hide DenoteMembers, MembersText, PairText, Denote, Text, Grammar, Decode, RawString, Print, QuoteBody;
    var p, tail := members[0], members[1..];
    assert members == [p] + tail && GrammarPair(p);
    DenotedMembers(p, tail);
    MembersLength(p, tail);
    PrintIsShortest(p.value.doc);
    QuoteIsShortest(p.raw, Decode(p.raw).value);
    SizeStep(Member(Decode(p.raw).value, Denote(p.value.doc).value), DenoteMembers(tail).value);
    if tail == [] {
      NothingDenoted();
    } else {
      MembersAreShortest(tail);
    }
  }

  /** No well-formed text that denotes what canonical text denotes is shorter. */
  lemma CanonicalIsShortest(p: Padded, v: Value, nfc: string -> string)
    requires GrammarPadded(p) && Denote(p.doc) == Some(Normal(v, nfc))
    ensures |Canonical(v, nfc)| <= |PaddedText(p)|
  {
    CanonicalPrintsNormal(v, nfc);
    PrintIsShortest(p.doc);
  }
}
