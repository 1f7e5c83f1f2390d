/**
 The reader the strict parser trusts. serde_json is not part of this repository; here it is the
 recursive-descent reader of RFC 8259, and `ParseExact` says that on every well-formed text it
 returns what the text denotes, so the statements below do not rest on how the reader is built.
 */
module JsonParser {
  import opened Wrappers
  import opened KeyOrder
  import opened JsonSyntax
  import opened JsonValue
  import opened DuplicateKeys
  import Hex

  datatype Parsed<+T> = Parsed(value: T, rest: string)

  datatype Decoded = Decoded(c: char, width: nat)

  function DecodeOne(raw: string): (r: Option<Decoded>)
    requires raw != []
    ensures r.Some? ==> 0 < r.value.width <= |raw|
  {
    if raw[0] != '\\' then
      if (raw[0] as int) < 0x20 then None else Some(Decoded(raw[0], 1))
    else if |raw| < 2 then None
    else match raw[1]
      case '"' => Some(Decoded('"', 2))
      case '\\' => Some(Decoded('\\', 2))
      case '/' => Some(Decoded('/', 2))
      case 'b' => Some(Decoded(8 as char, 2))
      case 'f' => Some(Decoded(0xc as char, 2))
      case 'n' => Some(Decoded('\n', 2))
      case 'r' => Some(Decoded('\r', 2))
      case 't' => Some(Decoded('\t', 2))
      case 'u' => DecodeUnicode(raw)
      case _ => None
  }

  function DecodeUnicode(raw: string): (r: Option<Decoded>)
    requires |raw| >= 2
    ensures r.Some? ==> 0 < r.value.width <= |raw|
  {
    match Hex.ReadBy(raw[2..], Hex.AnyNibble)
    case None => None
    case Some(unit) =>
      if Hex.IsLowSurrogate(unit) then None
      else if !Hex.IsHighSurrogate(unit) then Some(Decoded(unit as char, 6))
      else if |raw| < 8 || raw[6] != '\\' || raw[7] != 'u' then None
      else match Hex.ReadBy(raw[8..], Hex.AnyNibble)
        case None => None
        case Some(low) => if Hex.IsLowSurrogate(low) then Some(Decoded(Hex.Pair(unit, low), 12)) else None
  }

  /** The text a raw string stands for. */
  function Decode(raw: string): Option<string>
    decreases |raw|
  {
    if raw == [] then Some("")
    else match DecodeOne(raw)
      case None => None
      case Some(Decoded(c, n)) =>
        match Decode(raw[n..])
        case None => None
        case Some(tail) => Some([c] + tail)
  }

  function Nat(digits: string): nat
    requires Digits(digits) == |digits|
  {
    if digits == [] then 0 else
      DigitsPrefix(digits);
      10 * Nat(digits[..|digits| - 1]) + (digits[|digits| - 1] as int - '0' as int)
  }

  lemma {:induction false} DigitsPrefix(s: string)
    requires s != [] && Digits(s) == |s|
    ensures Digits(s[..|s| - 1]) == |s| - 1 && IsDigit(s[|s| - 1])
  {
    if |s| > 1 {
      DigitsPrefix(s[1..]);
      assert s[..|s| - 1][1..] == s[1..][..|s| - 2];
    }
  }

  /** A number token's value: an integer that fits 64 bits, or a binary float. */
  function NumberValue(token: string): Value {
    var negative := token != [] && token[0] == '-';
    var digits := if negative then token[1..] else token;
    if Digits(digits) != |digits| then Float(token)
    else
      var n: int := Nat(digits);
      if negative then
        if 0 < n <= 0x8000_0000_0000_0000 then Int(-n) else Float(token)
      else if n <= 0xFFFF_FFFF_FFFF_FFFF then Int(n) else Float(token)
  }

  /** An insertion-ordered map's insert: a repeated key keeps its place and takes the new value. */
  function Put(members: seq<Member<Value>>, m: Member<Value>): seq<Member<Value>> {
    if members == [] then [m]
    else if members[0].key == m.key then [m] + members[1..]
    else [members[0]] + Put(members[1..], m)
  }

  function Collect(members: seq<Member<Value>>, into: seq<Member<Value>>): seq<Member<Value>>
    decreases |members|
  {
    if members == [] then into else Collect(members[1..], Put(into, members[0]))
  }

  /** What a well-formed text denotes, or `None` when one of its strings denotes no text. */
  function Denote(doc: Doc): Option<Value> {
    match doc
    case Word(word) => Some(if word == "null" then Null else Bool(word == "true"))
    case Number(token) => Some(NumberValue(token))
    case Quote(raw) => (match Decode(raw) case Some(text) => Some(Str(text)) case None => None)
    case Array(_, items) =>
      (match DenoteItems(items) case Some(values) => Some(Arr(values)) case None => None)
    case Object(_, members) =>
      (match DenoteMembers(members) case Some(list) => Some(Obj(Collect(list, []))) case None => None)
  }

  function DenoteItems(items: seq<Padded>): Option<seq<Value>> {
    if items == [] then Some([])
    else match (Denote(items[0].doc), DenoteItems(items[1..]))
      case (Some(v), Some(tail)) => Some([v] + tail)
      case _ => None
  }

  function DenoteMembers(members: seq<Pair>): Option<seq<Member<Value>>> {
    if members == [] then Some([])
    else match (Decode(members[0].raw), Denote(members[0].value.doc), DenoteMembers(members[1..]))
      case (Some(key), Some(v), Some(tail)) => Some([Member(key, v)] + tail)
      case _ => None
  }

  function SkipSpace(s: string): (r: string)
    ensures |r| <= |s|
  {
    if s != [] && IsSpace(s[0]) then SkipSpace(s[1..]) else s
  }

  function NumberRun(s: string): (n: nat)
    ensures n <= |s|
  {
    if s == [] || !NumberChar(s[0]) then 0 else 1 + NumberRun(s[1..])
  }

  function ParseValue(s: string): (r: Option<Parsed<Value>>)
    ensures r.Some? ==> |r.value.rest| < |s|
    decreases |s|, 1
  {
    ParseToken(SkipSpace(s))
  }

  function ParseToken(s: string): (r: Option<Parsed<Value>>)
    ensures r.Some? ==> |r.value.rest| < |s|
    decreases |s|, 0
  {
    if "null" <= s then Some(Parsed(Null, s[4..]))
    else if "true" <= s then Some(Parsed(Bool(true), s[4..]))
    else if "false" <= s then Some(Parsed(Bool(false), s[5..]))
    else if s == [] then None
    else if s[0] == '"' then
      var t := SkipString(s[1..]);
      if !t.closed then None
      else match Decode(t.raw)
        case None => None
        case Some(text) => Some(Parsed(Str(text), t.rest))
    else if s[0] == '[' then
      var inside := SkipSpace(s[1..]);
      if inside != [] && inside[0] == ']' then Some(Parsed(Arr([]), inside[1..]))
      else match ParseItems(s[1..])
        case None => None
        case Some(Parsed(items, rest)) => Some(Parsed(Arr(items), rest))
    else if s[0] == '{' then
      var inside := SkipSpace(s[1..]);
      if inside != [] && inside[0] == '}' then Some(Parsed(Obj([]), inside[1..]))
      else match ParseMembers(s[1..])
        case None => None
        case Some(Parsed(members, rest)) => Some(Parsed(Obj(Collect(members, [])), rest))
    else
      var n := NumberRun(s);
      if n > 0 && NumberToken(s[..n]) then Some(Parsed(NumberValue(s[..n]), s[n..])) else None
  }

  function ParseItems(s: string): (r: Option<Parsed<seq<Value>>>)
    ensures r.Some? ==> |r.value.rest| < |s|
    decreases |s|, 2
  {
    match ParseValue(s)
    case None => None
    case Some(Parsed(v, rest)) =>
      var t := SkipSpace(rest);
      if t == [] then None
      else if t[0] == ']' then Some(Parsed([v], t[1..]))
      else if t[0] != ',' then None
      else match ParseItems(t[1..])
        case None => None
        case Some(Parsed(tail, end)) => Some(Parsed([v] + tail, end))
  }

  function ParseMembers(s: string): (r: Option<Parsed<seq<Member<Value>>>>)
    ensures r.Some? ==> |r.value.rest| < |s|
    decreases |s|, 2
  {
    match ParseMember(s)
    case None => None
    case Some(Parsed(m, rest)) =>
      var t := SkipSpace(rest);
      if t == [] then None
      else if t[0] == '}' then Some(Parsed([m], t[1..]))
      else if t[0] != ',' then None
      else match ParseMembers(t[1..])
        case None => None
        case Some(Parsed(tail, end)) => Some(Parsed([m] + tail, end))
  }

  function ParseMember(s: string): (r: Option<Parsed<Member<Value>>>)
    ensures r.Some? ==> |r.value.rest| < |s|
    decreases |s|, 1
  {
    match ParseKey(s)
    case None => None
    case Some(Parsed(raw, value)) =>
      match (Decode(raw), ParseValue(value))
      case (Some(key), Some(Parsed(v, rest))) => Some(Parsed(Member(key, v), rest))
      case _ => None
  }

  /** A quoted key and its colon. */
  function ParseKey(s: string): (r: Option<Parsed<string>>)
    ensures r.Some? ==> |r.value.rest| < |s|
  {
    var t := SkipSpace(s);
    if t == [] || t[0] != '"' then None
    else
      var token := SkipString(t[1..]);
      var colon := SkipSpace(token.rest);
      if !token.closed || colon == [] || colon[0] != ':' then None
      else Some(Parsed(token.raw, colon[1..]))
  }

  /** One value and nothing after it but whitespace. */
  function ParseDocument(s: string): Option<Value> {
    match ParseValue(s)
    case Some(Parsed(v, rest)) => if SkipSpace(rest) == [] then Some(v) else None
    case None => None
  }

  predicate Ends(rest: string) {
    rest == [] || !NumberChar(rest[0])
  }

  predicate Solid(s: string) {
    s == [] || !IsSpace(s[0])
  }

  lemma {:induction false} SkipBlank(blank: string, s: string)
    requires Blank(blank) && Solid(s)
    ensures SkipSpace(blank + s) == s
  {
    if blank == [] {
      assert blank + s == s;
    } else {
      assert (blank + s)[1..] == blank[1..] + s;
      SkipBlank(blank[1..], s);
    }
  }

  lemma {:induction false} RunOver(token: string, rest: string)
    requires Ends(rest) && NumberText(token)
    ensures NumberRun(token + rest) == |token|
  {
    if token == [] {
      assert token + rest == rest;
    } else {
      assert (token + rest)[1..] == token[1..] + rest;
      RunOver(token[1..], rest);
    }
  }

  /** No value's text starts with whitespace or is empty. */
  lemma TextSolid(doc: Doc)
    requires Grammar(doc)
    ensures Text(doc) != [] && !IsSpace(Text(doc)[0])
    ensures doc.Array? || doc.Object? || doc.Quote? || Text(doc)[0] !in "[]{}\","
    ensures doc.Array? ==> Text(doc)[0] == '['
    ensures doc.Object? ==> Text(doc)[0] == '{'
    ensures doc.Quote? ==> Text(doc)[0] == '"'
  {
  }

  lemma BlankEnds(blank: string, rest: string)
    requires Blank(blank) && Ends(rest)
    ensures Ends(blank + rest)
  {
  }

  function Found<T>(v: Option<T>, rest: string): Option<Parsed<T>> {
    match v
    case Some(x) => Some(Parsed(x, rest))
    case None => None
  }

  /** How a string is read. */
  lemma QuoteToken(s: string)
    requires s != "" && s[0] == '"'
    ensures ParseToken(s) ==
            var t := SkipString(s[1..]);
            if !t.closed then None
            else match Decode(t.raw) case Some(text) => Some(Parsed(Str(text), t.rest)) case None => None
  {
  }

  /** How a number is read. */
  lemma NoWord(s: string)
    requires s != "" && s[0] != 'n' && s[0] != 't' && s[0] != 'f'
    ensures !("null" <= s) && !("true" <= s) && !("false" <= s)
  {
  }

  lemma NumberRead(s: string)
    requires s != "" && (s[0] == '-' || IsDigit(s[0]))
    ensures ParseToken(s) ==
            var n := NumberRun(s);
            if n > 0 && NumberToken(s[..n]) then Some(Parsed(NumberValue(s[..n]), s[n..])) else None
  {
    hide NumberRun, NumberToken, NumberValue, ParseItems, ParseMembers, SkipString, SkipSpace, Decode;
    NoWord(s);
  }

  lemma Front(a: string, b: string)
    ensures (a + b)[..|a|] == a && (a + b)[|a|..] == b
  {
  }

  lemma ParseWord(word: string, rest: string)
    requires word == "null" || word == "true" || word == "false"
    ensures ParseToken(word + rest) == Some(Parsed(if word == "null" then Null else Bool(word == "true"), rest))
  {
    Front(word, rest);
    assert (word + rest)[0] == word[0];
  }

  lemma ParseNumber(token: string, rest: string)
    requires NumberToken(token) && Ends(rest)
    ensures ParseToken(token + rest) == Some(Parsed(NumberValue(token), rest))
  {
    NumberChars(token);
    RunOver(token, rest);
    Front(token, rest);
    assert (token + rest)[0] == token[0];
    NumberRead(token + rest);
  }

  lemma ParseQuote(raw: string, rest: string)
    requires RawString(raw)
    ensures ParseToken("\"" + raw + "\"" + rest) ==
            match Decode(raw) case Some(text) => Some(Parsed(Str(text), rest)) case None => None
  {
    var s := "\"" + raw + "\"" + rest;
    assert s[0] == '"' && s[1..] == raw + "\"" + rest;
    SkipRaw(raw, rest);
    QuoteToken(s);
  }

  lemma ParseAtom(doc: Doc, rest: string)
    requires Grammar(doc) && (doc.Word? || doc.Number? || doc.Quote?) && Ends(rest)
    ensures ParseToken(Text(doc) + rest) == Found(Denote(doc), rest)
  {
    match doc
    case Word(word) => ParseWord(word, rest);
    case Number(token) => ParseNumber(token, rest);
    case Quote(raw) => ParseQuote(raw, rest);
  }

  lemma {:induction false} ParseDoc(doc: Doc, rest: string)
    requires Grammar(doc) && Ends(rest)
    ensures ParseToken(Text(doc) + rest) == Found(Denote(doc), rest)
    decreases doc, 2
  {
    match doc
    case Array(_, _) => ParseArray(doc, rest);
    case Object(_, _) => ParseObject(doc, rest);
    case _ => ParseAtom(doc, rest);
  }

  /** How an array is read. */
  lemma ArrayToken(s: string)
    requires s != "" && s[0] == '['
    ensures ParseToken(s) ==
            var inside := SkipSpace(s[1..]);
            if inside != [] && inside[0] == ']' then Some(Parsed(Arr([]), inside[1..]))
            else match ParseItems(s[1..])
              case None => None
              case Some(Parsed(items, rest)) => Some(Parsed(Arr(items), rest))
  {
  }

  /** How an object is read. */
  lemma ObjectToken(s: string)
    requires s != "" && s[0] == '{'
    ensures ParseToken(s) ==
            var inside := SkipSpace(s[1..]);
            if inside != [] && inside[0] == '}' then Some(Parsed(Obj([]), inside[1..]))
            else match ParseMembers(s[1..])
              case None => None
              case Some(Parsed(members, rest)) => Some(Parsed(Obj(Collect(members, [])), rest))
  {
  }

  lemma Opened(open: char, content: string, close: char, rest: string)
    ensures var s := [open] + content + [close] + rest; s != "" && s[0] == open && s[1..] == content + ([close] + rest)
    ensures ([close] + rest)[1..] == rest
  {
  }

  lemma {:induction false} ParseArray(doc: Doc, rest: string)
    requires doc.Array? && Grammar(doc)
    ensures ParseToken(Text(doc) + rest) == Found(Denote(doc), rest)
    decreases doc, 1
  {
    var content := if doc.items == [] then doc.inner else ItemsText(doc.items);
    var s, close := Text(doc) + rest, "]" + rest;
    Opened('[', content, ']', rest);
    assert s == ['['] + content + [']'] + rest;
    ArrayToken(s);
    if doc.items == [] {
      SkipBlank(doc.inner, close);
    } else {
      FirstSolid(doc.items[0], content + close);
      ParseItemsExact(doc.items, rest);
    }
  }

  lemma {:induction false} ParseObject(doc: Doc, rest: string)
    requires doc.Object? && Grammar(doc)
    ensures ParseToken(Text(doc) + rest) == Found(Denote(doc), rest)
    decreases doc, 1
  {
    var content := if doc.members == [] then doc.inner else MembersText(doc.members);
    var s, close := Text(doc) + rest, "}" + rest;
    Opened('{', content, '}', rest);
    assert s == ['{'] + content + ['}'] + rest;
    ObjectToken(s);
    if doc.members == [] {
      SkipBlank(doc.inner, close);
    } else {
      MembersOpenWithQuote(doc.members, close);
      ParseMembersExact(doc.members, rest);
    }
  }

  lemma MembersOpenWithQuote(members: seq<Pair>, close: string)
    requires members != [] && GrammarPair(members[0])
    ensures SkipSpace(MembersText(members) + close) != [] && SkipSpace(MembersText(members) + close)[0] == '"'
  {
    var content, before := MembersText(members) + close, members[0].before;
    assert before + "\"" <= PairText(members[0]) <= content;
    var tail := content[|before| + 1..];
    assert content == before + ("\"" + tail);
    SkipBlank(before, "\"" + tail);
  }

  lemma FirstSolid(p: Padded, content: string)
    requires GrammarPadded(p) && PaddedText(p) <= content
    ensures SkipSpace(content) != [] && SkipSpace(content)[0] != ']'
  {
    TextSolid(p.doc);
    hide Text, Grammar, SkipSpace, Blank;
    var tail := content[|PaddedText(p)|..];
    assert content == p.before + (Text(p.doc) + p.after + tail);
    SkipBlank(p.before, Text(p.doc) + p.after + tail);
  }

  lemma {:induction false} ParsePadded(p: Padded, rest: string)
    requires GrammarPadded(p) && Ends(rest)
    ensures ParseValue(PaddedText(p) + rest) == Found(Denote(p.doc), p.after + rest)
    decreases p, 3
  {
    TextSolid(p.doc);
    BlankEnds(p.after, rest);
    assert PaddedText(p) + rest == p.before + (Text(p.doc) + (p.after + rest));
    SkipBlank(p.before, Text(p.doc) + (p.after + rest));
    ParseDoc(p.doc, p.after + rest);
  }

  lemma {:induction false} ParseItemsExact(items: seq<Padded>, rest: string)
    requires items != [] && forall i :: 0 <= i < |items| ==> GrammarPadded(items[i])
    ensures ParseItems(ItemsText(items) + ("]" + rest)) == Found(DenoteItems(items), rest)
    decreases items, 0
  {
    var close := "]" + rest;
    var tail := if |items| == 1 then close else "," + (ItemsText(items[1..]) + close);
    assert ItemsText(items) + close == PaddedText(items[0]) + tail;
    assert GrammarPadded(items[0]);
    ParsePadded(items[0], tail);
    SkipBlank(items[0].after, tail);
    if |items| == 1 {
      assert close[1..] == rest;
      assert items[1..] == [] && DenoteItems([]) == Some([]);
      assert forall v: Value :: [v] + [] == [v];
    } else {
      assert tail[1..] == ItemsText(items[1..]) + close;
      ParseItemsExact(items[1..], rest);
    }
  }

  lemma ParseKeyExact(m: Pair, value: string)
    requires GrammarPair(m)
    ensures ParseKey(m.before + "\"" + m.raw + "\"" + m.colonSpace + ":" + value) == Some(Parsed(m.raw, value))
  {
    var colon := ":" + value;
    var quoted := "\"" + m.raw + "\"" + (m.colonSpace + colon);
    assert m.before + "\"" + m.raw + "\"" + m.colonSpace + ":" + value == m.before + quoted;
    SkipBlank(m.before, quoted);
    assert quoted[1..] == m.raw + "\"" + (m.colonSpace + colon);
    SkipRaw(m.raw, m.colonSpace + colon);
    SkipBlank(m.colonSpace, colon);
    assert colon[1..] == value;
  }

  lemma {:induction false} ParseMemberExact(m: Pair, rest: string)
    requires GrammarPair(m) && Ends(rest)
    ensures ParseMember(PairText(m) + rest) ==
            match (Decode(m.raw), Denote(m.value.doc))
            case (Some(key), Some(v)) => Some(Parsed(Member(key, v), m.value.after + rest))
            case _ => None
    decreases m, 4
  {
    var value := PaddedText(m.value) + rest;
    assert PairText(m) + rest == m.before + "\"" + m.raw + "\"" + m.colonSpace + ":" + value;
    ParseKeyExact(m, value);
    ParsePadded(m.value, rest);
  }

  lemma LastMember(members: seq<Pair>)
    requires |members| == 1
    ensures DenoteMembers(members) ==
            match (Decode(members[0].raw), Denote(members[0].value.doc))
            case (Some(key), Some(v)) => Some([Member(key, v)])
            case _ => None
  {
    assert members[1..] == [] && DenoteMembers([]) == Some([]);
    match (Decode(members[0].raw), Denote(members[0].value.doc))
    case (Some(key), Some(v)) => assert [Member(key, v)] + [] == [Member(key, v)];
    case _ =>
  }

  lemma CommaAfter(text: string, rest: string)
    ensures ("," + (text + rest))[1..] == text + rest && text + "," + rest == text + ("," + rest)
  {
  }

  lemma {:induction false} ParseMembersExact(members: seq<Pair>, rest: string)
    requires members != [] && forall i :: 0 <= i < |members| ==> GrammarPair(members[i])
    ensures ParseMembers(MembersText(members) + ("}" + rest)) == Found(DenoteMembers(members), rest)
    decreases members, 0
  {
    var close := "}" + rest;
    var tail := if |members| == 1 then close else "," + (MembersText(members[1..]) + close);
    assert MembersText(members) + close == PairText(members[0]) + tail;
    assert GrammarPair(members[0]) && GrammarPadded(members[0].value);
    ParseMemberExact(members[0], tail);
    SkipBlank(members[0].value.after, tail);
    if |members| == 1 {
      assert close[1..] == rest;
      LastMember(members);
    } else {
      CommaAfter(MembersText(members[1..]), close);
      ParseMembersExact(members[1..], rest);
    }
  }

  /** On every well-formed text the reader returns what the text denotes. */
  lemma ParseExact(p: Padded)
    requires GrammarPadded(p)
    ensures ParseDocument(PaddedText(p)) == Denote(p.doc)
  {
    assert PaddedText(p) + "" == PaddedText(p);
    ParsePadded(p, "");
    assert p.after + "" == p.after;
    SkipBlank(p.after, "");
  }
}
