/**
 JSON texts as the grammar of RFC 8259 builds them: every token, and the whitespace between tokens,
 so that what a reader of characters does can be stated about every well-formed text.
 */
module JsonSyntax {
  datatype Doc =
    | Word(word: string)
    | Number(token: string)
    | Quote(raw: string)
    | Array(inner: string, items: seq<Padded>)
    | Object(inner: string, members: seq<Pair>)

  datatype Padded = Padded(before: string, doc: Doc, after: string)

  datatype Pair = Pair(before: string, raw: string, colonSpace: string, value: Padded)

  function Text(doc: Doc): string {
    match doc
    case Word(word) => word
    case Number(token) => token
    case Quote(raw) => "\"" + raw + "\""
    case Array(inner, items) => "[" + (if items == [] then inner else ItemsText(items)) + "]"
    case Object(inner, members) => "{" + (if members == [] then inner else MembersText(members)) + "}"
  }

  function PaddedText(p: Padded): string {
    p.before + Text(p.doc) + p.after
  }

  function PairText(p: Pair): string {
    p.before + "\"" + p.raw + "\"" + p.colonSpace + ":" + PaddedText(p.value)
  }

  function ItemsText(items: seq<Padded>): string
    requires items != []
  {
    PaddedText(items[0]) + (if |items| == 1 then "" else "," + ItemsText(items[1..]))
  }

  function MembersText(members: seq<Pair>): string
    requires members != []
  {
    PairText(members[0]) + (if |members| == 1 then "" else "," + MembersText(members[1..]))
  }

  predicate IsSpace(c: char) {
    c == ' ' || c == '\t' || c == '\n' || c == '\r'
  }

  predicate Blank(s: string) {
    forall i :: 0 <= i < |s| ==> IsSpace(s[i])
  }

  /** What stands between quotes: no unescaped quote, and no escape cut off by the closing one. */
  predicate RawString(raw: string) {
    raw == [] ||
    (if raw[0] == '\\' then |raw| >= 2 && RawString(raw[2..])
     else raw[0] != '"' && RawString(raw[1..]))
  }

  predicate IsDigit(c: char) {
    '0' <= c <= '9'
  }

  predicate NumberChar(c: char) {
    IsDigit(c) || c == '-' || c == '+' || c == '.' || c == 'e' || c == 'E'
  }

  function Digits(s: string): (n: nat)
    ensures n <= |s| && forall i :: 0 <= i < n ==> IsDigit(s[i])
  {
    if s == [] || !IsDigit(s[0]) then 0 else 1 + Digits(s[1..])
  }

  /** number = [ minus ] int [ frac ] [ exp ], of RFC 8259 section 6. */
  predicate NumberToken(s: string) {
    var unsigned := if s != [] && s[0] == '-' then s[1..] else s;
    var whole := Digits(unsigned);
    && whole > 0 && (whole > 1 ==> unsigned[0] != '0')
    && FractionToken(unsigned[whole..])
  }

  predicate FractionToken(s: string) {
    if s != [] && s[0] == '.' then
      var n := Digits(s[1..]);
      n > 0 && ExponentToken(s[1..][n..])
    else
      ExponentToken(s)
  }

  predicate ExponentToken(s: string) {
    if s == [] then true
    else
      && (s[0] == 'e' || s[0] == 'E')
      && var digits := if |s| > 1 && (s[1] == '+' || s[1] == '-') then s[2..] else s[1..];
         digits != [] && Digits(digits) == |digits|
  }

  predicate Grammar(doc: Doc) {
    match doc
    case Word(word) => word == "null" || word == "true" || word == "false"
    case Number(token) => NumberToken(token)
    case Quote(raw) => RawString(raw)
    case Array(inner, items) => Blank(inner) && forall i :: 0 <= i < |items| ==> GrammarPadded(items[i])
    case Object(inner, members) => Blank(inner) && forall i :: 0 <= i < |members| ==> GrammarPair(members[i])
  }

  predicate GrammarPadded(p: Padded) {
    Blank(p.before) && Grammar(p.doc) && Blank(p.after)
  }

  predicate GrammarPair(p: Pair) {
    Blank(p.before) && RawString(p.raw) && Blank(p.colonSpace) && GrammarPadded(p.value)
  }

  predicate NumberText(s: string) {
    forall i :: 0 <= i < |s| ==> NumberChar(s[i])
  }

  lemma Sides(s: string, k: nat)
    requires k <= |s| && NumberText(s[..k]) && NumberText(s[k..])
    ensures NumberText(s)
  {
  }

  lemma DigitsThen(s: string)
    requires NumberText(s[Digits(s)..])
    ensures NumberText(s)
  {
  }

  lemma FractionChars(s: string)
    requires FractionToken(s)
    ensures NumberText(s)
  {
  }

  /** A number is written with number characters only, so whatever follows it ends it. */
  lemma NumberChars(s: string)
    requires NumberToken(s)
    ensures s != [] && (s[0] == '-' || IsDigit(s[0]))
    ensures NumberText(s)
  {
    var sign := if s != [] && s[0] == '-' then 1 else 0;
    var unsigned := s[sign..];
    assert unsigned == if s != [] && s[0] == '-' then s[1..] else s;
    FractionChars(unsigned[Digits(unsigned)..]);
    DigitsThen(unsigned);
    Sides(s, sign);
  }
}
