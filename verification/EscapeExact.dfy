/**
 The bijective approval renderer (json.rs 349-424): printable ASCII other than `"` and `\` is
 literal, and every other character is its UTF-16 code units in four lowercase hex digits each.
 */
module EscapeExact {
  import opened Wrappers
  import opened Hex
  import TextRule

  datatype Refusal =
    | Forbidden(rule: TextRule.TextError)
    | NotUnicodeEscape
    | Truncated
    | UnpairedHigh
    | InvalidPair
    | UnpairedLow
    | NeedlessEscape
    | NotLiteral

  predicate Literal(c: char) {
    ' ' <= c <= '~' && c != '"' && c != '\\'
  }

  function EscapeUnits(units: seq<CodeUnit>): string {
    if units == [] then "" else "\\u" + Format(units[0]) + EscapeUnits(units[1..])
  }

  function EscapeChar(c: char): string {
    if Literal(c) then [c] else EscapeUnits(Utf16(c))
  }

  function EscapeAll(text: string): string {
    if text == [] then "" else EscapeChar(text[0]) + EscapeAll(text[1..])
  }

  /** `escape_exact`: the rendering, or the text rule that refuses the value. */
  function Escape(value: string): Result<string, Refusal> {
    match TextRule.Validate(value)
    case Some(rule) => Err(Forbidden(rule))
    case None => Ok(EscapeAll(value))
  }

  /** `read_unit`: four lowercase hex digits, and what follows them. */
  function ReadUnit(s: string): Option<CodeUnit> {
    ReadBy(s, LowerNibble)
  }

  /** One decoded character and the number of characters it was rendered with. */
  datatype Rendered = Rendered(c: char, width: nat)

  /** The rendered character at the head of `s`. */
  function UnescapeOne(s: string): (r: Result<Rendered, Refusal>)
    requires s != []
    ensures r.Ok? ==> 0 < r.value.width <= |s|
  {
    if s[0] != '\\' then
      if Literal(s[0]) then Ok(Rendered(s[0], 1)) else Err(NotLiteral)
    else if |s| < 2 || s[1] != 'u' then
      Err(NotUnicodeEscape)
    else match ReadUnit(s[2..])
      case None => Err(Truncated)
      case Some(unit) =>
        if IsHighSurrogate(unit) then
          if |s| < 8 || s[6] != '\\' || s[7] != 'u' then Err(UnpairedHigh)
          else match ReadUnit(s[8..])
            case None => Err(Truncated)
            case Some(low) => if IsLowSurrogate(low) then Ok(Rendered(Pair(unit, low), 12)) else Err(InvalidPair)
        else if IsLowSurrogate(unit) then
          Err(UnpairedLow)
        else if Literal(unit as char) then
          Err(NeedlessEscape)
        else
          Ok(Rendered(unit as char, 6))
  }

  function UnescapeAll(s: string): Result<string, Refusal>
    decreases |s|
  {
    if s == [] then Ok("")
    else match UnescapeOne(s)
      case Err(e) => Err(e)
      case Ok(Rendered(c, n)) =>
        match UnescapeAll(s[n..])
        case Err(e) => Err(e)
        case Ok(tail) => Ok([c] + tail)
  }

  function Unescape(rendered: string): Result<string, Refusal> {
    match UnescapeAll(rendered)
    case Err(e) => Err(e)
    case Ok(output) =>
      match TextRule.Validate(output)
      case Some(rule) => Err(Forbidden(rule))
      case None => Ok(output)
  }

  function Prefixed(output: string, r: Result<string, Refusal>): Result<string, Refusal> {
    match r
    case Err(e) => Err(e)
    case Ok(tail) => Ok(output + tail)
  }

  /** The inner loop of `escape_exact`: one `\\uXXXX` for each code unit. */
  method PushUnits(units: seq<CodeUnit>, output: string) returns (r: string)
    ensures r == output + EscapeUnits(units)
  {
    r := output;
    for k := 0 to |units|
      invariant r + EscapeUnits(units[k..]) == output + EscapeUnits(units)
    {
      assert units[k..][1..] == units[k + 1..];
      r := r + ("\\u" + Format(units[k]));
    }
  }

  lemma {:induction false} EscapeAllPush(value: string, i: nat)
    requires i < |value|
    ensures EscapeAll(value[..i + 1]) == EscapeAll(value[..i]) + EscapeChar(value[i])
  {
    hide EscapeChar;
    if i == 0 {
      assert value[..1] == [value[0]] && [value[0]][1..] == "";
    } else {
      EscapeAllPush(value[1..], i - 1);
      assert value[..i + 1][1..] == value[1..][..i];
      assert value[..i][1..] == value[1..][..i - 1];
    }
  }

  /** The loop of `escape_exact`. */
  method EscapeText(value: string) returns (r: Result<string, Refusal>)
    ensures r == Escape(value)
  {
    var rule := TextRule.Validate(value);
    if rule.Some? {
      return Err(Forbidden(rule.value));
    }
    var output := "";
    for i := 0 to |value|
      invariant output == EscapeAll(value[..i])
    {
      var c := value[i];
      EscapeAllPush(value, i);
      if Literal(c) {
        output := output + [c];
      } else {
        output := PushUnits(Utf16(c), output);
      }
    }
    assert value[..|value|] == value;
    return Ok(output);
  }

  /** The loop of `unescape_exact`. */
  method UnescapeText(rendered: string) returns (r: Result<string, Refusal>)
    ensures r == Unescape(rendered)
  {
    hide UnescapeAll, UnescapeOne, Prefixed;
    var output := "";
    var at := 0;
    assert rendered[0..] == rendered;
    PrefixedNothing(UnescapeAll(rendered));
    while at < |rendered|
      invariant 0 <= at <= |rendered|
      invariant UnescapeAll(rendered) == Prefixed(output, UnescapeAll(rendered[at..]))
    {
      var one := UnescapeOne(rendered[at..]);
      match one {
        case Err(e) =>
          UnescapeStops(rendered[at..], e, output);
          return Err(e);
        case Ok(Rendered(c, n)) =>
          UnescapeAllStep(rendered[at..], c, n);
          assert rendered[at..][n..] == rendered[at + n..];
          PrefixedTwice(output, [c], UnescapeAll(rendered[at + n..]));
          output := output + [c];
          at := at + n;
      }
    }
    assert rendered[at..] == "";
    UnescapeEnds(output);
    var rule := TextRule.Validate(output);
    match rule {
      case Some(e) => return Err(Forbidden(e));
      case None => return Ok(output);
    }
  }

  lemma UnescapeStops(s: string, e: Refusal, output: string)
    requires s != [] && UnescapeOne(s) == Err(e)
    ensures Prefixed(output, UnescapeAll(s)) == Err(e)
  {
  }

  lemma UnescapeEnds(output: string)
    ensures Prefixed(output, UnescapeAll("")) == Ok(output)
  {
    assert output + "" == output;
  }

  lemma PrefixedNothing(r: Result<string, Refusal>)
    ensures Prefixed("", r) == r
  {
    if r.Ok? {
      assert "" + r.value == r.value;
    }
  }

  lemma PrefixedTwice(output: string, next: string, r: Result<string, Refusal>)
    ensures Prefixed(output, Prefixed(next, r)) == Prefixed(output + next, r)
  {
    if r.Ok? {
      assert output + (next + r.value) == (output + next) + r.value;
    }
  }

  lemma UnescapeSingle(unit: CodeUnit, rest: string)
    requires !IsHighSurrogate(unit) && !IsLowSurrogate(unit) && !Literal(unit as char)
    ensures UnescapeOne("\\u" + Format(unit) + rest) == Ok(Rendered(unit as char, 6))
  {
    var s := "\\u" + Format(unit) + rest;
    assert s[2..] == Format(unit) + rest;
    ReadFormat(unit, rest);
  }

  lemma PairSlices(a: string, b: string, rest: string)
    requires |a| == 4 && |b| == 4
    ensures var s := "\\u" + a + "\\u" + b + rest;
      && |s| >= 12 && s[0] == s[6] == '\\' && s[1] == s[7] == 'u'
      && s[2..] == a + ("\\u" + b + rest) && s[8..] == b + rest
  {
  }

  lemma UnescapePair(high: CodeUnit, low: CodeUnit, rest: string)
    requires IsHighSurrogate(high) && IsLowSurrogate(low)
    ensures UnescapeOne("\\u" + Format(high) + "\\u" + Format(low) + rest) == Ok(Rendered(Pair(high, low), 12))
  {
    PairSlices(Format(high), Format(low), rest);
    ReadFormat(high, "\\u" + Format(low) + rest);
    ReadFormat(low, rest);
  }

  lemma OneUnit(unit: CodeUnit)
    ensures EscapeUnits([unit]) == "\\u" + Format(unit)
  {
  }

  lemma TwoUnits(high: CodeUnit, low: CodeUnit)
    ensures EscapeUnits([high, low]) == "\\u" + Format(high) + "\\u" + Format(low)
  {
    OneUnit(low);
    assert [high, low][1..] == [low];
    assert "\\u" + Format(high) + ("\\u" + Format(low)) == "\\u" + Format(high) + "\\u" + Format(low);
  }

  lemma UnescapeEscapedChar(c: char, rest: string)
    ensures UnescapeOne(EscapeChar(c) + rest) == Ok(Rendered(c, |EscapeChar(c)|))
  {
    if !Literal(c) {
      var units := Utf16(c);
      if |units| == 1 {
        assert units == [units[0]];
        OneUnit(units[0]);
        UnescapeSingle(units[0], rest);
      } else {
        Utf16Pair(c);
        assert units == [units[0], units[1]];
        TwoUnits(units[0], units[1]);
        UnescapePair(units[0], units[1], rest);
      }
    }
  }

  lemma ReadUnitFormats(s: string, at: nat)
    requires at <= |s| && ReadUnit(s[at..]).Some?
    ensures at + 4 <= |s| && s[at..at + 4] == Format(ReadUnit(s[at..]).value)
  {
  }

  lemma EscapedSingle(s: string, unit: CodeUnit)
    requires |s| >= 6 && s[0] == '\\' && s[1] == 'u' && s[2..6] == Format(unit)
    ensures s[..6] == EscapeUnits([unit])
  {
  }

  lemma EscapedPair(s: string, high: CodeUnit, low: CodeUnit)
    requires |s| >= 12 && s[0] == s[6] == '\\' && s[1] == s[7] == 'u'
    requires s[2..6] == Format(high) && s[8..12] == Format(low)
    ensures s[..12] == EscapeUnits([high, low])
  {
    TwoUnits(high, low);
    assert s[..12] == s[..2] + s[2..6] + s[6..8] + s[8..12] && s[..2] == "\\u" == s[6..8];
  }

  lemma EscapeUnescapedChar(s: string)
    requires s != [] && UnescapeOne(s).Ok?
    ensures var Rendered(c, n) := UnescapeOne(s).value; s[..n] == EscapeChar(c)
  {
    if s[0] == '\\' {
      var unit := ReadUnit(s[2..]).value;
      ReadUnitFormats(s, 2);
      if IsHighSurrogate(unit) {
        var low := ReadUnit(s[8..]).value;
        ReadUnitFormats(s, 8);
        PairUtf16(unit, low);
        EscapedPair(s, unit, low);
      } else {
        EscapedSingle(s, unit);
      }
    }
  }

  /** Reading one character off the front. */
  lemma UnescapeAllStep(s: string, c: char, n: nat)
    requires s != [] && UnescapeOne(s) == Ok(Rendered(c, n))
    ensures UnescapeAll(s) == Prefixed([c], UnescapeAll(s[n..]))
  {
  }

  lemma {:induction false} UnescapeAllOfEscapeAll(value: string)
    ensures UnescapeAll(EscapeAll(value)) == Ok(value)
  {
    if value != [] {
      var head, tail := EscapeChar(value[0]), EscapeAll(value[1..]);
      UnescapeEscapedChar(value[0], tail);
      UnescapeAllStep(head + tail, value[0], |head|);
      assert (head + tail)[|head|..] == tail;
      UnescapeAllOfEscapeAll(value[1..]);
      assert [value[0]] + value[1..] == value;
    }
  }

  lemma EscapeAllStep(c: char, tail: string)
    ensures EscapeAll([c] + tail) == EscapeChar(c) + EscapeAll(tail)
  {
  }

  lemma EscapeFirst(s: string, c: char, n: nat, tail: string)
    requires s != [] && UnescapeOne(s) == Ok(Rendered(c, n)) && EscapeAll(tail) == s[n..]
    ensures EscapeAll([c] + tail) == s
  {
    EscapeUnescapedChar(s);
    EscapeAllStep(c, tail);
    assert s == s[..n] + s[n..];
  }

  lemma {:induction false} EscapeAllOfUnescapeAll(s: string)
    requires UnescapeAll(s).Ok?
    ensures EscapeAll(UnescapeAll(s).value) == s
    decreases |s|
  {
    if s != [] {
      var one := UnescapeOne(s).value;
      UnescapeAllStep(s, one.c, one.width);
      EscapeAllOfUnescapeAll(s[one.width..]);
      EscapeFirst(s, one.c, one.width, UnescapeAll(s[one.width..]).value);
    }
  }

  /** Every value the renderer accepts comes back from its rendering. */
  lemma RoundTrip(value: string)
    requires Escape(value).Ok?
    ensures Unescape(Escape(value).value) == Ok(value)
  {
    UnescapeAllOfEscapeAll(value);
  }

  /** A rendering the reader accepts is exactly what the renderer writes for the result, so no
      two renderings name one value and a mutated preview never re-verifies. */
  lemma ReaderAcceptsOnlyRenderings(rendered: string)
    ensures Unescape(rendered).Ok? ==> Escape(Unescape(rendered).value) == Ok(rendered)
    ensures Unescape(rendered).Ok? <==> exists value :: Escape(value) == Ok(rendered)
  {
    if Unescape(rendered).Ok? {
      EscapeAllOfUnescapeAll(rendered);
      assert Escape(Unescape(rendered).value) == Ok(rendered);
    } else if value :| Escape(value) == Ok(rendered) {
      RoundTrip(value);
    }
  }

  predicate Printable(text: string) {
    forall c :: c in text ==> ' ' <= c <= '~'
  }

  /** Printable ASCII without a quote or a backslash is rendered as itself. */
  lemma {:induction false} PlainIsItself(value: string)
    requires Printable(value) && '"' !in value && '\\' !in value
    ensures EscapeAll(value) == value
  {
    if value != [] {
      assert value[0] in value && value == [value[0]] + value[1..];
      forall c | c in value[1..] ensures c in value {
      }
      PlainIsItself(value[1..]);
    }
  }

  lemma {:induction false} UnitsPrintable(units: seq<CodeUnit>)
    ensures Printable(EscapeUnits(units)) && '"' !in EscapeUnits(units)
    ensures |EscapeUnits(units)| == 6 * |units|
  {
    if units != [] {
      UnitsPrintable(units[1..]);
      var f := Format(units[0]);
      assert forall c :: c in f ==> '0' <= c <= '9' || 'a' <= c <= 'f';
    }
  }

  /** Every rendering is printable ASCII without a quote, six characters for each code unit it escapes: a
      preview shows whatever is in the value. */
  lemma {:induction false} RenderingIsPrintable(value: string)
    ensures Printable(EscapeAll(value)) && '"' !in EscapeAll(value)
    ensures |EscapeAll(value)| <= 6 * |Units(value)|
  {
    if value != [] {
      RenderingIsPrintable(value[1..]);
      UnitsPrintable(Utf16(value[0]));
    }
  }
}
