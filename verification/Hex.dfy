/** The four-digit hexadecimal code units that `\uXXXX` escapes are written with, and UTF-16. */
module Hex {
  import opened Wrappers

  type CodeUnit = u: int | 0 <= u < 0x1_0000

  type Nibble = n: int | 0 <= n < 16

  function Digit(n: Nibble): (c: char)
    ensures '0' <= c <= '9' || 'a' <= c <= 'f'
  {
    if n < 10 then ('0' as int + n) as char else ('a' as int + n - 10) as char
  }

  function Format(u: CodeUnit): (r: string)
    ensures |r| == 4
  {
    [Digit(u / 16 / 16 / 16), Digit(u / 16 / 16 % 16), Digit(u / 16 % 16), Digit(u % 16)]
  }

  /** The digit values a lowercase-only reader accepts. */
  function LowerNibble(c: char): Option<Nibble> {
    if '0' <= c <= '9' then Some(c as int - '0' as int)
    else if 'a' <= c <= 'f' then Some(c as int - 'a' as int + 10)
    else None
  }

  /** The digit values a JSON reader accepts. */
  function AnyNibble(c: char): Option<Nibble> {
    if 'A' <= c <= 'F' then Some(c as int - 'A' as int + 10) else LowerNibble(c)
  }

  /** The first four characters of `s` read as one code unit by `nibble`. */
  function ReadBy(s: string, nibble: char -> Option<Nibble>): Option<CodeUnit> {
    if |s| < 4 then None else
    match (nibble(s[0]), nibble(s[1]), nibble(s[2]), nibble(s[3]))
    case (Some(a), Some(b), Some(c), Some(d)) => Some(Combine(a, b, c, d))
    case _ => None
  }

  /** Four digits, most significant first. */
  function Combine(a: Nibble, b: Nibble, c: Nibble, d: Nibble): (u: CodeUnit)
    ensures u / 16 / 16 / 16 == a && u / 16 / 16 % 16 == b && u / 16 % 16 == c && u % 16 == d
  {
    var x: int := a * 16 + b;
    var y: int := x * 16 + c;
    assert x / 16 == a && y / 16 == x;
    y * 16 + d
  }

  lemma NibbleDigit(n: Nibble)
    ensures LowerNibble(Digit(n)) == AnyNibble(Digit(n)) == Some(n)
  {
  }

  lemma CombineDigits(u: CodeUnit)
    ensures Combine(u / 16 / 16 / 16, u / 16 / 16 % 16, u / 16 % 16, u % 16) == u
  {
  }

  predicate IsHighSurrogate(u: CodeUnit) { 0xD800 <= u <= 0xDBFF }

  predicate IsLowSurrogate(u: CodeUnit) { 0xDC00 <= u <= 0xDFFF }

  function Utf16(c: char): (r: seq<CodeUnit>)
    ensures |r| == 1 || |r| == 2
  {
    var n := c as int;
    if n < 0x1_0000 then [n]
    else [0xD800 + (n - 0x1_0000) / 0x400, 0xDC00 + (n - 0x1_0000) % 0x400]
  }

  function Pair(high: CodeUnit, low: CodeUnit): char
    requires IsHighSurrogate(high) && IsLowSurrogate(low)
  {
    (0x1_0000 + (high - 0xD800) * 0x400 + (low - 0xDC00)) as char
  }

  lemma ReadFormat(u: CodeUnit, rest: string)
    ensures ReadBy(Format(u) + rest, LowerNibble) == Some(u)
    ensures ReadBy(Format(u) + rest, AnyNibble) == Some(u)
  {
    var s := Format(u) + rest;
    assert s[0] == Digit(u / 16 / 16 / 16) && s[1] == Digit(u / 16 / 16 % 16);
    assert s[2] == Digit(u / 16 % 16) && s[3] == Digit(u % 16);
    NibbleDigit(u / 16 / 16 / 16);
    NibbleDigit(u / 16 / 16 % 16);
    NibbleDigit(u / 16 % 16);
    NibbleDigit(u % 16);
    CombineDigits(u);
  }

  lemma PairUtf16(high: CodeUnit, low: CodeUnit)
    requires IsHighSurrogate(high) && IsLowSurrogate(low)
    ensures Utf16(Pair(high, low)) == [high, low]
  {
  }

  lemma Utf16Pair(c: char)
    requires |Utf16(c)| == 2
    ensures IsHighSurrogate(Utf16(c)[0]) && IsLowSurrogate(Utf16(c)[1])
    ensures Pair(Utf16(c)[0], Utf16(c)[1]) == c
  {
  }

  /** The UTF-16 form of a text: what RFC 8785 section 3.2.3 compares object keys by. */
  function Units(text: string): seq<CodeUnit> {
    if text == [] then [] else Utf16(text[0]) + Units(text[1..])
  }

  lemma {:induction false} UnitsInjective(s: string, t: string)
    requires Units(s) == Units(t)
    ensures s == t
  {
    if s == [] {
      assert t == [];
    } else {
      assert t != [];
      var a, b := Units(s), Units(t);
      assert a[0] == Utf16(s[0])[0] && b[0] == Utf16(t[0])[0];
      assert |Utf16(s[0])| == |Utf16(t[0])|;
      if |Utf16(s[0])| == 2 {
        assert a[1] == Utf16(s[0])[1] && b[1] == Utf16(t[0])[1];
        Utf16Pair(s[0]);
        Utf16Pair(t[0]);
      }
      assert s[0] == t[0];
      assert Units(s[1..]) == a[|Utf16(s[0])|..] && Units(t[1..]) == b[|Utf16(s[0])|..];
      UnitsInjective(s[1..], t[1..]);
    }
  }
}
