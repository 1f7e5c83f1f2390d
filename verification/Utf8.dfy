/**
 Bytes, and text as Rust stores it: a `String` is the UTF-8 form (RFC 3629) of a sequence of
 Unicode scalar values, which is what Dafny's `char` is. Every statement about bytes in the other
 modules reduces to one about characters through `EncodeInjective`.
 */
module Utf8 {
  newtype byte = b: int | 0 <= b < 256

  type Bytes = seq<byte>

  function EncodeChar(c: char): (r: Bytes)
    ensures 1 <= |r| <= 4
  {
    var n := c as int;
    if n < 0x80 then
      [n as byte]
    else if n < 0x800 then
      [(0xC0 + n / 0x40) as byte, Continuation(n)]
    else if n < 0x1_0000 then
      [(0xE0 + n / 0x1000) as byte, Continuation(n / 0x40), Continuation(n)]
    else
      [(0xF0 + n / 0x4_0000) as byte, Continuation(n / 0x1000), Continuation(n / 0x40), Continuation(n)]
  }

  function Continuation(n: nat): byte {
    (0x80 + n % 0x40) as byte
  }

  /** The six bits a continuation byte carries. */
  function Payload(b: byte): int {
    b as int - 0x80
  }

  /** The code a sequence of one to four bytes carries: the bits of the first byte below its marker, and
      six of each other one. */
  function CodeOf(r: Bytes): int
    requires 1 <= |r| <= 4
  {
    if |r| == 1 then r[0] as int
    else if |r| == 2 then (r[0] as int - 0xC0) * 0x40 + Payload(r[1])
    else if |r| == 3 then (r[0] as int - 0xE0) * 0x1000 + Payload(r[1]) * 0x40 + Payload(r[2])
    else (r[0] as int - 0xF0) * 0x4_0000 + Payload(r[1]) * 0x1000 + Payload(r[2]) * 0x40 + Payload(r[3])
  }

  /** A character is encoded as section 3 of RFC 3629 has it: a first byte that tells the length, then
      continuation bytes, carrying the character's code; in the fewest bytes that can. */
  lemma EncodeCharExact(c: char)
    ensures var r := EncodeChar(c); var n := c as int;
      && CodeOf(r) == n
      && (match |r| case 1 => r[0] < 0x80 case 2 => 0xC2 <= r[0] < 0xE0 case 3 => 0xE0 <= r[0] < 0xF0 case _ => 0xF0 <= r[0] < 0xF5)
      && (forall i :: 1 <= i < |r| ==> 0x80 <= r[i] < 0xC0)
      && (|r| > 1 ==> n >= 0x80) && (|r| > 2 ==> n >= 0x800) && (|r| > 3 ==> n >= 0x1_0000)
  {
    var n := c as int;
    SixBits(n);
    SixBits(n / 0x40);
    SixBits(n / 0x1000);
    assert n / 0x1000 == n / 0x40 / 0x40 && n / 0x4_0000 == n / 0x1000 / 0x40;
  }

  lemma SixBits(n: nat)
    ensures Payload(Continuation(n)) == n % 0x40 && 0x80 <= Continuation(n) < 0xC0 && n == n / 0x40 * 0x40 + n % 0x40
  {
  }

  function Encode(text: string): Bytes {
    if text == [] then [] else EncodeChar(text[0]) + Encode(text[1..])
  }

  /** The length in bytes of `text`, as `String::len` counts it. */
  function Length(text: string): nat {
    |Encode(text)|
  }

  /** No character's encoding is a proper prefix of another's, and no two characters share one. */
  lemma EncodeCharPrefixFree(c: char, x: Bytes, d: char, y: Bytes)
    requires EncodeChar(c) + x == EncodeChar(d) + y
    ensures c == d && x == y
  {
    var s := EncodeChar(c) + x;
    var t := EncodeChar(d) + y;
    assert s[0] == EncodeChar(c)[0] && t[0] == EncodeChar(d)[0];
    assert |EncodeChar(c)| == |EncodeChar(d)|;
    assert EncodeChar(c) == s[..|EncodeChar(c)|] == EncodeChar(d);
    assert x == s[|EncodeChar(c)|..] == y;
    SameEncodingSameCode(c as int, d as int);
  }

  lemma SameEncodingSameCode(m: nat, n: nat)
    requires (m < 0xD800 || 0xE000 <= m <= 0x10FFFF) && (n < 0xD800 || 0xE000 <= n <= 0x10FFFF)
    requires EncodeChar(m as char) == EncodeChar(n as char)
    ensures m == n
  {
    var s := EncodeChar(m as char);
    var t := EncodeChar(n as char);
    assert |s| == |t|;
    assert s[0] == t[0];
    if |s| > 1 {
      assert s[|s| - 1] == t[|s| - 1];
      assert m % 0x40 == n % 0x40;
      if |s| == 2 {
        assert m / 0x40 == n / 0x40;
      } else {
        assert s[|s| - 2] == t[|s| - 2];
        assert (m / 0x40) % 0x40 == (n / 0x40) % 0x40;
        if |s| == 3 {
          assert m / 0x1000 == (m / 0x40) / 0x40 && n / 0x1000 == (n / 0x40) / 0x40;
        } else {
          assert s[1] == t[1];
          assert (m / 0x1000) % 0x40 == (n / 0x1000) % 0x40;
          assert m / 0x4_0000 == n / 0x4_0000;
          assert m / 0x4_0000 == (m / 0x1000) / 0x40 && n / 0x4_0000 == (n / 0x1000) / 0x40;
          assert m / 0x1000 == (m / 0x40) / 0x40 && n / 0x1000 == (n / 0x40) / 0x40;
        }
      }
    }
  }

  lemma {:induction false} EncodeInjective(s: string, t: string)
    requires Encode(s) == Encode(t)
    ensures s == t
  {
    if s == [] {
      assert t == [];
    } else {
      assert t != [];
      EncodeCharPrefixFree(s[0], Encode(s[1..]), t[0], Encode(t[1..]));
      EncodeInjective(s[1..], t[1..]);
    }
  }

  lemma {:induction false} EncodeConcat(s: string, t: string)
    ensures Encode(s + t) == Encode(s) + Encode(t)
  {
    if s == [] {
      assert s + t == t;
    } else {
      assert (s + t)[1..] == s[1..] + t;
      EncodeConcat(s[1..], t);
    }
  }

  /** An ASCII byte occurs in the encoding only where that character does in the text. */
  lemma {:induction false} AsciiByteIsItsChar(text: string, b: byte)
    requires b < 0x80
    requires (b as char) !in text
    ensures b !in Encode(text)
  {
    if text != [] {
      AsciiByteIsItsChar(text[1..], b);
      assert text[0] != b as char;
      assert b !in EncodeChar(text[0]);
    }
  }
}
