/** Strict UTF-8: the shortest form of each Unicode scalar value and nothing else. */
module Utf8 {
  import opened Common

  type Byte = x: int | 0 <= x < 256

  function EncodeChar(c: char): seq<Byte> {
    var n := c as int;
    if n < 0x80 then [n]
    else if n < 0x800 then [0xC0 + n / 64, 0x80 + n % 64]
    else if n < 0x1_0000 then [0xE0 + n / 4096, 0x80 + n / 64 % 64, 0x80 + n % 64]
    else [0xF0 + n / 262144, 0x80 + n / 4096 % 64, 0x80 + n / 64 % 64, 0x80 + n % 64]
  }

  function Encode(s: string): seq<Byte> {
    if s == "" then [] else EncodeChar(s[0]) + Encode(s[1..])
  }

  predicate IsContinuation(b: seq<Byte>, i: nat) {
    i < |b| && 0x80 <= b[i] < 0xC0
  }

  /** The low six bits a byte contributes. */
  function Bits(b: seq<Byte>, i: nat): int
    requires i < |b|
  {
    b[i] as int - 0x80
  }

  datatype CodePoint = CodePoint(n: int, width: nat)

  function Scalar(n: int): Option<char> {
    if 0 <= n < 0xD800 || 0xE000 <= n < 0x11_0000 then Some(n as char) else None
  }

  /** The code point a leading byte and its continuation bytes spell, before range checks. */
  function Spelled(b: seq<Byte>): Option<CodePoint> {
    if b == [] then None
    else if b[0] < 0x80 then Some(CodePoint(b[0], 1))
    else if 0xC0 <= b[0] < 0xE0 && IsContinuation(b, 1) then Some(CodePoint((b[0] - 0xC0) * 64 + Bits(b, 1), 2))
    else if 0xE0 <= b[0] < 0xF0 && IsContinuation(b, 1) && IsContinuation(b, 2) then
      Some(CodePoint(((b[0] - 0xE0) * 64 + Bits(b, 1)) * 64 + Bits(b, 2), 3))
    else if 0xF0 <= b[0] < 0xF8 && IsContinuation(b, 1) && IsContinuation(b, 2) && IsContinuation(b, 3) then
      Some(CodePoint((((b[0] - 0xF0) * 64 + Bits(b, 1)) * 64 + Bits(b, 2)) * 64 + Bits(b, 3), 4))
    else None
  }

  /** Decode the first character; overlong forms, surrogates and values past U+10FFFF fail. */
  function DecodeFirst(b: seq<Byte>): (r: Option<(char, nat)>)
    ensures r.Some? ==> 0 < r.value.1 <= |b|
  {
    var spelled := Spelled(b);
    if spelled.None? then None
    else
      var CodePoint(n, width) := spelled.value;
      var shortest := if n < 0x80 then 1 else if n < 0x800 then 2 else if n < 0x1_0000 then 3 else 4;
      if width != shortest || Scalar(n).None? then None else Some((Scalar(n).value, width))
  }

  function Decode(b: seq<Byte>): Option<string> {
    if b == [] then Some("")
    else
      var first := DecodeFirst(b);
      if first.None? then None
      else
        var rest := Decode(b[first.value.1..]);
        if rest.None? then None else Some([first.value.0] + rest.value)
  }

  lemma DecodeFirstEncoded(c: char, rest: seq<Byte>)
    ensures DecodeFirst(EncodeChar(c) + rest) == Some((c, |EncodeChar(c)|))
  {
    var n, b := c as int, EncodeChar(c) + rest;
    assert n == n / 64 * 64 + n % 64;
    assert n / 64 == n / 4096 * 64 + n / 64 % 64;
    assert n / 4096 == n / 262144 * 64 + n / 4096 % 64;
    assert Scalar(n) == Some(c);
    assert Spelled(b) == Some(CodePoint(n, |EncodeChar(c)|));
  }

  lemma Digits(q: int, r: int)
    requires 0 <= r < 64
    ensures (q * 64 + r) / 64 == q && (q * 64 + r) % 64 == r
  {
  }

  lemma ThreeDigits(a: int, b: int, c: int)
    requires 0 <= b < 64 && 0 <= c < 64
    ensures var n := (a * 64 + b) * 64 + c; n / 4096 == a && n / 64 % 64 == b && n % 64 == c
  {
    Digits(a * 64 + b, c);
    Digits(a, b);
    var n := (a * 64 + b) * 64 + c;
    assert n / 4096 == n / 64 / 64;
  }

  lemma FourDigits(a: int, b: int, c: int, d: int)
    requires 0 <= b < 64 && 0 <= c < 64 && 0 <= d < 64
    ensures var n := ((a * 64 + b) * 64 + c) * 64 + d;
      n / 262144 == a && n / 4096 % 64 == b && n / 64 % 64 == c && n % 64 == d
  {
    ThreeDigits(a, b, c);
    Digits((a * 64 + b) * 64 + c, d);
    var n := ((a * 64 + b) * 64 + c) * 64 + d;
    assert n / 4096 == n / 64 / 64 && n / 262144 == n / 64 / 4096;
  }

  lemma EncodeDecodedFirst(b: seq<Byte>)
    requires DecodeFirst(b).Some?
    ensures var (c, width) := DecodeFirst(b).value; EncodeChar(c) == b[..width]
  {
    var width := DecodeFirst(b).value.1;
    if width == 2 {
      Digits(b[0] - 0xC0, Bits(b, 1));
    } else if width == 3 {
      ThreeDigits(b[0] - 0xE0, Bits(b, 1), Bits(b, 2));
    } else if width == 4 {
      FourDigits(b[0] - 0xF0, Bits(b, 1), Bits(b, 2), Bits(b, 3));
    }
  }

  lemma EncodedIsNotEmpty(c: char)
    ensures EncodeChar(c) != []
  {
  }

  lemma {:induction false} DecodeEncode(s: string)
    ensures Decode(Encode(s)) == Some(s)
  {
    hide DecodeFirst, EncodeChar;
    if s != "" {
      DecodeEncode(s[1..]);
      DecodeFirstEncoded(s[0], Encode(s[1..]));
      var b := Encode(s);
      EncodedIsNotEmpty(s[0]);
      assert b[|EncodeChar(s[0])|..] == Encode(s[1..]) && b != [];
      assert s == [s[0]] + s[1..];
    }
  }

  /** Decoding is strict: only the encoding of a string decodes to it. */
  lemma {:induction false} EncodeDecode(b: seq<Byte>)
    requires Decode(b).Some?
    ensures Encode(Decode(b).value) == b
  {
    hide DecodeFirst, EncodeChar;
    if b != [] {
      var (c, width) := DecodeFirst(b).value;
      EncodeDecode(b[width..]);
      EncodeDecodedFirst(b);
      var rest := Decode(b[width..]).value;
      assert ([c] + rest)[1..] == rest;
      assert b == b[..width] + b[width..];
    }
  }

  // ---------------------------------------------------------------- the octet table

  /** The byte is the mark followed by payload bits, of `size` values in all. */
  predicate Carries(octet: Byte, mark: int, size: int, payload: int) {
    octet == mark + payload && 0 <= payload < size
  }

  /** The table of section 3 of RFC 3629: the range of the code point fixes the number of bytes, and their payloads
      are its digits, the first the most significant. */
  ghost predicate Octets(b: seq<Byte>, c: char) {
    var n := c as int;
    || (n <= 0x7F && b == [n])
    || (0x80 <= n <= 0x7FF && |b| == 2 &&
        exists x, y | Carries(b[0], 0xC0, 0x20, x) && Carries(b[1], 0x80, 0x40, y) :: n == x * 0x40 + y)
    || (0x800 <= n <= 0xFFFF && |b| == 3 &&
        exists x, y, z | Carries(b[0], 0xE0, 0x10, x) && Carries(b[1], 0x80, 0x40, y) && Carries(b[2], 0x80, 0x40, z) ::
          n == x * 0x1000 + y * 0x40 + z)
    || (0x1_0000 <= n && |b| == 4 &&
        exists w, x, y, z | Carries(b[0], 0xF0, 0x8, w) && Carries(b[1], 0x80, 0x40, x) &&
                            Carries(b[2], 0x80, 0x40, y) && Carries(b[3], 0x80, 0x40, z) ::
          n == w * 0x4_0000 + x * 0x1000 + y * 0x40 + z)
  }

  ghost predicate Spells(b: seq<Byte>, s: string) {
    if s == "" then b == []
    else exists k | 0 < k <= |b| :: Octets(b[..k], s[0]) && Spells(b[k..], s[1..])
  }

  lemma OctetsExact(c: char, b: seq<Byte>)
    ensures EncodeChar(c) == b <==> Octets(b, c)
  {
    if EncodeChar(c) == b {
      EncodedOctets(c);
    }
    if Octets(b, c) {
      OctetsEncoded(c, b);
    }
  }

  lemma SixBits(n: int)
    requires 0 <= n
    ensures n == n / 64 * 64 + n % 64 && n / 64 == n / 4096 * 64 + n / 64 % 64
    ensures n / 4096 == n / 262144 * 64 + n / 4096 % 64
    ensures 0 <= n % 64 < 64 && 0 <= n / 64 % 64 < 64 && 0 <= n / 4096 % 64 < 64
  {
  }

  lemma TwoOctets(c: char, b: seq<Byte>, x: int, y: int)
    requires 0x80 <= c as int == x * 0x40 + y < 0x800 && 0 <= x && 0 <= y < 0x40 && b == [0xC0 + x, 0x80 + y]
    ensures Octets(b, c)
  {
    assert Carries(b[0], 0xC0, 0x20, x) && Carries(b[1], 0x80, 0x40, y);
  }

  lemma ThreeOctets(c: char, b: seq<Byte>, x: int, y: int, z: int)
    requires 0x800 <= c as int == x * 0x1000 + y * 0x40 + z < 0x1_0000 && 0 <= x && 0 <= y < 0x40 && 0 <= z < 0x40
    requires b == [0xE0 + x, 0x80 + y, 0x80 + z]
    ensures Octets(b, c)
  {
    assert Carries(b[0], 0xE0, 0x10, x) && Carries(b[1], 0x80, 0x40, y) && Carries(b[2], 0x80, 0x40, z);
  }

  lemma FourOctets(c: char, b: seq<Byte>, w: int, x: int, y: int, z: int)
    requires 0x1_0000 <= c as int == w * 0x4_0000 + x * 0x1000 + y * 0x40 + z
    requires 0 <= w && 0 <= x < 0x40 && 0 <= y < 0x40 && 0 <= z < 0x40
    requires w < 8 && b == [0xF0 + w, 0x80 + x, 0x80 + y, 0x80 + z]
    ensures Octets(b, c)
  {
    assert Carries(b[0], 0xF0, 0x8, w) && Carries(b[1], 0x80, 0x40, x);
    assert Carries(b[2], 0x80, 0x40, y) && Carries(b[3], 0x80, 0x40, z);
  }

  lemma EncodedOctets(c: char)
    ensures Octets(EncodeChar(c), c)
  {
    var n, b := c as int, EncodeChar(c);
    SixBits(n);
    hide Octets;
    if n < 0x80 {
      OneOctet(c);
    } else if n < 0x800 {
      TwoOctets(c, b, n / 64, n % 64);
    } else if n < 0x1_0000 {
      ThreeOctets(c, b, n / 4096, n / 64 % 64, n % 64);
    } else {
      FourOctets(c, b, n / 262144, n / 4096 % 64, n / 64 % 64, n % 64);
    }
  }

  lemma OneOctet(c: char)
    requires c as int < 0x80
    ensures Octets(EncodeChar(c), c)
  {
  }

  lemma OctetsEncoded(c: char, b: seq<Byte>)
    requires Octets(b, c)
    ensures EncodeChar(c) == b
  {
    var n := c as int;
    if 0x80 <= n <= 0x7FF {
      Digits(b[0] - 0xC0, b[1] - 0x80);
    } else if 0x800 <= n <= 0xFFFF {
      ThreeDigits(b[0] - 0xE0, b[1] - 0x80, b[2] - 0x80);
    } else if 0x1_0000 <= n {
      FourDigits(b[0] - 0xF0, b[1] - 0x80, b[2] - 0x80, b[3] - 0x80);
    }
  }

  /** Encoding a string spells its characters by the table, one after the other. */
  lemma {:induction false} SpellsExact(s: string, b: seq<Byte>)
    ensures Encode(s) == b <==> Spells(b, s)
  {
    hide EncodeChar, Octets;
    if s != "" {
      var first, rest := EncodeChar(s[0]), Encode(s[1..]);
      EncodedIsNotEmpty(s[0]);
      OctetsExact(s[0], first);
      SpellsExact(s[1..], rest);
      if b == first + rest {
        assert b[..|first|] == first && b[|first|..] == rest;
      }
      if Spells(b, s) {
        var k :| 0 < k <= |b| && Octets(b[..k], s[0]) && Spells(b[k..], s[1..]);
        OctetsExact(s[0], b[..k]);
        SpellsExact(s[1..], b[k..]);
        assert b == b[..k] + b[k..];
      }
    }
  }
}
