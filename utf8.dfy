/** UTF-8 (RFC 3629, section 3) for strings of Unicode scalar values: the
    encoder `XOauth2` applies to the login string, and a strict decoder that
    accepts only the shortest form of each scalar value. */
module Utf8 {
  import opened Basics

  /** A byte of the form 10xxxxxx. */
  predicate IsContinuation(b: byte)
  {
    0x80 <= b < 0xC0
  }

  /** The number of octets RFC 3629 uses for the scalar value `c`. */
  function Width(c: char): (n: nat)
  {
    var cp := c as int;
    if cp < 0x80 then 1 else if cp < 0x800 then 2 else if cp < 0x1_0000 then 3 else 4
  }

  /** The octets of one scalar value (table in section 3 of RFC 3629). */
  function EncodeChar(c: char): (r: seq<byte>)
    ensures |r| == Width(c)
  {
    var cp := c as int;
    if cp < 0x80 then
      [cp]
    else if cp < 0x800 then
      [0xC0 + cp / 0x40, 0x80 + cp % 0x40]
    else if cp < 0x1_0000 then
      [0xE0 + cp / 0x1000, 0x80 + cp / 0x40 % 0x40, 0x80 + cp % 0x40]
    else
      [0xF0 + cp / 0x4_0000, 0x80 + cp / 0x1000 % 0x40, 0x80 + cp / 0x40 % 0x40, 0x80 + cp % 0x40]
  }

  /** The UTF-8 octets of a whole string, character after character. */
  function Encode(s: string): (r: seq<byte>)
    ensures |s| <= |r| <= 4 * |s|
  {
    if s == [] then [] else EncodeChar(s[0]) + Encode(s[1..])
  }

  /** Reads the scalar value that `s` starts with, and how many octets it took.
      Rejects a bad lead byte, a missing or bad continuation byte, an overlong
      form, a surrogate code point and anything above U+10FFFF. */
  function DecodeFirst(s: seq<byte>): (r: Option<(char, nat)>)
    requires |s| > 0
    ensures r.Some? ==> 1 <= r.value.1 <= |s| && EncodeChar(r.value.0) == s[..r.value.1]
  {
    var b0: int := s[0];
    if b0 < 0x80 then
      Some((b0 as char, 1))
    else if 0xC0 <= b0 < 0xE0 then
      if |s| < 2 || !IsContinuation(s[1]) then None
      else
        var cp := (b0 as int - 0xC0) * 0x40 + (s[1] as int - 0x80);
        if cp < 0x80 then None
        else
          DecodeTwo(b0, s[1]);
          Some((cp as char, 2))
    else if 0xE0 <= b0 < 0xF0 then
      if |s| < 3 || !IsContinuation(s[1]) || !IsContinuation(s[2]) then None
      else
        var cp := (b0 as int - 0xE0) * 0x1000 + (s[1] as int - 0x80) * 0x40 + (s[2] as int - 0x80);
        if cp < 0x800 || (0xD800 <= cp < 0xE000) then None
        else
          DecodeThree(b0, s[1], s[2]);
          Some((cp as char, 3))
    else if 0xF0 <= b0 < 0xF8 then
      if |s| < 4 || !IsContinuation(s[1]) || !IsContinuation(s[2]) || !IsContinuation(s[3]) then None
      else
        var cp := (b0 as int - 0xF0) * 0x4_0000 + (s[1] as int - 0x80) * 0x1000 + (s[2] as int - 0x80) * 0x40 + (s[3] as int - 0x80);
        if cp < 0x1_0000 || cp > 0x10_FFFF then None
        else
          DecodeFour(b0, s[1], s[2], s[3]);
          Some((cp as char, 4))
    else
      None
  }

  /** Decodes a whole octet string, or None if any part of it is not UTF-8. */
  function Decode(s: seq<byte>): (r: Option<string>)
    decreases |s|
  {
    if s == [] then Some([])
    else
      match DecodeFirst(s)
      case None => None
      case Some((c, n)) =>
        match Decode(s[n..])
        case None => None
        case Some(rest) => Some([c] + rest)
  }

  // Re-encoding the value assembled from a lead byte and its continuation
  // bytes gives those bytes back: the arithmetic behind DecodeFirst.

  lemma DecodeTwo(b0: byte, b1: byte)
    requires 0xC0 <= b0 < 0xE0 && IsContinuation(b1)
    requires 0x80 <= (b0 as int - 0xC0) * 0x40 + (b1 as int - 0x80)
    ensures var cp := (b0 as int - 0xC0) * 0x40 + (b1 as int - 0x80);
            cp < 0x800 && EncodeChar(cp as char) == [b0, b1]
  {
    DivMod(b0 as int - 0xC0, 0x40, b1 as int - 0x80);
  }

  lemma DecodeThree(b0: byte, b1: byte, b2: byte)
    requires 0xE0 <= b0 < 0xF0 && IsContinuation(b1) && IsContinuation(b2)
    requires var cp := (b0 as int - 0xE0) * 0x1000 + (b1 as int - 0x80) * 0x40 + (b2 as int - 0x80);
             0x800 <= cp && !(0xD800 <= cp < 0xE000)
    ensures var cp := (b0 as int - 0xE0) * 0x1000 + (b1 as int - 0x80) * 0x40 + (b2 as int - 0x80);
            cp < 0x1_0000 && EncodeChar(cp as char) == [b0, b1, b2]
  {
    var x, y, z := b0 as int - 0xE0, b1 as int - 0x80, b2 as int - 0x80;
    var cp := x * 0x1000 + y * 0x40 + z;
    DivMod(x, 0x1000, y * 0x40 + z);
    DivMod(x * 0x40 + y, 0x40, z);
    assert cp == (x * 0x40 + y) * 0x40 + z;
    DivMod(x, 0x40, y);
  }

  lemma DecodeFour(b0: byte, b1: byte, b2: byte, b3: byte)
    requires 0xF0 <= b0 < 0xF8 && IsContinuation(b1) && IsContinuation(b2) && IsContinuation(b3)
    requires var cp := (b0 as int - 0xF0) * 0x4_0000 + (b1 as int - 0x80) * 0x1000 + (b2 as int - 0x80) * 0x40 + (b3 as int - 0x80);
             0x1_0000 <= cp <= 0x10_FFFF
    ensures var cp := (b0 as int - 0xF0) * 0x4_0000 + (b1 as int - 0x80) * 0x1000 + (b2 as int - 0x80) * 0x40 + (b3 as int - 0x80);
            EncodeChar(cp as char) == [b0, b1, b2, b3]
  {
    var w, x, y, z := b0 as int - 0xF0, b1 as int - 0x80, b2 as int - 0x80, b3 as int - 0x80;
    var cp := w * 0x4_0000 + x * 0x1000 + y * 0x40 + z;
    DivMod(w, 0x4_0000, x * 0x1000 + y * 0x40 + z);
    assert cp == (w * 0x40 + x) * 0x1000 + (y * 0x40 + z);
    DivMod(w * 0x40 + x, 0x1000, y * 0x40 + z);
    DivMod(w, 0x40, x);
    assert cp == (w * 0x1000 + x * 0x40 + y) * 0x40 + z;
    DivMod(w * 0x1000 + x * 0x40 + y, 0x40, z);
    assert w * 0x1000 + x * 0x40 + y == (w * 0x40 + x) * 0x40 + y;
    DivMod(w * 0x40 + x, 0x40, y);
  }

  /** A code point written as base-64 digits, the way EncodeChar splits it. */
  lemma Digits(cp: int)
    requires 0 <= cp
    ensures cp == cp / 0x40 * 0x40 + cp % 0x40
    ensures cp == cp / 0x1000 * 0x1000 + cp / 0x40 % 0x40 * 0x40 + cp % 0x40
    ensures cp == cp / 0x4_0000 * 0x4_0000 + cp / 0x1000 % 0x40 * 0x1000 + cp / 0x40 % 0x40 * 0x40 + cp % 0x40
  {
    var a1, z := cp / 0x40, cp % 0x40;
    var a2, y := a1 / 0x40, a1 % 0x40;
    var a3, x := a2 / 0x40, a2 % 0x40;
    assert cp == a2 * 0x1000 + (y * 0x40 + z);
    DivMod(a2, 0x1000, y * 0x40 + z);
    assert cp == a3 * 0x4_0000 + (x * 0x1000 + y * 0x40 + z);
    DivMod(a3, 0x4_0000, x * 0x1000 + y * 0x40 + z);
  }

  /** The decoder reads back the character the encoder wrote, whatever follows it. */
  lemma DecodeFirstOfEncoded(c: char, rest: seq<byte>)
    ensures DecodeFirst(EncodeChar(c) + rest) == Some((c, Width(c)))
  {
    var cp := c as int;
    if cp < 0x80 {
    } else if cp < 0x800 {
      FirstOfTwo(c, rest);
    } else if cp < 0x1_0000 {
      FirstOfThree(c, rest);
    } else {
      FirstOfFour(c, rest);
    }
  }

  // DecodeFirstOfEncoded, one width at a time.

  lemma FirstOfTwo(c: char, rest: seq<byte>)
    requires 0x80 <= c as int < 0x800
    ensures DecodeFirst(EncodeChar(c) + rest) == Some((c, 2))
  {
    var cp, s := c as int, EncodeChar(c) + rest;
    Digits(cp);
    assert s[0] == 0xC0 + cp / 0x40 && s[1] == 0x80 + cp % 0x40;
  }

  lemma FirstOfThree(c: char, rest: seq<byte>)
    requires 0x800 <= c as int < 0x1_0000
    ensures DecodeFirst(EncodeChar(c) + rest) == Some((c, 3))
  {
    var cp, s := c as int, EncodeChar(c) + rest;
    Digits(cp);
    assert s[0] == 0xE0 + cp / 0x1000 && s[1] == 0x80 + cp / 0x40 % 0x40 && s[2] == 0x80 + cp % 0x40;
  }

  lemma FirstOfFour(c: char, rest: seq<byte>)
    requires 0x1_0000 <= c as int
    ensures DecodeFirst(EncodeChar(c) + rest) == Some((c, 4))
  {
    var cp, s := c as int, EncodeChar(c) + rest;
    Digits(cp);
    assert s[0] == 0xF0 + cp / 0x4_0000 && s[1] == 0x80 + cp / 0x1000 % 0x40;
    assert s[2] == 0x80 + cp / 0x40 % 0x40 && s[3] == 0x80 + cp % 0x40;
  }

  /** Encoding a concatenation is concatenating the encodings. */
  lemma {:induction false} EncodeAppend(a: string, b: string)
    ensures Encode(a + b) == Encode(a) + Encode(b)
  {
    if a == [] {
      assert a + b == b;
    } else {
      assert (a + b)[1..] == a[1..] + b;
      EncodeAppend(a[1..], b);
    }
  }

  /** Round trip: decoding the UTF-8 of any string gives that string back. */
  lemma {:induction false} DecodeEncode(s: string)
    ensures Decode(Encode(s)) == Some(s)
  {
    if s != [] {
      var e := EncodeChar(s[0]);
      DecodeFirstOfEncoded(s[0], Encode(s[1..]));
      assert (e + Encode(s[1..]))[|e|..] == Encode(s[1..]);
      DecodeEncode(s[1..]);
      assert [s[0]] + s[1..] == s;
    }
  }

  /** Converse round trip: the decoder accepts only what the encoder
      produces, so an accepted octet string re-encodes to itself. */
  lemma {:induction false} EncodeDecode(b: seq<byte>, s: string)
    requires Decode(b) == Some(s)
    ensures Encode(s) == b
    decreases |b|
  {
    if b != [] {
      var c, n, rest := DecodeStep(b);
      EncodeDecode(b[n..], rest);
      Reassemble(b, n, c, rest);
    }
  }

  /** The first character's octets followed by the rest's are the whole. */
  lemma Reassemble(b: seq<byte>, n: nat, c: char, rest: string)
    requires 1 <= n <= |b| && EncodeChar(c) == b[..n] && Encode(rest) == b[n..]
    ensures Encode([c] + rest) == b
  {
    var s := [c] + rest;
    assert s[0] == c && s[1..] == rest;
    EncodeCons(s);
    assert b == b[..n] + b[n..];
  }

  /** An accepted non-empty octet string: its first character, the octets
      that encode it, and the rest, which is accepted too. */
  lemma DecodeStep(b: seq<byte>) returns (c: char, n: nat, rest: string)
    requires b != [] && Decode(b).Some?
    ensures 1 <= n <= |b| && EncodeChar(c) == b[..n]
    ensures Decode(b[n..]) == Some(rest) && Decode(b).value == [c] + rest
  {
    c, n := DecodeFirst(b).value.0, DecodeFirst(b).value.1;
    rest := Decode(b[n..]).value;
  }

  /** The encoding of a non-empty string starts with that of its first character. */
  lemma EncodeCons(s: string)
    requires s != []
    ensures Encode(s) == EncodeChar(s[0]) + Encode(s[1..])
  {
  }

  /** On ASCII text UTF-8 is the identity, octet for character. */
  lemma {:induction false} EncodeAscii(s: string)
    requires IsAscii(s)
    ensures |Encode(s)| == |s|
    ensures forall i :: 0 <= i < |s| ==> Encode(s)[i] == s[i] as int
  {
    if s != [] {
      EncodeAscii(s[1..]);
    }
  }
}
