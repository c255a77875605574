/** Base 64 with the standard alphabet and `=` padding (section 4 of
    RFC 4648), the encoding `Convert.ToBase64String` produces, and a strict
    decoder that accepts exactly the canonical encodings.

    The encoding works in stages, as section 4 of RFC 4648 describes it: the
    octets are cut into 6-bit groups (a final partial quantum is filled with
    zero bits), each group becomes one character of the alphabet, and `=`
    characters pad the text to a whole number of 4-character quanta. */
module Base64 {
  import opened Basics

  /** A 6-bit group: the value one encoded character carries. */
  type index = i: int | 0 <= i < 0x40

  /** The pad character. */
  const Pad: char := '='

  /** `c` is one of the 64 characters of Table 1 (so not the pad). */
  predicate InAlphabet(c: char)
  {
    'A' <= c <= 'Z' || 'a' <= c <= 'z' || '0' <= c <= '9' || c == '+' || c == '/'
  }

  /** Table 1 of RFC 4648: A-Z, a-z, 0-9, '+', '/'. */
  function CharOf(i: index): (c: char)
    ensures InAlphabet(c)
  {
    if i < 26 then ('A' as int + i) as char
    else if i < 52 then ('a' as int + (i - 26)) as char
    else if i < 62 then ('0' as int + (i - 52)) as char
    else if i == 62 then '+'
    else '/'
  }

  /** The inverse of Table 1, None for any character outside the alphabet. */
  function IndexOf(c: char): (r: Option<index>)
  {
    if 'A' <= c <= 'Z' then Some(c as int - 'A' as int)
    else if 'a' <= c <= 'z' then Some(c as int - 'a' as int + 26)
    else if '0' <= c <= '9' then Some(c as int - '0' as int + 52)
    else if c == '+' then Some(62)
    else if c == '/' then Some(63)
    else None
  }

  /** Table 1 is a bijection between the 6-bit values and the alphabet. */
  lemma IndexOfCharOf(i: index)
    ensures InAlphabet(CharOf(i)) && IndexOf(CharOf(i)) == Some(i)
  {
  }

  lemma CharOfIndexOf(c: char)
    ensures IndexOf(c).Some? <==> InAlphabet(c)
    ensures IndexOf(c).Some? ==> CharOf(IndexOf(c).value) == c
  {
  }

  // ----- Octets and 6-bit groups -----

  /** The four 6-bit groups of three octets, most significant bits first. */
  function Sextets(b0: byte, b1: byte, b2: byte): (x: seq<index>)
    ensures |x| == 4
  {
    [b0 / 4, b0 % 4 * 16 + b1 / 16, b1 % 16 * 4 + b2 / 64, b2 % 64]
  }

  /** The three octets that four 6-bit groups make up. */
  function Octets(x0: index, x1: index, x2: index, x3: index): (b: seq<byte>)
    ensures |b| == 3
  {
    [x0 * 4 + x1 / 16, x1 % 16 * 16 + x2 / 4, x2 % 4 * 64 + x3]
  }

  /** The 6-bit groups of a whole octet string: four per full quantum, and
      two (after one octet) or three (after two) for a final partial quantum
      whose missing bits are zero. */
  function Groups(b: seq<byte>): (x: seq<index>)
    ensures |x| == |b| + (|b| + 2) / 3
    decreases |b|
  {
    if |b| == 0 then []
    else if |b| == 1 then Sextets(b[0], 0, 0)[..2]
    else if |b| == 2 then Sextets(b[0], b[1], 0)[..3]
    else Sextets(b[0], b[1], b[2]) + Groups(b[3..])
  }

  /** The octets of a sequence of 6-bit groups, or None when its length
      cannot come from `Groups` or the bits a partial quantum leaves over
      are not zero. */
  function UnGroups(x: seq<index>): (r: Option<seq<byte>>)
    decreases |x|
  {
    if |x| == 0 then Some([])
    else if |x| == 1 then None
    else if |x| == 2 then
      if x[1] % 16 != 0 then None else Some(Octets(x[0], x[1], 0, 0)[..1])
    else if |x| == 3 then
      if x[2] % 4 != 0 then None else Some(Octets(x[0], x[1], x[2], 0)[..2])
    else
      match UnGroups(x[4..])
      case None => None
      case Some(rest) => Some(Octets(x[0], x[1], x[2], x[3]) + rest)
  }

  // ----- Groups and characters -----

  /** One alphabet character per group. */
  function Chars(x: seq<index>): (s: string)
  {
    seq(|x|, i requires 0 <= i < |x| => CharOf(x[i]))
  }

  /** The group of every character, or None if one is not in the alphabet. */
  function Indices(s: string): (r: Option<seq<index>>)
  {
    if forall i :: 0 <= i < |s| ==> IndexOf(s[i]).Some? then
      Some(seq(|s|, i requires 0 <= i < |s| && IndexOf(s[i]).Some? => IndexOf(s[i]).value))
    else
      None
  }

  // ----- Padding and the whole codec -----

  /** How many pad characters end the encoding of `n` octets: none when the
      last quantum is full, two after 8 bits, one after 16 bits. */
  function PadCount(n: nat): (p: nat)
  {
    if n % 3 == 0 then 0 else if n % 3 == 1 then 2 else 1
  }

  /** `n` pad characters. */
  function Pads(n: nat): (s: string)
  {
    seq(n, _ => Pad)
  }

  /** `Convert.ToBase64String`: the characters of the groups, then the pad
      characters that complete the last quantum. */
  function Encode(b: seq<byte>): (r: string)
    ensures |r| == 4 * ((|b| + 2) / 3)
  {
    GroupCount(|b|);
    Chars(Groups(b)) + Pads(PadCount(|b|))
  }

  /** The number of `=` that end `s`, counting at most two. */
  function PadsAtEnd(s: string): (p: nat)
    ensures p <= 2 && p <= |s|
    ensures forall i :: |s| - p <= i < |s| ==> s[i] == Pad
    ensures p < 2 && p < |s| ==> s[|s| - p - 1] != Pad
  {
    if |s| >= 2 && s[|s| - 2] == Pad && s[|s| - 1] == Pad then 2
    else if |s| >= 1 && s[|s| - 1] == Pad then 1
    else 0
  }

  /** Decodes a whole base 64 text, or None if it is not the canonical
      encoding of any octet string. */
  function Decode(s: string): (r: Option<seq<byte>>)
  {
    if |s| % 4 != 0 then None
    else
      var p := PadsAtEnd(s);
      match Indices(s[..|s| - p])
      case None => None
      case Some(x) => UnGroups(x)
  }

  // ----- Arithmetic -----

  /** The groups of `n` octets and the pads after them fill whole quanta,
      and the group count modulo four tells the pad count. */
  lemma GroupCount(n: nat)
    ensures n + (n + 2) / 3 + PadCount(n) == 4 * ((n + 2) / 3)
    ensures PadCount(n) == (4 - (n + (n + 2) / 3) % 4) % 4
  {
    var k, r := n / 3, n % 3;
    DivMod(k, 3, r);
    if r == 0 {
      DivMod(k, 3, 2);
      DivMod(k, 4, 0);
    } else if r == 1 {
      DivMod(k + 1, 3, 0);
      DivMod(k, 4, 2);
    } else {
      DivMod(k + 1, 3, 1);
      DivMod(k, 4, 3);
    }
  }

  /** The 6-bit groups of three octets put back together give the octets. */
  lemma OctetsOfSextets(b0: byte, b1: byte, b2: byte)
    ensures var x := Sextets(b0, b1, b2); Octets(x[0], x[1], x[2], x[3]) == [b0, b1, b2]
  {
    DivMod(b0 % 4, 16, b1 / 16);
    DivMod(b1 % 16, 4, b2 / 64);
  }

  /** The octets assembled from four 6-bit groups split back into them. */
  lemma SextetsOfOctets(x0: index, x1: index, x2: index, x3: index)
    ensures var b := Octets(x0, x1, x2, x3); Sextets(b[0], b[1], b[2]) == [x0, x1, x2, x3]
  {
    var b0, b1, b2 := x0 * 4 + x1 / 16, x1 % 16 * 16 + x2 / 4, x2 % 4 * 64 + x3;
    DivMod(x0, 4, x1 / 16);
    DivMod(x1 % 16, 16, x2 / 4);
    DivMod(x2 % 4, 64, x3);
    assert b0 / 4 == x0 && b0 % 4 * 16 + b1 / 16 == x1;
    assert b1 % 16 * 4 + b2 / 64 == x2 && b2 % 64 == x3;
  }

  /** The groups of a short final quantum: after one octet the second group
      ends in four zero bits, after two octets the third ends in two. */
  lemma PadBits(b0: byte, b1: byte)
    ensures var x := Sextets(b0, 0, 0); x[1] % 16 == 0 && x[2] == 0 && x[3] == 0
    ensures var x := Sextets(b0, b1, 0); x[2] % 4 == 0 && x[3] == 0
  {
    DivMod(b1 % 16, 4, 0);
  }

  /** Zero leftover bits make zero octets after the last real one. */
  lemma ZeroBits(x0: index, x1: index, x2: index)
    ensures x1 % 16 == 0 ==> Octets(x0, x1, 0, 0)[1..] == [0, 0]
    ensures x2 % 4 == 0 ==> Octets(x0, x1, x2, 0)[2..] == [0]
  {
  }

  // ----- Round trips, stage by stage -----

  /** A full quantum in front of groups that decode. */
  lemma UnGroupsCons(h: seq<index>, g: seq<index>, rest: seq<byte>)
    requires |h| == 4 && UnGroups(g) == Some(rest)
    ensures UnGroups(h + g) == Some(Octets(h[0], h[1], h[2], h[3]) + rest)
  {
    assert (h + g)[4..] == g;
  }

  /** The octets of one octet's groups. */
  lemma UnGroupsOne(b0: byte)
    ensures UnGroups(Groups([b0])) == Some([b0])
  {
    var x := Sextets(b0, 0, 0);
    PadBits(b0, 0);
    OctetsOfSextets(b0, 0, 0);
    var o, y := Octets(x[0], x[1], 0, 0), x[..2];
    assert o == [b0, 0, 0] && o[..1] == [b0];
    assert Groups([b0]) == y && y[0] == x[0] && y[1] == x[1];
    assert UnGroups(y) == Some(o[..1]);
  }

  /** The octets of two octets' groups. */
  lemma UnGroupsTwo(b0: byte, b1: byte)
    ensures UnGroups(Groups([b0, b1])) == Some([b0, b1])
  {
    var x := Sextets(b0, b1, 0);
    PadBits(b0, b1);
    OctetsOfSextets(b0, b1, 0);
    var o, y := Octets(x[0], x[1], x[2], 0), x[..3];
    assert o == [b0, b1, 0] && o[..2] == [b0, b1];
    assert Groups([b0, b1]) == y && y[0] == x[0] && y[1] == x[1] && y[2] == x[2];
    assert UnGroups(y) == Some(o[..2]);
  }

  /** Stage one round trip: the groups of any octet string give it back. */
  lemma {:induction false} UnGroupsGroups(b: seq<byte>)
    ensures UnGroups(Groups(b)) == Some(b)
    decreases |b|
  {
    if |b| == 1 {
      UnGroupsOne(b[0]);
      assert b == [b[0]];
    } else if |b| == 2 {
      UnGroupsTwo(b[0], b[1]);
      assert b == [b[0], b[1]];
    } else if |b| >= 3 {
      var h := Sextets(b[0], b[1], b[2]);
      assert b == [b[0], b[1], b[2]] + b[3..];
      UnGroupsGroups(b[3..]);
      OctetsOfSextets(b[0], b[1], b[2]);
      UnGroupsCons(h, Groups(b[3..]), b[3..]);
    }
  }

  /** Stage one, converse: groups that decode are the groups of their
      octets, so their length and leftover bits were canonical. */
  lemma {:induction false} GroupsUnGroups(x: seq<index>, b: seq<byte>)
    requires UnGroups(x) == Some(b)
    ensures Groups(b) == x
    decreases |x|
  {
    if |x| == 2 {
      var o := Octets(x[0], x[1], 0, 0);
      SextetsOfOctets(x[0], x[1], 0, 0);
      ZeroBits(x[0], x[1], 0);
      assert b == [o[0]] && o == [o[0], 0, 0];
      assert x == Sextets(o[0], 0, 0)[..2];
    } else if |x| == 3 {
      var o := Octets(x[0], x[1], x[2], 0);
      SextetsOfOctets(x[0], x[1], x[2], 0);
      ZeroBits(x[0], x[1], x[2]);
      assert b == [o[0], o[1]] && o == [o[0], o[1], 0];
      assert x == Sextets(o[0], o[1], 0)[..3];
    } else if |x| >= 4 {
      var o := Octets(x[0], x[1], x[2], x[3]);
      var rest := UnGroups(x[4..]).value;
      GroupsUnGroups(x[4..], rest);
      SextetsOfOctets(x[0], x[1], x[2], x[3]);
      assert b == o + rest && b[3..] == rest;
      assert x == x[..4] + x[4..];
    }
  }

  /** Stage two round trip: reading the characters of groups gives the
      groups back. */
  lemma IndicesChars(x: seq<index>)
    ensures Indices(Chars(x)) == Some(x)
  {
    var s := Chars(x);
    forall i | 0 <= i < |s|
      ensures IndexOf(s[i]) == Some(x[i])
    {
      IndexOfCharOf(x[i]);
    }
    assert Indices(s).Some?;
    var y := Indices(s).value;
    assert forall i :: 0 <= i < |y| ==> y[i] == IndexOf(s[i]).value;
    assert |y| == |x| && forall i :: 0 <= i < |y| ==> y[i] == x[i];
    assert y == x;
  }

  /** Stage two, converse: text whose characters are all in the alphabet is
      the characters of its groups. */
  lemma CharsIndices(s: string)
    requires Indices(s).Some?
    ensures Chars(Indices(s).value) == s
  {
    var x := Indices(s).value;
    forall i | 0 <= i < |s|
      ensures CharOf(x[i]) == s[i]
    {
      CharOfIndexOf(s[i]);
    }
  }

  /** The pads after the characters of groups are counted exactly. */
  lemma PadsAtEndOf(g: seq<index>, p: nat)
    requires p <= 2 && (p > 0 ==> g != [])
    ensures PadsAtEnd(Chars(g) + Pads(p)) == p
    ensures (Chars(g) + Pads(p))[..|g|] == Chars(g)
  {
    var s := Chars(g) + Pads(p);
    if |g| > 0 {
      assert s[|g| - 1] == CharOf(g[|g| - 1]);
    }
  }

  /** Only the standard alphabet is used, except for a final run of zero,
      one or two pad characters. */
  lemma EncodeAlphabet(b: seq<byte>)
    ensures PadCount(|b|) <= 2
    ensures forall i :: 0 <= i < |Encode(b)| - PadCount(|b|) ==> InAlphabet(Encode(b)[i])
    ensures forall i :: |Encode(b)| - PadCount(|b|) <= i < |Encode(b)| ==> Encode(b)[i] == Pad
  {
    var g := Groups(b);
    GroupCount(|b|);
    assert Encode(b) == Chars(g) + Pads(PadCount(|b|));
  }

  /** Round trip: decoding the encoding of any octet string gives it back. */
  lemma DecodeEncode(b: seq<byte>)
    ensures Decode(Encode(b)) == Some(b)
  {
    var g, p := Groups(b), PadCount(|b|);
    var s := Encode(b);
    GroupCount(|b|);
    DivMod((|b| + 2) / 3, 4, 0);
    assert |s| % 4 == 0;
    assert s == Chars(g) + Pads(p);
    PadsAtEndOf(g, p);
    assert PadsAtEnd(s) == p && s[..|s| - p] == Chars(g);
    IndicesChars(g);
    UnGroupsGroups(b);
  }

  /** With `p` pads after the groups, a text whose length is a multiple of
      four holds the pad count of the octets the groups carry. */
  lemma PadCountOfLength(n: nat, p: nat, len: nat)
    requires len % 4 == 0 && p <= 2 && p <= len
    requires n + (n + 2) / 3 == len - p
    ensures PadCount(n) == p
  {
    GroupCount(n);
    if p > 0 {
      DivMod(len / 4 - 1, 4, 4 - p);
    } else {
      DivMod(len / 4, 4, 0);
    }
  }

  /** What an accepted text is made of: sextet characters, then its pads. */
  lemma DecodeParts(s: string, b: seq<byte>)
    requires Decode(s) == Some(b)
    ensures var p := PadsAtEnd(s);
            |s| % 4 == 0 && s == s[..|s| - p] + Pads(p) &&
            Indices(s[..|s| - p]).Some? && UnGroups(Indices(s[..|s| - p]).value) == Some(b)
  {
    var p := PadsAtEnd(s);
    assert s == s[..|s| - p] + s[|s| - p..];
    assert s[|s| - p..] == Pads(p);
  }

  /** Converse round trip: the decoder accepts only canonical encodings, so
      whatever it accepts is the encoding of what it returns. */
  lemma EncodeDecode(s: string, b: seq<byte>)
    requires Decode(s) == Some(b)
    ensures Encode(b) == s
  {
    var p := PadsAtEnd(s);
    DecodeParts(s, b);
    var body := s[..|s| - p];
    var x := Indices(body).value;
    CharsIndices(body);
    GroupsUnGroups(x, b);
    PadCountOfLength(|b|, p, |s|);
  }

  /** Distinct octet strings have distinct encodings. */
  lemma EncodeInjective(a: seq<byte>, b: seq<byte>)
    requires Encode(a) == Encode(b)
    ensures a == b
  {
    DecodeEncode(a);
    DecodeEncode(b);
  }
}
