/**
 * Base64 as PHP's `base64_encode` and `base64_decode` compute it: the encoder
 * is the padded encoding of RFC 4648, section 4; the decoder is PHP's lenient
 * (non-strict) one, which skips every byte outside the alphabet, the padding
 * byte '=' included, and never fails.
 */
module Base64 {
  import opened Wrappers
  import opened Php

  /** Six bits: one character of the encoding. */
  type Sextet = d: int | 0 <= d < 64

  /** The padding byte '='. */
  const PAD: Byte := 61

  /** The alphabet of RFC 4648, section 4: A-Z, a-z, 0-9, '+', '/'. */
  function Char(d: Sextet): Byte {
    if d < 26 then 65 + d
    else if d < 52 then 97 + (d - 26)
    else if d < 62 then 48 + (d - 52)
    else if d == 62 then 43
    else 47
  }

  /** The decoder's reverse table: the sextet an alphabet byte stands for, and `None` for any other byte. */
  function ValueOf(c: Byte): (r: Option<Sextet>)
    ensures c == PAD ==> r == None
  {
    if 65 <= c <= 90 then Some(c - 65)
    else if 97 <= c <= 122 then Some(c - 97 + 26)
    else if 48 <= c <= 57 then Some(c - 48 + 52)
    else if c == 43 then Some(62)
    else if c == 47 then Some(63)
    else None
  }

  /** The reverse table inverts the alphabet. */
  lemma ValueOfChar(d: Sextet)
    ensures ValueOf(Char(d)) == Some(d)
  {
  }

  /** The four sextets of three bytes, most significant bits first. */
  function Six0(b0: Byte): Sextet { b0 / 4 }
  function Six1(b0: Byte, b1: Byte): Sextet { b0 % 4 * 16 + b1 / 16 }
  function Six2(b1: Byte, b2: Byte): Sextet { b1 % 16 * 4 + b2 / 64 }
  function Six3(b2: Byte): Sextet { b2 % 64 }

  /** The three bytes of four sextets, as the decoder ORs their bits together. */
  function Oct0(s0: Sextet, s1: Sextet): Byte { s0 * 4 + s1 / 16 }
  function Oct1(s1: Sextet, s2: Sextet): Byte { s1 % 16 * 16 + s2 / 4 }
  function Oct2(s2: Sextet, s3: Sextet): Byte { s2 % 4 * 64 + s3 }

  /**
   * `base64_encode`: every three bytes become four characters; a final group of
   * one or two bytes becomes two or three characters padded with '=' to four.
   */
  function Encode(b: Bytes): (r: Bytes)
    ensures b != [] ==> |r| >= 4
    decreases |b|
  {
    if |b| == 0 then []
    else if |b| == 1 then
      [Char(Six0(b[0])), Char(Six1(b[0], 0)), PAD, PAD]
    else if |b| == 2 then
      [Char(Six0(b[0])), Char(Six1(b[0], b[1])), Char(Six2(b[1], 0)), PAD]
    else
      [Char(Six0(b[0])), Char(Six1(b[0], b[1])), Char(Six2(b[1], b[2])), Char(Six3(b[2]))]
      + Encode(b[3..])
  }

  /** Four characters for every started group of three bytes. */
  lemma {:induction false} EncodeLength(b: Bytes)
    ensures |Encode(b)| == 4 * ((|b| + 2) / 3)
    decreases |b|
  {
    if |b| >= 3 {
      EncodeLength(b[3..]);
      assert (|b| + 2) / 3 == (|b[3..]| + 2) / 3 + 1;
    }
  }

  /** Every character `base64_encode` writes is in the alphabet or is the padding byte. */
  lemma {:induction false} EncodeAlphabet(b: Bytes)
    ensures forall k :: 0 <= k < |Encode(b)| ==> ValueOf(Encode(b)[k]).Some? || Encode(b)[k] == PAD
    decreases |b|
  {
    var r := Encode(b);
    if |b| >= 3 {
      EncodeAlphabet(b[3..]);
      var head := [Char(Six0(b[0])), Char(Six1(b[0], b[1])), Char(Six2(b[1], b[2])), Char(Six3(b[2]))];
      assert r == head + Encode(b[3..]);
      forall k | 0 <= k < |r|
        ensures ValueOf(r[k]).Some? || r[k] == PAD
      {
        if k >= 4 {
          assert r[k] == Encode(b[3..])[k - 4];
        } else {
          assert r[k] == head[k];
          ValueOfChar(Six0(b[0]));
          ValueOfChar(Six1(b[0], b[1]));
          ValueOfChar(Six2(b[1], b[2]));
          ValueOfChar(Six3(b[2]));
        }
      }
    } else if |b| > 0 {
      ValueOfChar(Six0(b[0]));
      ValueOfChar(Six1(b[0], if |b| == 2 then b[1] else 0));
      if |b| == 2 {
        ValueOfChar(Six2(b[1], 0));
      }
    }
  }

  /** The sextets of the alphabet bytes of `s`, in order; every other byte is skipped. */
  function Sextets(s: Bytes): (r: seq<Sextet>)
    ensures |r| <= |s|
  {
    if s == [] then []
    else
      Kept(s[0]) + Sextets(s[1..])
  }

  /** The sextet one byte contributes: its value if it is in the alphabet, nothing otherwise. */
  function Kept(c: Byte): (r: seq<Sextet>)
    ensures |r| <= 1
  {
    match ValueOf(c)
    case Some(d) => [d]
    case None => []
  }

  /**
   * Packs sextets into bytes, most significant bits first: every four sextets
   * give three bytes, and the bits left over at the end that do not fill a
   * byte are dropped.
   */
  function Pack(q: seq<Sextet>): (r: Bytes)
    ensures |r| <= |q|
    decreases |q|
  {
    if |q| < 2 then []
    else if |q| == 2 then [Oct0(q[0], q[1])]
    else if |q| == 3 then [Oct0(q[0], q[1]), Oct1(q[1], q[2])]
    else [Oct0(q[0], q[1]), Oct1(q[1], q[2]), Oct2(q[2], q[3])] + Pack(q[4..])
  }

  /** `base64_decode($s)` in non-strict mode: packs the sextets of the alphabet bytes of `s`. */
  function Decode(s: Bytes): (r: Bytes)
    ensures |r| <= |s|
  {
    Pack(Sextets(s))
  }

  /** Six bits per sextet, whole bytes only. */
  lemma {:induction false} PackLength(q: seq<Sextet>)
    ensures |Pack(q)| == 6 * |q| / 8
    decreases |q|
  {
    if |q| >= 4 {
      PackLength(q[4..]);
      assert 6 * |q| / 8 == 6 * |q[4..]| / 8 + 3;
    }
  }

  /** Packing undoes the split of three bytes into four sextets. */
  lemma OctSix(b0: Byte, b1: Byte, b2: Byte)
    ensures Oct0(Six0(b0), Six1(b0, b1)) == b0
    ensures Oct1(Six1(b0, b1), Six2(b1, b2)) == b1
    ensures Oct2(Six2(b1, b2), Six3(b2)) == b2
  {
  }

  /** Skipping one leading byte. */
  lemma SextetsCons(c: Byte, s: Bytes)
    ensures Sextets([c] + s) == Kept(c) + Sextets(s)
  {
    assert ([c] + s)[1..] == s;
  }

  /** Skipping non-alphabet bytes distributes over concatenation. */
  lemma {:induction false} SextetsAppend(x: Bytes, y: Bytes)
    ensures Sextets(x + y) == Sextets(x) + Sextets(y)
    decreases |x|
  {
    if x != [] {
      assert x + y == [x[0]] + (x[1..] + y);
      assert x == [x[0]] + x[1..];
      SextetsCons(x[0], x[1..] + y);
      SextetsCons(x[0], x[1..]);
      SextetsAppend(x[1..], y);
      assert Kept(x[0]) + (Sextets(x[1..]) + Sextets(y)) == (Kept(x[0]) + Sextets(x[1..])) + Sextets(y);
    } else {
      assert x + y == y;
    }
  }

  /** Four sextets at the front pack into three bytes ahead of the rest. */
  lemma PackGroup(s0: Sextet, s1: Sextet, s2: Sextet, s3: Sextet, rest: seq<Sextet>)
    ensures Pack([s0, s1, s2, s3] + rest) == [Oct0(s0, s1), Oct1(s1, s2), Oct2(s2, s3)] + Pack(rest)
  {
    assert ([s0, s1, s2, s3] + rest)[4..] == rest;
  }

  /** A group of four alphabet characters decodes to its own sextets. */
  lemma SextetsOfGroup(a: Sextet, b: Sextet, c: Sextet, d: Sextet)
    ensures Sextets([Char(a), Char(b), Char(c), Char(d)]) == [a, b, c, d]
  {
    ValueOfChar(a);
    ValueOfChar(b);
    ValueOfChar(c);
    ValueOfChar(d);
    SextetsCons(Char(d), []);
    SextetsCons(Char(c), [Char(d)]);
    SextetsCons(Char(b), [Char(c), Char(d)]);
    SextetsCons(Char(a), [Char(b), Char(c), Char(d)]);
  }

  /** In a group with one padding byte, the padding contributes no sextet. */
  lemma SextetsOfGroupPad1(a: Sextet, b: Sextet, c: Sextet)
    ensures Sextets([Char(a), Char(b), Char(c), PAD]) == [a, b, c]
  {
    ValueOfChar(a);
    ValueOfChar(b);
    ValueOfChar(c);
    SextetsCons(PAD, []);
    SextetsCons(Char(c), [PAD]);
    SextetsCons(Char(b), [Char(c), PAD]);
    SextetsCons(Char(a), [Char(b), Char(c), PAD]);
  }

  /** In a group with two padding bytes, the padding contributes no sextet. */
  lemma SextetsOfGroupPad2(a: Sextet, b: Sextet)
    ensures Sextets([Char(a), Char(b), PAD, PAD]) == [a, b]
  {
    ValueOfChar(a);
    ValueOfChar(b);
    SextetsCons(PAD, []);
    SextetsCons(PAD, [PAD]);
    SextetsCons(Char(b), [PAD, PAD]);
    SextetsCons(Char(a), [Char(b), PAD, PAD]);
  }

  /** Two or three sextets at the end pack into one or two bytes. */
  lemma PackShort(s0: Sextet, s1: Sextet, s2: Sextet)
    ensures Pack([s0, s1]) == [Oct0(s0, s1)]
    ensures Pack([s0, s1, s2]) == [Oct0(s0, s1), Oct1(s1, s2)]
  {
  }

  /** Round trip for a final group of one byte, encoded with two padding bytes. */
  lemma DecodeEncodeOne(x: Byte)
    ensures Decode(Encode([x])) == [x]
  {
    var h0, h1 := Six0(x), Six1(x, 0);
    assert Encode([x]) == [Char(h0), Char(h1), PAD, PAD];
    SextetsOfGroupPad2(h0, h1);
    PackShort(h0, h1, 0);
    OctSix(x, 0, 0);
  }

  /** Round trip for a final group of two bytes, encoded with one padding byte. */
  lemma DecodeEncodeTwo(x: Byte, y: Byte)
    ensures Decode(Encode([x, y])) == [x, y]
  {
    var h0, h1, h2 := Six0(x), Six1(x, y), Six2(y, 0);
    assert Encode([x, y]) == [Char(h0), Char(h1), Char(h2), PAD];
    SextetsOfGroupPad1(h0, h1, h2);
    PackShort(h0, h1, h2);
    OctSix(x, y, 0);
  }

  /** The sextets of an encoding whose first group is full. */
  lemma SextetsOfFullGroup(b: Bytes)
    requires |b| >= 3
    ensures Sextets(Encode(b)) ==
      [Six0(b[0]), Six1(b[0], b[1]), Six2(b[1], b[2]), Six3(b[2])] + Sextets(Encode(b[3..]))
  {
    var a, c, d, e := Six0(b[0]), Six1(b[0], b[1]), Six2(b[1], b[2]), Six3(b[2]);
    var group := [Char(a), Char(c), Char(d), Char(e)];
    assert Encode(b) == group + Encode(b[3..]);
    SextetsOfGroup(a, c, d, e);
    SextetsAppend(group, Encode(b[3..]));
  }

  /** Round trip: decoding what `base64_encode` produced gives back the original bytes. */
  lemma {:induction false} DecodeEncode(b: Bytes)
    ensures Decode(Encode(b)) == b
    decreases |b|
  {
    if |b| == 1 {
      assert b == [b[0]];
      DecodeEncodeOne(b[0]);
    } else if |b| == 2 {
      assert b == [b[0], b[1]];
      DecodeEncodeTwo(b[0], b[1]);
    } else if |b| >= 3 {
      SextetsOfFullGroup(b);
      PackGroup(Six0(b[0]), Six1(b[0], b[1]), Six2(b[1], b[2]), Six3(b[2]), Sextets(Encode(b[3..])));
      DecodeEncode(b[3..]);
      OctSix(b[0], b[1], b[2]);
      assert b == [b[0], b[1], b[2]] + b[3..];
    }
  }

  /** Different byte strings have different encodings. */
  lemma EncodeInjective(x: Bytes, y: Bytes)
    requires Encode(x) == Encode(y)
    ensures x == y
  {
    DecodeEncode(x);
    DecodeEncode(y);
  }
}
