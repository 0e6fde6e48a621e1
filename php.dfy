/**
 * The few PHP string built-ins the encrypter relies on, over byte strings:
 * `trim` with its default character list, `empty` on a string, and `substr`
 * with non-negative offsets.
 */
module Php {

  /** PHP strings are byte strings. */
  type Byte = b: int | 0 <= b < 256
  type Bytes = seq<Byte>

  /** The byte of the digit '0'. */
  const ZERO_DIGIT: Byte := 48

  /** The bytes `trim` strips by default: space, tab, line feed, carriage return, NUL and vertical tab. */
  predicate IsTrimChar(b: Byte) {
    b == 32 || b == 9 || b == 10 || b == 13 || b == 0 || b == 11
  }

  /** `ltrim`: drops the longest prefix made of trim characters. */
  function TrimStart(s: Bytes): (r: Bytes)
    ensures |r| <= |s|
    ensures r == [] || !IsTrimChar(r[0])
  {
    if s != [] && IsTrimChar(s[0]) then TrimStart(s[1..]) else s
  }

  /** `rtrim`: drops the longest suffix made of trim characters; what is left starts as `s` does. */
  function TrimEnd(s: Bytes): (r: Bytes)
    ensures |r| <= |s|
    ensures r == [] || (r[0] == s[0] && !IsTrimChar(r[|r| - 1]))
  {
    if s != [] && IsTrimChar(s[|s| - 1]) then TrimEnd(s[..|s| - 1]) else s
  }

  /** Neither end of `s` is a trim character. */
  predicate IsTrimmed(s: Bytes) {
    s == [] || (!IsTrimChar(s[0]) && !IsTrimChar(s[|s| - 1]))
  }

  /** Every byte of `s` is a trim character. */
  predicate IsBlank(s: Bytes) {
    forall k :: 0 <= k < |s| ==> IsTrimChar(s[k])
  }

  /** `trim`: both `ltrim` and `rtrim`; no trim character is left at either end. */
  function Trim(s: Bytes): (r: Bytes)
    ensures IsTrimmed(r) && |r| <= |s|
  {
    TrimEnd(TrimStart(s))
  }

  /** `ltrim` keeps a suffix of `s` and cuts off only trim characters. */
  lemma {:induction false} TrimStartCut(s: Bytes)
    ensures var r := TrimStart(s);
      r == s[|s| - |r|..] && IsBlank(s[..|s| - |r|])
    decreases |s|
  {
    if s != [] && IsTrimChar(s[0]) {
      TrimStartCut(s[1..]);
      var r := TrimStart(s);
      var n := |s| - |r|;
      assert s[1..][|s| - 1 - |r|..] == s[n..];
      assert s[..n] == [s[0]] + s[1..][..n - 1];
    } else {
      assert s[..0] == [];
    }
  }

  /** `rtrim` keeps a prefix of `s` and cuts off only trim characters. */
  lemma {:induction false} TrimEndCut(s: Bytes)
    ensures var r := TrimEnd(s);
      r == s[..|r|] && IsBlank(s[|r|..])
    decreases |s|
  {
    if s != [] && IsTrimChar(s[|s| - 1]) {
      var k := |s| - 1;
      TrimEndCut(s[..k]);
      var r := TrimEnd(s);
      assert s[..k][..|r|] == s[..|r|];
      assert s[|r|..] == s[..k][|r|..] + [s[k]];
    } else {
      assert s[|s|..] == [];
    }
  }

  /**
   * `trim` keeps the slice of `s` that starts at the first and ends at the
   * last byte that is not a trim character; every byte cut off is one.
   */
  lemma TrimSlice(s: Bytes)
    ensures var i := |s| - |TrimStart(s)|; var r := Trim(s);
      i + |r| <= |s| && r == s[i..i + |r|] && IsBlank(s[..i]) && IsBlank(s[i + |r|..])
  {
    var t := TrimStart(s);
    var i := |s| - |t|;
    var r := TrimEnd(t);
    TrimStartCut(s);
    TrimEndCut(t);
    SliceOfSuffix(s, i, |r|);
  }

  /** Slicing the suffix of `s` from `i` is slicing `s` itself, shifted by `i`. */
  lemma SliceOfSuffix(s: Bytes, i: nat, n: nat)
    requires i + n <= |s|
    ensures s[i..][..n] == s[i..i + n] && s[i..][n..] == s[i + n..]
  {
  }

  /** `trim` leaves a string with no trim character at either end as it is. */
  lemma {:induction false} TrimOfTrimmed(s: Bytes)
    requires IsTrimmed(s)
    ensures Trim(s) == s
  {
    assert TrimStart(s) == s;
    assert TrimEnd(s) == s;
  }

  /** `trim` is idempotent. */
  lemma TrimIdempotent(s: Bytes)
    ensures Trim(Trim(s)) == Trim(s)
  {
    TrimOfTrimmed(Trim(s));
  }

  /** A string made only of trim characters trims to the empty string. */
  lemma TrimAllBlank(s: Bytes)
    requires IsBlank(s)
    ensures Trim(s) == []
  {
    TrimStartBlankPrefix(s, []);
    assert s + [] == s;
  }

  /** A blank prefix makes no difference to `ltrim`. */
  lemma {:induction false} TrimStartBlankPrefix(p: Bytes, s: Bytes)
    requires IsBlank(p)
    ensures TrimStart(p + s) == TrimStart(s)
    decreases |p|
  {
    if p != [] {
      assert (p + s)[1..] == p[1..] + s;
      TrimStartBlankPrefix(p[1..], s);
    } else {
      assert p + s == s;
    }
  }

  /** A blank suffix makes no difference to `rtrim`. */
  lemma {:induction false} TrimEndBlankSuffix(s: Bytes, q: Bytes)
    requires IsBlank(q)
    ensures TrimEnd(s + q) == TrimEnd(s)
    decreases |q|
  {
    if q != [] {
      assert (s + q)[..|s + q| - 1] == s + q[..|q| - 1];
      TrimEndBlankSuffix(s, q[..|q| - 1]);
    } else {
      assert s + q == s;
    }
  }

  /** `trim` removes blank padding around a string that is already trimmed. */
  lemma TrimPadded(p: Bytes, s: Bytes, q: Bytes)
    requires IsBlank(p) && IsBlank(q) && IsTrimmed(s)
    ensures Trim(p + s + q) == s
  {
    assert p + s + q == p + (s + q);
    TrimStartBlankPrefix(p, s + q);
    if s == [] {
      assert s + q == q;
      TrimAllBlank(q);
    } else {
      assert TrimStart(s + q) == s + q;
      TrimEndBlankSuffix(s, q);
      TrimOfTrimmed(s);
    }
  }

  /** PHP's `empty()` applied to a string: true of "" and of "0", and of nothing else. */
  predicate IsEmpty(s: Bytes) {
    s == [] || s == [ZERO_DIGIT]
  }

  function Min(a: int, b: int): int { if a <= b then a else b }

  /**
   * `substr($s, $start, $length)` for non-negative arguments: at most `length`
   * bytes of `s` from `start` on, and "" when `start` is past the end.
   */
  function Substr(s: Bytes, start: nat, length: nat): (r: Bytes)
    ensures |r| == if start <= |s| then Min(length, |s| - start) else 0
    ensures forall k :: 0 <= k < |r| ==> r[k] == s[start + k]
  {
    if start > |s| then [] else s[start..start + Min(length, |s| - start)]
  }

  /** `substr($s, $start)` for a non-negative start: the bytes of `s` from `start` on. */
  function SubstrFrom(s: Bytes, start: nat): (r: Bytes)
    ensures |r| == if start <= |s| then |s| - start else 0
    ensures forall k :: 0 <= k < |r| ==> r[k] == s[start + k]
  {
    if start > |s| then [] else s[start..]
  }

  /** Cutting a string at `n` with the two forms of `substr` loses and adds nothing. */
  lemma SubstrSplit(s: Bytes, n: nat)
    ensures |Substr(s, 0, n)| == Min(n, |s|)
    ensures Substr(s, 0, n) + SubstrFrom(s, n) == s
  {
  }
}
