/**
  Byte arrays and strings as the tag reader sees them through Qt: the
  `QByteArray::mid` and `QByteArray::indexOf` primitives with their
  out-of-range conventions, Latin-1 conversion (`QString::fromLatin1`),
  substring search (`QString::contains`) and C++ integer division, which
  truncates toward zero where Dafny's `/` is Euclidean.
*/
module Bytes {

  /** An octet. The source reads bytes as `char`; every use masks the value or
      compares it with a small non-negative constant, so the signedness of
      `char` never matters and the unsigned value is modelled. */
  newtype byte = x: int | 0 <= x < 0x100

  function Min(a: int, b: int): (m: int)
    ensures m <= a && m <= b
    ensures m == a || m == b
  {
    if a <= b then a else b
  }

  /** `s.mid(pos, len)` for a non-negative `pos`, following Qt 6: a position
      past the end gives an empty array, and a negative length, or one that
      runs past the end, takes everything from `pos` on. */
  function Mid(s: seq<byte>, pos: nat, len: int): (r: seq<byte>)
    ensures pos > |s| ==> r == []
    ensures pos <= |s| ==> pos + |r| <= |s| && r == s[pos..pos + |r|]
    ensures pos <= |s| && 0 <= len <= |s| - pos ==> |r| == len
    ensures pos <= |s| && (len < 0 || len > |s| - pos) ==> |r| == |s| - pos
  {
    if pos > |s| then []
    else if len < 0 || len > |s| - pos then s[pos..]
    else s[pos..pos + len]
  }

  /** No byte `b` at any index from `from` on. */
  predicate Absent(s: seq<byte>, b: byte, from: nat)
  {
    forall i :: from <= i < |s| ==> s[i] != b
  }

  /** `m` is the first index at or after `from` holding `b`. */
  predicate FirstAt(s: seq<byte>, b: byte, from: nat, m: nat)
  {
    from <= m < |s| && s[m] == b && forall i :: from <= i < m ==> s[i] != b
  }

  /** `s.indexOf(b, from)` for a non-negative `from`: the first index at or
      after `from` that holds `b`, or -1 when there is none. */
  function IndexOf(s: seq<byte>, b: byte, from: nat): (r: int)
    ensures r == -1 <==> Absent(s, b, from)
    ensures r != -1 ==> r >= 0 && FirstAt(s, b, from, r)
    decreases |s| - from
  {
    if from >= |s| then -1
    else if s[from] == b then from
    else IndexOf(s, b, from + 1)
  }

  /** `QString::fromLatin1`: one character per byte, the character's code
      point being the byte's value. */
  function Latin1(bs: seq<byte>): (s: string)
    ensures |s| == |bs|
    ensures forall i :: 0 <= i < |bs| ==> s[i] as int == bs[i] as int
  {
    seq(|bs|, i requires 0 <= i < |bs| => (bs[i] as int) as char)
  }

  /** A string every character of which has a Latin-1 code. */
  predicate IsLatin1(s: string)
  {
    forall i :: 0 <= i < |s| ==> s[i] as int < 0x100
  }

  /** The Latin-1 encoding of a string: the inverse of `Latin1`. */
  function Latin1Bytes(s: string): (bs: seq<byte>)
    requires IsLatin1(s)
    ensures |bs| == |s|
  {
    seq(|s|, i requires 0 <= i < |s| => s[i] as int as byte)
  }

  lemma Latin1RoundTrip(s: string)
    requires IsLatin1(s)
    ensures Latin1(Latin1Bytes(s)) == s
  {
    var t := Latin1(Latin1Bytes(s));
    forall i | 0 <= i < |s|
      ensures t[i] == s[i]
    {
      assert t[i] as int == s[i] as int;
    }
  }

  lemma Latin1BytesRoundTrip(bs: seq<byte>)
    ensures IsLatin1(Latin1(bs))
    ensures Latin1Bytes(Latin1(bs)) == bs
  {
  }

  /** `needle` occurs in `hay` starting at index `i`. */
  predicate OccursAt(hay: string, needle: string, i: nat)
  {
    i + |needle| <= |hay| && hay[i..i + |needle|] == needle
  }

  /** `hay.contains(needle)`: a case-sensitive substring test. */
  predicate Contains(hay: string, needle: string)
    decreases |hay|
  {
    |needle| <= |hay| && (hay[..|needle|] == needle || (|hay| > 0 && Contains(hay[1..], needle)))
  }

  /** The search above finds exactly the occurrences of `needle`. */
  lemma {:induction false} ContainsIff(hay: string, needle: string)
    ensures Contains(hay, needle) <==> exists i: nat :: OccursAt(hay, needle, i)
    decreases |hay|
  {
    if exists i: nat :: OccursAt(hay, needle, i) {
      var i: nat :| OccursAt(hay, needle, i);
      if i == 0 {
        assert hay[..|needle|] == needle;
      } else {
        assert hay[1..][i - 1..i - 1 + |needle|] == hay[i..i + |needle|];
        assert OccursAt(hay[1..], needle, i - 1);
        ContainsIff(hay[1..], needle);
      }
    }
    if Contains(hay, needle) && hay[..|needle|] != needle {
      ContainsIff(hay[1..], needle);
      var i: nat :| OccursAt(hay[1..], needle, i);
      assert hay[1..][i..i + |needle|] == hay[i + 1..i + 1 + |needle|];
      assert OccursAt(hay, needle, i + 1);
    } else if Contains(hay, needle) {
      assert OccursAt(hay, needle, 0);
    }
  }

  /** C++ integer division `a / 2`: the quotient is truncated toward zero,
      so `-1 / 2 == 0` where Dafny's Euclidean `/` gives -1. */
  function CHalf(a: int): (q: int)
    ensures a >= 0 ==> 2 * q <= a < 2 * q + 2
    ensures a < 0 ==> 2 * q - 2 < a <= 2 * q <= 0
  {
    if a >= 0 then a / 2 else -((-a) / 2)
  }
}
