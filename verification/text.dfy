/**
  `decodeText` (filemanagebackend.cpp): the text of a `TIT2` or `TPE1`
  frame. The first payload byte selects the encoding (ID3v2.4.0 structure,
  section 4): 0 is ISO-8859-1, 1 is UTF-16 with a byte-order mark, 2 is
  UTF-16 without one, 3 is UTF-8; any other value falls back to ISO-8859-1.

  Latin-1 is modelled exactly. The UTF-8 and UTF-16 conversions are Qt's
  (`QString::fromUtf8`, `QString::fromUtf16`) and are parameters here; what
  the model fixes is which bytes reach them and, for UTF-16, how the bytes
  are cut into two-byte code units. Which byte of a unit is the high one is
  the converter's business (the source hands Qt a host-order `ushort`
  array, and Qt itself looks for a byte-order mark).
*/
module TextDecoder {
  import opened Bytes

  /** Two consecutive bytes forming one UTF-16 code unit, in memory order. */
  datatype Unit = Unit(first: byte, second: byte)

  /** Qt's byte-to-string conversions, which the model does not interpret. */
  datatype Codecs = Codecs(utf8: seq<byte> -> string, utf16: seq<Unit> -> string)

  /** What the model assumes of Qt's converters: no bytes, no characters.
      Nothing else about them is fixed. */
  predicate ValidCodecs(codecs: Codecs)
  {
    codecs.utf16([]) == [] && codecs.utf8([]) == []
  }

  /** A decoded string, or the one case where the source reads past its buffer. */
  datatype Text = Decoded(s: string) | ReadsPastEnd

  /** `count` code units read from `bs` starting at offset `from`. */
  function Units(bs: seq<byte>, from: nat, count: nat): (us: seq<Unit>)
    requires count == 0 || from + 2 * count <= |bs|
    ensures |us| == count
    ensures forall k :: 0 <= k < count ==> us[k] == Unit(bs[from + 2 * k], bs[from + 2 * k + 1])
  {
    seq(count, k requires 0 <= k < count => Unit(bs[from + 2 * k], bs[from + 2 * k + 1]))
  }

  /** Reading units from a suffix is reading them further along the whole. */
  lemma UnitsOfTail(bs: seq<byte>, from: nat, count: nat)
    requires |bs| > 0
    requires count == 0 || from + 2 * count <= |bs| - 1
    ensures Units(bs[1..], from, count) == Units(bs, from + 1, count)
  {
  }

  /** The bytes of a sequence of code units: the inverse of `Units`. */
  function UnitBytes(us: seq<Unit>): (bs: seq<byte>)
    ensures |bs| == 2 * |us|
  {
    if us == [] then [] else [us[0].first, us[0].second] + UnitBytes(us[1..])
  }

  lemma {:induction false} UnitBytesAt(us: seq<Unit>, k: nat)
    requires k < |us|
    ensures UnitBytes(us)[2 * k] == us[k].first
    ensures UnitBytes(us)[2 * k + 1] == us[k].second
    decreases k
  {
    if k > 0 {
      UnitBytesAt(us[1..], k - 1);
    }
  }

  /** Reading the units back from their bytes, whatever precedes and follows them. */
  lemma UnitsOfUnitBytes(pre: seq<byte>, us: seq<Unit>, post: seq<byte>)
    ensures Units(pre + UnitBytes(us) + post, |pre|, |us|) == us
  {
    var bs := pre + UnitBytes(us) + post;
    var vs := Units(bs, |pre|, |us|);
    forall k | 0 <= k < |us|
      ensures vs[k] == us[k]
    {
      UnitBytesAt(us, k);
    }
  }

  function DecodeText(data: seq<byte>, codecs: Codecs): (r: Text)
    ensures |data| == 0 ==> r == Decoded([])
    ensures r.ReadsPastEnd? <==> data == [1]
    // ISO-8859-1, for selector 0 and for every selector outside 1..3
    ensures |data| > 0 && data[0] !in {1, 2, 3} ==>
              r.Decoded? && |r.s| == |data| - 1 &&
              forall i :: 0 <= i < |r.s| ==> r.s[i] as int == data[i + 1] as int
    // UTF-16 with a byte-order mark: two more bytes skipped, an odd byte dropped
    ensures |data| >= 3 && data[0] == 1 ==>
              r == Decoded(codecs.utf16(Units(data, 3, (|data| - 3) / 2)))
    ensures |data| == 2 && data[0] == 1 ==> r == Decoded(codecs.utf16([]))
    // UTF-16 without a byte-order mark: an odd byte dropped
    ensures |data| > 0 && data[0] == 2 ==>
              r == Decoded(codecs.utf16(Units(data, 1, (|data| - 1) / 2)))
    ensures |data| > 0 && data[0] == 3 ==> r == Decoded(codecs.utf8(data[1..]))
  {
    if |data| == 0 then Decoded([])
    else
      var textData := data[1..];
      if data[0] == 0 then Decoded(Latin1(textData))
      else if data[0] == 1 then
        // (textData.size() - 2) / 2 is -1 when textData is empty, and Qt
        // reads a length of -1 as "up to the next NUL", past the buffer.
        var count := CHalf(|textData| - 2);
        if count < 0 then ReadsPastEnd
        else
          UnitsOfTail(data, 2, count);
          Decoded(codecs.utf16(Units(textData, 2, count)))
      else if data[0] == 2 then
        UnitsOfTail(data, 0, |textData| / 2);
        Decoded(codecs.utf16(Units(textData, 0, |textData| / 2)))
      else if data[0] == 3 then Decoded(codecs.utf8(textData))
      else Decoded(Latin1(textData))
  }

  /** Selector 0 (or any selector outside 1..3) round-trips every string
      that ISO-8859-1 can represent. */
  lemma Latin1TextRoundTrip(selector: byte, s: string, codecs: Codecs)
    requires selector !in {1, 2, 3}
    requires IsLatin1(s)
    ensures DecodeText([selector] + Latin1Bytes(s), codecs) == Decoded(s)
  {
    var data := [selector] + Latin1Bytes(s);
    assert data[1..] == Latin1Bytes(s);
    Latin1RoundTrip(s);
  }

  /** What selectors 1 and 2 hand the converter, stated once per selector
      so that the round trips below need not unfold `DecodeText`. */
  lemma DecodeUtf16(data: seq<byte>, skip: nat, us: seq<Unit>, codecs: Codecs)
    requires |data| >= skip && (skip == 1 || skip == 3)
    requires data[0] == if skip == 1 then 2 else 1
    requires (|data| - skip) / 2 == |us|
    requires Units(data, skip, |us|) == us
    ensures DecodeText(data, codecs) == Decoded(codecs.utf16(us))
  {
  }

  /** Selector 2 hands the converter exactly the code units that were
      written, and a trailing odd byte is dropped. */
  lemma Utf16TextRoundTrip(us: seq<Unit>, odd: seq<byte>, codecs: Codecs)
    requires |odd| <= 1
    ensures DecodeText([2] + UnitBytes(us) + odd, codecs) == Decoded(codecs.utf16(us))
  {
    var data := [2] + UnitBytes(us) + odd;
    assert data[0] == 2;
    assert |data| - 1 == 2 * |us| + |odd|;
    UnitsOfUnitBytes([2], us, odd);
    DecodeUtf16(data, 1, us, codecs);
  }

  /** Selector 1 skips two byte-order-mark bytes, whatever they hold, then
      behaves like selector 2. */
  lemma Utf16BomTextRoundTrip(bom: seq<byte>, us: seq<Unit>, odd: seq<byte>, codecs: Codecs)
    requires |bom| == 2
    requires |odd| <= 1
    ensures DecodeText([1] + bom + UnitBytes(us) + odd, codecs) == Decoded(codecs.utf16(us))
  {
    var pre := [1] + bom;
    var data := pre + UnitBytes(us) + odd;
    assert |pre| == 3 && data[0] == 1;
    assert |data| - 3 == 2 * |us| + |odd|;
    UnitsOfUnitBytes(pre, us, odd);
    DecodeUtf16(data, 3, us, codecs);
  }

  /** UTF-16 payloads too short to hold a code unit decode to the empty
      string: selector 2 with at most one byte after it, selector 1 with at
      most three (two byte-order-mark bytes and an odd one), and selector 3
      with nothing after it. */
  lemma ShortUtf16IsEmpty(data: seq<byte>, codecs: Codecs)
    requires ValidCodecs(codecs)
    requires |data| > 0
    requires (data[0] == 2 && |data| <= 2) || (data[0] == 1 && 2 <= |data| <= 4) || data == [3]
    ensures DecodeText(data, codecs) == Decoded([])
  {
    if data[0] == 1 && |data| >= 3 {
      assert Units(data, 3, 0) == [];
    } else if data[0] == 2 {
      assert Units(data, 1, 0) == [];
    } else if data[0] == 3 {
      assert data[1..] == [];
    }
  }
}
