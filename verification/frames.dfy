/**
  Frame layout inside the tag (ID3v2.4.0 structure, section 4): a 10-byte
  header holding a 4-byte identifier, a 4-byte synchsafe payload size and
  two flag bytes, then the payload. `SplitFrames` cuts the tag bytes into
  frames the way the walk in `parseID3` does, stopping at the first header
  or payload that does not fit; `EncodeFrames` lays frames out again, and
  the two are inverse.
*/
module Frames {
  import opened Bytes
  import Synchsafe

  /** Length of a frame header. */
  const HeaderSize: nat := 10

  /** A frame as the walk sees it: its identifier and payload. The flag
      bytes are never read. */
  datatype Frame = Frame(id: seq<byte>, payload: seq<byte>)

  /** A frame that a 10-byte header can describe. */
  predicate WellFormed(fr: Frame)
  {
    |fr.id| == 4 && |fr.payload| < Synchsafe.Limit
  }

  predicate AllWellFormed(fs: seq<Frame>)
  {
    forall i :: 0 <= i < |fs| ==> WellFormed(fs[i])
  }

  /** Dropping the first frame keeps the rest well-formed. */
  lemma WellFormedTail(fs: seq<Frame>)
    requires AllWellFormed(fs) && fs != []
    ensures WellFormed(fs[0]) && AllWellFormed(fs[1..])
  {
    forall i | 0 <= i < |fs| - 1
      ensures WellFormed(fs[1..][i])
    {
      assert fs[1..][i] == fs[i + 1];
    }
  }

  /** The payload size declared by the frame header at `pos` (bytes 4..7). */
  function FrameSize(tagData: seq<byte>, pos: nat): (n: nat)
    requires pos + HeaderSize <= |tagData|
    ensures n < Synchsafe.Limit
  {
    Synchsafe.Decode(tagData[pos + 4], tagData[pos + 5], tagData[pos + 6], tagData[pos + 7])
  }

  /** The frames from `pos` on, up to the first one whose header or payload
      runs past the end of `tagData`. */
  function SplitFrames(tagData: seq<byte>, pos: nat): (fs: seq<Frame>)
    requires pos <= |tagData|
    ensures AllWellFormed(fs)
    ensures 10 * |fs| <= |tagData| - pos
    decreases |tagData| - pos
  {
    if pos + HeaderSize > |tagData| then []
    else
      var size := FrameSize(tagData, pos);
      if pos + HeaderSize + size > |tagData| then []
      else
        [Frame(tagData[pos..pos + 4], tagData[pos + HeaderSize..pos + HeaderSize + size])]
          + SplitFrames(tagData, pos + HeaderSize + size)
  }

  /** The bytes a list of frames occupies, headers included. */
  function Span(fs: seq<Frame>): (n: nat)
    ensures n >= 10 * |fs|
  {
    if fs == [] then 0 else HeaderSize + |fs[0].payload| + Span(fs[1..])
  }

  /** Bytes that do not start a complete frame: too short for a header, or
      declaring a payload longer than what follows. */
  predicate Incomplete(tail: seq<byte>)
  {
    |tail| < HeaderSize || HeaderSize + Synchsafe.Decode(tail[4], tail[5], tail[6], tail[7]) > |tail|
  }

  /** A frame's bytes, with both flag bytes clear. */
  function EncodeFrame(fr: Frame): (bs: seq<byte>)
    requires WellFormed(fr)
    ensures |bs| == HeaderSize + |fr.payload|
  {
    fr.id + Synchsafe.Encode(|fr.payload|) + [0, 0] + fr.payload
  }

  function EncodeFrames(fs: seq<Frame>): (bs: seq<byte>)
    requires AllWellFormed(fs)
    ensures |bs| >= 10 * |fs|
  {
    if fs == [] then [] else EncodeFrame(fs[0]) + EncodeFrames(fs[1..])
  }

  /** An incomplete tail yields no frame wherever it sits. */
  lemma IncompleteTail(prefix: seq<byte>, tail: seq<byte>)
    requires Incomplete(tail)
    ensures SplitFrames(prefix + tail, |prefix|) == []
  {
    var data := prefix + tail;
    if |tail| >= HeaderSize {
      assert data[|prefix| + 4..|prefix| + 8] == tail[4..8];
    }
  }

  /** The cut ends exactly at the first position holding no complete
      frame: frames are taken back to back and nothing after an incomplete
      header or payload is looked at. */
  lemma {:induction false} SplitFramesStopsAtIncomplete(tagData: seq<byte>, pos: nat)
    requires pos <= |tagData|
    ensures var end := pos + Span(SplitFrames(tagData, pos));
            end <= |tagData| && Incomplete(tagData[end..])
    decreases |tagData| - pos
  {
    var rest := tagData[pos..];
    if pos + HeaderSize > |tagData| {
    } else if pos + HeaderSize + FrameSize(tagData, pos) > |tagData| {
      assert rest[4..8] == tagData[pos + 4..pos + 8];
    } else {
      var next := pos + HeaderSize + FrameSize(tagData, pos);
      var fs := SplitFrames(tagData, pos);
      assert fs[1..] == SplitFrames(tagData, next);
      SplitFramesStopsAtIncomplete(tagData, next);
    }
  }

  /** A laid-out frame is read back at its position: identifier, declared
      size and payload. */
  lemma FrameAt(prefix: seq<byte>, fr: Frame, rest: seq<byte>)
    requires WellFormed(fr)
    ensures var data := prefix + EncodeFrame(fr) + rest;
            var pos := |prefix|;
            && pos + HeaderSize + |fr.payload| <= |data|
            && FrameSize(data, pos) == |fr.payload|
            && data[pos..pos + 4] == fr.id
            && data[pos + HeaderSize..pos + HeaderSize + |fr.payload|] == fr.payload
  {
    var data := prefix + EncodeFrame(fr) + rest;
    var pos := |prefix|;
    var sizeBytes := Synchsafe.Encode(|fr.payload|);
    assert data[pos + 4..pos + 8] == sizeBytes;
    assert data[pos..pos + 4] == fr.id;
    assert data[pos + HeaderSize..pos + HeaderSize + |fr.payload|] == fr.payload;
  }

  /** One step of the cut: a complete frame at `pos` is taken, and the cut
      goes on at `end`, right after its payload. */
  lemma SplitStep(data: seq<byte>, pos: nat, fr: Frame, end: nat, rest: seq<Frame>)
    requires WellFormed(fr)
    requires end == pos + HeaderSize + |fr.payload| <= |data|
    requires FrameSize(data, pos) == |fr.payload|
    requires data[pos..pos + 4] == fr.id
    requires data[pos + HeaderSize..end] == fr.payload
    requires SplitFrames(data, end) == rest
    ensures SplitFrames(data, pos) == [fr] + rest
  {
  }

  lemma EncodeFramesCons(fs: seq<Frame>)
    requires AllWellFormed(fs) && fs != []
    requires WellFormed(fs[0]) && AllWellFormed(fs[1..])
    ensures EncodeFrames(fs) == EncodeFrame(fs[0]) + EncodeFrames(fs[1..])
  {
  }

  lemma Regroup(p: seq<byte>, e: seq<byte>, r: seq<byte>, t: seq<byte>)
    ensures p + (e + r) + t == p + e + (r + t)
    ensures p + (e + r) + t == (p + e) + r + t
  {
  }

  lemma LeftUnit(a: seq<byte>, b: seq<byte>)
    ensures [] + a + b == a + b
  {
  }

  /** The inductive step of `SplitEncodeFrames`: if the frames after the
      first are cut back out from right after it, the first is cut out too. */
  lemma SplitEncodeFramesStep(prefix: seq<byte>, fs: seq<Frame>, tail: seq<byte>)
    requires AllWellFormed(fs) && fs != []
    requires WellFormed(fs[0]) && AllWellFormed(fs[1..])
    requires SplitFrames(prefix + EncodeFrame(fs[0]) + EncodeFrames(fs[1..]) + tail,
                         |prefix + EncodeFrame(fs[0])|) == fs[1..]
    ensures SplitFrames(prefix + EncodeFrames(fs) + tail, |prefix|) == fs
  {
    var fr := fs[0];
    var enc := EncodeFrame(fr);
    var encRest := EncodeFrames(fs[1..]);
    EncodeFramesCons(fs);
    Regroup(prefix, enc, encRest, tail);
    var data := prefix + EncodeFrames(fs) + tail;
    FrameAt(prefix, fr, encRest + tail);
    SplitStep(data, |prefix|, fr, |prefix + enc|, fs[1..]);
    assert fs == [fr] + fs[1..];
  }

  /** Cutting a laid-out frame sequence gives the frames back, whatever
      precedes them and whatever incomplete bytes follow them. */
  lemma {:induction false} SplitEncodeFrames(prefix: seq<byte>, fs: seq<Frame>, tail: seq<byte>)
    requires AllWellFormed(fs)
    requires Incomplete(tail)
    ensures SplitFrames(prefix + EncodeFrames(fs) + tail, |prefix|) == fs
    decreases |fs|
  {
    if fs == [] {
      assert prefix + EncodeFrames(fs) + tail == prefix + tail;
      IncompleteTail(prefix, tail);
    } else {
      WellFormedTail(fs);
      SplitEncodeFrames(prefix + EncodeFrame(fs[0]), fs[1..], tail);
      SplitEncodeFramesStep(prefix, fs, tail);
    }
  }

  /** For a tag that starts at the beginning of the tag data. */
  lemma SplitEncodedTag(fs: seq<Frame>, tail: seq<byte>)
    requires AllWellFormed(fs)
    requires Incomplete(tail)
    ensures SplitFrames(EncodeFrames(fs) + tail, 0) == fs
  {
    var empty: seq<byte> := [];
    LeftUnit(EncodeFrames(fs), tail);
    SplitEncodeFrames(empty, fs, tail);
  }

  /** The arithmetic of the walk stays far inside a 32-bit `int`: the frame
      end `pos + 10 + frameSize` is below 2^29 + 10 whenever the header fits
      in a tag of at most 2^28 - 1 bytes. */
  lemma FrameEndFitsInt32(tagData: seq<byte>, pos: nat)
    requires |tagData| < Synchsafe.Limit
    requires pos + HeaderSize <= |tagData|
    ensures pos + HeaderSize + FrameSize(tagData, pos) < 0x7FFF_FFFF
  {
  }
}
