/**
  The frame walk of `FileManageBackend::parseID3` (filemanagebackend.cpp):
  the `while (pos < tagSize)` loop that reads frame headers, checks them
  against the bytes actually read, dispatches `TIT2`, `TPE1` and `APIC`
  frames and advances by `10 + frameSize`.

  `Walk` follows the loop branch for branch. `Fold` is the reference it is
  proved equal to: cut the tag into frames first (`Frames.SplitFrames`),
  then run the dispatch over the list.
*/
module Walker {
  import opened Bytes
  import Synchsafe
  import opened TextDecoder
  import opened Apic
  import opened Frames

  /** `m_title`, `m_artist` and `m_coverImagePath`. */
  datatype Fields = Fields(title: string, artist: string, coverPath: string)

  /** What the walk needs from outside: the system temporary directory
      (`QDir::tempPath`), Qt's text conversions, and whether
      `QImage::loadFromData` and `QImage::save` succeed on given image bytes. */
  datatype Host = Host(
    tempDir: string,
    codecs: Codecs,
    load: (ImageFormat, seq<byte>) -> bool,
    save: (ImageFormat, seq<byte>) -> bool)

  /** Inputs on which the source reads outside its buffers. */
  datatype Hazard =
    | HeaderPastEnd   // "ID3" present but fewer than 10 header bytes: header[6..9] out of range
    | Utf16PastEnd    // a selector-1 text payload of one byte: fromUtf16 with length -1

  /** The effect of one frame: go on with the fields, stop the walk (`break`)
      with the fields, or undefined behaviour. */
  datatype Step = Continue(fields: Fields) | Halt(fields: Fields) | Fault(hazard: Hazard)

  /** The fields the object holds when the call returns, or the hazard hit. */
  datatype Outcome = Done(fields: Fields) | Undefined(hazard: Hazard)

  const TIT2: seq<byte> := [0x54, 0x49, 0x54, 0x32]  // "TIT2", title
  const TPE1: seq<byte> := [0x54, 0x50, 0x45, 0x31]  // "TPE1", lead artist
  const APIC: seq<byte> := [0x41, 0x50, 0x49, 0x43]  // "APIC", attached picture

  /** The cover path is empty or the one fixed temporary file. */
  predicate CoverOk(f: Fields, host: Host)
  {
    f.coverPath == "" || f.coverPath == CoverUri(host.tempDir)
  }

  /** The `APIC` branch: pick a codec from the MIME type, load, save; any
      failure is a `break` that leaves the fields as they were. */
  function Cover(payload: seq<byte>, f: Fields, host: Host): (s: Step)
    ensures !s.Fault?
    ensures s.Halt? ==> s.fields == f
    ensures s.Continue? <==>
              var pic := SplitApic(payload);
              FormatOf(pic.mime) != Unsupported
              && host.load(FormatOf(pic.mime), pic.image)
              && host.save(FormatOf(pic.mime), pic.image)
    ensures s.Continue? ==> s.fields == f.(coverPath := CoverUri(host.tempDir))
  {
    var pic := SplitApic(payload);
    var format := FormatOf(pic.mime);
    if format == Unsupported then Halt(f)
    else if !host.load(format, pic.image) then Halt(f)
    else if !host.save(format, pic.image) then Halt(f)
    else Continue(f.(coverPath := CoverUri(host.tempDir)))
  }

  /** One frame's effect on the fields, by identifier. */
  function Dispatch(fr: Frame, f: Fields, host: Host): (s: Step)
    // Each identifier touches its own field only.
    ensures !s.Fault? && fr.id != TIT2 ==> s.fields.title == f.title
    ensures !s.Fault? && fr.id != TPE1 ==> s.fields.artist == f.artist
    ensures !s.Fault? && fr.id != APIC ==> s.fields.coverPath == f.coverPath
    ensures s.Continue? && fr.id == TIT2 ==> DecodeText(fr.payload, host.codecs) == Decoded(s.fields.title)
    ensures s.Continue? && fr.id == TPE1 ==> DecodeText(fr.payload, host.codecs) == Decoded(s.fields.artist)
    ensures s.Continue? && fr.id == APIC ==> s.fields.coverPath == CoverUri(host.tempDir)
    // Unknown identifiers change nothing.
    ensures fr.id !in {TIT2, TPE1, APIC} ==> s == Continue(f)
    // Only a picture can stop the walk, and stopping keeps the fields.
    ensures s.Halt? ==> fr.id == APIC && s.fields == f
    // Only a one-byte selector-1 text payload is undefined.
    ensures s.Fault? <==> fr.id in {TIT2, TPE1} && fr.payload == [1]
    ensures s.Fault? ==> s.hazard == Utf16PastEnd
  {
    if fr.id == TIT2 then
      match DecodeText(fr.payload, host.codecs)
      case Decoded(t) => Continue(f.(title := t))
      case ReadsPastEnd => Fault(Utf16PastEnd)
    else if fr.id == TPE1 then
      match DecodeText(fr.payload, host.codecs)
      case Decoded(t) => Continue(f.(artist := t))
      case ReadsPastEnd => Fault(Utf16PastEnd)
    else if fr.id == APIC then Cover(fr.payload, f, host)
    else Continue(f)
  }

  /** Runs the dispatch over `fs` while it says `Continue`. */
  function Apply(fs: seq<Frame>, s: Step, host: Host): (r: Step)
    decreases |fs|
  {
    if fs == [] || !s.Continue? then s
    else Apply(fs[1..], Dispatch(fs[0], s.fields, host), host)
  }

  function Finish(s: Step): Outcome
  {
    match s
    case Continue(g) => Done(g)
    case Halt(g) => Done(g)
    case Fault(h) => Undefined(h)
  }

  /** The reference walk: dispatch a list of frames in order. */
  function Fold(fs: seq<Frame>, f: Fields, host: Host): Outcome
  {
    Finish(Apply(fs, Continue(f), host))
  }

  /** Lines 122-182. The loop guard is `pos < tagSize` while both bounds
      checks use the bytes actually read, of which there may be fewer. */
  function Walk(tagData: seq<byte>, tagSize: nat, pos: nat, f: Fields, host: Host): (r: Outcome)
    requires |tagData| <= tagSize < Synchsafe.Limit
    requires pos <= |tagData|
    ensures r.Done? && CoverOk(f, host) ==> CoverOk(r.fields, host)
    ensures r.Undefined? ==> r.hazard == Utf16PastEnd
    decreases |tagData| - pos
  {
    if pos >= tagSize then Done(f)
    else if pos + HeaderSize > |tagData| then Done(f)          // incomplete frame header
    else
      var frameSize := FrameSize(tagData, pos);
      if pos + HeaderSize + frameSize > |tagData| then Done(f)  // incomplete frame data
      else
        var fr := Frame(tagData[pos..pos + 4], tagData[pos + HeaderSize..pos + HeaderSize + frameSize]);
        match Dispatch(fr, f, host)
        case Continue(g) => Walk(tagData, tagSize, pos + HeaderSize + frameSize, g, host)
        case Halt(g) => Done(g)
        case Fault(h) => Undefined(h)
  }

  /** The walk is the dispatch run over the frames `SplitFrames` cuts out.
      In particular it does not depend on `tagSize`, only on the bytes read. */
  lemma {:induction false} WalkIsFold(tagData: seq<byte>, tagSize: nat, pos: nat, f: Fields, host: Host)
    requires |tagData| <= tagSize < Synchsafe.Limit
    requires pos <= |tagData|
    ensures Walk(tagData, tagSize, pos, f, host) == Fold(SplitFrames(tagData, pos), f, host)
    decreases |tagData| - pos
  {
    if pos >= tagSize || pos + HeaderSize > |tagData| {
    } else {
      var frameSize := FrameSize(tagData, pos);
      if pos + HeaderSize + frameSize <= |tagData| {
        var next := pos + HeaderSize + frameSize;
        var fr := Frame(tagData[pos..pos + 4], tagData[pos + HeaderSize..next]);
        var rest := SplitFrames(tagData, next);
        assert SplitFrames(tagData, pos) == [fr] + rest;
        assert ([fr] + rest)[1..] == rest;
        match Dispatch(fr, f, host)
        case Continue(g) =>
          WalkIsFold(tagData, tagSize, next, g, host);
        case Halt(g) =>
          assert Apply(rest, Halt(g), host) == Halt(g);
        case Fault(h) =>
          assert Apply(rest, Fault(h), host) == Fault(h);
      }
    }
  }

  /** Running two lists is running their concatenation. */
  lemma {:induction false} ApplyAppend(fs: seq<Frame>, gs: seq<Frame>, s: Step, host: Host)
    ensures Apply(fs + gs, s, host) == Apply(gs, Apply(fs, s, host), host)
    decreases |fs|
  {
    if fs == [] {
      assert fs + gs == gs;
    } else if !s.Continue? {
      assert Apply(gs, s, host) == s;
    } else {
      assert (fs + gs)[1..] == fs[1..] + gs;
      ApplyAppend(fs[1..], gs, Dispatch(fs[0], s.fields, host), host);
    }
  }

  lemma StoppedStaysStopped(fs: seq<Frame>, s: Step, host: Host)
    ensures !s.Continue? ==> Apply(fs, s, host) == s
  {
  }

  /** Once a frame has stopped the walk, later frames are never looked at. */
  lemma HaltDiscardsLaterFrames(fs: seq<Frame>, later: seq<Frame>, f: Fields, host: Host)
    requires !Apply(fs, Continue(f), host).Continue?
    ensures Fold(fs + later, f, host) == Fold(fs, f, host)
  {
    ApplyAppend(fs, later, Continue(f), host);
    assert Apply(later, Apply(fs, Continue(f), host), host) == Apply(fs, Continue(f), host);
  }

  /** A failing picture ends the walk with exactly the fields the frames
      before it produced, whatever follows it. */
  lemma HaltKeepsEarlierFields(fs: seq<Frame>, bad: Frame, later: seq<Frame>, f: Fields, host: Host)
    requires Apply(fs, Continue(f), host).Continue?
    requires Dispatch(bad, Apply(fs, Continue(f), host).fields, host).Halt?
    ensures Fold(fs + [bad] + later, f, host) == Done(Apply(fs, Continue(f), host).fields)
  {
    var g := Apply(fs, Continue(f), host).fields;
    ApplyAppend(fs, [bad], Continue(f), host);
    assert Apply([bad], Continue(g), host) == Apply([], Dispatch(bad, g, host), host);
    HaltDiscardsLaterFrames(fs + [bad], later, f, host);
  }

  /** Frames with identifiers the walk does not know change nothing. */
  lemma {:induction false} UnknownFramesInert(fs: seq<Frame>, s: Step, host: Host)
    requires forall i :: 0 <= i < |fs| ==> fs[i].id !in {TIT2, TPE1, APIC}
    ensures Apply(fs, s, host) == s
    decreases |fs|
  {
    if fs != [] && s.Continue? {
      UnknownFramesInert(fs[1..], s, host);
    }
  }

  /** The three output fields, for stating what a frame writes. */
  datatype Field = Title | Artist | CoverPath

  function Get(f: Fields, w: Field): string
  {
    match w
    case Title => f.title
    case Artist => f.artist
    case CoverPath => f.coverPath
  }

  function IdOf(w: Field): seq<byte>
  {
    match w
    case Title => TIT2
    case Artist => TPE1
    case CoverPath => APIC
  }

  /** Index of the last frame with identifier `id`, or -1. */
  function LastIndex(fs: seq<Frame>, id: seq<byte>): (k: int)
    ensures -1 <= k < |fs|
    ensures k >= 0 ==> fs[k].id == id
    ensures forall j :: k < j < |fs| ==> fs[j].id != id
  {
    if fs == [] then -1
    else if fs[|fs| - 1].id == id then |fs| - 1
    else LastIndex(fs[..|fs| - 1], id)
  }

  /** When no frame stops the walk, each field holds what the LAST frame for
      it wrote, or its value from before the walk when there is no such
      frame: a later `TIT2` overwrites an earlier one, and so on. */
  lemma {:induction false} LastFrameWins(fs: seq<Frame>, f: Fields, host: Host, w: Field)
    requires Apply(fs, Continue(f), host).Continue?
    ensures var k, v := LastIndex(fs, IdOf(w)), Get(Apply(fs, Continue(f), host).fields, w);
            && (k < 0 ==> v == Get(f, w))
            && (k >= 0 && w != CoverPath ==> DecodeText(fs[k].payload, host.codecs) == Decoded(v))
            && (k >= 0 && w == CoverPath ==> v == CoverUri(host.tempDir))
    decreases |fs|
  {
    if fs != [] {
      var init, last := fs[..|fs| - 1], fs[|fs| - 1];
      assert fs == init + [last];
      ApplyAppend(init, [last], Continue(f), host);
      var s0 := Apply(init, Continue(f), host);
      StoppedStaysStopped([last], s0, host);
      LastFrameWins(init, f, host, w);
      assert Apply([last], s0, host) == Apply([], Dispatch(last, s0.fields, host), host);
    }
  }

  /** Whether some frame the walk dispatches, before it stops, writes field `w`. */
  predicate Written(fs: seq<Frame>, f: Fields, w: Field, host: Host)
    decreases |fs|
  {
    fs != [] && Dispatch(fs[0], f, host).Continue?
    && (fs[0].id == IdOf(w) || Written(fs[1..], Dispatch(fs[0], f, host).fields, w, host))
  }

  /** A field no dispatched frame writes keeps its starting value. */
  lemma {:induction false} UnwrittenKept(fs: seq<Frame>, f: Fields, w: Field, host: Host)
    requires !Apply(fs, Continue(f), host).Fault?
    requires !Written(fs, f, w, host)
    ensures Get(Apply(fs, Continue(f), host).fields, w) == Get(f, w)
    decreases |fs|
  {
    if fs != [] {
      var s := Dispatch(fs[0], f, host);
      StoppedStaysStopped(fs[1..], s, host);
      if s.Continue? {
        UnwrittenKept(fs[1..], s.fields, w, host);
      }
    }
  }

  /** Two starting states that agree on every field the walk over `fs`
      does not write. */
  predicate Agree(fs: seq<Frame>, f1: Fields, f2: Fields, host: Host)
  {
    && (f2.title == f1.title || Written(fs, f1, Title, host))
    && (f2.artist == f1.artist || Written(fs, f1, Artist, host))
    && (f2.coverPath == f1.coverPath || Written(fs, f1, CoverPath, host))
  }

  /** Whether a frame goes on, stops or faults does not depend on the
      fields, and a frame that goes on writes the same value into its field
      whatever the fields held. */
  lemma DispatchAgrees(fr: Frame, f1: Fields, f2: Fields, host: Host)
    ensures var s1, s2 := Dispatch(fr, f1, host), Dispatch(fr, f2, host);
            && s1.Continue? == s2.Continue?
            && s1.Halt? == s2.Halt?
            && (s1.Fault? ==> s1 == s2)
            && (s1.Halt? ==> s1.fields == f1 && s2.fields == f2)
            && (s1.Continue? && fr.id == TIT2 ==> s1.fields.title == s2.fields.title)
            && (s1.Continue? && fr.id == TPE1 ==> s1.fields.artist == s2.fields.artist)
            && (s1.Continue? && fr.id == APIC ==> s1.fields.coverPath == s2.fields.coverPath)
  {
  }

  /** Starting states that agree on the fields the walk does not write lead
      to the same result. */
  lemma {:induction false} ApplyAgrees(fs: seq<Frame>, f1: Fields, f2: Fields, host: Host)
    requires Agree(fs, f1, f2, host)
    ensures Apply(fs, Continue(f2), host) == Apply(fs, Continue(f1), host)
    decreases |fs|
  {
    if fs == [] {
    } else {
      var s1, s2 := Dispatch(fs[0], f1, host), Dispatch(fs[0], f2, host);
      DispatchAgrees(fs[0], f1, f2, host);
      if s1.Continue? {
        assert Agree(fs[1..], s1.fields, s2.fields, host);
        ApplyAgrees(fs[1..], s1.fields, s2.fields, host);
      } else {
        assert f1 == f2;
        StoppedStaysStopped(fs[1..], s1, host);
      }
    }
  }

  /** Running the walk again from the title and artist it produced, with
      the cover path reset, gives the same result: every field either was
      written, and is written again with the same value, or was kept. */
  lemma FoldIdempotent(fs: seq<Frame>, f: Fields, host: Host)
    requires Fold(fs, f, host).Done?
    ensures var g := Fold(fs, f, host).fields;
            Fold(fs, g.(coverPath := f.coverPath), host) == Fold(fs, f, host)
  {
    var g := Fold(fs, f, host).fields;
    if !Written(fs, f, Title, host) {
      UnwrittenKept(fs, f, Title, host);
    }
    if !Written(fs, f, Artist, host) {
      UnwrittenKept(fs, f, Artist, host);
    }
    ApplyAgrees(fs, f, g.(coverPath := f.coverPath), host);
  }
}
