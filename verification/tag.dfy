/**
  `FileManageBackend::parseID3` (filemanagebackend.cpp) as a whole: open
  the file, read the 10-byte tag header (ID3v2.4.0 structure, section 3.1),
  check the "ID3" marker, decode the synchsafe tag size, read that many
  bytes and walk the frames.

  The object's state is threaded explicitly: the call takes the title and
  artist the object held before (they are never reset) and returns the
  three fields it holds afterwards; the cover path always starts empty.
*/
module Tag {
  import opened Bytes
  import Synchsafe
  import opened TextDecoder
  import opened Frames
  import opened Walker

  /** The file behind the path: unreadable (`open` fails) or its bytes. */
  datatype FileContents = Unreadable | Contents(bytes: seq<byte>)

  /** What the header check finds. */
  datatype TagRead =
    | NotOpened
    | NoMarker
    | HeaderTooShort
    | Tag(size: nat, data: seq<byte>)   // declared size, and the bytes `read(size)` returned

  const Marker: seq<byte> := [0x49, 0x44, 0x33]  // "ID3"

  /** Lines 106-120. `read(n)` on a regular file returns the next `n` bytes,
      or as many as remain. */
  function ReadTag(file: FileContents): (t: TagRead)
    ensures t.NotOpened? <==> file.Unreadable?
    ensures t.NoMarker? <==> file.Contents? && (|file.bytes| < 3 || file.bytes[..3] != Marker)
    ensures t.HeaderTooShort? <==> file.Contents? && 3 <= |file.bytes| < 10 && file.bytes[..3] == Marker
    ensures t.Tag? ==>
              && |file.bytes| >= 10
              && t.size < Synchsafe.Limit
              && t.size == Synchsafe.Decode(file.bytes[6], file.bytes[7], file.bytes[8], file.bytes[9])
              && |t.data| <= t.size && 10 + |t.data| <= |file.bytes|
              // a short read only happens at the end of the file
              && (|t.data| == t.size || 10 + |t.data| == |file.bytes|)
              && t.data == file.bytes[10..10 + |t.data|]
  {
    match file
    case Unreadable => NotOpened
    case Contents(bytes) =>
      var header := bytes[..Min(10, |bytes|)];
      if Mid(header, 0, 3) != Marker then NoMarker
      else if |header| < 10 then HeaderTooShort
      else
        var tagSize := Synchsafe.Decode(header[6], header[7], header[8], header[9]);
        Tag(tagSize, bytes[10..Min(|bytes|, 10 + tagSize)])
  }

  /** Lines 105-183: the fields the object holds after `parseID3`, given the
      title and artist it held before. */
  function Parse(file: FileContents, title: string, artist: string, host: Host): (r: Outcome)
    // No file or no marker: no frame is examined, title and artist are
    // kept, the cover path is cleared.
    ensures file.Unreadable? ==> r == Done(Fields(title, artist, ""))
    ensures file.Contents? && (|file.bytes| < 3 || file.bytes[..3] != Marker) ==>
              r == Done(Fields(title, artist, ""))
    ensures r == Undefined(HeaderPastEnd) <==>
              file.Contents? && 3 <= |file.bytes| < 10 && file.bytes[..3] == Marker
    // The cover path ends up empty or naming the one temporary file.
    ensures r.Done? ==> CoverOk(r.fields, host)
  {
    var start := Fields(title, artist, "");
    match ReadTag(file)
    case NotOpened => Done(start)
    case NoMarker => Done(start)
    case HeaderTooShort => Undefined(HeaderPastEnd)
    case Tag(tagSize, tagData) => Walk(tagData, tagSize, 0, start, host)
  }

  /** A tag header: marker, version and flags, synchsafe size. */
  function TagHeader(versionAndFlags: seq<byte>, size: nat): (bs: seq<byte>)
    requires |versionAndFlags| == 3
    requires size < Synchsafe.Limit
    ensures |bs| == 10
  {
    Marker + versionAndFlags + Synchsafe.Encode(size)
  }

  /** Reading back a header followed by tag bytes and then audio: the
      declared size is decoded, and the tag data is exactly the tag bytes. */
  lemma ReadEncodedTag(versionAndFlags: seq<byte>, size: nat, body: seq<byte>, audio: seq<byte>)
    requires |versionAndFlags| == 3
    requires |body| <= size < Synchsafe.Limit
    requires size == |body| || audio == []
    ensures ReadTag(Contents(TagHeader(versionAndFlags, size) + body + audio)) == Tag(size, body)
  {
    var header := TagHeader(versionAndFlags, size);
    var bytes := header + body + audio;
    assert bytes[..3] == Marker;
    var sizeBytes := Synchsafe.Encode(size);
    assert bytes[6..10] == sizeBytes;
    assert bytes[10..Min(|bytes|, 10 + size)] == body;
  }

  /** A file holding a tag of whole frames, possibly followed inside the tag
      by bytes that do not make a complete frame, and then by audio data,
      parses to the dispatch of exactly those frames, in order, starting
      from the previous title and artist and an empty cover path. The
      declared size may exceed the bytes present only when the file ends
      there. */
  lemma ParseTag(versionAndFlags: seq<byte>, size: nat, fs: seq<Frame>, tail: seq<byte>,
                 audio: seq<byte>, title: string, artist: string, host: Host)
    requires |versionAndFlags| == 3
    requires AllWellFormed(fs)
    requires Incomplete(tail)
    requires |EncodeFrames(fs) + tail| <= size < Synchsafe.Limit
    requires size == |EncodeFrames(fs) + tail| || audio == []
    ensures Parse(Contents(TagHeader(versionAndFlags, size) + EncodeFrames(fs) + tail + audio), title, artist, host)
              == Fold(fs, Fields(title, artist, ""), host)
  {
    var body := EncodeFrames(fs) + tail;
    var header := TagHeader(versionAndFlags, size);
    Regroup(header, EncodeFrames(fs), tail, audio);
    ReadEncodedTag(versionAndFlags, size, body, audio);
    WalkIsFold(body, size, 0, Fields(title, artist, ""), host);
    SplitEncodedTag(fs, tail);
  }

  /** Whatever the tag holds, parsing it is dispatching, in order, the
      frames cut from the bytes read, starting from the earlier title and
      artist and an empty cover path. */
  lemma ParseIsFold(file: FileContents, title: string, artist: string, host: Host)
    ensures ReadTag(file).Tag? ==>
              Parse(file, title, artist, host)
                == Fold(SplitFrames(ReadTag(file).data, 0), Fields(title, artist, ""), host)
  {
    var t := ReadTag(file);
    if t.Tag? {
      WalkIsFold(t.data, t.size, 0, Fields(title, artist, ""), host);
    }
  }

  /** Parsing the same file twice, the second time from the title and artist
      the first parse left, gives the same result. */
  lemma ParseIdempotent(file: FileContents, title: string, artist: string, host: Host)
    requires Parse(file, title, artist, host).Done?
    ensures var g := Parse(file, title, artist, host).fields;
            Parse(file, g.title, g.artist, host) == Parse(file, title, artist, host)
  {
    var g := Parse(file, title, artist, host).fields;
    var t := ReadTag(file);
    if t.Tag? {
      var fs := SplitFrames(t.data, 0);
      var start := Fields(title, artist, "");
      ParseIsFold(file, title, artist, host);
      ParseIsFold(file, g.title, g.artist, host);
      FoldIdempotent(fs, start, host);
      assert g.(coverPath := "") == Fields(g.title, g.artist, "");
    }
  }

  /** A tag declaring 100 bytes, of which the file holds only one `TIT2`
      frame whose payload is selector 0 and the Latin-1 bytes of "Hello",
      sets the title to "Hello" and keeps the artist. */
  lemma HelloTitle(artist: string, oldTitle: string, host: Host)
    ensures var hello := Latin1Bytes("Hello");
            Parse(Contents(TagHeader([4, 0, 0], 100) + EncodeFrame(Frame(TIT2, [0] + hello))),
                  oldTitle, artist, host)
              == Done(Fields("Hello", artist, ""))
  {
    var hello := Latin1Bytes("Hello");
    var fr := Frame(TIT2, [0] + hello);
    var empty: seq<byte> := [];
    assert EncodeFrames([fr]) == EncodeFrame(fr) by {
      assert EncodeFrames([fr][1..]) == empty;
    }
    assert TagHeader([4, 0, 0], 100) + EncodeFrame(fr)
        == TagHeader([4, 0, 0], 100) + EncodeFrames([fr]) + empty + empty;
    ParseTag([4, 0, 0], 100, [fr], empty, empty, oldTitle, artist, host);
    Latin1TextRoundTrip(0, "Hello", host.codecs);
    assert Apply([fr], Continue(Fields(oldTitle, artist, "")), host)
        == Apply([], Continue(Fields("Hello", artist, "")), host);
  }
}
