/**
  The `APIC` branch of the frame walk (filemanagebackend.cpp): how an
  attached-picture payload is cut into a MIME type and image bytes, which
  image codec the MIME type selects, and the fixed path the cover is saved
  under.

  The code reads the payload as: encoding byte, MIME type, NUL,
  description, NUL, image bytes. Section 4.14 of the ID3v2.4.0 frames
  document puts a one-byte picture type between the MIME type's NUL and the
  description; the code does not skip it, so that byte is searched as part
  of the description (see `PictureTypeByte`).
*/
module Apic {
  import opened Bytes

  /** The codec `QImage::loadFromData` is asked for. */
  datatype ImageFormat = Jpeg | Png | Unsupported

  /** What the walk keeps of an `APIC` payload; the description is dropped. */
  datatype Picture = Picture(mime: string, image: seq<byte>)

  /** `m` ends the MIME type (the first NUL from offset 1) and `d` ends the
      description (the first NUL after `m`). */
  predicate Terminators(payload: seq<byte>, m: nat, d: nat)
  {
    FirstAt(payload, 0, 1, m) && FirstAt(payload, 0, m + 1, d)
  }

  /** `mimeTypeEnd = indexOf('\0', 1)`, `mimeType = mid(1, mimeTypeEnd - 1)`,
      `descriptionEnd = indexOf('\0', mimeTypeEnd + 1)`,
      `imageData = mid(descriptionEnd + 1)`, with Qt's -1 for a missing NUL
      carried through the arithmetic. */
  function SplitApic(payload: seq<byte>): (p: Picture)
    // The usual case: MIME type and description both NUL-terminated.
    ensures forall m: nat, d: nat :: Terminators(payload, m, d) ==>
              p == Picture(Latin1(payload[1..m]), payload[d + 1..])
    // No NUL after the MIME type's: `descriptionEnd` is -1, so the image is
    // the whole payload.
    ensures forall m: nat :: FirstAt(payload, 0, 1, m) && Absent(payload, 0, m + 1) ==>
              p == Picture(Latin1(payload[1..m]), payload)
    // No NUL from offset 1 on: the MIME type runs to the end, and the second
    // search, starting at 0, can only find the encoding byte.
    ensures Absent(payload, 0, 1) ==>
              p.mime == Latin1(if |payload| <= 1 then [] else payload[1..]) &&
              p.image == (if |payload| > 0 && payload[0] == 0 then payload[1..] else payload)
  {
    var mimeEnd := IndexOf(payload, 0, 1);
    var mime := Latin1(Mid(payload, 1, mimeEnd - 1));
    var descEnd := IndexOf(payload, 0, (mimeEnd + 1) as nat);
    Picture(mime, Mid(payload, (descEnd + 1) as nat, -1))
  }

  /** An `APIC` payload laid out as the code expects it. */
  function ApicPayload(encoding: byte, mime: seq<byte>, description: seq<byte>, image: seq<byte>): seq<byte>
  {
    [encoding] + mime + [0] + description + [0] + image
  }

  /** Splitting recovers the MIME type and the image bytes of a payload laid
      out as encoding, MIME type, NUL, description, NUL, image, as long as
      neither text holds a NUL. */
  lemma SplitApicRoundTrip(encoding: byte, mime: seq<byte>, description: seq<byte>, image: seq<byte>)
    requires Absent(mime, 0, 0)
    requires Absent(description, 0, 0)
    ensures SplitApic(ApicPayload(encoding, mime, description, image)) == Picture(Latin1(mime), image)
  {
    var payload := ApicPayload(encoding, mime, description, image);
    var m := |mime| + 1;
    var d := m + 1 + |description|;
    assert FirstAt(payload, 0, 1, m) by {
      forall i | 1 <= i < m ensures payload[i] != 0 {
        assert payload[i] == mime[i - 1];
      }
    }
    assert FirstAt(payload, 0, m + 1, d) by {
      forall i | m + 1 <= i < d ensures payload[i] != 0 {
        assert payload[i] == description[i - m - 1];
      }
    }
    assert Terminators(payload, m, d);
    assert payload[1..m] == mime;
    assert payload[d + 1..] == image;
  }

  /** The ID3v2.4.0 layout has a picture-type byte after the MIME type's NUL.
      The code treats it as the first description byte: when it is 0
      ("other") the image is taken to start at the description, otherwise
      the image bytes come out right. */
  lemma PictureTypeByte(encoding: byte, mime: seq<byte>, pictureType: byte, description: seq<byte>, image: seq<byte>)
    requires Absent(mime, 0, 0)
    requires Absent(description, 0, 0)
    ensures pictureType == 0 ==>
              SplitApic(ApicPayload(encoding, mime, [], description + [0] + image))
                == Picture(Latin1(mime), description + [0] + image)
    ensures pictureType != 0 ==>
              SplitApic(ApicPayload(encoding, mime, [pictureType] + description, image))
                == Picture(Latin1(mime), image)
  {
    SplitApicRoundTrip(encoding, mime, [], description + [0] + image);
    if pictureType != 0 {
      SplitApicRoundTrip(encoding, mime, [pictureType] + description, image);
    }
  }

  /** A needle cannot be found where no position that leaves room for it
      holds its first character. */
  lemma {:induction false} NoStart(hay: string, needle: string)
    requires |needle| > 0
    requires forall i :: 0 <= i && i + |needle| <= |hay| ==> hay[i] != needle[0]
    ensures !Contains(hay, needle)
    decreases |hay|
  {
    if |needle| <= |hay| {
      assert hay[..|needle|][0] == hay[0];
      NoStart(hay[1..], needle);
    }
  }

  /** `"jpeg"` is looked for before `"png"`; anything else is unsupported. */
  function FormatOf(mime: string): (f: ImageFormat)
    ensures f == Jpeg <==> Contains(mime, "jpeg")
    ensures f == Png <==> !Contains(mime, "jpeg") && Contains(mime, "png")
    ensures f == Unsupported <==> !Contains(mime, "jpeg") && !Contains(mime, "png")
  {
    if Contains(mime, "jpeg") then Jpeg
    else if Contains(mime, "png") then Png
    else Unsupported
  }

  /** `image/jpeg` selects the JPEG codec. */
  lemma FormatOfJpeg()
    ensures FormatOf("image/jpeg") == Jpeg
  {
    ContainsIff("image/jpeg", "jpeg");
    assert OccursAt("image/jpeg", "jpeg", 6);
  }

  /** `image/png` selects the PNG codec. */
  lemma FormatOfPng()
    ensures FormatOf("image/png") == Png
  {
    NoStart("image/png", "jpeg");
    ContainsIff("image/png", "png");
    assert OccursAt("image/png", "png", 6);
  }

  /** The common but unregistered `image/jpg` contains neither "jpeg" nor
      "png", so an `APIC` frame carrying it halts the walk. */
  lemma FormatOfJpg()
    ensures FormatOf("image/jpg") == Unsupported
  {
    NoStart("image/jpg", "jpeg");
    NoStart("image/jpg", "png");
  }

  /** `"file://" + QDir::tempPath() + "/coverImage.jpg"`: one fixed file,
      whatever the picture's format. */
  function CoverUri(tempDir: string): (uri: string)
    ensures |uri| == |tempDir| + 22
    ensures uri[..7] == "file://"
    ensures uri[|uri| - 15..] == "/coverImage.jpg"
    ensures uri[7..|uri| - 15] == tempDir
  {
    "file://" + tempDir + "/coverImage.jpg"
  }
}
