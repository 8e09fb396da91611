# ID3v2 tag reader of the Qt music player, in Dafny

This project models the part of `FileManageBackend` that reads the title,
artist and cover picture of an MP3 file from its ID3v2 tag, and proves
properties of that model. It covers `decodeText` and
`FileManageBackend::parseID3` in `newMusicPlayer/filemanagebackend.cpp`:

- the 10-byte tag header, its `"ID3"` marker and its 28-bit synchsafe size
  (ID3v2.4.0 structure, sections 3.1 and 6.2);
- the frame walk: 10-byte frame headers with synchsafe sizes (ID3v2.4.0
  structure, section 4), bounds checked against the bytes actually read,
  advancing by `10 + frameSize`, stopping at the first incomplete frame or
  failed picture;
- dispatch on `TIT2` (title), `TPE1` (artist) and `APIC` (cover picture);
- text decoding by encoding selector 0/1/2/3;
- the `APIC` payload split into MIME type and image bytes, the codec choice
  and the fixed cover path.

Modules, one per file:

| file | module | contents |
|---|---|---|
| bytes.dfy | `Bytes` | bytes, and the Qt operations the code uses: `mid`, `indexOf`, `fromLatin1`, `contains`, and C++ truncating division by 2 |
| synchsafe.dfy | `Synchsafe` | 28-bit synchsafe integers |
| text.dfy | `TextDecoder` | `decodeText` |
| apic.dfy | `Apic` | the `APIC` payload split, codec choice, cover path |
| frames.dfy | `Frames` | frame layout; cutting tag bytes into frames and laying them out again |
| walker.dfy | `Walker` | the fields, frame dispatch, the walk, and its reference definition as a fold over the frame list |
| tag.dfy | `Tag` | `parseID3` end to end: file, header, walk |

The object's state is passed explicitly. `Tag.Parse` takes the title and
artist the object held before the call and returns all three fields
afterwards. The code never resets title and artist. It resets the cover
path to `""` on every call.

A few inputs make the code read outside its buffers. The model returns
`Undefined(hazard)` for them instead of guessing what happens:

- `HeaderPastEnd`: the file starts with `"ID3"` but has fewer than 10 bytes,
  so `header[6]`..`header[9]` are out of range;
- `Utf16PastEnd`: a `TIT2`/`TPE1` payload that is the single byte 1. There
  `(textData.size() - 2) / 2` is -1, and `QString::fromUtf16` with length
  -1 reads up to a NUL past the end of the buffer.

`Walker.Walk` follows the `while` loop branch for branch. `Walker.Fold` is
the reference it is proved equal to: first cut the tag into frames
(`Frames.SplitFrames`), then dispatch the list in order.

Behaviours of the code that the model keeps and a reader may not expect:

- a tag that declares more bytes than the file holds is still walked, over
  the bytes that are present;
- title and artist keep their previous values when a file has no tag, and
  when a tag has no `TIT2`/`TPE1`;
- a 3–9 byte file starting with `"ID3"` is undefined behaviour, not "no
  metadata";
- selectors 1 and 2 hand the bytes to Qt as host-order code units, and Qt
  itself looks for a byte-order mark;
- the `APIC` picture-type byte (ID3v2.4.0 frames, section 4.14) is not
  skipped (`Apic.PictureTypeByte`).

## Model

| member | source | states |
|---|---|---|
| Bytes.Mid | newMusicPlayer/filemanagebackend.cpp:141-153 | `QByteArray::mid` is a slice of the input: empty past the end; exactly `len` bytes when they exist; the rest of the array when `len` is negative or too long |
| Bytes.IndexOf | newMusicPlayer/filemanagebackend.cpp:149-152 | the result is -1 exactly when the byte does not occur from `from` on; otherwise it is the first position from `from` holding the byte |
| Bytes.Latin1 | newMusicPlayer/filemanagebackend.cpp:89 | `fromLatin1` gives one character per byte, with the character's code equal to the byte |
| Bytes.Latin1RoundTrip | newMusicPlayer/filemanagebackend.cpp:89 | every string of characters below 256 is the Latin-1 decoding of its bytes |
| Bytes.Latin1BytesRoundTrip | newMusicPlayer/filemanagebackend.cpp:89 | Latin-1 decoding loses no byte: encoding the decoded string gives the bytes back |
| Bytes.ContainsIff | newMusicPlayer/filemanagebackend.cpp:156-161 | `QString::contains` holds exactly when the needle occurs at some position of the haystack |
| Bytes.CHalf | newMusicPlayer/filemanagebackend.cpp:92 | C++ `/ 2` truncates toward zero: for non-negative `a` the quotient is the floor of a/2; for negative `a` it is the ceiling, and never positive |
| Synchsafe.Decode | newMusicPlayer/filemanagebackend.cpp:119 | a synchsafe size built from the low 7 bits of four bytes is always below 2^28 |
| Synchsafe.Low7 | newMusicPlayer/filemanagebackend.cpp:119 | `b & 0x7F` is the byte modulo 0x80: below 0x80, the seven low bits |
| Synchsafe.Encode | newMusicPlayer/filemanagebackend.cpp:119 | every size below 2^28 has a 4-byte synchsafe encoding with the top bit of each byte clear, which decodes back to the size |
| Synchsafe.EncodeDecode | newMusicPlayer/filemanagebackend.cpp:130-133 | decoding then encoding gives back the four bytes with their top bit cleared: the top bits are ignored and nothing else is lost |
| Synchsafe.DecodeInjectiveOnLow7 | newMusicPlayer/filemanagebackend.cpp:130-133 | two byte quadruples decode to the same size exactly when their low 7 bits agree byte by byte |
| TextDecoder.Units | newMusicPlayer/filemanagebackend.cpp:92-95 | the `ushort` array read from a byte buffer: code unit `k` is the bytes at `from + 2k` and `from + 2k + 1` |
| TextDecoder.UnitsOfUnitBytes | newMusicPlayer/filemanagebackend.cpp:92-95 | reading code units back from their bytes gives the units, whatever bytes precede and follow them |
| TextDecoder.DecodeText | newMusicPlayer/filemanagebackend.cpp:77-103 | an empty payload is the empty string. Selector 0 and any selector outside 1..3 decode the rest of the payload as Latin-1. Selector 1 skips two more bytes and converts (n−3)/2 units, rounded toward zero: ⌊(n−3)/2⌋ for n ≥ 3, none for n = 2. Selector 2 converts ⌊(n−1)/2⌋ units. Selector 3 hands the rest to UTF-8. A buffer overrun happens exactly for the payload `[1]` |
| TextDecoder.ShortUtf16IsEmpty | newMusicPlayer/filemanagebackend.cpp:90-98 | with converters that turn no bytes into no characters, a selector-2 payload of at most 2 bytes, a selector-1 payload of 2 to 4 bytes, and the payload `[3]` all decode to the empty string |
| TextDecoder.Latin1TextRoundTrip | newMusicPlayer/filemanagebackend.cpp:87-102 | a selector outside 1..3, followed by the Latin-1 bytes of a string, decodes to that string |
| TextDecoder.Utf16TextRoundTrip | newMusicPlayer/filemanagebackend.cpp:93-95 | selector 2 passes the converter exactly the code units laid out after it; a trailing odd byte is dropped |
| TextDecoder.Utf16BomTextRoundTrip | newMusicPlayer/filemanagebackend.cpp:90-92 | selector 1 skips two byte-order-mark bytes, whatever they hold, then passes exactly the code units after them; a trailing odd byte is dropped |
| Apic.SplitApic | newMusicPlayer/filemanagebackend.cpp:149-153 | the MIME type runs from offset 1 to the first NUL, and the image starts after the next NUL. With no second NUL the image is the whole payload. With no NUL from offset 1, the MIME type runs to the end and the image is the payload, minus a leading NUL encoding byte |
| Apic.SplitApicRoundTrip | newMusicPlayer/filemanagebackend.cpp:149-153 | a payload laid out as encoding, MIME type, NUL, description, NUL, image, with no NUL in either text, splits back into that MIME type and image |
| Apic.PictureTypeByte | newMusicPlayer/filemanagebackend.cpp:149-153 | on a payload following ID3v2.4.0, with a picture-type byte after the MIME type, the image comes out right when that byte is non-zero; when it is zero the image starts at the description |
| Apic.FormatOf | newMusicPlayer/filemanagebackend.cpp:156-169 | JPEG exactly when the MIME type contains "jpeg"; PNG exactly when it contains "png" but not "jpeg"; unsupported otherwise |
| Apic.FormatOfJpeg | newMusicPlayer/filemanagebackend.cpp:156-160 | `image/jpeg` selects JPEG |
| Apic.FormatOfPng | newMusicPlayer/filemanagebackend.cpp:161-165 | `image/png` selects PNG |
| Apic.FormatOfJpg | newMusicPlayer/filemanagebackend.cpp:166-169 | `image/jpg` is unsupported |
| Apic.CoverUri | newMusicPlayer/filemanagebackend.cpp:171-177 | the cover path is `file://`, then the temporary directory, then `/coverImage.jpg`, whatever the picture format |
| Frames.FrameSize | newMusicPlayer/filemanagebackend.cpp:129-133 | a frame's declared payload size, taken from header bytes 4..7, is below 2^28 |
| Frames.SplitFrames | newMusicPlayer/filemanagebackend.cpp:122-141 | cutting the tag bytes into frames yields well-formed frames, each taking at least 10 bytes |
| Frames.SplitStep | newMusicPlayer/filemanagebackend.cpp:129-141 | a complete frame at `pos` is taken with its identifier and payload, and the walk goes on right after the payload |
| Frames.SplitFramesStopsAtIncomplete | newMusicPlayer/filemanagebackend.cpp:123-139 | the frames are taken back to back, and the cut ends exactly where the bytes left hold no complete header or payload |
| Frames.IncompleteTail | newMusicPlayer/filemanagebackend.cpp:124-139 | bytes too short for a header, or declaring a payload longer than what follows, yield no frame |
| Frames.SplitEncodeFrames | newMusicPlayer/filemanagebackend.cpp:122-141 | cutting laid-out frames followed by incomplete bytes gives back exactly those frames, whatever precedes them |
| Frames.SplitEncodedTag | newMusicPlayer/filemanagebackend.cpp:122-141 | the same, for frames starting at the beginning of the tag data |
| Walker.Cover | newMusicPlayer/filemanagebackend.cpp:155-177 | the picture branch goes on exactly when the MIME type selects a codec and both loading and saving succeed. Then only the cover path changes, to the fixed URI. Any failure stops the walk with the fields unchanged |
| Walker.Dispatch | newMusicPlayer/filemanagebackend.cpp:142-179 | `TIT2` sets only the title and `TPE1` only the artist, to the decoded payload. `APIC` sets only the cover path. Other identifiers change nothing. Only `APIC` stops the walk, keeping the fields. Only a `[1]` text payload overruns a buffer |
| Walker.Walk | newMusicPlayer/filemanagebackend.cpp:122-182 | the walk terminates, the cover path stays empty or the one fixed URI, and the only undefined behaviour is the UTF-16 overrun |
| Walker.WalkIsFold | newMusicPlayer/filemanagebackend.cpp:122-182 | the loop equals dispatching, in order, the frames that cutting the bytes read yields. The declared tag size plays no further part |
| Walker.ApplyAppend | newMusicPlayer/filemanagebackend.cpp:123-181 | dispatching two frame lists one after the other is dispatching their concatenation |
| Walker.HaltDiscardsLaterFrames | newMusicPlayer/filemanagebackend.cpp:157-175 | after the walk has stopped, no later frame is looked at |
| Walker.HaltKeepsEarlierFields | newMusicPlayer/filemanagebackend.cpp:155-176 | a picture that fails ends the walk with exactly the fields the earlier frames produced, whatever follows it |
| Walker.UnknownFramesInert | newMusicPlayer/filemanagebackend.cpp:144-179 | frames with identifiers other than `TIT2`, `TPE1` and `APIC` leave the state unchanged |
| Walker.UnwrittenKept | newMusicPlayer/filemanagebackend.cpp:144-179 | a field that no dispatched frame writes keeps its value from before the walk |
| Walker.DispatchAgrees | newMusicPlayer/filemanagebackend.cpp:144-179 | whether a frame goes on, stops or faults does not depend on the fields; a frame that goes on writes the same value whatever the fields held; a stop keeps the fields |
| Walker.ApplyAgrees | newMusicPlayer/filemanagebackend.cpp:123-181 | two walks over the same frames, from states that agree on every field the walk does not write, end the same |
| Walker.FoldIdempotent | newMusicPlayer/filemanagebackend.cpp:123-181 | walking the same frames again from the title and artist the walk produced, with the cover path reset, gives the same result |
| Walker.LastIndex | newMusicPlayer/filemanagebackend.cpp:144-148 | the position of the last frame with a given identifier, or -1 when none has it |
| Walker.LastFrameWins | newMusicPlayer/filemanagebackend.cpp:144-148 | when nothing stops the walk, each field holds what the last frame for it wrote, or its earlier value if there is no such frame |
| Tag.ReadTag | newMusicPlayer/filemanagebackend.cpp:106-120 | the outcome is one of: not opened; no marker; header too short; or a tag. A tag's size is the synchsafe decoding of header bytes 6..9, and its data is the bytes after the header, up to that size or the end of the file |
| Tag.Parse | newMusicPlayer/filemanagebackend.cpp:105-120 | with no file or no marker, title and artist keep their earlier values and the cover path is empty. Undefined behaviour from the header happens exactly for a 3–9 byte file starting with "ID3". The cover path ends up empty or the fixed URI |
| Tag.ReadEncodedTag | newMusicPlayer/filemanagebackend.cpp:113-120 | a header followed by tag bytes and then audio reads back as a tag of the declared size, whose data is exactly the tag bytes |
| Tag.ParseTag | newMusicPlayer/filemanagebackend.cpp:105-183 | a file holding a header, laid-out frames, incomplete bytes and then audio parses to the in-order dispatch of those frames. It starts from the earlier title and artist and an empty cover path. This also holds when the declared size runs past the end of the file |
| Tag.ParseIsFold | newMusicPlayer/filemanagebackend.cpp:105-183 | on any file with a complete header and marker, the parse is the in-order dispatch of the frames cut from the bytes read, starting from the earlier title and artist and an empty cover path |
| Tag.ParseIdempotent | newMusicPlayer/filemanagebackend.cpp:105-183 | parsing a file a second time, from the title and artist the first parse left, gives the same result, although title and artist are never reset |
| Tag.HelloTitle | newMusicPlayer/filemanagebackend.cpp:144-145 | a tag whose only frame is a Latin-1 `TIT2` "Hello" sets the title to "Hello", keeps the artist and leaves the cover path empty |
| Frames.FrameEndFitsInt32 | newMusicPlayer/filemanagebackend.cpp:136 | `pos + 10 + frameSize` stays below 2^31 − 1, so the `int` arithmetic of the loop cannot overflow |

## Left out

- `fileSearch` and `parseMp3` (directory listing, URL conversion and the
  signals they emit) are not part of the model. They are file-system and
  signal glue around the reader.
- `QImage::loadFromData`, `QImage::save` and `QDir::tempPath` are parameters
  of `Walker.Host`. They are foreign image codecs and file-system calls.
  Saving always writes the one fixed file, whatever the codec.
- `QString::fromUtf8` and `QString::fromUtf16` are parameters of
  `TextDecoder.Codecs`. The model fixes which bytes reach them and how they
  are paired into code units, not how they decode. They are unconstrained,
  even on empty input, except where a lemma asks for
  `TextDecoder.ValidCodecs` (no bytes give no characters).
- Qt 6 is assumed. `mid` follows the Qt 6 out-of-range rules. Also,
  `fromLatin1(QByteArray)` keeps embedded NUL bytes, so a NUL-terminated
  Latin-1 `TIT2` keeps the NUL in the title. Qt 5 stopped at the first NUL,
  and that is not modelled.
- UTF-16 byte order is not fixed. The code reinterprets the bytes as
  host-order `ushort`s, so `TextDecoder.Unit` keeps the two bytes in memory
  order.
- Opening and reading the file are modelled by `Tag.FileContents` (the file
  is unreadable, or these are its bytes). `read(n)` returns the next `n`
  bytes, or fewer at the end of the file. Short reads of other devices are
  not modelled.
- `qWarning` and `qDebug` output is not modelled, since it has no effect on
  the fields.
- Frame identifiers are compared as bytes. The code converts them to a
  `QString` first, and that equals an ASCII literal exactly when the bytes
  equal it.
- Walker.Walk: its contract states termination, the cover-path invariant
  and which hazard can occur. What it computes is stated by
  `Walker.WalkIsFold`.
- The extractMetadata.js build artifact, `main.cpp` and
  `filemanagebackend.h` are not part of this model. They hold no reading
  logic.
