# FacebowFileReader in Dafny

This project models the MFBA file reader of `mimetrik::FacebowFileReader`. An
MFBA file holds a video as a sequence of frames. Each frame has a block of
JSON metadata and a block of raw BGR pixels, and both blocks are obfuscated
by XOR with `0xFF`. The file layout is:

- an 8-byte header: the signature `FFF`, the version bytes `1 0 0`, and a
  big-endian 16-bit frame count;
- then one record per frame: three big-endian 32-bit fields (offset to the
  metadata block, length of the metadata block, length of the pixel block),
  followed by the blocks themselves.

The model covers:

- `read_bytes_from_file`: the bounds-checked read of one byte range
  (`MfbaSource.ReadBytes`);
- `validate_mfba_header`, `MFBAVersion`'s `==` and `!=`, and
  `read_image_count` (`MfbaHeader`);
- the byte-order handling of every multi-byte field (`ByteOrder`);
- the constructor's walk over the frame table, including the 32-bit sum of
  the three fields that moves the cursor to the next frame (`FrameTable`,
  `Reader.FacebowFileReader.Open`);
- `XOR` (`Obfuscation`);
- `get_metadata`: the read, de-obfuscation, byte-to-char conversion and the
  fold into a map of maps with `std::map::emplace` (`Metadata`, `Reader`);
- `get_image`: the choice of matrix shape from the EXIF orientation, and the
  row-by-row fill of a 3-channel matrix from the pixel block (`ImageLayout`,
  `Reader`);
- the older reader at the repository root, whose `get_metadata` returns 0
  and whose `get_image` always lays the block out as a portrait image
  (`LegacyReader`);
- the fixture files of the test suite and what the model says the reader
  does with each of them (`ReaderFixtures`).

Each operation with a loop is a method proved against a function that
specifies it. Examples are `Obfuscation.Xor` against `XorMask`,
`Metadata.BuildMetadataMap` against `ToMetadataMap`, `ImageLayout.FillImage`
against `Layout`, and the constructor `Open` against `OpenSpec`. The
properties are lemmas about those functions.

The reader is a class, `Reader.FacebowFileReader`. Its constant members are
the file, the version and the frame count. `frameLocationInfo` is a `seq`
field that the constructor's loop extends one record at a time. Its
predicate `Valid()` states that the members hold what `OpenSpec` computes
from the file.

In the source, the constructor is a C++ constructor that throws. Here it is
a static method `Open` that returns either a fresh reader or the error. `Open`
runs the checks first and only then allocates the reader. The unnamed Dafny
constructor stores the file, the version and the frame count that the
checks produced, and starts with an empty frame table. In the source the path
is set by the member initialiser, while the version and the count are
assigned in the constructor body after the checks. Every thrown
`std::runtime_error` is a constructor of `MfbaSource.Error`, and
`MfbaSource.Message` gives the text of each one whose text the reader fixes
itself.

The root-level `FacebowFileReader.hpp` has the same constructor,
`get_image_count`, `validate_mfba_header`, `read_image_count` and `XOR` as
`include/mimetrik/FacebowFileReader.hpp`. Those are modelled once.
`LegacyReader` models only its `get_metadata` and `get_image`, as functions
of an opened `Reader.FacebowFileReader`.

Three behaviours of the code are worth stating outright:

- Duplicate keys: `std::map::emplace` never overwrites, so the first element
  for a `metadataSource` keeps its whole contents map, and within it the
  first value for a key is kept (include/mimetrik/FacebowFileReader.hpp:199,
  201; `Metadata.MetadataFirstOccurrenceWins`).
- Metadata block length: the metadata block is read from
  `frame_index + offset_to_header` for `offset_to_image` bytes, so its length
  is the second field of the frame (include/mimetrik/FacebowFileReader.hpp:178;
  `Reader.MetadataText`).
- Cursor advance: the three fields are `std::uint32_t`, so their sum wraps
  modulo 2^32 before it is added to the cursor
  (include/mimetrik/FacebowFileReader.hpp:156; `FrameTable.Stride`,
  `FrameTable.StrideWrapRereadsFrame`).

## Model

| member | source | states |
|---|---|---|
| ByteOrder.BigEndian | include/mimetrik/FacebowFileReader.hpp:137-140 | the value of n bytes read most-significant first is below 256^n |
| ByteOrder.DecodeEncode | include/mimetrik/FacebowFileReader.hpp:137-140 | encoding a value below 256^n as n big-endian bytes and decoding them gives the value back |
| ByteOrder.EncodeDecode | include/mimetrik/FacebowFileReader.hpp:137-140 | decoding n bytes and encoding the value in n bytes gives the bytes back, so the decoding is one-to-one |
| ByteOrder.BigEndianTwoBytes | include/mimetrik/FacebowFileReader.hpp:290-298 | the two frame-count bytes b0 b1 have the value b0 * 256 + b1 |
| ByteOrder.BigEndianFourBytes | include/mimetrik/FacebowFileReader.hpp:137-152 | the four bytes of a frame field have the value b0 * 2^24 + b1 * 2^16 + b2 * 2^8 + b3 |
| ByteOrder.Reverse | include/mimetrik/FacebowFileReader.hpp:138-139 | std::reverse keeps the length and puts input byte n-1-i at position i |
| ByteOrder.LittleEndianOfReverse | include/mimetrik/FacebowFileReader.hpp:138-140 | a native load on a little-endian host of the reversed bytes is the big-endian value of the bytes |
| ByteOrder.IsLittleEndianAsWritten | include/mimetrik/FacebowFileReader.hpp:43-48 | is_little_endian as written: a non-null pointer converted to bool, true on every host (no contract; used by DecodeAsWritten) |
| ByteOrder.HostLoad | include/mimetrik/FacebowFileReader.hpp:140 | the native load of a byte buffer as an unsigned integer on a host of the given byte order (no contract; related to BigEndian by LittleEndianOfReverse) |
| ByteOrder.DecodeAsWritten | include/mimetrik/FacebowFileReader.hpp:138-140 | the field decode as written: reverse when is_little_endian says so, then load natively (no contract; its behaviour on each host is the two lemmas below) |
| ByteOrder.DecodeAsWrittenLittleEndianHost | include/mimetrik/FacebowFileReader.hpp:43-48 | on a little-endian host the as-written reverse-then-load decode gives the big-endian value |
| ByteOrder.DecodeAsWrittenBigEndianHost | include/mimetrik/FacebowFileReader.hpp:43-48 | on a big-endian host the as-written decode turns the count bytes 00 10 (16) into 4096 |
| ByteOrder.HostDecode | include/mimetrik/FacebowFileReader.hpp:138-140 | swapping the bytes only on a little-endian host gives the big-endian value on both kinds of host |
| Obfuscation.XorByte | include/mimetrik/FacebowFileReader.hpp:303 | a byte and its de-obfuscated value add up to 0xFF |
| Obfuscation.ByteXorIsBitwise | include/mimetrik/FacebowFileReader.hpp:303 | for an 8-bit value, x ^ 0xFF shares no bit with x, the two together cover all eight bits, and the result is XorByte(x) |
| Obfuscation.XorMask | include/mimetrik/FacebowFileReader.hpp:300-305 | the output is as long as the input |
| Obfuscation.XorMaskAt | include/mimetrik/FacebowFileReader.hpp:300-305 | output byte i is input byte i with every bit flipped |
| Obfuscation.XorMaskInvolution | include/mimetrik/FacebowFileReader.hpp:300-305 | applying the transform twice gives back the input |
| Obfuscation.Xor | include/mimetrik/FacebowFileReader.hpp:300-305 | the loop over a fresh buffer of the input's size computes XorMask of the input |
| MfbaSource.Decimal | include/mimetrik/FacebowFileReader.hpp:176 | std::to_string of a count is a non-empty string of decimal digits |
| MfbaSource.DecimalRoundTrip | include/mimetrik/FacebowFileReader.hpp:176 | reading that digit string back gives the count |
| MfbaSource.FrameOutOfRangeMessageNamesCount | include/mimetrik/FacebowFileReader.hpp:175-176 | the out-of-range message has the fixed prefix and suffix, and the frame count can be read back from the text between them |
| MfbaSource.Message | include/mimetrik/FacebowFileReader.hpp:71-260 | the what() text of each error the reader raises itself (lines 71-75, 118, 123, 126, 176, 260); none for strerror and library errors (no contract; its values are pinned by FrameOutOfRangeMessageNamesCount and the fixture lemmas) |
| MfbaSource.ReadBytes | include/mimetrik/FacebowFileReader.hpp:58-84 | the read succeeds exactly when the file exists, is non-empty, start <= size and start + n <= size, and then returns bytes start..start+n-1 of the file; otherwise it fails with the first of the three checks that fails, in the source's order; a read ending exactly at the end of the file succeeds |
| MfbaHeader.VersionEq | include/mimetrik/FacebowFileReader.hpp:27-29 | operator== holds exactly when the two versions are equal |
| MfbaHeader.VersionNe | include/mimetrik/FacebowFileReader.hpp:31-33 | operator!= holds exactly when the two versions differ |
| MfbaHeader.ValidateHeader | include/mimetrik/FacebowFileReader.hpp:92-106 | the result is (false, none) exactly when the first three bytes exist and are not FFF; it is (true, version) exactly when they are FFF and bytes 3..5 exist, and the version is those three bytes; the flag is true exactly when a version is present; a failure is a read error |
| MfbaHeader.ReadImageCount | include/mimetrik/FacebowFileReader.hpp:290-298 | the count is read exactly when the file holds bytes 6 and 7; it is byte 6 * 256 + byte 7, below 2^16 |
| FrameTable.Stride | include/mimetrik/FacebowFileReader.hpp:156 | the cursor advance after a frame: the three fields summed in uint32 (no contract; see StrideBounds and StrideWrapRereadsFrame) |
| FrameTable.StrideBounds | include/mimetrik/FacebowFileReader.hpp:156 | the stride is the plain sum of the fields whenever that sum fits in 32 bits, and never more than the sum |
| FrameTable.WalkFrames | include/mimetrik/FacebowFileReader.hpp:133-157 | the constructor's loop as a function: count records read in file order from the cursor, or the error of the first failing field read (no contract; properties in the WalkFrames lemmas below, and Open is proved against it) |
| FrameTable.U32AtIsBigEndian | include/mimetrik/FacebowFileReader.hpp:137-152 | each frame field is the big-endian value of its four bytes |
| FrameTable.ReadU32 | include/mimetrik/FacebowFileReader.hpp:137-140 | one field read succeeds exactly when its four bytes are in the file, gives their big-endian value, and otherwise fails with the read's error |
| FrameTable.FieldReads | include/mimetrik/FacebowFileReader.hpp:137-152 | the three field reads of a frame all succeed exactly when its 12 bytes are in the file; the first that fails reports the error a 12-byte read would report, which is a range error |
| FrameTable.WalkFramesLength | include/mimetrik/FacebowFileReader.hpp:134-157 | a completed walk has exactly one record per declared frame |
| FrameTable.WalkFramesRecords | include/mimetrik/FacebowFileReader.hpp:137-154 | every record of a completed walk holds the three fields stored at its own frame start |
| FrameTable.WalkFramesAdjacent | include/mimetrik/FacebowFileReader.hpp:133-156 | the first record starts at the initial cursor, and each next record starts one stride after the previous one |
| FrameTable.WalkFramesShape | include/mimetrik/FacebowFileReader.hpp:133-157 | the three facts above together: count records, the first at the cursor, adjacent by strides, each holding its stored fields |
| FrameTable.StrideWrapRereadsFrame | include/mimetrik/FacebowFileReader.hpp:156 | the stride is summed in uint32, so a frame whose fields add up to exactly 2^32 is read again as the next record |
| FrameTable.WalkFramesAccumulate | include/mimetrik/FacebowFileReader.hpp:133-157 | record i starts at the initial cursor plus the sum of the strides of records 0..i-1 |
| FrameTable.WalkFramesPrefix | include/mimetrik/FacebowFileReader.hpp:134-157 | the first k records of a completed walk are the walk of k frames |
| FrameTable.WalkFramesFailsAtTruncatedFrame | include/mimetrik/FacebowFileReader.hpp:134-157 | a failed walk over an existing file failed with a range error, at some frame k below the count whose 12 field bytes run past the end of the file, after the first k frames were read |
| Metadata.Emplace | include/mimetrik/FacebowFileReader.hpp:199 | std::map::emplace: the keys become the old keys plus k, every existing key keeps its value, and k gets v only when it was absent |
| Metadata.EmplaceAllKeys | include/mimetrik/FacebowFileReader.hpp:199 | the keys of the map built by repeated emplace are exactly the keys inserted |
| Metadata.EmplaceAllFirstWins | include/mimetrik/FacebowFileReader.hpp:199-201 | emplace keeps the value of the first occurrence of a key |
| Metadata.MetadataSources | include/mimetrik/FacebowFileReader.hpp:193-202 | the outer keys of get_metadata's result are exactly the metadataSource names of the parsed elements |
| Metadata.ContentsKeys | include/mimetrik/FacebowFileReader.hpp:196-200 | the keys of one source's map are exactly the keys in its contents array |
| Metadata.MetadataFirstOccurrenceWins | include/mimetrik/FacebowFileReader.hpp:193-204 | the first element with a given source maps that source to exactly its own contents map, so a later element with the same source adds nothing; within it, the first entry with a given key maps that key to its value |
| Metadata.DuplicateSourceKeepsFirstContents | include/mimetrik/FacebowFileReader.hpp:201 | two elements with the same metadataSource S: the result maps S to the first one's contents only, so the second one's key is absent |
| Metadata.TextRoundTrip | include/mimetrik/FacebowFileReader.hpp:181-185 | the byte-to-char conversion loses nothing: every char code is below 256 and the bytes can be read back |
| Metadata.BytesToText | include/mimetrik/FacebowFileReader.hpp:181-185 | the appending loop gives one char per byte, whose code is the byte's value |
| Metadata.BuildContentsMap | include/mimetrik/FacebowFileReader.hpp:196-200 | the inner emplace loop builds the contents map of the specification (keys and first values as above) |
| Metadata.BuildMetadataMap | include/mimetrik/FacebowFileReader.hpp:193-204 | the outer loop builds the map of maps of the specification (sources and first occurrences as above) |
| ImageLayout.OrientationDimensions | include/mimetrik/FacebowFileReader.hpp:227-261 | orientation codes 1, 3, 6 and 7 and no others give a shape; that shape has 1080 * 1920 pixels and more rows than columns exactly for 6 and 7; any other code fails with UnsupportedOrientation carrying the code |
| ImageLayout.OrientationsAgreeOnSize | include/mimetrik/FacebowFileReader.hpp:227-258 | every supported orientation consumes 6220800 bytes, and the landscape shape is the portrait shape transposed |
| ImageLayout.Layout | include/mimetrik/FacebowFileReader.hpp:229-240 | the decoded image has the requested number of rows, each with the requested number of pixels |
| ImageLayout.LayoutAt | include/mimetrik/FacebowFileReader.hpp:230-239 | pixel (r, c) holds bytes (r * cols + c) * 3, +1 and +2 of the block as channels 0, 1 and 2 |
| ImageLayout.FlattenRowAt | include/mimetrik/FacebowFileReader.hpp:233-239 | one row consumes the next cols * 3 bytes of the block, in order |
| ImageLayout.FlattenLayout | include/mimetrik/FacebowFileReader.hpp:230-240 | the whole image consumes exactly the first rows * cols * 3 bytes of the block, each once and in order |
| ImageLayout.FillRow | include/mimetrik/FacebowFileReader.hpp:233-239 | the inner loop fills one matrix row from consecutive byte triples and leaves the other rows unchanged |
| ImageLayout.FillImage | include/mimetrik/FacebowFileReader.hpp:229-240 | the nested loops yield a fresh rows x cols matrix whose rows are the layout of the block |
| Reader.OpenSpec | include/mimetrik/FacebowFileReader.hpp:115-158 | an opened file exists, has the FFF signature and version 1.0.0, and has at least 8 bytes; its frame count is byte 6 * 256 + byte 7, and its table holds that many records |
| Reader.OpenErrorOrder | include/mimetrik/FacebowFileReader.hpp:117-130 | the checks run in the source's order: missing file, the reads of the signature, a wrong signature, the read of the version, a wrong version, the read of the count; once these pass, the frame walk decides success and the error |
| Reader.OpenedTable | include/mimetrik/FacebowFileReader.hpp:133-157 | an opened file's table has one record per declared frame; the first is at byte 8, each holds its stored fields, each next one starts a stride after the previous, and record i starts at 8 plus the strides before it |
| Reader.ReadBlock | include/mimetrik/FacebowFileReader.hpp:216-217 | reading and de-obfuscating a block succeeds exactly when the read does, fails with the read's error, and gives byte j as 0xFF minus stored byte start + j |
| Reader.MaskedBlock | include/mimetrik/FacebowFileReader.hpp:300-305 | every de-obfuscated byte is 0xFF minus the stored byte |
| Reader.MetadataText | include/mimetrik/FacebowFileReader.hpp:178-185 | the metadata text is read exactly when the block [frame start + offset to header, + offset to image) is in the file; it has that many chars, each with code 0xFF minus the stored byte |
| Reader.ReadAndUnmask | include/mimetrik/FacebowFileReader.hpp:216-217 | the read followed by XOR computes ReadBlock |
| Reader.ReadMetadataText | include/mimetrik/FacebowFileReader.hpp:178-185 | the read, XOR and char loop compute MetadataText |
| Reader.MetadataIndexCheckedFirst | include/mimetrik/FacebowFileReader.hpp:175-176 | an index not below the frame count fails with the count before any read, even for a file that has gone missing |
| Reader.MetadataFromBlock | include/mimetrik/FacebowFileReader.hpp:174-205 | a successful get_metadata had an index in range, read its frame's de-obfuscated metadata text, parsed it, and returns the emplace fold of the parsed elements |
| Reader.MetadataOf | include/mimetrik/FacebowFileReader.hpp:174-205 | get_metadata as a function: range check, read, de-obfuscate, parse, fold (no contract; see MetadataIndexCheckedFirst and MetadataFromBlock, and GetMetadata is proved against it) |
| Reader.Orientation | include/mimetrik/FacebowFileReader.hpp:220 | the orientation is found exactly when the map has an Orientation entry inside an Orientation source and std::stoi accepts its text; a missing entry is MissingOrientation; the value is what std::stoi gives |
| Reader.ImageOf | include/mimetrik/FacebowFileReader.hpp:212-264 | get_image as a function: range check, pixel read, metadata, orientation, shape, layout (no contract; see the Image lemmas below, and GetImage is proved against it) |
| Reader.ImageIndexCheckedFirst | include/mimetrik/FacebowFileReader.hpp:213-214 | an index not below the frame count makes get_image fail with the count before any read, even for a file that has gone missing |
| Reader.ImageSteps | include/mimetrik/FacebowFileReader.hpp:212-264 | a decoded image came through every step: the pixel block was read, the metadata was parsed, the orientation was supported, the block was long enough, and the image is the layout of the block in the orientation's shape |
| Reader.ImageShape | include/mimetrik/FacebowFileReader.hpp:227-258 | a decoded image has 1920 rows of 1080 pixels for orientation 6 or 7, and 1080 rows of 1920 for 1 or 3 |
| Reader.BlockPixel | include/mimetrik/FacebowFileReader.hpp:216-239 | pixel (r, c) holds the stored bytes (r * cols + c) * 3, +1 and +2 after the block start, each XOR'ed with 0xFF |
| Reader.ImageConsumesBlockInOrder | include/mimetrik/FacebowFileReader.hpp:230-258 | whatever the orientation, the image consumes the first 6220800 de-obfuscated bytes of the pixel block, in order |
| Reader.ImageReadsPixelsFirst | include/mimetrik/FacebowFileReader.hpp:216-220 | the pixel block is read before the metadata, so a pixel block past the end of the file gives that read's error whatever the metadata holds |
| Reader.FacebowFileReader.constructor | include/mimetrik/FacebowFileReader.hpp:276-282 | the member initialisers: the file, the version and the count, with an empty table |
| Reader.FacebowFileReader.Open | include/mimetrik/FacebowFileReader.hpp:115-158 | the constructor succeeds exactly when OpenSpec does, and then returns a fresh reader whose members hold OpenSpec's result; otherwise it fails with OpenSpec's error |
| Reader.FacebowFileReader.AppendFrame | include/mimetrik/FacebowFileReader.hpp:154-156 | emplace_back appends exactly the record just read; the next cursor is its start plus its uint32 stride; the table followed by the rest of the walk stays the whole walk |
| Reader.FacebowFileReader.GetImageCount | include/mimetrik/FacebowFileReader.hpp:164-166 | get_image_count is the number of records in the table and the count stored in bytes 6..7 |
| Reader.FacebowFileReader.GetMetadata | include/mimetrik/FacebowFileReader.hpp:174-205 | get_metadata computes MetadataOf for the reader's state |
| Reader.FacebowFileReader.GetImage | include/mimetrik/FacebowFileReader.hpp:212-264 | get_image succeeds exactly when ImageOf does, and then returns a fresh matrix whose rows are ImageOf's image; otherwise it fails with ImageOf's error |
| Reader.ReadFrame | include/mimetrik/FacebowFileReader.hpp:137-152 | the three field reads of one loop iteration give the record stored at the cursor exactly when its 12 bytes are in the file, and otherwise the error of a 12-byte read |
| Reader.OpenSpecAfterCount | include/mimetrik/FacebowFileReader.hpp:121-157 | once the header is valid and the count is read, the constructor's outcome is the frame walk's |
| Reader.WalkStep | include/mimetrik/FacebowFileReader.hpp:135-156 | one loop iteration either reads the record at the cursor and continues one stride further, or ends the walk with its failed read's error |
| Reader.WalkAdvance | include/mimetrik/FacebowFileReader.hpp:154-156 | appending the record at the cursor keeps the table, followed by the rest of the walk, equal to the whole walk |
| LegacyReader.LegacyMetadataOf | FacebowFileReader.hpp:162-195 | the legacy get_metadata returns 0 exactly when the index is in range, the metadata block is in the file and the third element's contents parse; an index out of range fails with the frame count |
| LegacyReader.LegacyImageOf | FacebowFileReader.hpp:202-223 | the legacy get_image as a function: range check, pixel read, fixed 1920 x 1080 layout (no contract; see the Legacy lemmas below, and LegacyGetImage is proved against it) |
| LegacyReader.LegacyImageIndexCheckedFirst | FacebowFileReader.hpp:203-204 | an index not below the frame count makes the legacy get_image fail with the count before any read, even for a file that has gone missing |
| LegacyReader.LegacyImageIgnoresMetadata | FacebowFileReader.hpp:202-223 | whatever the metadata holds, the legacy get_image succeeds exactly when the index is in range and a pixel block of at least 6220800 bytes is in the file; the image is then the 1920 x 1080 layout of the de-obfuscated block, so pixel (r, c) holds its bytes (r * 1080 + c) * 3, +1 and +2 |
| LegacyReader.LegacyAgreesOnPortrait | FacebowFileReader.hpp:202-223 | where the current reader decodes a frame of orientation 6 or 7, the legacy reader decodes the same image |
| LegacyReader.LegacyConsumesSameBytes | FacebowFileReader.hpp:202-223 | where the current reader decodes a frame, the legacy reader decodes one too, from the same bytes in the same order |
| LegacyReader.LegacyGetMetadata | FacebowFileReader.hpp:162-195 | the legacy get_metadata method computes LegacyMetadataOf |
| LegacyReader.LegacyGetImage | FacebowFileReader.hpp:202-223 | the legacy get_image method succeeds exactly when LegacyImageOf does, and then returns a fresh matrix holding its image; otherwise it fails with its error |
| ReaderFixtures.EmptyFileFails | test/FacebowFileReaderTest.cpp:6-21 | an existing empty file fails to open with "test_video_empty.mfba: size == 0" |
| ReaderFixtures.MissingFileFails | test/FacebowFileReaderTest.cpp:23-38 | a missing file fails to open with "test_video_non_existant.mfba: file does not exist" |
| ReaderFixtures.InvalidSignatureFails | test/FacebowFileReaderTest.cpp:40-58 | eight 0x4D bytes give (false, none) and fail with "...: invalid MFBA header" |
| ReaderFixtures.InvalidVersionHeader | test/FacebowFileReaderTest.cpp:60-82 | the header of the version 2.0.0 file passes the signature check with version 2.0.0 |
| ReaderFixtures.InvalidVersionFails | test/FacebowFileReaderTest.cpp:60-82 | the version 2.0.0 file fails to open with UnsupportedVersion |
| ReaderFixtures.InvalidVersionMessage | test/FacebowFileReaderTest.cpp:81 | that failure's text is "test_video_invalid_version.mfba: MFBA version is not 1.0.0" |
| ReaderFixtures.ValidFileWithoutFrames | test/FacebowFileReaderTest.cpp:84-180 | the valid 8-byte header opens with version 1.0.0 and no frames; it reads back as its eight bytes; index 0 fails for both queries with "... includes 0 frames" |
| ReaderFixtures.ReducedVideoHeader | test/FacebowFileReaderTest.cpp:187-191 | the reduced video's header is valid, with version 1.0.0 and 16 frames |
| ReaderFixtures.ReducedVideoFrame0 | test/FacebowFileReaderTest.cpp:193-199 | frame 0 has fields 0x0C, 0x6CA8 and 0x5EEC00; its metadata starts at byte 20, and its pixel block is exactly one 1080 x 1920 image |
| ReaderFixtures.ReducedVideoTable | test/FacebowFileReaderTest.cpp:248-268 | once opened, the reduced video has 16 frames, the first at byte 8 with those fields |
| ReaderFixtures.SixteenFramesMessage | test/FacebowFileReaderTest.cpp:250-254 | index 16 of the 16-frame file is refused with "Image frame out of range, file includes 16 frames" |
| ReaderFixtures.BlocksAreNotCheckedAtOpen | include/mimetrik/FacebowFileReader.hpp:133-157 | the constructor reads only the three fields of each frame: a 20-byte file declaring a 1-byte pixel block opens, and get_image then fails with the end-past-end read error |

## Left out

- File I/O: a file is a value (`MfbaFile`), with a path, whether it exists, and its bytes. Every read sees the same bytes. The reader never writes.
- `std::strerror` texts: an unopenable file is `CannotOpen`, and `Message` gives no text for it. A stream read that fails after the size checks cannot happen in the model.
- The JSON library: `nlohmann::json::parse` and the element accesses after it are a parameter, `Reader.Parser`. A parse or access that throws is `None`. The legacy file's access to element 2 is the parameter `LegacyReader.CaptureResultParser`.
- Reader.Orientation: `std::stoi` is a parameter, `toInt`. Its handling of whitespace, signs and trailing text is not modelled, and any exception it throws is `OrientationNotInteger`.
- `std::map::at` throwing `std::out_of_range` is `MissingOrientation`.
- OpenCV: a `cv::Mat` of `CV_8UC3` is an `array2<Pixel>`. Its reference-counted sharing and allocation failures are not modelled.
- `std::size_t` overflow: `frame_index` and `start_byte + num_bytes` are unbounded naturals. A 64-bit wrap would need a file larger than 2^64 bytes.
- Reader.ImageOf: a pixel block shorter than rows * cols * 3 bytes makes the source read past its vector, which is undefined behaviour. The model fails with `ShortPixelBlock`.
- LegacyReader.LegacyImageOf: the same `ShortPixelBlock` replacement for the undefined read.
- `is_little_endian`: the host's byte order is a parameter of `ByteOrder.HostLoad`. Frame fields and the count are read as their big-endian value, which the source gives on a little-endian host and `ByteOrder.HostDecode` gives on every host.
- The second copy of `validate_mfba_header`, `read_image_count`, `XOR`, the constructor and `get_image_count` in the root-level `FacebowFileReader.hpp` is identical, and is modelled once.
- The Python bindings (`python-bindings.cpp`), the command-line program (`main.cpp`), the JSON test scripts, and the timing test `FrameLatencyIsAdequate` are not part of this model.
- The test `FrameMetaLoadedCorrectly` compares `get_metadata(0)` with the contents of `frame0Meta.json`. The test `FrameLoadedCorrectly` compares pixels with the contents of `frame0`. Those files are not part of this model. The fixtures state only the header and field bytes that the test comments give.

## Findings

| source | as written | input that shows it | evidently intended | confidence | as-written member | corrected member |
|---|---|---|---|---|---|---|
| include/mimetrik/FacebowFileReader.hpp:43-48 | `is_little_endian` converts a pointer that is never null to `bool`, so it returns true on every host; the count and field bytes are then always reversed before a native load | the frame count bytes 00 10 (16 frames) on a big-endian host decode to 4096 | reverse only on a little-endian host, so every field reads as its big-endian value on either host | high; not executed | ByteOrder.DecodeAsWrittenBigEndianHost | ByteOrder.HostDecode |
