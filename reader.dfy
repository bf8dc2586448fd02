/** The FacebowFileReader class: the constructor (existence, header and
    version checks, frame count, frame table walk) and the per-frame
    queries get_image_count, get_metadata and get_image. */
module Reader {
  import opened Wrappers
  import opened ByteOrder
  import opened MfbaSource
  import opened MfbaHeader
  import opened FrameTable
  import opened Obfuscation
  import opened Metadata
  import opened ImageLayout

  /** What a successful constructor leaves in the reader's members. */
  datatype ReaderState = ReaderState(version: Version, numFrames: nat, frames: seq<FrameLocationInfo>)

  /** The constructor as a function of the file: the first check that fails
      decides the error; otherwise the version, the declared frame count and
      the frame table. */
  function OpenSpec(f: MfbaFile): (r: Result<ReaderState, Error>)
    ensures r.Success? ==> f.present && 8 <= |f.content| && f.content[..3] == Signature
    ensures r.Success? ==> r.value.version == SupportedVersion && f.content[3..6] == [1, 0, 0]
    ensures r.Success? ==> r.value.numFrames == f.content[6] as int * 256 + f.content[7]
    ensures r.Success? ==> |r.value.frames| == r.value.numFrames
  {
    if !f.present then Failure(FileDoesNotExist)
    else
      var check :- ValidateHeader(f);
      if !check.valid then Failure(InvalidHeader)
      else if VersionNe(check.version.value, SupportedVersion) then Failure(UnsupportedVersion)
      else
        var count :- ReadImageCount(f);
        var frames :- WalkFrames(f, InitialFrameIndex, count);
        WalkFramesLength(f, InitialFrameIndex, count);
        Success(ReaderState(check.version.value, count, frames))
  }

  /** The checks run in order, each only once the previous ones have passed,
      and a walk over a well-formed header decides the outcome. */
  lemma OpenErrorOrder(f: MfbaFile)
    ensures !f.present ==> OpenSpec(f) == Failure(FileDoesNotExist)
    ensures f.present && |f.content| == 0 ==> OpenSpec(f) == Failure(SizeZero)
    ensures f.present && 0 < |f.content| < 3 ==> OpenSpec(f) == Failure(EndPastEnd)
    ensures f.present && 3 <= |f.content| && f.content[..3] != Signature ==>
      OpenSpec(f) == Failure(InvalidHeader)
    ensures f.present && 3 <= |f.content| < 6 && f.content[..3] == Signature ==>
      OpenSpec(f) == Failure(EndPastEnd)
    ensures f.present && 6 <= |f.content| && f.content[..3] == Signature && f.content[3..6] != [1, 0, 0] ==>
      OpenSpec(f) == Failure(UnsupportedVersion)
    ensures f.present && 6 <= |f.content| < 8 && f.content[..6] == Signature + [1, 0, 0] ==>
      OpenSpec(f) == Failure(EndPastEnd)
    ensures f.present && 8 <= |f.content| && f.content[..6] == Signature + [1, 0, 0] ==>
      var count := f.content[6] as int * 256 + f.content[7];
      && (OpenSpec(f).Success? <==> WalkFrames(f, InitialFrameIndex, count).Success?)
      && (OpenSpec(f).Failure? ==> OpenSpec(f).error == WalkFrames(f, InitialFrameIndex, count).error)
  {
    if f.present && 6 <= |f.content| {
      assert f.content[..6][..3] == f.content[..3];
      assert f.content[..6][3..] == f.content[3..6];
    }
  }

  /** The table of an opened file: one record per declared frame, the first
      at byte 8, each holding the fields stored at its own start, and each
      next one where the previous one's stride ends, so that record i starts
      at 8 plus the strides of the records before it. */
  lemma OpenedTable(f: MfbaFile)
    requires OpenSpec(f).Success?
    ensures var s := OpenSpec(f).value;
      && |s.frames| == s.numFrames
      && (s.numFrames > 0 ==> s.frames[0].frameIndex == InitialFrameIndex)
      && (forall i :: 0 <= i < |s.frames| ==> RecordAt(f, s.frames[i]))
      && (forall i :: 0 <= i < |s.frames| - 1 ==>
            s.frames[i + 1].frameIndex == s.frames[i].frameIndex + Stride(s.frames[i]))
      && (forall i :: 0 <= i < |s.frames| ==>
            s.frames[i].frameIndex == InitialFrameIndex + SumStrides(s.frames[..i]))
  {
    var s := OpenSpec(f).value;
    WalkFramesShape(f, InitialFrameIndex, s.numFrames);
    forall i | 0 <= i < |s.frames|
      ensures s.frames[i].frameIndex == InitialFrameIndex + SumStrides(s.frames[..i])
    {
      WalkFramesAccumulate(f, InitialFrameIndex, s.numFrames, i);
    }
  }

  /** Where the metadata block of a frame starts. */
  function MetadataStart(rec: FrameLocationInfo): nat
  {
    rec.frameIndex + rec.offsetToHeader
  }

  /** Where the pixel block of a frame starts. */
  function PixelStart(rec: FrameLocationInfo): nat
  {
    rec.frameIndex + rec.offsetToHeader + rec.offsetToImage
  }

  /** Read `len` bytes from `start` and undo the XOR(0xFF) obfuscation. */
  function ReadBlock(f: MfbaFile, start: nat, len: nat): (r: Result<seq<Byte>, Error>)
    ensures r.Success? <==> ReadBytes(f, start, len).Success?
    ensures r.Failure? ==> r.error == ReadBytes(f, start, len).error
    ensures r.Success? ==> |r.value| == len && start + len <= |f.content|
    ensures r.Success? ==> forall j :: 0 <= j < len ==> r.value[j] == 0xFF - f.content[start + j]
  {
    var block :- ReadBytes(f, start, len);
    MaskedBlock(block);
    Success(XorMask(block))
  }

  /** Every byte of a de-obfuscated block is 0xFF minus the stored byte. */
  lemma MaskedBlock(block: seq<Byte>)
    ensures forall j :: 0 <= j < |block| ==> XorMask(block)[j] == 0xFF - block[j]
  {
    forall j | 0 <= j < |block|
      ensures XorMask(block)[j] == 0xFF - block[j]
    {
      XorMaskAt(block, j);
    }
  }

  /** The metadata text of a frame: its metadata block de-obfuscated, one char
      per byte. */
  function MetadataText(f: MfbaFile, rec: FrameLocationInfo): (r: Result<string, Error>)
    ensures r.Success? <==> ReadBytes(f, MetadataStart(rec), rec.offsetToImage).Success?
    ensures r.Success? ==> |r.value| == rec.offsetToImage
    ensures r.Success? ==> forall j :: 0 <= j < |r.value| ==> r.value[j] as int == 0xFF - f.content[MetadataStart(rec) + j]
  {
    var block :- ReadBlock(f, MetadataStart(rec), rec.offsetToImage);
    Success(Text(block))
  }

  /** read_bytes_from_file followed by XOR. */
  method ReadAndUnmask(f: MfbaFile, start: nat, len: nat) returns (r: Result<seq<Byte>, Error>)
    ensures r == ReadBlock(f, start, len)
  {
    var block :- ReadBytes(f, start, len);
    var plain := Xor(block);
    return Success(plain);
  }

  /** The first half of get_metadata: read the frame's metadata block, undo
      the obfuscation and turn the bytes into a std::string. */
  method ReadMetadataText(f: MfbaFile, rec: FrameLocationInfo) returns (r: Result<string, Error>)
    ensures r == MetadataText(f, rec)
  {
    var plain :- ReadAndUnmask(f, rec.frameIndex + rec.offsetToHeader, rec.offsetToImage);
    var text := BytesToText(plain);
    return Success(text);
  }

  /** The JSON library's verdict on a metadata text: None when it throws. */
  type Parser = string -> Option<seq<MetadataEntry>>

  /** get_metadata(index): range check, then read, de-obfuscate, parse and
      fold the entries into a map of maps. */
  function MetadataOf(f: MfbaFile, s: ReaderState, index: nat, parse: Parser): (r: Result<MetadataMap, Error>)
    requires |s.frames| == s.numFrames
  {
    if index >= s.numFrames then Failure(FrameOutOfRange(s.numFrames))
    else
      var text :- MetadataText(f, s.frames[index]);
      match parse(text)
      case None => Failure(MetadataParse)
      case Some(entries) => Success(ToMetadataMap(entries))
  }

  /** An index past the table fails with the frame count, whatever the file
      holds: the check comes before any read. */
  lemma MetadataIndexCheckedFirst(f: MfbaFile, s: ReaderState, index: nat, parse: Parser)
    requires |s.frames| == s.numFrames && index >= s.numFrames
    ensures MetadataOf(f, s, index, parse) == Failure(FrameOutOfRange(s.numFrames))
    ensures MetadataOf(f.(present := false), s, index, parse) == Failure(FrameOutOfRange(s.numFrames))
  {
  }

  /** A successful get_metadata parsed the de-obfuscated metadata block of its
      frame, and every source and key of the result keeps its first value. */
  lemma MetadataFromBlock(f: MfbaFile, s: ReaderState, index: nat, parse: Parser)
    requires |s.frames| == s.numFrames
    requires MetadataOf(f, s, index, parse).Success?
    ensures index < s.numFrames
    ensures var rec := s.frames[index];
      var text := MetadataText(f, rec);
      && text.Success? && parse(text.value).Some?
      && MetadataOf(f, s, index, parse).value == ToMetadataMap(parse(text.value).value)
      && (forall j :: 0 <= j < |text.value| ==> text.value[j] as int == 0xFF - f.content[MetadataStart(rec) + j])
  {
  }

  /** metadata.at("Orientation").at("Orientation") through std::stoi. */
  function Orientation(m: MetadataMap, toInt: string -> Option<int>): (r: Result<int, Error>)
    ensures r.Failure? <==>
      "Orientation" !in m || "Orientation" !in m["Orientation"] || toInt(m["Orientation"]["Orientation"]).None?
    ensures r.Failure? && ("Orientation" !in m || "Orientation" !in m["Orientation"]) ==>
      r.error == MissingOrientation
    ensures r.Success? ==> Some(r.value) == toInt(m["Orientation"]["Orientation"])
  {
    if "Orientation" !in m || "Orientation" !in m["Orientation"] then Failure(MissingOrientation)
    else
      match toInt(m["Orientation"]["Orientation"])
      case None => Failure(OrientationNotInteger)
      case Some(code) => Success(code)
  }

  /** get_image(index): range check, read and de-obfuscate the pixel block,
      get the frame's metadata, pick the matrix shape from its orientation,
      and fill the matrix from the block. A block too short to fill it fails. */
  function ImageOf(f: MfbaFile, s: ReaderState, index: nat, parse: Parser, toInt: string -> Option<int>)
    : (r: Result<Image, Error>)
    requires |s.frames| == s.numFrames
  {
    if index >= s.numFrames then Failure(FrameOutOfRange(s.numFrames))
    else
      var rec := s.frames[index];
      var pixels :- ReadBlock(f, PixelStart(rec), rec.imageSize);
      var metadata :- MetadataOf(f, s, index, parse);
      var code :- Orientation(metadata, toInt);
      var d :- OrientationDimensions(code);
      if ByteCount(d) > |pixels| then Failure(ShortPixelBlock)
      else Success(Layout(pixels, d.rows, d.cols))
  }

  /** A decoded image came through every step of get_image: the pixel block
      was read, the metadata parsed, the orientation supported, and the block
      long enough for the matrix its orientation calls for. */
  lemma ImageSteps(f: MfbaFile, s: ReaderState, index: nat, parse: Parser, toInt: string -> Option<int>)
    requires |s.frames| == s.numFrames
    requires ImageOf(f, s, index, parse, toInt).Success?
    ensures index < s.numFrames
    ensures var rec := s.frames[index];
      var pixels := ReadBlock(f, PixelStart(rec), rec.imageSize);
      var metadata := MetadataOf(f, s, index, parse);
      && pixels.Success? && metadata.Success?
      && Orientation(metadata.value, toInt).Success?
      && var d := OrientationDimensions(Orientation(metadata.value, toInt).value);
      && d.Success? && ByteCount(d.value) <= |pixels.value|
      && ImageOf(f, s, index, parse, toInt).value == Layout(pixels.value, d.value.rows, d.value.cols)
  {
  }

  /** A decoded image is portrait (1920 rows of 1080) for orientations 6 and
      7 and landscape (1080 rows of 1920) for 1 and 3. */
  lemma ImageShape(f: MfbaFile, s: ReaderState, index: nat, parse: Parser, toInt: string -> Option<int>)
    requires |s.frames| == s.numFrames
    requires ImageOf(f, s, index, parse, toInt).Success?
    ensures index < s.numFrames && MetadataOf(f, s, index, parse).Success?
    ensures var img := ImageOf(f, s, index, parse, toInt).value;
      var code := Orientation(MetadataOf(f, s, index, parse).value, toInt);
      && code.Success?
      && (code.value == 6 || code.value == 7 ==>
            |img| == ImageHeight && forall i :: 0 <= i < |img| ==> |img[i]| == ImageWidth)
      && (code.value == 1 || code.value == 3 ==>
            |img| == ImageWidth && forall i :: 0 <= i < |img| ==> |img[i]| == ImageHeight)
  {
    ImageSteps(f, s, index, parse, toInt);
  }

  /** Pixel (r, c) of an image laid out from a de-obfuscated block read at
      `start` holds the stored bytes (r * cols + c) * 3, +1 and +2 after that
      start, each exclusive-or'ed with 0xFF. */
  lemma BlockPixel(f: MfbaFile, start: nat, pixels: seq<Byte>, rows: nat, cols: nat, r: nat, c: nat)
    requires ReadBlock(f, start, |pixels|) == Success(pixels)
    requires rows * cols * 3 <= |pixels| && r < rows && c < cols
    ensures start + (r * cols + c) * 3 + 3 <= |f.content|
    ensures var at := start + (r * cols + c) * 3;
      Layout(pixels, rows, cols)[r][c] == Pixel(XorByte(f.content[at]), XorByte(f.content[at + 1]), XorByte(f.content[at + 2]))
  {
    LayoutAt(pixels, rows, cols, r, c);
  }

  /** The decoded image consumes the first 1080 * 1920 * 3 de-obfuscated bytes
      of the pixel block, in order. */
  lemma ImageConsumesBlockInOrder(f: MfbaFile, s: ReaderState, index: nat, parse: Parser,
                                  toInt: string -> Option<int>)
    requires |s.frames| == s.numFrames
    requires ImageOf(f, s, index, parse, toInt).Success?
    ensures index < s.numFrames
    ensures var rec := s.frames[index];
      var pixels := ReadBlock(f, PixelStart(rec), rec.imageSize);
      pixels.Success? && |pixels.value| >= 6220800 &&
      Flatten(ImageOf(f, s, index, parse, toInt).value) == pixels.value[..6220800]
  {
    var rec := s.frames[index];
    ImageSteps(f, s, index, parse, toInt);
    var pixels := ReadBlock(f, PixelStart(rec), rec.imageSize).value;
    var code := Orientation(MetadataOf(f, s, index, parse).value, toInt).value;
    var d := OrientationDimensions(code).value;
    OrientationsAgreeOnSize(code);
    FlattenLayout(pixels, d.rows, d.cols);
  }

  /** The pixel block is read before the metadata: a frame whose pixel block
      runs past the end of the file fails with that read's error even when
      its metadata could not be parsed. */
  lemma ImageReadsPixelsFirst(f: MfbaFile, s: ReaderState, index: nat, parse: Parser,
                              toInt: string -> Option<int>)
    requires |s.frames| == s.numFrames && index < s.numFrames
    requires ReadBytes(f, PixelStart(s.frames[index]), s.frames[index].imageSize).Failure?
    ensures ImageOf(f, s, index, parse, toInt) ==
      Failure(ReadBytes(f, PixelStart(s.frames[index]), s.frames[index].imageSize).error)
  {
  }

  /** get_image checks the index before any read: an index past the table
      fails with the frame count, whatever the file holds. */
  lemma ImageIndexCheckedFirst(f: MfbaFile, s: ReaderState, index: nat, parse: Parser,
                               toInt: string -> Option<int>)
    requires |s.frames| == s.numFrames && index >= s.numFrames
    ensures ImageOf(f, s, index, parse, toInt) == Failure(FrameOutOfRange(s.numFrames))
    ensures ImageOf(f.(present := false), s, index, parse, toInt) == Failure(FrameOutOfRange(s.numFrames))
  {
  }

  /** An MFBA file opened by FacebowFileReader: the file, the header fields
      and the frame table the constructor reads once. */
  class FacebowFileReader {
    const file: MfbaFile
    const version: Version
    const numFrames: nat
    var frameLocationInfo: seq<FrameLocationInfo>

    /** The members hold what the constructor computes from the file. */
    ghost predicate Valid()
      reads this
    {
      OpenSpec(file) == Success(State())
    }

    function State(): ReaderState
      reads this
    {
      ReaderState(version, numFrames, frameLocationInfo)
    }

    /** The member initialisers, with the frame table still empty. */
    constructor (f: MfbaFile, v: Version, count: nat)
      ensures file == f && version == v && numFrames == count && frameLocationInfo == []
    {
      file := f;
      version := v;
      numFrames := count;
      frameLocationInfo := [];
    }

    /** FacebowFileReader(filepath): checks the file, then walks the frames,
        appending one record per frame to the table. Either the reader it
        returns holds what OpenSpec computes, or it fails with OpenSpec's error. */
    static method Open(f: MfbaFile) returns (r: Result<FacebowFileReader, Error>)
      ensures r.Success? <==> OpenSpec(f).Success?
      ensures r.Success? ==> fresh(r.value) && r.value.file == f && r.value.Valid()
      ensures r.Failure? ==> r.error == OpenSpec(f).error
    {
      if !f.present {
        return Failure(FileDoesNotExist);
      }
      var check :- ValidateHeader(f);
      if !check.valid {
        return Failure(InvalidHeader);
      }
      if VersionNe(check.version.value, SupportedVersion) {
        return Failure(UnsupportedVersion);
      }
      var count :- ReadImageCount(f);
      OpenSpecAfterCount(f, check, count);
      var reader := new FacebowFileReader(f, check.version.value, count);
      ghost var walk := WalkFrames(f, InitialFrameIndex, count);
      var frameIndex: nat := InitialFrameIndex;
      assert walk == Prepend([], walk) by {
        if walk.Success? {
          assert [] + walk.value == walk.value;
        }
      }
      for i := 0 to count
        invariant reader.file == f && reader.version == check.version.value && reader.numFrames == count
        invariant walk == Prepend(reader.frameLocationInfo, WalkFrames(f, frameIndex, count - i))
      {
        WalkStep(f, frameIndex, count - i);
        var rec :- ReadFrame(f, frameIndex);
        frameIndex := reader.AppendFrame(rec, f, walk, count - i);
      }
      assert WalkFrames(f, frameIndex, 0) == Success([]);
      assert reader.frameLocationInfo + [] == reader.frameLocationInfo;
      return Success(reader);
    }

    /** The end of one iteration of the constructor's loop: emplace_back the
        record just read and return the next frame's start, the record's
        start plus its three fields summed as a uint32. The rest of the walk
        from there completes the table. For use by Open only: on an opened
        reader the appended record would break Valid(). */
    method AppendFrame(rec: FrameLocationInfo, ghost f: MfbaFile, ghost walk: Result<seq<FrameLocationInfo>, Error>,
                       ghost n: nat) returns (next: nat)
      requires n > 0 && f.present && rec.frameIndex + 12 <= |f.content| && rec == FrameFields(f, rec.frameIndex)
      requires walk == Prepend(frameLocationInfo, WalkFrames(f, rec.frameIndex, n))
      modifies this
      ensures frameLocationInfo == old(frameLocationInfo) + [rec]
      ensures next == rec.frameIndex + Stride(rec)
      ensures walk == Prepend(frameLocationInfo, WalkFrames(f, next, n - 1))
    {
      WalkAdvance(f, walk, frameLocationInfo, rec.frameIndex, n);
      frameLocationInfo := frameLocationInfo + [rec];
      next := rec.frameIndex + (rec.offsetToHeader as int + rec.offsetToImage + rec.imageSize) % 0x1_0000_0000;
    }

    /** get_image_count: the frame count read from bytes 6..7, which is also
        the number of records in the table. */
    method GetImageCount() returns (n: nat)
      requires Valid()
      ensures n == |frameLocationInfo|
      ensures 8 <= |file.content| && n == file.content[6] as int * 256 + file.content[7]
    {
      n := numFrames;
    }

    /** get_metadata(index). */
    method GetMetadata(index: nat, parse: Parser) returns (r: Result<MetadataMap, Error>)
      requires Valid()
      ensures r == MetadataOf(file, State(), index, parse)
    {
      if index >= numFrames {
        return Failure(FrameOutOfRange(numFrames));
      }
      var rec := frameLocationInfo[index];
      var text :- ReadMetadataText(file, rec);
      var entries := parse(text);
      if entries.None? {
        return Failure(MetadataParse);
      }
      var m := BuildMetadataMap(entries.value);
      return Success(m);
    }

    /** get_image(index): a fresh matrix holding the image ImageOf decodes, or
        ImageOf's error. */
    method GetImage(index: nat, parse: Parser, toInt: string -> Option<int>)
      returns (r: Result<array2<Pixel>, Error>)
      requires Valid()
      ensures r.Success? <==> ImageOf(file, State(), index, parse, toInt).Success?
      ensures r.Success? ==> fresh(r.value) && Rows(r.value) == ImageOf(file, State(), index, parse, toInt).value
      ensures r.Failure? ==> r.error == ImageOf(file, State(), index, parse, toInt).error
    {
      if index >= numFrames {
        return Failure(FrameOutOfRange(numFrames));
      }
      var rec := frameLocationInfo[index];
      var pixels :- ReadAndUnmask(file, rec.frameIndex + rec.offsetToHeader + rec.offsetToImage, rec.imageSize);
      var metadata :- GetMetadata(index, parse);
      var code :- Orientation(metadata, toInt);
      var d :- OrientationDimensions(code);
      if d.rows * d.cols * 3 > |pixels| {
        return Failure(ShortPixelBlock);
      }
      var image := FillImage(pixels, d.rows, d.cols);
      return Success(image);
    }
  }

  /** The loop body's three field reads at `frameIndex`, `+ 4` and `+ 8`:
      the record stored there, or the error of the first read that fails. */
  method ReadFrame(f: MfbaFile, frameIndex: nat) returns (r: Result<FrameLocationInfo, Error>)
    ensures r.Success? <==> f.present && frameIndex + 12 <= |f.content|
    ensures r.Success? ==> r.value == FrameFields(f, frameIndex)
    ensures r.Failure? ==> r.error == ReadBytes(f, frameIndex, 12).error
  {
    FieldReads(f, frameIndex);
    var offsetToHeader :- ReadU32(f, frameIndex);
    var offsetToImage :- ReadU32(f, frameIndex + 4);
    var imageSize :- ReadU32(f, frameIndex + 8);
    return Success(FrameLocationInfo(frameIndex, offsetToHeader, offsetToImage, imageSize));
  }

  /** Once the header and the count have been read, the walk decides the
      constructor's outcome. */
  lemma OpenSpecAfterCount(f: MfbaFile, check: HeaderCheck, count: nat)
    requires f.present && ValidateHeader(f) == Success(check) && check.valid
    requires !VersionNe(check.version.value, SupportedVersion)
    requires ReadImageCount(f) == Success(count)
    ensures var walk := WalkFrames(f, InitialFrameIndex, count);
      && (walk.Success? ==> OpenSpec(f) == Success(ReaderState(check.version.value, count, walk.value)))
      && (walk.Failure? ==> OpenSpec(f) == Failure(walk.error))
  {
  }

  /** One step of the walk: the frame at `cursor` is read, or its failing
      read ends the walk, and either way the table so far is kept in front. */
  lemma WalkStep(f: MfbaFile, cursor: nat, n: nat)
    requires n > 0
    ensures f.present && cursor + 12 <= |f.content| ==>
      var rec := FrameFields(f, cursor);
      WalkFrames(f, cursor, n) == Prepend([rec], WalkFrames(f, cursor + Stride(rec), n - 1))
    ensures !(f.present && cursor + 12 <= |f.content|) ==>
      WalkFrames(f, cursor, n) == Failure(ReadBytes(f, cursor, 12).error)
  {
  }

  /** Appending the record at `cursor` to the table read so far keeps the
      table, followed by the rest of the walk, equal to the whole walk. */
  lemma WalkAdvance(f: MfbaFile, walk: Result<seq<FrameLocationInfo>, Error>, t: seq<FrameLocationInfo>,
                    cursor: nat, n: nat)
    requires n > 0 && f.present && cursor + 12 <= |f.content|
    requires walk == Prepend(t, WalkFrames(f, cursor, n))
    ensures var rec := FrameFields(f, cursor);
      walk == Prepend(t + [rec], WalkFrames(f, cursor + Stride(rec), n - 1))
  {
    var rec := FrameFields(f, cursor);
    var w := WalkFrames(f, cursor + Stride(rec), n - 1);
    if w.Success? {
      assert t + ([rec] + w.value) == (t + [rec]) + w.value;
    }
  }
}
