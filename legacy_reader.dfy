/** The older FacebowFileReader at the repository root. Its constructor and
    get_image_count are those of Reader.FacebowFileReader; its get_metadata
    parses the metadata but returns 0, and its get_image always lays the
    pixel block out as a portrait image, without consulting the metadata. */
module LegacyReader {
  import opened Wrappers
  import opened ByteOrder
  import opened MfbaSource
  import opened FrameTable
  import opened Obfuscation
  import opened Metadata
  import opened ImageLayout
  import opened Reader

  /** The JSON library's parse followed by the walk over the "contents" of
      the third top-level element: None when either throws. */
  type CaptureResultParser = string -> Option<seq<KeyValue>>

  /** The legacy get_metadata(index): the same range check, read,
      de-obfuscation and parse as the current one; the map built from the
      third element's contents is dropped and the result is always 0. */
  function LegacyMetadataOf(f: MfbaFile, s: ReaderState, index: nat, parse: CaptureResultParser)
    : (r: Result<int, Error>)
    requires |s.frames| == s.numFrames
    ensures r.Success? ==> r.value == 0
    ensures r.Success? <==>
      index < s.numFrames && MetadataText(f, s.frames[index]).Success? &&
      parse(MetadataText(f, s.frames[index]).value).Some?
    ensures index >= s.numFrames ==> r == Failure(FrameOutOfRange(s.numFrames))
  {
    if index >= s.numFrames then Failure(FrameOutOfRange(s.numFrames))
    else
      var text :- MetadataText(f, s.frames[index]);
      match parse(text)
      case None => Failure(MetadataParse)
      case Some(_) => Success(0)
  }

  /** The legacy get_image(index): range check, read and de-obfuscate the
      pixel block, and fill an ImageHeight x ImageWidth matrix from it. A
      block too short to fill it fails. */
  function LegacyImageOf(f: MfbaFile, s: ReaderState, index: nat): (r: Result<Image, Error>)
    requires |s.frames| == s.numFrames
  {
    if index >= s.numFrames then Failure(FrameOutOfRange(s.numFrames))
    else
      var rec := s.frames[index];
      var pixels :- ReadBlock(f, PixelStart(rec), rec.imageSize);
      if ByteCount(Dimensions(ImageHeight, ImageWidth)) > |pixels| then Failure(ShortPixelBlock)
      else Success(Layout(pixels, ImageHeight, ImageWidth))
  }

  /** The legacy reader decodes a frame whatever its metadata holds: an image
      comes out exactly when the frame exists and its pixel block is in the
      file and long enough, and it is always portrait. */
  lemma LegacyImageIgnoresMetadata(f: MfbaFile, s: ReaderState, index: nat)
    requires |s.frames| == s.numFrames
    ensures var r := LegacyImageOf(f, s, index);
      r.Success? <==>
        index < s.numFrames &&
        ReadBytes(f, PixelStart(s.frames[index]), s.frames[index].imageSize).Success? &&
        s.frames[index].imageSize >= 6220800
    ensures var r := LegacyImageOf(f, s, index);
      r.Success? ==> |r.value| == ImageHeight && forall i :: 0 <= i < |r.value| ==> |r.value[i]| == ImageWidth
    ensures var r := LegacyImageOf(f, s, index);
      r.Success? ==>
        var rec := s.frames[index];
        ReadBlock(f, PixelStart(rec), rec.imageSize).Success? &&
        r.value == Layout(ReadBlock(f, PixelStart(rec), rec.imageSize).value, ImageHeight, ImageWidth)
  {
  }

  /** The legacy get_image also checks the index before any read. */
  lemma LegacyImageIndexCheckedFirst(f: MfbaFile, s: ReaderState, index: nat)
    requires |s.frames| == s.numFrames && index >= s.numFrames
    ensures LegacyImageOf(f, s, index) == Failure(FrameOutOfRange(s.numFrames))
    ensures LegacyImageOf(f.(present := false), s, index) == Failure(FrameOutOfRange(s.numFrames))
  {
  }

  /** Where the current reader decodes a portrait frame (orientation 6 or 7),
      the legacy reader decodes the same image. */
  lemma LegacyAgreesOnPortrait(f: MfbaFile, s: ReaderState, index: nat, parse: Parser,
                               toInt: string -> Option<int>)
    requires |s.frames| == s.numFrames
    requires ImageOf(f, s, index, parse, toInt).Success?
    ensures MetadataOf(f, s, index, parse).Success?
    ensures var code := Orientation(MetadataOf(f, s, index, parse).value, toInt);
      code.Success? && (code.value == 6 || code.value == 7) ==>
        LegacyImageOf(f, s, index) == ImageOf(f, s, index, parse, toInt)
  {
    ImageSteps(f, s, index, parse, toInt);
  }

  /** Where the current reader decodes any frame, the legacy reader decodes
      one too, from the same bytes in the same order: for a landscape frame
      only the matrix shape differs. */
  lemma LegacyConsumesSameBytes(f: MfbaFile, s: ReaderState, index: nat, parse: Parser,
                                toInt: string -> Option<int>)
    requires |s.frames| == s.numFrames
    requires ImageOf(f, s, index, parse, toInt).Success?
    ensures LegacyImageOf(f, s, index).Success?
    ensures Flatten(LegacyImageOf(f, s, index).value) == Flatten(ImageOf(f, s, index, parse, toInt).value)
  {
    ImageSteps(f, s, index, parse, toInt);
    ImageConsumesBlockInOrder(f, s, index, parse, toInt);
    var rec := s.frames[index];
    var pixels := ReadBlock(f, PixelStart(rec), rec.imageSize).value;
    FlattenLayout(pixels, ImageHeight, ImageWidth);
  }

  /** get_metadata(index) of the legacy reader. */
  method LegacyGetMetadata(reader: FacebowFileReader, index: nat, parse: CaptureResultParser)
    returns (r: Result<int, Error>)
    requires reader.Valid()
    ensures r == LegacyMetadataOf(reader.file, reader.State(), index, parse)
  {
    if index >= reader.numFrames {
      return Failure(FrameOutOfRange(reader.numFrames));
    }
    var rec := reader.frameLocationInfo[index];
    var text :- ReadMetadataText(reader.file, rec);
    var contents := parse(text);
    if contents.None? {
      return Failure(MetadataParse);
    }
    var captureResult := BuildContentsMap(contents.value);
    return Success(0);
  }

  /** get_image(index) of the legacy reader: a fresh matrix holding the image
      LegacyImageOf decodes, or its error. */
  method LegacyGetImage(reader: FacebowFileReader, index: nat) returns (r: Result<array2<Pixel>, Error>)
    requires reader.Valid()
    ensures r.Success? <==> LegacyImageOf(reader.file, reader.State(), index).Success?
    ensures r.Success? ==> fresh(r.value) && Rows(r.value) == LegacyImageOf(reader.file, reader.State(), index).value
    ensures r.Failure? ==> r.error == LegacyImageOf(reader.file, reader.State(), index).error
  {
    if index >= reader.numFrames {
      return Failure(FrameOutOfRange(reader.numFrames));
    }
    var rec := reader.frameLocationInfo[index];
    var pixels :- ReadAndUnmask(reader.file, rec.frameIndex + rec.offsetToHeader + rec.offsetToImage, rec.imageSize);
    if ImageHeight * ImageWidth * 3 > |pixels| {
      return Failure(ShortPixelBlock);
    }
    var image := FillImage(pixels, ImageHeight, ImageWidth);
    return Success(image);
  }
}
