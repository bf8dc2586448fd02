/** The test suite's fixture files, as concrete MfbaFile values, and what the
    model says the reader does with each of them. */
module ReaderFixtures {
  import opened Wrappers
  import opened ByteOrder
  import opened MfbaSource
  import opened MfbaHeader
  import opened FrameTable
  import opened ImageLayout
  import opened Reader

  /** The eight header bytes of a valid file with no frames. */
  const ValidHeader: seq<Byte> := [0x46, 0x46, 0x46, 0x01, 0x00, 0x00, 0x00, 0x00]

  /** An existing but empty file fails in the first read with "size == 0". */
  lemma EmptyFileFails()
    ensures var f := MfbaFile("test_video_empty.mfba", true, []);
      && OpenSpec(f) == Failure(SizeZero)
      && Message(SizeZero, f.path) == Some("test_video_empty.mfba: size == 0")
  {
    assert "test_video_empty.mfba" + ": size == 0" == "test_video_empty.mfba: size == 0";
  }

  /** A missing file fails before any read. */
  lemma MissingFileFails(content: seq<Byte>)
    ensures var f := MfbaFile("test_video_non_existant.mfba", false, content);
      && OpenSpec(f) == Failure(FileDoesNotExist)
      && Message(FileDoesNotExist, f.path) == Some("test_video_non_existant.mfba: file does not exist")
  {
    assert "test_video_non_existant.mfba" + ": file does not exist" == "test_video_non_existant.mfba: file does not exist";
  }

  /** A file of 0x4D bytes has no "FFF" signature. */
  lemma InvalidSignatureFails()
    ensures var f := MfbaFile("test_video_invalid_signature.mfba", true, [0x4D, 0x4D, 0x4D, 0x4D, 0x4D, 0x4D, 0x4D, 0x4D]);
      && ValidateHeader(f) == Success(HeaderCheck(false, None))
      && OpenSpec(f) == Failure(InvalidHeader)
      && Message(InvalidHeader, f.path) == Some("test_video_invalid_signature.mfba: invalid MFBA header")
  {
    var f := MfbaFile("test_video_invalid_signature.mfba", true, [0x4D, 0x4D, 0x4D, 0x4D, 0x4D, 0x4D, 0x4D, 0x4D]);
    assert f.content[..3] != Signature by {
      assert f.content[0] != Signature[0];
    }
    assert f.path + ": invalid MFBA header" == "test_video_invalid_signature.mfba: invalid MFBA header";
  }

  /** The test's file with version 2.0.0. */
  const InvalidVersionFile := MfbaFile("test_video_invalid_version.mfba", true, [0x46, 0x46, 0x46, 0x02, 0x00, 0x00, 0x00, 0x00])

  /** Version 2.0.0 is read from a file whose signature is accepted ... */
  lemma InvalidVersionHeader()
    ensures ValidateHeader(InvalidVersionFile) == Success(HeaderCheck(true, Some(Version(2, 0, 0))))
  {
    assert InvalidVersionFile.content[..3] == Signature;
  }

  /** ... and is refused by the constructor, with the version message. */
  lemma InvalidVersionFails()
    ensures OpenSpec(InvalidVersionFile) == Failure(UnsupportedVersion)
  {
    var f := InvalidVersionFile;
    assert f.content[..3] == Signature;
    assert f.content[3..6] != [1, 0, 0] by {
      assert f.content[3..6][0] == 2;
    }
    OpenErrorOrder(f);
  }

  /** The refusal names the file. */
  lemma InvalidVersionMessage()
    ensures Message(UnsupportedVersion, InvalidVersionFile.path) == Some("test_video_invalid_version.mfba: MFBA version is not 1.0.0")
  {
    assert InvalidVersionFile.path + ": MFBA version is not 1.0.0" == "test_video_invalid_version.mfba: MFBA version is not 1.0.0";
  }

  /** A valid header with a frame count of 0 opens with version 1.0.0 and an
      empty table; the whole file reads back as its eight bytes, and index 0
      is out of range for both queries. */
  lemma ValidFileWithoutFrames(parse: Parser, toInt: string -> Option<int>)
    ensures var f := MfbaFile("test_video_valid.mfba", true, ValidHeader);
      && ValidateHeader(f) == Success(HeaderCheck(true, Some(Version(1, 0, 0))))
      && ReadBytes(f, 0, 8) == Success(ValidHeader)
      && OpenSpec(f) == Success(ReaderState(Version(1, 0, 0), 0, []))
      && MetadataOf(f, ReaderState(Version(1, 0, 0), 0, []), 0, parse) == Failure(FrameOutOfRange(0))
      && ImageOf(f, ReaderState(Version(1, 0, 0), 0, []), 0, parse, toInt) == Failure(FrameOutOfRange(0))
      && Message(FrameOutOfRange(0), f.path) == Some("Image frame out of range, file includes 0 frames")
  {
    var f := MfbaFile("test_video_valid.mfba", true, ValidHeader);
    assert f.content[..3] == Signature;
    assert ValidHeader[0..8] == ValidHeader;
    assert "Image frame out of range, file includes " + Decimal(0) + " frames"
      == "Image frame out of range, file includes 0 frames";
  }

  /** The first 20 bytes of the reduced test video: the header with a frame
      count of 16, then frame 0's three fields 0x0C, 0x6CA8 and 0x5EEC00. */
  const ReducedVideoPrefix: seq<Byte> := [0x46, 0x46, 0x46, 0x01, 0x00, 0x00, 0x00, 0x10,
                                          0x00, 0x00, 0x00, 0x0C, 0x00, 0x00, 0x6C, 0xA8, 0x00, 0x5E, 0xEC, 0x00]

  /** The reduced test video has a valid 1.0.0 header declaring 16 frames. */
  lemma ReducedVideoHeader(f: MfbaFile)
    requires f.present && 20 <= |f.content| && f.content[..20] == ReducedVideoPrefix
    ensures ValidateHeader(f) == Success(HeaderCheck(true, Some(Version(1, 0, 0))))
    ensures ReadImageCount(f) == Success(16)
  {
    var c := f.content;
    assert c[..3] == c[..20][..3];
    assert c[3] == c[..20][3] && c[4] == c[..20][4] && c[5] == c[..20][5];
    assert c[6] == c[..20][6] && c[7] == c[..20][7];
  }

  /** Frame 0 of the reduced test video: its metadata block starts at byte 20
      and its pixel block holds exactly one 1080 x 1920 image. */
  lemma ReducedVideoFrame0(f: MfbaFile)
    requires f.present && 20 <= |f.content| && f.content[..20] == ReducedVideoPrefix
    ensures FrameFields(f, InitialFrameIndex) == FrameLocationInfo(8, 0x0C, 0x6CA8, 0x5EEC00)
    ensures MetadataStart(FrameFields(f, InitialFrameIndex)) == 20
    ensures FrameFields(f, InitialFrameIndex).imageSize == ByteCount(Dimensions(ImageHeight, ImageWidth))
  {
    var c := f.content;
    assert c[8..20] == c[..20][8..20];
  }

  /** Opened, the reduced test video has 16 frames, the first of them at byte 8. */
  lemma ReducedVideoTable(f: MfbaFile)
    requires f.present && 20 <= |f.content| && f.content[..20] == ReducedVideoPrefix
    requires OpenSpec(f).Success?
    ensures OpenSpec(f).value.numFrames == 16
    ensures OpenSpec(f).value.frames[0] == FrameLocationInfo(8, 0x0C, 0x6CA8, 0x5EEC00)
  {
    ReducedVideoHeader(f);
    ReducedVideoFrame0(f);
    OpenedTable(f);
  }

  /** Index 16 of a 16-frame file is reported with the count 16. */
  lemma SixteenFramesMessage(path: string)
    ensures Message(FrameOutOfRange(16), path) == Some("Image frame out of range, file includes 16 frames")
  {
    assert Decimal(16) == "16" by {
      assert Decimal(1) == "1";
    }
    assert "Image frame out of range, file includes " + Decimal(16) + " frames"
      == "Image frame out of range, file includes 16 frames";
  }

  /** The constructor reads only the three fields of each frame: a 20-byte
      file whose single frame declares a 1-byte pixel block at byte 20 opens,
      and only get_image finds that block past the end of the file. */
  lemma BlocksAreNotCheckedAtOpen(parse: Parser, toInt: string -> Option<int>)
    ensures var f := MfbaFile("short.mfba", true, [0x46, 0x46, 0x46, 0x01, 0x00, 0x00, 0x00, 0x01,
                                                  0x00, 0x00, 0x00, 0x0C, 0x00, 0x00, 0x00, 0x00, 0x00, 0x00, 0x00, 0x01]);
      var s := ReaderState(Version(1, 0, 0), 1, [FrameLocationInfo(8, 12, 0, 1)]);
      && OpenSpec(f) == Success(s)
      && ImageOf(f, s, 0, parse, toInt) == Failure(EndPastEnd)
  {
    var f := MfbaFile("short.mfba", true, [0x46, 0x46, 0x46, 0x01, 0x00, 0x00, 0x00, 0x01,
                                          0x00, 0x00, 0x00, 0x0C, 0x00, 0x00, 0x00, 0x00, 0x00, 0x00, 0x00, 0x01]);
    assert f.content[..3] == Signature;
    var rec := FrameLocationInfo(8, 12, 0, 1);
    assert FrameFields(f, 8) == rec;
    assert Stride(rec) == 13;
    assert WalkFrames(f, 21, 0) == Success([]);
    assert [rec] + [] == [rec];
    assert WalkFrames(f, 8, 1) == Success([rec]);
    assert ReadImageCount(f) == Success(1);
  }
}
