/** The frame table: the constructor's walk over the variable-length frames,
    each introduced by three big-endian 32-bit fields. */
module FrameTable {
  import opened Wrappers
  import opened ByteOrder
  import opened MfbaSource

  /** std::uint32_t. */
  type U32 = x: nat | x < 0x1_0000_0000

  /** FrameLocationInfo: where frame i starts in the file, the distance from
      there to its metadata block, the length of that block (the distance on
      to the pixel block), and the length of the pixel block. */
  datatype FrameLocationInfo = FrameLocationInfo(
    frameIndex: nat, offsetToHeader: U32, offsetToImage: U32, imageSize: U32)

  /** First frame: 3 signature bytes, 3 version bytes and 2 count bytes in. */
  const InitialFrameIndex: nat := 8

  /** The cursor advance after a frame. The three fields are uint32_t, so
      their sum is taken modulo 2^32 before it is added to the cursor. */
  function Stride(rec: FrameLocationInfo): (d: U32)
  {
    (rec.offsetToHeader + rec.offsetToImage + rec.imageSize) % 0x1_0000_0000
  }

  /** The stride is the plain sum of the three fields as long as that sum
      fits in 32 bits, and never more than that sum. */
  lemma StrideBounds(rec: FrameLocationInfo)
    ensures Stride(rec) <= rec.offsetToHeader + rec.offsetToImage + rec.imageSize
    ensures rec.offsetToHeader + rec.offsetToImage + rec.imageSize < 0x1_0000_0000 ==>
      Stride(rec) == rec.offsetToHeader + rec.offsetToImage + rec.imageSize
  {
  }

  /** The big-endian uint32 stored in bytes at..at+3 of `content`. */
  function U32At(content: seq<Byte>, at: nat): U32
    requires at + 4 <= |content|
  {
    content[at] as int * 0x100_0000 + content[at + 1] as int * 0x1_0000
      + content[at + 2] as int * 0x100 + content[at + 3]
  }

  lemma U32AtIsBigEndian(content: seq<Byte>, at: nat)
    requires at + 4 <= |content|
    ensures U32At(content, at) == BigEndian(content[at..at + 4])
  {
    BigEndianFourBytes(content[at..at + 4]);
  }

  /** One field read of the walk: read_bytes_from_file(at, 4), reversed and
      reinterpreted as a uint32, which is its big-endian value. */
  function ReadU32(f: MfbaFile, at: nat): (r: Result<U32, Error>)
    ensures r.Success? <==> f.present && at + 4 <= |f.content|
    ensures r.Success? ==> r.value == U32At(f.content, at)
    ensures r.Failure? ==> r.error == ReadBytes(f, at, 4).error
  {
    var bytes :- ReadBytes(f, at, 4);
    BigEndianFourBytes(bytes);
    Success(BigEndian(bytes))
  }

  /** The record of the frame starting at `at`: its three fields as stored. */
  function FrameFields(f: MfbaFile, at: nat): FrameLocationInfo
    requires at + 12 <= |f.content|
  {
    FrameLocationInfo(at, U32At(f.content, at), U32At(f.content, at + 4), U32At(f.content, at + 8))
  }

  /** `rec` is the record stored at its own frame start. */
  predicate RecordAt(f: MfbaFile, rec: FrameLocationInfo)
  {
    rec.frameIndex + 12 <= |f.content| && rec == FrameFields(f, rec.frameIndex)
  }

  /** The walk's three field reads at `at`, `at + 4` and `at + 8` succeed
      together exactly when the 12 bytes from `at` lie in the file, and the
      first one that fails reports what one 12-byte read from `at` would. */
  lemma FieldReads(f: MfbaFile, at: nat)
    ensures ReadU32(f, at).Failure? ==> ReadU32(f, at).error == ReadBytes(f, at, 12).error
    ensures ReadU32(f, at).Success? && ReadU32(f, at + 4).Failure? ==>
      ReadU32(f, at + 4).error == ReadBytes(f, at, 12).error
    ensures ReadU32(f, at).Success? && ReadU32(f, at + 4).Success? && ReadU32(f, at + 8).Failure? ==>
      ReadU32(f, at + 8).error == ReadBytes(f, at, 12).error
    ensures ReadU32(f, at + 8).Success? <==> f.present && at + 12 <= |f.content|
    ensures f.present && at + 12 > |f.content| ==> IsRangeError(ReadBytes(f, at, 12).error)
  {
  }

  /** The table the constructor builds: `count` records read in file order
      from `cursor`, each starting where the previous one's stride ends. The
      walk stops at the first frame whose 12 field bytes are not all in the
      file, with the error its failing field read reports (FieldReads). */
  function WalkFrames(f: MfbaFile, cursor: nat, count: nat): Result<seq<FrameLocationInfo>, Error>
    decreases count
  {
    if count == 0 then Success([])
    else if !f.present || cursor + 12 > |f.content| then Failure(ReadBytes(f, cursor, 12).error)
    else
      var rec := FrameFields(f, cursor);
      Prepend([rec], WalkFrames(f, cursor + Stride(rec), count - 1))
  }

  /** A walk result with `prefix` in front of the records, or its error. */
  function Prepend(prefix: seq<FrameLocationInfo>, r: Result<seq<FrameLocationInfo>, Error>)
    : Result<seq<FrameLocationInfo>, Error>
  {
    match r
    case Success(rest) => Success(prefix + rest)
    case Failure(e) => Failure(e)
  }

  /** Where the walk goes on after the records `t` that began at `cursor`. */
  function NextCursor(cursor: nat, t: seq<FrameLocationInfo>): nat
  {
    if t == [] then cursor else t[|t| - 1].frameIndex + Stride(t[|t| - 1])
  }

  /** A successful walk has one record per declared frame. */
  lemma {:induction false} WalkFramesLength(f: MfbaFile, cursor: nat, count: nat)
    requires WalkFrames(f, cursor, count).Success?
    decreases count
    ensures |WalkFrames(f, cursor, count).value| == count
  {
    if count > 0 {
      var rec := FrameFields(f, cursor);
      WalkFramesLength(f, cursor + Stride(rec), count - 1);
    }
  }

  /** Every record of a successful walk holds the fields stored at its start. */
  lemma {:induction false} WalkFramesRecords(f: MfbaFile, cursor: nat, count: nat)
    requires WalkFrames(f, cursor, count).Success?
    decreases count
    ensures var t := WalkFrames(f, cursor, count).value;
      forall i :: 0 <= i < |t| ==> RecordAt(f, t[i])
  {
    if count > 0 {
      var rec := FrameFields(f, cursor);
      var next := cursor + Stride(rec);
      WalkFramesRecords(f, next, count - 1);
      assert WalkFrames(f, cursor, count).value == [rec] + WalkFrames(f, next, count - 1).value;
    }
  }

  /** The first record starts at the cursor, and each next one a stride
      after the previous one. */
  lemma {:induction false} WalkFramesAdjacent(f: MfbaFile, cursor: nat, count: nat)
    requires WalkFrames(f, cursor, count).Success?
    decreases count
    ensures var t := WalkFrames(f, cursor, count).value;
      && (|t| > 0 ==> t[0].frameIndex == cursor)
      && (forall i :: 0 <= i < |t| - 1 ==> t[i + 1].frameIndex == t[i].frameIndex + Stride(t[i]))
  {
    if count > 0 {
      var rec := FrameFields(f, cursor);
      var next := cursor + Stride(rec);
      WalkFramesAdjacent(f, next, count - 1);
      assert WalkFrames(f, cursor, count).value == [rec] + WalkFrames(f, next, count - 1).value;
    }
  }

  /** The constructor's table, all in one: one record per declared frame, the
      first at the cursor, each next one a stride after the previous one, and
      every record holding the fields stored at its start. */
  lemma WalkFramesShape(f: MfbaFile, cursor: nat, count: nat)
    requires WalkFrames(f, cursor, count).Success?
    ensures var t := WalkFrames(f, cursor, count).value;
      && |t| == count
      && (count > 0 ==> t[0].frameIndex == cursor)
      && (forall i :: 0 <= i < |t| - 1 ==> t[i + 1].frameIndex == t[i].frameIndex + Stride(t[i]))
      && (forall i :: 0 <= i < |t| ==> RecordAt(f, t[i]))
  {
    WalkFramesLength(f, cursor, count);
    WalkFramesRecords(f, cursor, count);
    WalkFramesAdjacent(f, cursor, count);
  }

  /** The stride is summed in uint32: a frame whose three fields add up to
      exactly 2^32 has stride 0, and the walk reads that same frame again as
      the next record. */
  lemma StrideWrapRereadsFrame(f: MfbaFile, cursor: nat, count: nat)
    requires count >= 2 && WalkFrames(f, cursor, count).Success?
    requires cursor + 12 <= |f.content|
    requires var rec := FrameFields(f, cursor);
      rec.offsetToHeader + rec.offsetToImage + rec.imageSize == 0x1_0000_0000
    ensures var t := WalkFrames(f, cursor, count).value;
      |t| == count && t[0].frameIndex == cursor && t[1] == t[0]
  {
    var t := WalkFrames(f, cursor, count).value;
    WalkFramesLength(f, cursor, count);
    assert t[0].frameIndex == cursor && t[1].frameIndex == t[0].frameIndex + Stride(t[0]) by {
      WalkFramesAdjacent(f, cursor, count);
    }
    assert RecordAt(f, t[0]) && RecordAt(f, t[1]) by {
      WalkFramesRecords(f, cursor, count);
    }
    assert Stride(t[0]) == 0;
  }

  /** The sum of the strides of the records `t`. */
  function SumStrides(t: seq<FrameLocationInfo>): nat
  {
    if t == [] then 0 else SumStrides(t[..|t| - 1]) + Stride(t[|t| - 1])
  }

  /** Record i starts at the cursor plus the strides of records 0..i-1. */
  lemma {:induction false} WalkFramesAccumulate(f: MfbaFile, cursor: nat, count: nat, i: nat)
    requires WalkFrames(f, cursor, count).Success?
    requires i < count
    ensures var t := WalkFrames(f, cursor, count).value;
      |t| == count && t[i].frameIndex == cursor + SumStrides(t[..i])
  {
    WalkFramesLength(f, cursor, count);
    WalkFramesAdjacent(f, cursor, count);
    var t := WalkFrames(f, cursor, count).value;
    if i > 0 {
      WalkFramesAccumulate(f, cursor, count, i - 1);
      assert t[..i][..i - 1] == t[..i - 1];
    }
  }

  /** The first k records of a successful walk are the walk of k frames. */
  lemma {:induction false} WalkFramesPrefix(f: MfbaFile, cursor: nat, count: nat, k: nat)
    requires WalkFrames(f, cursor, count).Success?
    requires k <= count
    decreases count
    ensures WalkFrames(f, cursor, k).Success?
    ensures var t := WalkFrames(f, cursor, count).value;
      k <= |t| && WalkFrames(f, cursor, k).value == t[..k]
  {
    WalkFramesLength(f, cursor, count);
    if k > 0 {
      var rec := FrameFields(f, cursor);
      var next := cursor + Stride(rec);
      WalkFramesPrefix(f, next, count - 1, k - 1);
      var rest := WalkFrames(f, next, count - 1).value;
      assert WalkFrames(f, cursor, count).value == [rec] + rest;
      assert WalkFrames(f, cursor, k).value == [rec] + rest[..k - 1];
    }
  }

  /** A failed walk over an existing file failed on a range check, at the
      first frame whose 12 field bytes run past the end of the file: the
      frames before it were all read. */
  lemma {:induction false} WalkFramesFailsAtTruncatedFrame(f: MfbaFile, cursor: nat, count: nat)
    requires f.present
    requires WalkFrames(f, cursor, count).Failure?
    decreases count
    ensures IsRangeError(WalkFrames(f, cursor, count).error)
    ensures exists k :: (0 <= k < count && WalkFrames(f, cursor, k).Success? &&
      NextCursor(cursor, WalkFrames(f, cursor, k).value) + 12 > |f.content|)
  {
    assert WalkFrames(f, cursor, 0) == Success([]);
    if cursor + 12 <= |f.content| {
      var rec := FrameFields(f, cursor);
      var next := cursor + Stride(rec);
      WalkFramesFailsAtTruncatedFrame(f, next, count - 1);
      var k :| 0 <= k < count - 1 && WalkFrames(f, next, k).Success? &&
        NextCursor(next, WalkFrames(f, next, k).value) + 12 > |f.content|;
      var t := WalkFrames(f, next, k).value;
      assert WalkFrames(f, cursor, k + 1) == Success([rec] + t);
      assert NextCursor(cursor, [rec] + t) == NextCursor(next, t);
    }
  }
}
