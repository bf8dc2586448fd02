/** Decoding of the multi-byte integers of an MFBA file, which are stored
    most-significant byte first whatever the host's byte order. */
module ByteOrder {

  /** One byte of the file, as the unsigned value std::uint8_t gives it. */
  type Byte = x: int | 0 <= x < 256

  /** 256^n, one more than the largest value an n-byte field holds. */
  function Pow256(n: nat): (p: nat)
    ensures p > 0
  {
    if n == 0 then 1 else 256 * Pow256(n - 1)
  }

  /** The unsigned value of the bytes `s` read most-significant first. */
  function BigEndian(s: seq<Byte>): (v: nat)
    ensures v < Pow256(|s|)
  {
    if s == [] then 0 else BigEndian(s[..|s| - 1]) * 256 + s[|s| - 1]
  }

  /** The `width`-byte most-significant-first encoding of `v`. */
  function EncodeBigEndian(v: nat, width: nat): (s: seq<Byte>)
    requires v < Pow256(width)
    ensures |s| == width
  {
    if width == 0 then [] else EncodeBigEndian(v / 256, width - 1) + [v % 256]
  }

  lemma {:induction false} DecodeEncode(v: nat, width: nat)
    requires v < Pow256(width)
    ensures BigEndian(EncodeBigEndian(v, width)) == v
  {
    if width > 0 {
      var s := EncodeBigEndian(v, width);
      assert s[..|s| - 1] == EncodeBigEndian(v / 256, width - 1);
      DecodeEncode(v / 256, width - 1);
    }
  }

  lemma {:induction false} EncodeDecode(s: seq<Byte>)
    ensures EncodeBigEndian(BigEndian(s), |s|) == s
  {
    if s != [] {
      var init, last := s[..|s| - 1], s[|s| - 1];
      var v := BigEndian(s);
      assert v / 256 == BigEndian(init) && v % 256 == last;
      EncodeDecode(init);
      assert s == init + [last];
    }
  }

  /** The two-byte field (frame count) as the source intends it: b0 * 256 + b1. */
  lemma BigEndianTwoBytes(s: seq<Byte>)
    requires |s| == 2
    ensures BigEndian(s) == s[0] as int * 0x100 + s[1]
  {
    assert s[..1][..0] == [];
  }

  /** The four-byte fields (offsets and sizes) as the source intends them. */
  lemma BigEndianFourBytes(s: seq<Byte>)
    requires |s| == 4
    ensures BigEndian(s) == s[0] as int * 0x100_0000 + s[1] as int * 0x1_0000 + s[2] as int * 0x100 + s[3]
  {
    assert s[..3][..2] == s[..2];
    assert s[..2][..1] == s[..1];
    assert s[..1][..0] == [];
    calc {
      BigEndian(s);
      BigEndian(s[..3]) * 256 + s[3];
      (BigEndian(s[..2]) * 256 + s[2]) * 256 + s[3];
      ((BigEndian(s[..1]) * 256 + s[1]) * 256 + s[2]) * 256 + s[3];
      ((s[0] as int * 256 + s[1]) * 256 + s[2]) * 256 + s[3];
    }
  }

  /** The bytes of `s` in the opposite order (std::reverse). */
  function Reverse(s: seq<Byte>): (r: seq<Byte>)
    ensures |r| == |s|
    ensures forall i :: 0 <= i < |s| ==> r[i] == s[|s| - 1 - i]
  {
    if s == [] then [] else Reverse(s[1..]) + [s[0]]
  }

  /** The unsigned value of the bytes `s` read least-significant first. */
  function LittleEndian(s: seq<Byte>): nat
  {
    if s == [] then 0 else s[0] + 256 * LittleEndian(s[1..])
  }

  /** What a native integer load (the source's reinterpret_cast of a byte
      buffer) yields on a host of the given byte order. */
  function HostLoad(s: seq<Byte>, littleEndianHost: bool): nat
  {
    if littleEndianHost then LittleEndian(s) else BigEndian(s)
  }

  lemma {:induction false} LittleEndianOfReverse(s: seq<Byte>)
    ensures LittleEndian(Reverse(s)) == BigEndian(s)
  {
    if s != [] {
      var r := Reverse(s);
      assert r[1..] == Reverse(s[..|s| - 1]);
      LittleEndianOfReverse(s[..|s| - 1]);
    }
  }

  /** is_little_endian() as written: it converts a pointer that is never null
      to bool, so it answers true on every host. */
  function IsLittleEndianAsWritten(): bool
  {
    true
  }

  /** The source's field decode as written: reverse the bytes when
      is_little_endian() says so, then load them natively. */
  function DecodeAsWritten(s: seq<Byte>, littleEndianHost: bool): nat
  {
    HostLoad(if IsLittleEndianAsWritten() then Reverse(s) else s, littleEndianHost)
  }

  /** On a little-endian host the as-written decode is the big-endian value. */
  lemma DecodeAsWrittenLittleEndianHost(s: seq<Byte>)
    ensures DecodeAsWritten(s, true) == BigEndian(s)
  {
    LittleEndianOfReverse(s);
  }

  /** On a big-endian host it is not: the frame-count bytes 00 10 of a
      16-frame file decode to 4096. */
  lemma DecodeAsWrittenBigEndianHost()
    ensures BigEndian([0x00, 0x10]) == 16
    ensures DecodeAsWritten([0x00, 0x10], false) == 4096
  {
    var s: seq<Byte> := [0x00, 0x10];
    BigEndianTwoBytes(s);
    assert Reverse(s) == [0x10, 0x00];
    BigEndianTwoBytes(Reverse(s));
  }

  /** The decode the source intends: swap only on a little-endian host. It is
      the big-endian value on both kinds of host. */
  function HostDecode(s: seq<Byte>, littleEndianHost: bool): (v: nat)
    ensures v == BigEndian(s)
  {
    LittleEndianOfReverse(s);
    HostLoad(if littleEndianHost then Reverse(s) else s, littleEndianHost)
  }
}
