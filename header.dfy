/** The fixed 8-byte MFBA file header: the "FFF" signature, the version
    triplet and the big-endian frame count. */
module MfbaHeader {
  import opened Wrappers
  import opened ByteOrder
  import opened MfbaSource

  /** MFBAVersion: major.minor.patch, one byte each. */
  datatype Version = Version(major: Byte, minor: Byte, patch: Byte)

  /** MFBAVersion::operator==, component by component. */
  function VersionEq(a: Version, b: Version): (r: bool)
    ensures r <==> a == b
  {
    a.major == b.major && a.minor == b.minor && a.patch == b.patch
  }

  /** MFBAVersion::operator!=, the negation of operator==. */
  function VersionNe(a: Version, b: Version): (r: bool)
    ensures r <==> a != b
  {
    !VersionEq(a, b)
  }

  /** The only version the reader accepts. */
  const SupportedVersion := Version(1, 0, 0)

  /** The ASCII bytes 'F', 'F', 'F'. */
  const Signature: seq<Byte> := [0x46, 0x46, 0x46]

  /** validate_mfba_header's pair: whether the signature matched, and the
      version when it did. */
  datatype HeaderCheck = HeaderCheck(valid: bool, version: Option<Version>)

  /** validate_mfba_header: read bytes 0..2 and compare them with "FFF"; if
      they differ, answer (false, none) without reading further, otherwise
      read bytes 3..5 as the version. Either read may fail. */
  function ValidateHeader(f: MfbaFile): (r: Result<HeaderCheck, Error>)
    ensures r.Success? ==> (r.value.valid <==> r.value.version.Some?)
    ensures r.Success? && !r.value.valid <==>
      f.present && 3 <= |f.content| && f.content[..3] != Signature
    ensures r.Success? && r.value.valid <==>
      f.present && 6 <= |f.content| && f.content[..3] == Signature
    ensures r.Success? && r.value.valid ==>
      r.value.version == Some(Version(f.content[3], f.content[4], f.content[5]))
    ensures r.Failure? ==> r.error == CannotOpen || IsRangeError(r.error)
  {
    var signature :- ReadBytes(f, 0, 3);
    if signature != Signature then
      Success(HeaderCheck(false, None))
    else
      var versionBytes :- ReadBytes(f, 3, 3);
      Success(HeaderCheck(true, Some(Version(versionBytes[0], versionBytes[1], versionBytes[2]))))
  }

  /** read_image_count: the big-endian unsigned 16-bit count at bytes 6..7. */
  function ReadImageCount(f: MfbaFile): (r: Result<nat, Error>)
    ensures r.Success? <==> f.present && 8 <= |f.content|
    ensures r.Success? ==> r.value == f.content[6] as int * 256 + f.content[7]
    ensures r.Success? ==> r.value < 0x1_0000
  {
    var countBytes :- ReadBytes(f, 6, 2);
    BigEndianTwoBytes(countBytes);
    Success(BigEndian(countBytes))
  }
}
