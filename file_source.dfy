/** The MFBA file as the reader sees it, the errors the reader raises, and
    read_bytes_from_file: the bounds-checked read of one byte range. */
module MfbaSource {
  import opened Wrappers
  import opened ByteOrder

  /** A file on disk: its path, whether it exists, and its bytes. The reader
      never writes, so the bytes are the same for every read. */
  datatype MfbaFile = MfbaFile(path: string, present: bool, content: seq<Byte>)

  /** Every std::runtime_error (and library exception) the reader lets escape. */
  datatype Error =
    | FileDoesNotExist              // constructor: std::filesystem::exists is false
    | CannotOpen                    // the std::ifstream could not be opened
    | SizeZero                      // read of an empty file
    | StartPastEnd                  // read starting after the end of the file
    | EndPastEnd                    // read ending after the end of the file
    | InvalidHeader                 // signature is not "FFF"
    | UnsupportedVersion            // version is not 1.0.0
    | FrameOutOfRange(frames: nat)  // frame index not below the frame count
    | MetadataParse                 // the JSON library rejected the metadata text
    | MissingOrientation            // no ["Orientation"]["Orientation"] entry
    | OrientationNotInteger         // std::stoi rejected the orientation text
    | UnsupportedOrientation(code: int)
    | ShortPixelBlock               // pixel block shorter than the image it must fill

  /** The decimal text of `n`, as std::to_string writes it. */
  function Decimal(n: nat): (s: string)
    ensures |s| > 0 && forall i :: 0 <= i < |s| ==> '0' <= s[i] <= '9'
  {
    if n < 10 then ["0123456789"[n]] else Decimal(n / 10) + ["0123456789"[n % 10]]
  }

  /** The value of a string of decimal digits. */
  function DecimalValue(s: string): nat
    requires forall i :: 0 <= i < |s| ==> '0' <= s[i] <= '9'
  {
    if s == [] then 0 else DecimalValue(s[..|s| - 1]) * 10 + (s[|s| - 1] as int - '0' as int)
  }

  lemma {:induction false} DecimalRoundTrip(n: nat)
    ensures DecimalValue(Decimal(n)) == n
  {
    var s := Decimal(n);
    if n >= 10 {
      assert s[..|s| - 1] == Decimal(n / 10);
      DecimalRoundTrip(n / 10);
    }
  }

  /** std::to_string of a signed int. */
  function SignedDecimal(x: int): string
  {
    if x < 0 then "-" + Decimal(-x) else Decimal(x)
  }

  /** The what() text of an error raised while reading the file at `path`,
      when that text is fixed by the reader; None when it comes from the
      system (strerror) or from a library (JSON parser, std::map::at,
      std::stoi), or the error is one the reader does not raise itself. */
  function Message(e: Error, path: string): Option<string>
  {
    match e
    case FileDoesNotExist => Some(path + ": file does not exist")
    case SizeZero => Some(path + ": size == 0")
    case StartPastEnd => Some(path + ": start_byte > size")
    case EndPastEnd => Some(path + ": end_byte > size")
    case InvalidHeader => Some(path + ": invalid MFBA header")
    case UnsupportedVersion => Some(path + ": MFBA version is not 1.0.0")
    case FrameOutOfRange(n) => Some("Image frame out of range, file includes " + Decimal(n) + " frames")
    case UnsupportedOrientation(code) => Some("Unsupported orientation value: " + SignedDecimal(code))
    case _ => None
  }

  /** The reader reports "N frames" with the frame count it was asked about. */
  lemma FrameOutOfRangeMessageNamesCount(n: nat)
    ensures Message(FrameOutOfRange(n), "").Some?
    ensures var m := Message(FrameOutOfRange(n), "").value;
      |m| == 40 + |Decimal(n)| + 7 && DecimalValue(m[40..|m| - 7]) == n
  {
    var m := Message(FrameOutOfRange(n), "").value;
    assert m[40..|m| - 7] == Decimal(n);
    DecimalRoundTrip(n);
  }

  /** read_bytes_from_file(path, start, n): the `n` bytes from `start`, after
      three checks made in this order: the file is not empty, `start` is not
      past the end, `start + n` is not past the end. Reading up to exactly
      the end of the file is allowed. */
  function ReadBytes(f: MfbaFile, start: nat, n: nat): (r: Result<seq<Byte>, Error>)
    ensures r.Success? <==> f.present && |f.content| > 0 && start <= |f.content| && start + n <= |f.content|
    ensures r.Success? ==> |r.value| == n && r.value == f.content[start..start + n]
    ensures !f.present ==> r == Failure(CannotOpen)
    ensures f.present && |f.content| == 0 ==> r == Failure(SizeZero)
    ensures f.present && |f.content| > 0 && start > |f.content| ==> r == Failure(StartPastEnd)
    ensures f.present && |f.content| > 0 && start <= |f.content| < start + n ==> r == Failure(EndPastEnd)
  {
    if !f.present then Failure(CannotOpen)
    else if |f.content| == 0 then Failure(SizeZero)
    else if start > |f.content| then Failure(StartPastEnd)
    else if start + n > |f.content| then Failure(EndPastEnd)
    else Success(f.content[start..start + n])
  }

  /** A read of an existing file fails only with one of the three range errors. */
  predicate IsRangeError(e: Error)
  {
    e == SizeZero || e == StartPastEnd || e == EndPastEnd
  }
}
