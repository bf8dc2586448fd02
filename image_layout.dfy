/** get_image's pixel layout: the orientation code chooses the matrix shape,
    and the de-obfuscated pixel block fills a 3-channel 8-bit matrix row by
    row, three bytes per pixel, in the order the bytes are stored (BGR). */
module ImageLayout {
  import opened Wrappers
  import opened ByteOrder
  import opened MfbaSource

  /** One CV_8UC3 element: channels 0, 1, 2 (blue, green, red). */
  datatype Pixel = Pixel(blue: Byte, green: Byte, red: Byte)

  /** A decoded image as rows of pixels. */
  type Image = seq<seq<Pixel>>

  /** The reader's image_width and image_height members. */
  const ImageWidth: nat := 1080
  const ImageHeight: nat := 1920

  /** The shape of the matrix get_image allocates. */
  datatype Dimensions = Dimensions(rows: nat, cols: nat)

  /** EXIF orientation 6 or 7 is a portrait image, ImageHeight rows of
      ImageWidth pixels; 1 or 3 is a landscape image with the two swapped;
      any other code is refused with its own value in the message. */
  function OrientationDimensions(code: int): (r: Result<Dimensions, Error>)
    ensures r.Success? <==> code == 1 || code == 3 || code == 6 || code == 7
    ensures r.Success? ==> r.value.rows * r.value.cols == ImageWidth * ImageHeight
    ensures r.Success? ==> (r.value.rows > r.value.cols <==> code == 6 || code == 7)
    ensures r.Failure? ==> r.error == UnsupportedOrientation(code)
  {
    if code == 6 || code == 7 then Success(Dimensions(ImageHeight, ImageWidth))
    else if code == 1 || code == 3 then Success(Dimensions(ImageWidth, ImageHeight))
    else Failure(UnsupportedOrientation(code))
  }

  /** The number of bytes one image of shape `d` consumes. */
  function ByteCount(d: Dimensions): nat
  {
    d.rows * d.cols * 3
  }

  /** Every supported orientation consumes the same 1080 * 1920 * 3 bytes, and
      the landscape shape is the portrait shape transposed. */
  lemma OrientationsAgreeOnSize(code: int)
    requires OrientationDimensions(code).Success?
    ensures ByteCount(OrientationDimensions(code).value) == 6220800
    ensures var d := OrientationDimensions(code).value;
      OrientationDimensions(if code == 6 || code == 7 then 1 else 6).value == Dimensions(d.cols, d.rows)
  {
  }

  /** The pixel made of the three bytes starting at `at`. */
  function PixelFrom(data: seq<Byte>, at: nat): (p: Pixel)
    requires at + 3 <= |data|
  {
    Pixel(data[at], data[at + 1], data[at + 2])
  }

  lemma RowFits(r: nat, rows: nat, cols: nat)
    requires r < rows
    ensures r * cols * 3 + cols * 3 <= rows * cols * 3
  {
    assert r * cols * 3 + cols * 3 == (r + 1) * cols * 3;
  }

  /** `cols` pixels read from consecutive byte triples starting at `start`. */
  function RowAt(data: seq<Byte>, start: nat, cols: nat): (row: seq<Pixel>)
    requires start + cols * 3 <= |data|
  {
    seq(cols, c requires 0 <= c < cols => PixelFrom(data, start + c * 3))
  }

  /** The image get_image returns for the pixel block `data`: pixel (r, c)
      holds the bytes at (r * cols + c) * 3, +1 and +2. */
  function Layout(data: seq<Byte>, rows: nat, cols: nat): (img: Image)
    requires rows * cols * 3 <= |data|
    ensures |img| == rows && forall r :: 0 <= r < rows ==> |img[r]| == cols
  {
    seq(rows, r requires 0 <= r < rows => RowFits(r, rows, cols); RowAt(data, r * cols * 3, cols))
  }

  /** Pixel (r, c) is made of bytes (r * cols + c) * 3 .. + 2 of the block. */
  lemma LayoutAt(data: seq<Byte>, rows: nat, cols: nat, r: nat, c: nat)
    requires rows * cols * 3 <= |data| && r < rows && c < cols
    ensures (r * cols + c) * 3 + 3 <= |data|
    ensures Layout(data, rows, cols)[r][c] == PixelFrom(data, (r * cols + c) * 3)
  {
    RowFits(r, rows, cols);
    assert (r * cols + c) * 3 == r * cols * 3 + c * 3;
  }

  /** The bytes of a pixel, channel 0 first. */
  function PixelBytes(p: Pixel): seq<Byte>
  {
    [p.blue, p.green, p.red]
  }

  /** The bytes of a row of pixels, left to right. */
  function FlattenRow(row: seq<Pixel>): seq<Byte>
  {
    if row == [] then [] else FlattenRow(row[..|row| - 1]) + PixelBytes(row[|row| - 1])
  }

  /** The bytes of an image, row by row: the order in which get_image's
      running index `i` consumes the pixel block. */
  function Flatten(img: Image): seq<Byte>
  {
    if img == [] then [] else Flatten(img[..|img| - 1]) + FlattenRow(img[|img| - 1])
  }

  lemma {:induction false} FlattenRowAt(data: seq<Byte>, start: nat, cols: nat)
    requires start + cols * 3 <= |data|
    ensures FlattenRow(RowAt(data, start, cols)) == data[start..start + cols * 3]
    decreases cols
  {
    if cols > 0 {
      var row := RowAt(data, start, cols);
      assert row[..cols - 1] == RowAt(data, start, cols - 1);
      FlattenRowAt(data, start, cols - 1);
      var mid := start + (cols - 1) * 3;
      assert PixelBytes(row[cols - 1]) == data[mid..mid + 3];
      assert data[start..mid] + data[mid..mid + 3] == data[start..start + cols * 3];
    }
  }

  /** A layout of rows > 0 rows is the layout of its first rows - 1 rows
      followed by one more row read from where they end. */
  lemma LayoutSplitLast(data: seq<Byte>, rows: nat, cols: nat)
    requires 0 < rows && rows * cols * 3 <= |data|
    ensures (rows - 1) * cols * 3 + cols * 3 == rows * cols * 3
    ensures Layout(data, rows, cols) == Layout(data, rows - 1, cols) + [RowAt(data, (rows - 1) * cols * 3, cols)]
  {
    RowFits(rows - 1, rows, cols);
  }

  lemma FlattenAppendRow(data: seq<Byte>, init: Image, last: seq<Pixel>, mid: nat, end: nat)
    requires mid <= end <= |data|
    requires Flatten(init) == data[..mid] && FlattenRow(last) == data[mid..end]
    ensures Flatten(init + [last]) == data[..end]
  {
    assert (init + [last])[..|init|] == init;
    assert data[..mid] + data[mid..end] == data[..end];
  }

  /** The layout consumes exactly the first rows * cols * 3 bytes of the block,
      each once and in order: no byte is skipped, repeated or reordered. */
  lemma {:induction false} FlattenLayout(data: seq<Byte>, rows: nat, cols: nat)
    requires rows * cols * 3 <= |data|
    ensures Flatten(Layout(data, rows, cols)) == data[..rows * cols * 3]
    decreases rows
  {
    if rows > 0 {
      var mid, end := (rows - 1) * cols * 3, rows * cols * 3;
      LayoutSplitLast(data, rows, cols);
      var init, last := Layout(data, rows - 1, cols), RowAt(data, mid, cols);
      assert Flatten(init) == data[..mid] by {
        FlattenLayout(data, rows - 1, cols);
      }
      assert FlattenRow(last) == data[mid..end] by {
        FlattenRowAt(data, mid, cols);
      }
      FlattenAppendRow(data, init, last, mid, end);
    }
  }

  /** The rows of a matrix, as an Image. */
  function Rows(m: array2<Pixel>): (img: Image)
    reads m
  {
    seq(m.Length0, r requires 0 <= r < m.Length0 reads m =>
      seq(m.Length1, c requires 0 <= c < m.Length1 reads m => m[r, c]))
  }

  /** The inner loop of get_image: fill row `row` of the matrix from the
      byte triples starting at `start`, leaving every other row as it was. */
  method FillRow(image: array2<Pixel>, data: seq<Byte>, row: nat, start: nat)
    requires row < image.Length0 && start + image.Length1 * 3 <= |data|
    modifies image
    ensures forall c :: 0 <= c < image.Length1 ==> image[row, c] == PixelFrom(data, start + c * 3)
    ensures forall r, c :: 0 <= r < image.Length0 && r != row && 0 <= c < image.Length1 ==>
      image[r, c] == old(image[r, c])
  {
    var i := start;
    for col := 0 to image.Length1
      invariant i == start + col * 3
      invariant forall c :: 0 <= c < col ==> image[row, c] == PixelFrom(data, start + c * 3)
      invariant forall r, c :: 0 <= r < image.Length0 && r != row && 0 <= c < image.Length1 ==>
        image[r, c] == old(image[r, c])
    {
      var blue := data[i];
      var green := data[i + 1];
      var red := data[i + 2];
      image[row, col] := Pixel(blue, green, red);
      i := i + 3;
    }
  }

  /** The nested loops of get_image: allocate a rows x cols matrix and fill
      it row by row from a running byte index. */
  method FillImage(data: seq<Byte>, rows: nat, cols: nat) returns (image: array2<Pixel>)
    requires rows * cols * 3 <= |data|
    ensures fresh(image)
    ensures image.Length0 == rows && image.Length1 == cols
    ensures Rows(image) == Layout(data, rows, cols)
  {
    image := new Pixel[rows, cols];
    ghost var img := Layout(data, rows, cols);
    var i := 0;
    for row := 0 to rows
      invariant i == row * cols * 3
      invariant forall r, c :: 0 <= r < row && 0 <= c < cols ==> image[r, c] == img[r][c]
    {
      RowFits(row, rows, cols);
      FillRow(image, data, row, i);
      assert img[row] == RowAt(data, i, cols);
      i := i + cols * 3;
      assert i == (row + 1) * cols * 3;
    }
    assert forall r :: 0 <= r < rows ==> Rows(image)[r] == img[r];
  }
}
