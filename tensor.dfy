/**
 * The intensity tensor and the two conversions between it and an image
 * (main.go, imageToTensor and tensorToImage).
 *
 * A tensor is a sequence of rows of gray levels. The decoded image is seen
 * only through the size of its bounds and the gray level that the image
 * library's `color.GrayModel.Convert(img.At(x, y))` yields at a point; that
 * composite is the abstract function `at`.
 */
module Tensor {
  import opened Pixels

  /** Go's `image.Point`, used here as the size of an image's bounds. */
  datatype Point = Point(x: nat, y: nat)

  /** A decoded image: the size of its bounds and its gray level at each point. */
  datatype Image = Image(size: Point, at: (int, int) -> Gray)

  /** Point (x, y) lies inside the image's bounds, taken from the origin. */
  predicate InBounds(img: Image, x: int, y: int)
  {
    0 <= x < img.size.x && 0 <= y < img.size.y
  }

  /**
   * The image reads as black outside its bounds, as the `At` of a Go
   * `image.Gray` does (it returns `color.Gray{}` there).
   */
  ghost predicate DarkOutside(img: Image)
  {
    forall x, y :: !InBounds(img, x, y) ==> img.at(x, y) == 0
  }

  /** `t` has exactly `rows` rows of exactly `cols` gray levels each. */
  predicate IsGrid(t: seq<seq<Gray>>, rows: nat, cols: nat)
  {
    |t| == rows && forall r :: 0 <= r < rows ==> |t[r]| == cols
  }

  /**
   * imageToTensor: builds `size.y` rows by appending, each of `size.x` cells,
   * and cell `[j][i]` reads the image at `(j, i)`: the row index is passed as
   * the library's x coordinate. The size of the bounds is returned beside
   * the tensor.
   */
  method ImageToTensor(img: Image) returns (pixels: seq<seq<Gray>>, size: Point)
    ensures size == img.size
    ensures IsGrid(pixels, size.y, size.x)
    ensures forall j, i :: 0 <= j < size.y && 0 <= i < size.x ==> pixels[j][i] == img.at(j, i)
  {
    size := img.size;
    pixels := [];
    var j := 0;
    while j < size.y
      invariant 0 <= j <= size.y
      invariant IsGrid(pixels, j, size.x)
      invariant forall r, i :: 0 <= r < j && 0 <= i < size.x ==> pixels[r][i] == img.at(r, i)
    {
      var row: seq<Gray> := [];
      var i := 0;
      while i < size.x
        invariant 0 <= i <= size.x
        invariant |row| == i
        invariant forall c :: 0 <= c < i ==> row[c] == img.at(j, c)
      {
        row := row + [img.at(j, i)];
        i := i + 1;
      }
      pixels := pixels + [row];
      j := j + 1;
    }
  }

  /**
   * The indexing tensorToImage performs without a run-time panic: `pixels[0]`
   * exists, and every row has at least as many cells as the first one.
   */
  predicate Detensorizable(pixels: seq<seq<Gray>>)
  {
    |pixels| > 0 && forall x :: 0 <= x < |pixels| ==> |pixels[x]| >= |pixels[0]|
  }

  /**
   * tensorToImage: a fresh gray image over the rectangle from (0, 0) to
   * (len(pixels), len(pixels[0])), whose point `(x, y)` holds `pixels[x][y]`.
   * The result is the image's point store: `img[x, y]` is the gray level at
   * point `(x, y)`, so `img.Length0` is the width and `img.Length1` the height.
   */
  method TensorToImage(pixels: seq<seq<Gray>>) returns (img: array2<Gray>)
    requires Detensorizable(pixels)
    ensures fresh(img)
    ensures img.Length0 == |pixels| && img.Length1 == |pixels[0]|
    ensures forall x, y :: 0 <= x < img.Length0 && 0 <= y < img.Length1 ==> img[x, y] == pixels[x][y]
  {
    var width, height := |pixels|, |pixels[0]|;
    img := new Gray[width, height];
    var x := 0;
    while x < width
      invariant 0 <= x <= width
      invariant forall px, py :: 0 <= px < x && 0 <= py < height ==> img[px, py] == pixels[px][py]
    {
      var y := 0;
      while y < height
        invariant 0 <= y <= height
        invariant forall px, py :: 0 <= px < x && 0 <= py < height ==> img[px, py] == pixels[px][py]
        invariant forall py :: 0 <= py < y ==> img[x, py] == pixels[x][py]
      {
        img[x, y] := pixels[x][y];
        y := y + 1;
      }
      x := x + 1;
    }
  }

  /**
   * An image converted to a tensor and straight back, as the program's two
   * conversions do it: the result is `size.y` wide and `size.x` high, and its
   * point `(x, y)` is the source image's point `(x, y)`. The width and height
   * are swapped, so a non-square image comes back with the other shape.
   */
  method RoundTrip(img: Image) returns (out: array2<Gray>)
    requires img.size.y > 0
    ensures out.Length0 == img.size.y && out.Length1 == img.size.x
    ensures forall x, y :: 0 <= x < out.Length0 && 0 <= y < out.Length1 ==> out[x, y] == img.at(x, y)
    ensures DarkOutside(img) ==>
      forall x, y :: 0 <= x < out.Length0 && 0 <= y < out.Length1 && !InBounds(img, x, y) ==> out[x, y] == 0
  {
    var pixels, size := ImageToTensor(img);
    out := TensorToImage(pixels);
  }

  /**
   * A landscape image two points wide and one high whose only bright point
   * is (1, 0): after the round trip it is one point wide and two high, and
   * the bright point is gone.
   */
  method RoundTripLandscape() returns (out: array2<Gray>)
    ensures out.Length0 == 1 && out.Length1 == 2
    ensures forall x, y :: 0 <= x < 1 && 0 <= y < 2 ==> out[x, y] == 0
  {
    var img := Image(Point(2, 1), (x, y) => if x == 1 && y == 0 then 255 else 0);
    out := RoundTrip(img);
  }

  /**
   * imageToTensor with the library's axis order: cell `[j][i]` reads the
   * image at `(i, j)`, column first.
   */
  method ImageToTensorRowMajor(img: Image) returns (pixels: seq<seq<Gray>>, size: Point)
    ensures size == img.size
    ensures IsGrid(pixels, size.y, size.x)
    ensures forall j, i :: 0 <= j < size.y && 0 <= i < size.x ==> pixels[j][i] == img.at(i, j)
  {
    size := img.size;
    pixels := [];
    var j := 0;
    while j < size.y
      invariant 0 <= j <= size.y
      invariant IsGrid(pixels, j, size.x)
      invariant forall r, i :: 0 <= r < j && 0 <= i < size.x ==> pixels[r][i] == img.at(i, r)
    {
      var row: seq<Gray> := [];
      var i := 0;
      while i < size.x
        invariant 0 <= i <= size.x
        invariant |row| == i
        invariant forall c :: 0 <= c < i ==> row[c] == img.at(c, j)
      {
        row := row + [img.at(i, j)];
        i := i + 1;
      }
      pixels := pixels + [row];
      j := j + 1;
    }
  }

  /**
   * tensorToImage for a row-major tensor: the rectangle is len(pixels[0])
   * wide and len(pixels) high, and point `(x, y)` holds `pixels[y][x]`.
   */
  method TensorToImageRowMajor(pixels: seq<seq<Gray>>) returns (img: array2<Gray>)
    requires Detensorizable(pixels)
    ensures fresh(img)
    ensures img.Length0 == |pixels[0]| && img.Length1 == |pixels|
    ensures forall x, y :: 0 <= x < img.Length0 && 0 <= y < img.Length1 ==> img[x, y] == pixels[y][x]
  {
    var width, height := |pixels[0]|, |pixels|;
    img := new Gray[width, height];
    var y := 0;
    while y < height
      invariant 0 <= y <= height
      invariant forall px, py :: 0 <= px < width && 0 <= py < y ==> img[px, py] == pixels[py][px]
    {
      var x := 0;
      while x < width
        invariant 0 <= x <= width
        invariant forall px, py :: 0 <= px < width && 0 <= py < y ==> img[px, py] == pixels[py][px]
        invariant forall px :: 0 <= px < x ==> img[px, y] == pixels[y][px]
      {
        img[x, y] := pixels[y][x];
        x := x + 1;
      }
      y := y + 1;
    }
  }

  /**
   * The round trip through the row-major pair gives back the image exactly:
   * the same width and height, and the same gray level at every point.
   */
  method RoundTripRowMajor(img: Image) returns (out: array2<Gray>)
    requires img.size.y > 0
    ensures out.Length0 == img.size.x && out.Length1 == img.size.y
    ensures forall x, y :: 0 <= x < out.Length0 && 0 <= y < out.Length1 ==> out[x, y] == img.at(x, y)
  {
    var pixels, size := ImageToTensorRowMajor(img);
    out := TensorToImageRowMajor(pixels);
  }
}
