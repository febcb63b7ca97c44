/**
 * The convolution engine of main.go, applyGaussuianFilter: a square kernel
 * of uint32 weights slid over a tensor, with a zero border of the kernel's
 * half-width on every side.
 *
 * The kernel and the divisor `d`, Go's `int(k_scalar)`, are parameters; the
 * floating-point synthesis that produces them is not part of this model.
 */
module Convolution {
  import opened Pixels
  import opened Tensor

  /** `k_lower`, the kernel's half-width: len(kernel) / 2. */
  function Half(kernel: seq<seq<Weight>>): nat
  {
    |kernel| / 2
  }

  /** Cell (y, x) of a `size.y` by `size.x` output lies at least `k` from every edge. */
  predicate Interior(size: Point, k: nat, y: int, x: int)
  {
    k <= y < size.y - k && k <= x < size.x - k
  }

  /** Some cell of the output is interior, so the convolution loop body runs. */
  predicate HasInterior(size: Point, k: nat)
  {
    size.y > 2 * k && size.x > 2 * k
  }

  /** The kernel side is odd and every row has at least that many weights. */
  predicate KernelCovers(kernel: seq<seq<Weight>>)
  {
    |kernel| % 2 == 1 && forall a :: 0 <= a < |kernel| ==> |kernel[a]| >= |kernel|
  }

  /** `kernel[a][b]` exists. */
  predicate KernelIndexValid(kernel: seq<seq<Weight>>, a: int, b: int)
  {
    0 <= a < |kernel| && 0 <= b < |kernel[a]|
  }

  /** The input holds every cell of the `size.y` by `size.x` grid. */
  predicate CoversSize(img: seq<seq<Gray>>, size: Point)
  {
    |img| >= size.y && forall r :: 0 <= r < size.y ==> |img[r]| >= size.x
  }

  /**
   * What applyGaussuianFilter needs to run without an index-out-of-range or
   * divide-by-zero panic. Nothing is read unless some cell is interior; then
   * every kernel index, every input cell of the grid and the divisor are used.
   */
  predicate FilterDefined(size: Point, img: seq<seq<Gray>>, kernel: seq<seq<Weight>>, d: int)
  {
    HasInterior(size, Half(kernel)) ==> KernelCovers(kernel) && d != 0 && CoversSize(img, size)
  }

  /** The (2k+1) by (2k+1) window centred on (y, x) lies inside `img`, and the kernel covers it. */
  predicate WindowFits(img: seq<seq<Gray>>, kernel: seq<seq<Weight>>, y: int, x: int)
  {
    var k := Half(kernel);
    && KernelCovers(kernel)
    && k <= y && y + k < |img| && k <= x
    && forall r :: y - k <= r <= y + k ==> x + k < |img[r]|
  }

  /** The product the loop adds for window offset (i, j), each in -k .. k. */
  function Term(img: seq<seq<Gray>>, kernel: seq<seq<Weight>>, y: int, x: int, i: int, j: int): int
    requires WindowFits(img, kernel, y, x)
    requires 0 <= i + Half(kernel) <= 2 * Half(kernel) && 0 <= j + Half(kernel) <= 2 * Half(kernel)
  {
    var k := Half(kernel);
    img[y + i][x + j] * kernel[i + k][j + k]
  }

  /** The terms of window row `i` for the first `m` column offsets -k .. -k+m-1. */
  function RowSum(img: seq<seq<Gray>>, kernel: seq<seq<Weight>>, y: int, x: int, i: int, m: nat): int
    requires WindowFits(img, kernel, y, x)
    requires 0 <= i + Half(kernel) <= 2 * Half(kernel) && m <= 2 * Half(kernel) + 1
  {
    if m == 0 then 0
    else RowSum(img, kernel, y, x, i, m - 1) + Term(img, kernel, y, x, i, m - 1 - Half(kernel))
  }

  /** The full rows of the first `m` row offsets -k .. -k+m-1. */
  function RowsSum(img: seq<seq<Gray>>, kernel: seq<seq<Weight>>, y: int, x: int, m: nat): int
    requires WindowFits(img, kernel, y, x)
    requires m <= 2 * Half(kernel) + 1
  {
    var k := Half(kernel);
    if m == 0 then 0
    else RowsSum(img, kernel, y, x, m - 1) + RowSum(img, kernel, y, x, m - 1 - k, 2 * k + 1)
  }

  /**
   * The weighted sum of the window of (y, x): the sum over i, j in -k .. k of
   * img[y+i][x+j] * kernel[i+k][j+k], added up row by row as the loop does.
   */
  function WindowSum(img: seq<seq<Gray>>, kernel: seq<seq<Weight>>, y: int, x: int): int
    requires WindowFits(img, kernel, y, x)
  {
    RowsSum(img, kernel, y, x, 2 * Half(kernel) + 1)
  }

  /** The weights of kernel row `k + i` in columns 0 .. m-1. */
  function KernelRowSum(kernel: seq<seq<Weight>>, i: int, m: nat): int
    requires KernelCovers(kernel)
    requires 0 <= i + Half(kernel) <= 2 * Half(kernel) && m <= 2 * Half(kernel) + 1
  {
    if m == 0 then 0
    else KernelRowSum(kernel, i, m - 1) + kernel[i + Half(kernel)][m - 1]
  }

  /** The weights of the first `m` kernel rows. */
  function KernelRowsSum(kernel: seq<seq<Weight>>, m: nat): int
    requires KernelCovers(kernel)
    requires m <= 2 * Half(kernel) + 1
  {
    var k := Half(kernel);
    if m == 0 then 0
    else KernelRowsSum(kernel, m - 1) + KernelRowSum(kernel, m - 1 - k, 2 * k + 1)
  }

  /** The total weight of the (2k+1) by (2k+1) kernel. */
  function KernelSum(kernel: seq<seq<Weight>>): int
    requires KernelCovers(kernel)
  {
    KernelRowsSum(kernel, 2 * Half(kernel) + 1)
  }

  /**
   * Output cell (y, x) of applyGaussuianFilter: zero on the border of width
   * k, and on an interior cell the window sum divided by `d` with Go's
   * truncating division and narrowed to eight bits. For a positive divisor
   * that is the window sum's quotient by `d`, modulo 256.
   */
  function ConvolvedCell(img: seq<seq<Gray>>, kernel: seq<seq<Weight>>, d: int, size: Point, y: int, x: int): (c: Gray)
    requires FilterDefined(size, img, kernel, d)
    requires 0 <= y < size.y && 0 <= x < size.x
    ensures !Interior(size, Half(kernel), y, x) ==> c == 0
    ensures !HasInterior(size, Half(kernel)) ==> c == 0
    ensures Interior(size, Half(kernel), y, x) && d > 0 ==>
      c == (WindowSum(img, kernel, y, x) / d) % 256
  {
    if Interior(size, Half(kernel), y, x) then
      InteriorWindowFits(size, img, kernel, d, y, x);
      WindowSumBounds(img, kernel, y, x);
      ToUint8(TruncDiv(WindowSum(img, kernel, y, x), d))
    else
      0
  }

  /**
   * Index safety on the image side: the window of an interior cell stays in
   * rows 0 .. size.y-1 and columns 0 .. size.x-1, all of which the input has.
   */
  lemma InteriorWindowFits(size: Point, img: seq<seq<Gray>>, kernel: seq<seq<Weight>>, d: int, y: int, x: int)
    requires FilterDefined(size, img, kernel, d)
    requires Interior(size, Half(kernel), y, x)
    ensures HasInterior(size, Half(kernel)) && d != 0
    ensures WindowFits(img, kernel, y, x)
  {
  }

  /**
   * Index safety on the kernel side: the loop forms the kernel indices
   * i + k_lower and j + k_lower for i, j in -k .. k, that is 0 .. 2k. All of
   * them exist exactly when the kernel side is odd and every row has at
   * least that many weights.
   */
  lemma KernelIndicesInRange(kernel: seq<seq<Weight>>)
    ensures (forall a, b :: 0 <= a <= 2 * Half(kernel) && 0 <= b <= 2 * Half(kernel) ==> KernelIndexValid(kernel, a, b))
        <==> KernelCovers(kernel)
  {
    var k := Half(kernel);
    if forall a, b :: 0 <= a <= 2 * k && 0 <= b <= 2 * k ==> KernelIndexValid(kernel, a, b) {
      assert KernelIndexValid(kernel, 2 * k, 2 * k);
      assert |kernel| == 2 * k + 1;
      forall a | 0 <= a < |kernel|
        ensures |kernel[a]| >= |kernel|
      {
        assert KernelIndexValid(kernel, a, 2 * k);
      }
    }
  }

  /**
   * The inner two loops of applyGaussuianFilter at one cell: the `sum`
   * accumulated over i and j in -k .. k is the window sum.
   */
  method AccumulateWindow(oldImg: seq<seq<Gray>>, kernel: seq<seq<Weight>>, y: int, x: int) returns (sum: int)
    requires WindowFits(oldImg, kernel, y, x)
    ensures sum == WindowSum(oldImg, kernel, y, x)
  {
    var kLower := |kernel| / 2;
    var kUpper := kLower + 1;
    sum := 0;
    var i := -kLower;
    while i < kUpper
      invariant -kLower <= i <= kUpper
      invariant sum == RowsSum(oldImg, kernel, y, x, i + kLower)
    {
      var j := -kLower;
      while j < kUpper
        invariant -kLower <= j <= kUpper
        invariant sum == RowsSum(oldImg, kernel, y, x, i + kLower) + RowSum(oldImg, kernel, y, x, i, j + kLower)
      {
        var pixel := oldImg[y + i][x + j];
        sum := sum + pixel * kernel[i + kLower][j + kLower];
        j := j + 1;
      }
      i := i + 1;
    }
  }

  /**
   * applyGaussuianFilter: a fresh `size.y` by `size.x` grid, zero-initialised,
   * whose interior cells are then computed one by one; the input tensor and
   * the kernel are values and are only read.
   */
  method ApplyGaussianFilter(size: Point, oldImg: seq<seq<Gray>>, kernel: seq<seq<Weight>>, d: int)
    returns (newImg: array2<Gray>)
    requires FilterDefined(size, oldImg, kernel, d)
    ensures fresh(newImg)
    ensures newImg.Length0 == size.y && newImg.Length1 == size.x
    ensures forall y, x :: 0 <= y < size.y && 0 <= x < size.x ==>
      newImg[y, x] == ConvolvedCell(oldImg, kernel, d, size, y, x)
  {
    var kLower := |kernel| / 2;
    newImg := new Gray[size.y, size.x]((_, _) => 0);
    var y := kLower;
    while y < size.y - kLower
      invariant kLower <= y
      invariant y <= size.y - kLower || y == kLower
      invariant forall r, c :: 0 <= r < size.y && 0 <= c < size.x ==>
        newImg[r, c] == if r < y then ConvolvedCell(oldImg, kernel, d, size, r, c) else 0
    {
      var x := kLower;
      while x < size.x - kLower
        invariant kLower <= x
        invariant x <= size.x - kLower || x == kLower
        invariant forall r, c :: 0 <= r < size.y && 0 <= c < size.x ==>
          newImg[r, c] == if r < y || (r == y && c < x) then ConvolvedCell(oldImg, kernel, d, size, r, c) else 0
      {
        InteriorWindowFits(size, oldImg, kernel, d, y, x);
        var sum := AccumulateWindow(oldImg, kernel, y, x);
        newImg[y, x] := ToUint8(TruncDiv(sum, d));
        x := x + 1;
      }
      y := y + 1;
    }
  }

  /** Each row's terms lie between 0 and 255 times the row's weight. */
  lemma {:induction false} RowSumBounds(img: seq<seq<Gray>>, kernel: seq<seq<Weight>>, y: int, x: int, i: int, m: nat)
    requires WindowFits(img, kernel, y, x)
    requires 0 <= i + Half(kernel) <= 2 * Half(kernel) && m <= 2 * Half(kernel) + 1
    ensures 0 <= RowSum(img, kernel, y, x, i, m) <= 255 * KernelRowSum(kernel, i, m)
  {
    if m > 0 {
      RowSumBounds(img, kernel, y, x, i, m - 1);
      var k := Half(kernel);
      var p, w := img[y + i][x + m - 1 - k], kernel[i + k][m - 1];
      assert Term(img, kernel, y, x, i, m - 1 - k) == p * w;
      assert KernelRowSum(kernel, i, m) == KernelRowSum(kernel, i, m - 1) + w;
      ProductBounds(p, w);
    }
  }

  lemma ProductBounds(p: Gray, w: nat)
    ensures 0 <= p * w <= 255 * w
  {
    assert (255 - p) * w >= 0;
  }

  lemma {:induction false} RowsSumBounds(img: seq<seq<Gray>>, kernel: seq<seq<Weight>>, y: int, x: int, m: nat)
    requires WindowFits(img, kernel, y, x)
    requires m <= 2 * Half(kernel) + 1
    ensures 0 <= RowsSum(img, kernel, y, x, m) <= 255 * KernelRowsSum(kernel, m)
  {
    if m > 0 {
      var k := Half(kernel);
      RowsSumBounds(img, kernel, y, x, m - 1);
      RowSumBounds(img, kernel, y, x, m - 1 - k, 2 * k + 1);
    }
  }

  /**
   * The accumulated sum is never negative and never more than 255 times the
   * kernel's total weight.
   */
  lemma WindowSumBounds(img: seq<seq<Gray>>, kernel: seq<seq<Weight>>, y: int, x: int)
    requires WindowFits(img, kernel, y, x)
    ensures 0 <= WindowSum(img, kernel, y, x) <= 255 * KernelSum(kernel)
  {
    RowsSumBounds(img, kernel, y, x, 2 * Half(kernel) + 1);
  }

  /** `img` holds the gray level `v` in every cell. */
  predicate Uniform(img: seq<seq<Gray>>, v: Gray)
  {
    forall r, c :: 0 <= r < |img| && 0 <= c < |img[r]| ==> img[r][c] == v
  }

  lemma {:induction false} UniformRowSum(img: seq<seq<Gray>>, kernel: seq<seq<Weight>>, y: int, x: int, v: Gray, i: int, m: nat)
    requires WindowFits(img, kernel, y, x) && Uniform(img, v)
    requires 0 <= i + Half(kernel) <= 2 * Half(kernel) && m <= 2 * Half(kernel) + 1
    ensures RowSum(img, kernel, y, x, i, m) == v * KernelRowSum(kernel, i, m)
  {
    if m > 0 {
      UniformRowSum(img, kernel, y, x, v, i, m - 1);
      var k := Half(kernel);
      var w := kernel[i + k][m - 1];
      assert img[y + i][x + m - 1 - k] == v;
      assert Term(img, kernel, y, x, i, m - 1 - k) == v * w;
      Distribute(v, KernelRowSum(kernel, i, m - 1), w);
    }
  }

  lemma {:induction false} UniformRowsSum(img: seq<seq<Gray>>, kernel: seq<seq<Weight>>, y: int, x: int, v: Gray, m: nat)
    requires WindowFits(img, kernel, y, x) && Uniform(img, v)
    requires m <= 2 * Half(kernel) + 1
    ensures RowsSum(img, kernel, y, x, m) == v * KernelRowsSum(kernel, m)
  {
    if m > 0 {
      var k := Half(kernel);
      UniformRowsSum(img, kernel, y, x, v, m - 1);
      UniformRowSum(img, kernel, y, x, v, m - 1 - k, 2 * k + 1);
      Distribute(v, KernelRowsSum(kernel, m - 1), KernelRowSum(kernel, m - 1 - k, 2 * k + 1));
    }
  }

  lemma Distribute(v: int, a: int, b: int)
    ensures v * a + v * b == v * (a + b)
  {
  }

  /** On a uniform image of level `v` the window sum is `v` times the kernel's total weight. */
  lemma UniformWindowSum(img: seq<seq<Gray>>, kernel: seq<seq<Weight>>, y: int, x: int, v: Gray)
    requires WindowFits(img, kernel, y, x) && Uniform(img, v)
    ensures WindowSum(img, kernel, y, x) == v * KernelSum(kernel)
  {
    UniformRowsSum(img, kernel, y, x, v, 2 * Half(kernel) + 1);
  }

  /** An all-zero input gives an all-zero output, whatever the kernel and divisor. */
  lemma AllZeroInput(size: Point, img: seq<seq<Gray>>, kernel: seq<seq<Weight>>, d: int, y: int, x: int)
    requires FilterDefined(size, img, kernel, d) && Uniform(img, 0)
    requires 0 <= y < size.y && 0 <= x < size.x
    ensures ConvolvedCell(img, kernel, d, size, y, x) == 0
  {
    if Interior(size, Half(kernel), y, x) {
      InteriorWindowFits(size, img, kernel, d, y, x);
      UniformWindowSum(img, kernel, y, x, 0);
      assert TruncDiv(0, d) == 0;
    }
  }

  /**
   * On a uniform image of level `v` every interior cell is `v` times the
   * kernel weight, divided by `d` and narrowed; when the divisor equals the
   * kernel's total weight, the constant field is kept.
   */
  lemma UniformInput(size: Point, img: seq<seq<Gray>>, kernel: seq<seq<Weight>>, d: int, y: int, x: int, v: Gray)
    requires FilterDefined(size, img, kernel, d) && Uniform(img, v)
    requires 0 <= y < size.y && 0 <= x < size.x && Interior(size, Half(kernel), y, x)
    ensures ConvolvedCell(img, kernel, d, size, y, x) == ToUint8(TruncDiv(v * KernelSum(kernel), d))
    ensures KernelSum(kernel) == d ==> ConvolvedCell(img, kernel, d, size, y, x) == v
  {
    InteriorWindowFits(size, img, kernel, d, y, x);
    UniformWindowSum(img, kernel, y, x, v);
    var s := KernelSum(kernel);
    if s == d {
      WindowSumBounds(img, kernel, y, x);
      MulDivCancel(v, d);
    }
  }

  lemma MulDivCancel(v: nat, d: int)
    requires d > 0
    ensures (v * d) / d == v
  {
    var q, r := (v * d) / d, (v * d) % d;
    assert v * d == q * d + r && 0 <= r < d;
    assert q < v ==> (q + 1) * d <= v * d;
    assert q > v ==> q * d >= (v + 1) * d;
  }

  /**
   * When the divisor is positive and at least the kernel's total weight,
   * the quotient is already a gray level and the eight-bit narrowing wraps
   * nothing: the interior cell is the window sum divided by `d`.
   */
  lemma NormalizedKernelDoesNotWrap(size: Point, img: seq<seq<Gray>>, kernel: seq<seq<Weight>>, d: int, y: int, x: int)
    requires FilterDefined(size, img, kernel, d)
    requires 0 <= y < size.y && 0 <= x < size.x && Interior(size, Half(kernel), y, x)
    requires d > 0 && KernelSum(kernel) <= d
    ensures ConvolvedCell(img, kernel, d, size, y, x) == WindowSum(img, kernel, y, x) / d
  {
    InteriorWindowFits(size, img, kernel, d, y, x);
    WindowSumBounds(img, kernel, y, x);
    var s := WindowSum(img, kernel, y, x);
    assert s <= 255 * d;
    QuotientBelow(s, d, 256);
  }

  lemma QuotientBelow(n: nat, d: int, c: nat)
    requires d > 0 && n < c * d
    ensures n / d < c
  {
    var q, r := n / d, n % d;
    assert n == q * d + r && 0 <= r < d;
    assert q >= c ==> q * d >= c * d;
  }
}
