# Gaussian blur stage of a Go Canny edge detector, modelled in Dafny

The program in `main.go` reads an image, turns it into a tensor of 8-bit
gray levels, convolves the tensor with an integer Gaussian kernel and writes
the result back as an image. Its edge-detection stages are empty stubs. This
project models the parts of that program that do more than call a library:

- `pixels.dfy` (module `Pixels`): the gray-level and kernel-weight types, Go's
  narrowing conversion `uint8(v)` and Go's truncating integer division.
- `tensor.dfy` (module `Tensor`): `imageToTensor` and `tensorToImage`, with the
  image seen as the size of its bounds and an abstract gray level per point.
  It also models the round trip through both conversions.
- `convolution.dfy` (module `Convolution`): `applyGaussuianFilter`. This is a
  fresh zero-initialised output grid, the interior cells computed by
  four nested loops, and the kernel and divisor given as parameters. Beside it
  are the window sum as a specification function and lemmas about the result:
  - the zero border;
  - the quotient form of an interior cell;
  - index safety on the image and on the kernel;
  - bounds on the sum;
  - all-zero and uniform inputs;
  - the case where narrowing wraps nothing.
- `command_line.dfy` (module `CommandLine`): the argument handling at the top
  of `main`. It models `strings.Split` and `strings.Join` with both round-trip
  lemmas, the split of the output name at its last dot, the loop checking
  the extension against `jpg`, `jpeg` and `png`, and the error results for a
  short command line or a refused extension.
- `wrappers.dfy` (module `Wrappers`): the `Result` type of the error paths.

The input tensor and the kernel are Dafny sequences, so they are values: the
filter cannot change them. Its output is a freshly allocated `array2`,
indexed `[y, x]` like the Go `newImg[y][x]`. The image that `tensorToImage`
builds is also a fresh `array2`, indexed by the point `(x, y)` at which Go
calls `Set`.

What `main.go` does not do:
- It has no gradient, Sobel, sharpening or threshold stage. The functions
  at lines 209-215 are empty.
- It does not validate the kernel's size or sigma.
- It does not reject an empty image before the conversions.
- Its round trip through the two conversions is exact only for square
  images (see Findings).

## Model

| member | source | states |
|---|---|---|
| Pixels.ToUint8 | main.go:198 | the `uint8` conversion gives the gray level congruent to its argument modulo 256, and keeps a value already in 0..255 |
| Pixels.TruncDiv | main.go:198 | Go's `/` on `int`: the quotient's magnitude is the floor of the magnitudes' quotient, its sign is the product of the operands' signs, and for a non-negative dividend and positive divisor it is the Euclidean quotient |
| Tensor.ImageToTensor | main.go:79-99 | the tensor has `size.Y` rows of `size.X` cells and cell `[j][i]` is the image's gray level at `(j, i)`, row index first; the returned size is the image's |
| Tensor.TensorToImage | main.go:101-119 | a fresh image `len(pixels)` wide and `len(pixels[0])` high whose point `(x, y)` holds `pixels[x][y]`; defined when the first row exists and no row is shorter than it |
| Tensor.RoundTrip | main.go:79-119 | converting an image to a tensor and back yields an image `size.Y` wide and `size.X` high whose point `(x, y)` is the original's point `(x, y)`: width and height are swapped. For an image that is dark outside its bounds, as the gray image built at main.go:279 is, every output point outside the original rectangle is 0 |
| Tensor.RoundTripLandscape | main.go:87-114 | a 2-by-1 image with its bright point at (1, 0) comes back 1 wide and 2 high with every point dark |
| Tensor.ImageToTensorRowMajor | main.go:87-93 | corrected conversion: `size.Y` rows of `size.X` cells, cell `[j][i]` read at `(i, j)` |
| Tensor.TensorToImageRowMajor | main.go:105-114 | corrected conversion: a fresh image `len(pixels[0])` wide and `len(pixels)` high whose point `(x, y)` holds `pixels[y][x]` |
| Tensor.RoundTripRowMajor | main.go:79-119 | with the corrected pair the round trip returns the image with its own width and height and every point's gray level |
| Convolution.InteriorWindowFits | main.go:184-194 | for every interior cell, the image indices `y+i`, `x+j` stay inside the input grid, and the divisor is nonzero |
| Convolution.KernelIndicesInRange | main.go:175-194 | the kernel indices `i+k_lower`, `j+k_lower` (0..2k) all exist if and only if the kernel side is odd and every kernel row has at least that many weights |
| Convolution.AccumulateWindow | main.go:187-196 | the nested loops over `i` and `j` leave in `sum` the weighted window sum of img[y+i][x+j] * kernel[i+k][j+k] over i, j in -k..k |
| Convolution.ConvolvedCell | main.go:184-200 | an output cell is 0 unless it is at least k from every edge. If the image is narrower or lower than 2k+1, every cell is 0. With a positive divisor an interior cell is the window sum divided by `d`, modulo 256 |
| Convolution.ApplyGaussianFilter | main.go:170-207 | the result is a fresh grid of exactly `size.Y` rows by `size.X` columns, and every cell holds the convolved value (zero border, truncated quotient narrowed to 8 bits inside) |
| Convolution.WindowSumBounds | main.go:187-196 | the accumulated sum lies between 0 and 255 times the kernel's total weight |
| Convolution.UniformWindowSum | main.go:187-196 | on a uniform image of level v the accumulated sum is v times the kernel's total weight |
| Convolution.AllZeroInput | main.go:187-198 | an all-zero input gives 0 in every output cell, whatever the kernel and divisor |
| Convolution.UniformInput | main.go:187-198 | on a uniform image every interior cell is v times the kernel weight, divided and narrowed; when the divisor equals the kernel weight the constant level is kept |
| Convolution.NormalizedKernelDoesNotWrap | main.go:197-198 | with a positive divisor at least the kernel's total weight, narrowing wraps nothing and an interior cell is exactly the sum divided by `d` |
| CommandLine.Split | main.go:258 | `strings.Split` yields at least one piece and no piece contains the separator |
| CommandLine.JoinSplit | main.go:258-263 | joining the pieces of a split with the separator gives back the original string |
| CommandLine.SplitJoin | main.go:258-263 | splitting the join of a non-empty list of separator-free pieces gives back the list |
| CommandLine.SeparatorIffSeveralPieces | main.go:258-262 | a string contains the separator exactly when it splits into two or more pieces |
| CommandLine.JoinAppend | main.go:262-263 | joining a list with one more piece appends the separator and that piece |
| CommandLine.SplitExtension | main.go:257-263 | the extension contains no dot. With a dot in the argument, filename + "." + extension is the argument, so the extension is the text after the last dot. Without a dot the filename is empty and the extension is the argument |
| CommandLine.IsAllowedExtension | main.go:255-270 | `valid_ext` ends true exactly when the extension is `jpg`, `jpeg` or `png` |
| CommandLine.ParseArguments | main.go:250-274 | fewer than two arguments fail. Otherwise the output argument is accepted exactly when its extension is allowed, yielding the input name and the split output name, and a refused extension fails. The refused value is carried in the model's error; the program's panic message is fixed text |

## Left out

- `getGaussianKernel` (main.go:121-168) is entirely floating point (`math.Exp`, `math.Pow`, `math.Sqrt`, `math.Floor`, a reciprocal). The filter takes its kernel and the divisor `int(k_scalar)` as parameters. The float-to-int conversion of `k_scalar` is not modelled.
- `loadImage` and `exportImage` (main.go:30-49, 217-246) are file I/O and the standard PNG and JPEG encoders.
- `rgbToGreyscale` (main.go:51-77) is a library colour conversion. The tensor conversion sees the image only through the abstract function `at`, the composite of `img.At` and `color.GrayModel.Convert`.
- `getGradients`, `nonMaximumSuppression`, `doubleThreadhold` and `applyHistersis` (main.go:209-215) are empty and have no behaviour to model.
- The sequence of calls in `main` after the argument check (main.go:276-291) is I/O and logging around the modelled operations. It is not a member of its own.
- Progress output with `fmt.Println` is left out. The `panic` and `log.Fatal` paths become preconditions (index out of range, division by zero) or `Failure` results (command line).
- Convolution.ApplyGaussianFilter: does not model overflow of Go's `int` accumulator `sum` or of `int(nKer[..])`, because the model's integers are unbounded. On 64-bit targets, even with every weight at its `uint32` maximum, overflow needs a kernel about 3000 cells wide. On 32-bit targets `int` is 32 bits, and `int(nKer[..])` already wraps for a weight of 2^31 or more. The program uses a 5-by-5 kernel.
- Convolution.AccumulateWindow: the same unbounded `sum` as above.
- Tensor.TensorToImage: the `ok` of the Gray-to-Gray conversion is always true, so every point is set. The initial zero contents of `image.NewGray` are therefore not stated. The image's internal byte layout (`Pix`, `Stride`) is not modelled.
- CommandLine: Go strings are byte strings, and a Dafny `string` is a sequence of Unicode characters. For valid UTF-8 arguments, splitting at `.` and comparing with the ASCII extensions gives the same result. Arguments whose bytes are not valid UTF-8 cannot be represented.
- CommandLine.ParseArguments: the `ExtensionNotAllowed` error carries the refused extension. The program's panic at main.go:273 prints fixed text that does not include the extension and names only jpg and png.
- The input tensor is a value, so aliasing between the input and output of the filter is not modelled. In the program they are distinct allocations.

## Findings

| source | as written | input that shows it | evidently intended | confidence | as-written member | corrected member |
|---|---|---|---|---|---|---|
| main.go:87-114 | `imageToTensor` reads `img.At(j, i)` with the row index `j < size.Y` as the x coordinate. `tensorToImage` builds an image `len(pixels)` (that is `size.Y`) wide | an image 2 wide and 1 high whose only bright point is (1, 0) comes back 1 wide and 2 high, all dark | the round trip keeps the image's width, height and every pixel | not executed | Tensor.RoundTrip | Tensor.RoundTripRowMajor |

The concrete case is Tensor.RoundTripLandscape. The convolution works on the tensor whichever axis order it has, so the correction changes only the two conversions.
