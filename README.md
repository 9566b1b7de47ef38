# jcte in Dafny

A model of the core of jcte, a small Java library for computed-tomography
experiments. It covers two parts.

- **Containers** (`CtMatrices`, `CtVectors`): the matrix and vector
  containers the algorithms run on. `ArrayCtVector` is a fixed-size array of
  reals that its methods change in place. `ArrayCtMatrix` holds a sequence of
  row vectors; `getVector` hands out the row objects themselves, so rows stay
  shared.
- **Algorithms** (`Rotation`, `Sinograms`, `Filtering`, `Reconstruction`,
  `Extension`): the image-processing operations of class `Jcte`, one module
  per operation:
  - nearest-neighbour rotation (`rotate`);
  - forward projection into a sinogram (`makeSinogram`);
  - the filter kernel and the row filter (`computeFiler`, `applyFilter`);
  - back projection (`reconstruct`);
  - padding a phantom so that it fits under any rotation (`extend`).

Supporting modules:

- `JavaLang`: Java's exceptions, 32-bit wrap-around, truncating `/` and `%`,
  and `Math.round`.
- `Convolution`: the full convolution as a function on sequences.
- `Grids`: matrices as values (sequences of rows), with column sums,
  elementwise sums and the effect of a matrix paste.

Each Java method becomes a Dafny method with the same branches, the same
loops and the same exceptions. Its result or its new state is tied to a
specification function over `Grid` values, and the algorithm's properties
are proved about those functions as lemmas.

Java exceptions are results: `Result<T>` (`Ok`/`Err`) for methods that
return a value, `Outcome` (`Pass`/`Fail`) for `void` methods. An operation
that raises before changing anything is proved to leave the state as it was.

## Model
| member | source | states |
|---|---|---|
| JavaLang.Wrap32 | src/pl/jasiowka/jcte/struct/ArrayCtVector.java:117 | the 32-bit value of an `int` expression: unchanged inside the `int` range, shifted by 2^32 just outside it |
| JavaLang.JavaDiv | src/pl/jasiowka/jcte/Jcte.java:91-92 | Java's `/` truncates toward zero: floor division for non-negative dividends, minus the quotient of the negation for negative ones |
| JavaLang.JavaRem | src/pl/jasiowka/jcte/Jcte.java:62-63 | Java's `%` agrees with the mathematical remainder for non-negative operands |
| JavaLang.JavaDivEven | src/pl/jasiowka/jcte/Jcte.java:91-92 | halving an even number with truncating division is exact, whatever its sign |
| JavaLang.RoundNearest | src/pl/jasiowka/jcte/Jcte.java:89-90 | `Math.round` gives the nearest integer, ties rounding up: `r - 1/2 <= x < r + 1/2` |
| JavaLang.RoundOfInt | src/pl/jasiowka/jcte/Jcte.java:89-90 | `Math.round` of an integral value is that value |
| Convolution.Conv | src/pl/jasiowka/jcte/struct/CtVector.java:49-56 | the convolution of sizes `n` and `m` has `n + m - 1` entries |
| Convolution.ConvCommutes | src/pl/jasiowka/jcte/struct/ArrayCtVector.java:87-96 | convolution is commutative: `Conv(a, f) == Conv(f, a)` |
| Convolution.ConvUnitKernel | src/pl/jasiowka/jcte/struct/ArrayCtVector.java:87-96 | convolving with the one-entry kernel `[1]` returns the vector unchanged |
| Convolution.ConvFromIsTermSum | src/pl/jasiowka/jcte/struct/ArrayCtVector.java:90-94 | the sum the nested loops accumulate equals the sum of products `a[i] * f[k - i]` over every host position |
| CtVectors.OverwriteIsSplice | src/pl/jasiowka/jcte/struct/ArrayCtVector.java:118-119 | writing `s` over `d` from position `x` is the splice of `s` between the head of `d` before `x` and the tail of `d` after the written entries |
| CtVectors.SelfPasteWithoutOverlap | src/pl/jasiowka/jcte/struct/ArrayCtVector.java:114-120 | pasting a vector into itself, when the copied prefix ends before the target position, is an ordinary overwrite with its own prefix |
| CtVectors.PastedOutcome | src/pl/jasiowka/jcte/struct/ArrayCtVector.java:114-120 | a paste raises if and only if it has entries to copy and a negative offset; it then raises IndexOutOfBounds |
| CtVectors.PasteAtOffset | src/pl/jasiowka/jcte/struct/ArrayCtVector.java:116-119 | at a non-negative offset, the smaller of the source size and `size - x` entries are copied and every other entry is kept; at `x >= size` nothing changes |
| CtVectors.PasteAtNegativeOffset | src/pl/jasiowka/jcte/struct/ArrayCtVector.java:116-119 | a negative offset raises IndexOutOfBounds unless `size - x` overflows `int`; then the paste silently does nothing |
| CtVectors.ZeroVector | src/pl/jasiowka/jcte/struct/CtVectorFactory.java:27-35 | a new vector of size `n` holds `n` zeros |
| CtVectors.Added | src/pl/jasiowka/jcte/struct/ArrayCtVector.java:101-102 | the elementwise sum, entry `p` being `a[p] + b[p]` |
| CtVectors.ArrayCtVector.constructor | src/pl/jasiowka/jcte/struct/ArrayCtVector.java:51-55 | a fresh vector of the given size holding only zeros |
| CtVectors.ArrayCtVector.Adopt | src/pl/jasiowka/jcte/struct/ArrayCtVector.java:65-69 | the vector wraps the caller's array itself, not a copy |
| CtVectors.ArrayCtVector.Update | src/pl/jasiowka/jcte/struct/ArrayCtVector.java:77-79 | stores at `x` and nowhere else; an index out of range raises IndexOutOfBounds and changes nothing |
| CtVectors.ArrayCtVector.Get | src/pl/jasiowka/jcte/struct/ArrayCtVector.java:82-84 | succeeds if and only if the index is in range, and then returns the entry there |
| CtVectors.ArrayCtVector.Conv | src/pl/jasiowka/jcte/struct/ArrayCtVector.java:87-96 | a null filter raises; a result size past `int` raises; otherwise a fresh vector holding the full convolution, with neither operand changed |
| CtVectors.ArrayCtVector.Sum | src/pl/jasiowka/jcte/struct/ArrayCtVector.java:99-103 | a null or different-size argument raises and changes nothing; otherwise the new contents are the elementwise sum of the old contents of both |
| CtVectors.ArrayCtVector.Max | src/pl/jasiowka/jcte/struct/ArrayCtVector.java:106-111 | the result is one of the entries and no entry exceeds it |
| CtVectors.ArrayCtVector.Paste | src/pl/jasiowka/jcte/struct/ArrayCtVector.java:114-120 | a null source raises; otherwise the new contents or the exception are those of `Pasted`, including a source that shares this vector's array |
| CtVectors.CreateArrayCtVector | src/pl/jasiowka/jcte/struct/CtVectorFactory.java:33-35 | a size below 1 raises IllegalArgument; otherwise a fresh vector of zeros |
| CtVectors.CreateArrayCtVectorFrom | src/pl/jasiowka/jcte/struct/CtVectorFactory.java:44-46 | a null or empty array raises IllegalArgument; otherwise the vector shares the given array |
| CtMatrices.ArrayCtMatrix.constructor | src/pl/jasiowka/jcte/struct/ArrayCtMatrix.java:59-65 | `height` fresh, distinct rows of `width` zeros |
| CtMatrices.ArrayCtMatrix.Update | src/pl/jasiowka/jcte/struct/ArrayCtMatrix.java:103-105 | cell `(x, y)` gets the value and no other cell changes; a coordinate out of range raises IndexOutOfBounds and changes nothing |
| CtMatrices.ArrayCtMatrix.Get | src/pl/jasiowka/jcte/struct/ArrayCtMatrix.java:108-110 | succeeds if and only if both coordinates are in range, and then returns that cell |
| CtMatrices.ArrayCtMatrix.GetVector | src/pl/jasiowka/jcte/struct/ArrayCtMatrix.java:126-128 | succeeds if and only if the row is in range, and returns the row object itself, whose array belongs to the matrix |
| CtMatrices.ArrayCtMatrix.Sum | src/pl/jasiowka/jcte/struct/ArrayCtMatrix.java:131-136 | null or different dimensions raise and change nothing; otherwise every cell becomes the sum of the old cells of both matrices, also when adding a matrix to itself |
| CtMatrices.ArrayCtMatrix.Max | src/pl/jasiowka/jcte/struct/ArrayCtMatrix.java:139-146 | raises IndexOutOfBounds if and only if the matrix has no rows; otherwise returns a cell that no cell exceeds |
| CtMatrices.ArrayCtMatrix.SumCols | src/pl/jasiowka/jcte/struct/ArrayCtMatrix.java:149-154 | a width below 1 raises; otherwise a fresh vector whose entry `k` is the sum of column `k` |
| CtMatrices.ArrayCtMatrix.Paste | src/pl/jasiowka/jcte/struct/ArrayCtMatrix.java:157-165 | a null argument raises; otherwise the new cells or the exception are those of `PastedGrid` applied to the old cells of both matrices |
| CtMatrices.ArrayCtMatrix.PasteRows | src/pl/jasiowka/jcte/struct/ArrayCtMatrix.java:163-164 | raises exactly for a negative row, or a negative column with entries to copy, before writing anything; otherwise the rows from `y` on hold the row pastes |
| CtMatrices.ArrayCtMatrix.PasteBandRow | src/pl/jasiowka/jcte/struct/ArrayCtMatrix.java:164 | one row paste extends the pasted band by one row, or raises with nothing changed |
| CtMatrices.ArrayCtMatrix.PasteVector | src/pl/jasiowka/jcte/struct/ArrayCtMatrix.java:168-172 | a null or wrong-size vector raises IllegalArgument and a row out of range raises IndexOutOfBounds, changing nothing; otherwise only row `y` changes, to the vector's values |
| CtMatrices.CreateArrayCtMatrix | src/pl/jasiowka/jcte/struct/CtMatrixFactory.java:36-38 | a negative height raises NegativeArraySize; rows with a width below 1 raise IllegalArgument; otherwise a fresh zero matrix of the given dimensions |
| CtMatrices.RowStaysShared | src/pl/jasiowka/jcte/struct/CtMatrix.java:75-81 | a row taken with `getVector` sees a value later stored through the matrix |
| CtMatrices.AdoptedArrayStaysShared | src/pl/jasiowka/jcte/struct/CtVectorFactory.java:37-46 | a vector made from an array sees later stores into that array |
| Grids.Zeros | src/pl/jasiowka/jcte/struct/CtMatrixFactory.java:29-38 | a `w` by `h` grid of zeros |
| Grids.ColSumsOfConstant | src/pl/jasiowka/jcte/struct/CtMatrix.java:93-97 | every column sum of a constant `v` matrix with `h` rows is `v * h` |
| Grids.ColSumsUpToAll | src/pl/jasiowka/jcte/struct/ArrayCtMatrix.java:149-154 | adding the rows one by one into a zero vector yields the column sums |
| Grids.ColSumsAdditive | src/pl/jasiowka/jcte/struct/CtMatrix.java:93-97 | the column sums of a sum of two matrices are the sums of their column sums |
| Grids.PastedGridOutcome | src/pl/jasiowka/jcte/struct/ArrayCtMatrix.java:157-165 | a matrix paste with no rows to copy changes nothing; otherwise it raises if and only if the row offset is negative or the first row paste raises |
| Grids.PastedRegion | src/pl/jasiowka/jcte/struct/ArrayCtMatrix.java:157-165 | at non-negative offsets a paste succeeds: cells inside the clipped window hold the source, all other cells keep their values |
| Grids.PastedRowCells | src/pl/jasiowka/jcte/struct/ArrayCtMatrix.java:164 | one row paste at a non-negative column keeps the row length and writes exactly the clipped window |
| Rotation.UncentredCentred | src/pl/jasiowka/jcte/Jcte.java:86-92 | the odd-coordinate map and its way back are inverse on pixel indices |
| Rotation.Rotate | src/pl/jasiowka/jcte/Jcte.java:77-100 | a null matrix raises IllegalArgument; otherwise a fresh matrix of the same size holding `Rotated` of the input, with the input unchanged |
| Rotation.RotateRow | src/pl/jasiowka/jcte/Jcte.java:87-97 | the inner loop leaves output row `y` equal to row `y` of the rotated image |
| Rotation.RotatePixel | src/pl/jasiowka/jcte/Jcte.java:88-96 | one loop turn sets output pixel `x` to its rotated value and changes nothing else |
| Rotation.ZeroTurnSource | src/pl/jasiowka/jcte/Jcte.java:86-92 | at angle 0 every pixel is its own source |
| Rotation.RotateByZero | src/pl/jasiowka/jcte/Jcte.java:71-100 | rotating by 0 degrees returns an exact copy |
| Rotation.HalfTurnSource | src/pl/jasiowka/jcte/Jcte.java:86-92 | under a half turn pixel `p` of an `n`-pixel axis reads pixel `2 (n/2) - 1 - p` |
| Rotation.HalfTurnEven | src/pl/jasiowka/jcte/Jcte.java:85-98 | with even width and height a half turn is the point reflection through the centre |
| Rotation.HalfTurnTwiceEven | src/pl/jasiowka/jcte/Jcte.java:77-100 | with even width and height two half turns restore the image |
| Rotation.HalfTurnOddWidth | src/pl/jasiowka/jcte/Jcte.java:85-98 | with odd width a half turn leaves the last column all zero, whatever the input |
| Rotation.RotatedZero | src/pl/jasiowka/jcte/Jcte.java:93-96 | a rotated zero image is zero |
| Sinograms.MakeSinogram | src/pl/jasiowka/jcte/Jcte.java:111-123 | null phantom, range outside `[1, 360]` or negative projection count raise IllegalArgument; a zero count raises Arithmetic; a width below 1 raises IllegalArgument; otherwise row `i` of a fresh `width` by `projections` matrix is the projection at `i * (range / projections)` degrees, with the phantom unchanged |
| Sinograms.PasteProjection | src/pl/jasiowka/jcte/Jcte.java:119 | row `i` of the sinogram becomes the projection and no other row changes |
| Sinograms.Project | src/pl/jasiowka/jcte/Jcte.java:119 | a fresh vector holding the column sums of the rotated phantom |
| Sinograms.FirstProjection | src/pl/jasiowka/jcte/Jcte.java:115-121 | when the angle-0 trigonometry is exact, the first sinogram row is the column sums of the phantom itself |
| Sinograms.CollapsedProjections | src/pl/jasiowka/jcte/Jcte.java:116-120 | with more projections than degrees the step is 0, and every row is the projection at angle 0 |
| Sinograms.ProjectionAngles | src/pl/jasiowka/jcte/Jcte.java:116-120 | the angle `i * (range / projections)` of row `i` falls short of the even spacing `i * range / projections` degrees by `i * (range % projections) / projections` degrees, the remainder lying in `[0, projections)` |
| Filtering.Sinc | src/pl/jasiowka/jcte/Jcte.java:42-49 | `sinc(0)` is exactly 1, by its own branch, whatever the oracle for `sin(π t) / (π t)` |
| Filtering.SincEven | src/pl/jasiowka/jcte/Jcte.java:42-49 | an even oracle gives an even `sinc`, the branch at 0 included |
| Filtering.KernelCentre | src/pl/jasiowka/jcte/Jcte.java:42-49 | the centre entry of the kernel is exactly 1/4, whatever the sine oracle |
| Filtering.KernelSymmetric | src/pl/jasiowka/jcte/Jcte.java:132-139 | an even sine ratio gives a kernel symmetric about its centre |
| Filtering.ComputeFilter | src/pl/jasiowka/jcte/Jcte.java:129-141 | a size that makes `2 size + 1` overflow raises IllegalArgument; otherwise a fresh vector of `2 size + 1` entries, entry `k` the kernel value at offset `k - size` |
| Filtering.FilteredRow | src/pl/jasiowka/jcte/Jcte.java:153-157 | a filtered row has the row's length, and entry `i` is entry `w + i` of the full convolution |
| Filtering.FilterImpulse | src/pl/jasiowka/jcte/Jcte.java:150-159 | the kept slice is centred: a kernel that is `c` at its centre and 0 elsewhere scales the row by `c` without shifting it |
| Filtering.ApplyFilter | src/pl/jasiowka/jcte/Jcte.java:150-159 | a null matrix raises NullPointer; a kernel or convolution size past `int` raises IllegalArgument with nothing changed; otherwise every row becomes its filtered row |
| Filtering.FilterRow | src/pl/jasiowka/jcte/Jcte.java:153-157 | row `y` becomes its filtered row and no other row changes, or the convolution raises with nothing changed |
| Filtering.CopySlice | src/pl/jasiowka/jcte/Jcte.java:154-157 | the target's entries become entries `start .. start + n - 1` of the source |
| Reconstruction.AngleIsProduct | src/pl/jasiowka/jcte/Jcte.java:170-176 | the angle accumulated over `i` rows is `i * step` |
| Reconstruction.Reconstruct | src/pl/jasiowka/jcte/Jcte.java:166-180 | a null sinogram raises NullPointer and a negative width NegativeArraySize; a range outside `[0, 360]` gives a zero slice; inside it no rows raise Arithmetic, and otherwise the slice is the back projection of all rows, with the sinogram unchanged |
| Reconstruction.BackProjectAll | src/pl/jasiowka/jcte/Jcte.java:169-177 | starting from zero, the row loop leaves the back projection of every row in the output |
| Reconstruction.BackProjectRow | src/pl/jasiowka/jcte/Jcte.java:173-176 | one loop turn adds the smeared row, rotated back by its angle, to the output |
| Reconstruction.Smear | src/pl/jasiowka/jcte/Jcte.java:173-174 | every row of the smearing matrix becomes the sinogram row |
| Reconstruction.AddRotated | src/pl/jasiowka/jcte/Jcte.java:175 | the output gains the rotated smearing matrix, cell by cell |
| Reconstruction.ZeroSinogram | src/pl/jasiowka/jcte/Jcte.java:166-180 | a zero sinogram reconstructs to a zero slice at any angles |
| Reconstruction.SingleProjection | src/pl/jasiowka/jcte/Jcte.java:166-180 | a single projection at an exact angle 0 reconstructs to that projection repeated on every row |
| Extension.CeilSqrt | src/pl/jasiowka/jcte/Jcte.java:59 | the least `r` with `r * r >= n` |
| Extension.CeilSqrtBound | src/pl/jasiowka/jcte/Jcte.java:59 | the ceiling root of an `int` is at most 46341 |
| Extension.CeilSqrtCovers | src/pl/jasiowka/jcte/Jcte.java:59 | any number whose square is at most `n` is at most the ceiling root of `n` |
| Extension.Diagonal | src/pl/jasiowka/jcte/Jcte.java:59 | the diagonal lies in `[0, 46341]`, including when `w*w + h*h` wraps negative |
| Extension.ParityMatched | src/pl/jasiowka/jcte/Jcte.java:60-63 | the side is the diagonal or one more; for non-negative operands it has the parity of the phantom's side, and the diagonal is kept when it already has it |
| Extension.Margins | src/pl/jasiowka/jcte/Jcte.java:62-65 | matching parity leaves equal margins on both sides |
| Extension.Extend | src/pl/jasiowka/jcte/Jcte.java:57-69 | a null matrix raises NullPointer; otherwise a fresh matrix of the extended size holding the extended cells, or the exception creating or pasting raises, with the phantom unchanged |
| Extension.ExtendInto | src/pl/jasiowka/jcte/Jcte.java:64-68 | a zero matrix of the chosen size with the phantom pasted at the margins, or the exception raised |
| Extension.ExtendedSize | src/pl/jasiowka/jcte/Jcte.java:51-65 | without overflow the extension is at least the diagonal across, at least as wide and as tall as the phantom, with equal margins on opposite sides |
| Extension.PaddedCentred | src/pl/jasiowka/jcte/Jcte.java:64-67 | padding with equal margins keeps the whole phantom inside the window, with zeros around it |
| Extension.ExtendCentred | src/pl/jasiowka/jcte/Jcte.java:51-69 | without overflow the extension of a non-empty phantom holds the whole phantom centrally, with zeros all around |

## Trigonometry and floating point

Every `double` is an exact `real` here. The three places where the code calls
into `java.lang.Math` for a transcendental value become parameters:

- **`Trig`**: maps `rotate`'s angle in degrees to the sine and cosine
  (`SinCos`) the Java code would compute for it.
- **`sinRatio`**: the value of `sin(π t) / (π t)` for `t != 0`.
- **Exact branch of `sinc`**: `sinc(0) == 1` is the code's own branch, and
  the model keeps it exact.

Lemmas that need actual trigonometric values assume them in their
`requires`, for example `trig(0.0) == SinCos(0.0, 1.0)`.

## Where the documentation and the code differ

The model follows the code in each of these places:

- **Vector paste past the end.** `paste` at an offset at or past the end of
  the vector does nothing rather than raising, and so does a negative offset
  for which `size - x` overflows `int`.
- **Matrix paste clipping.** The matrix `paste` computes a clipped width and
  never uses it; the row pastes clip on their own.
- **Factory exceptions.** The factories document IllegalArgumentException
  for negative sizes. `createArrayCtVector` rejects a size of 0 too.
  `createArrayCtMatrix` raises NegativeArraySizeException for a negative
  height, and accepts any width when the height is 0.
- **Integer angle steps.** `makeSinogram` and `reconstruct` compute their
  angle step as an integer division. The angles are therefore multiples of
  `range / n`, and are all 0 when `n > range` (`CollapsedProjections`).
- **Reconstruct range.** `reconstruct`'s range is documented as a number of
  projections. A range outside `[0, 360]` silently yields a zero slice.
- **Rotation centre.** `rotate` places the centre of an odd-sized axis half a
  pixel off its middle pixel. A half turn of an odd-width image therefore
  loses its last column (`HalfTurnOddWidth`), while even sizes rotate
  symmetrically (`HalfTurnEven`).
- **Unused `extend`.** `extend` is private and never called. It is modelled
  as written.

## Left out
- The image-file constructor `ArrayCtMatrix(String)`, `save`, `makeSinogram(int)` and `test`: they read and write image files.
- The package-private no-argument constructors `ArrayCtVector()` and `ArrayCtMatrix()`: they only delegate to the sized constructors with sizes 1 and (1, 1), which are modelled.
- Floating-point rounding: every `double` is an exact real. Convolution, sums and kernel values are exact. `sin`, `cos` and `sin(π t)/(π t)` are oracle parameters (see above).
- Rotation.Rotate: the angle is not converted to radians in the model. The oracle is indexed by the angle argument directly.
- Rotation.Rotate: `Math.round` returns a `long`, and the model does not narrow it to `int`. The cast can only matter for images about 2^30 pixels across.
- Reconstruction.Reconstruct: the angle is the exact sum of the integer steps (`Angle`), which equals `i * step` (`AngleIsProduct`). The `double` accumulation in the source is exact too: the step is an integer of at most 360, and the running sum stays at most the range, far below 2^53. Only the conversion to radians and the trigonometry, which the oracle stands for, are inexact.
- Sinograms.MakeSinogram: likewise, the angle of row `i` is exactly `i * step`, as the integral `double` sum in the source is.
- Extension.CeilSqrt: `(int) Math.ceil(Math.sqrt(n))` is modelled as the exact integer ceiling of the square root. For `0 <= n <= 2^31 - 1` the double root does not round across an integer.
- Filtering.ComputeFilter: requires a non-negative size, as `applyFilter` always passes a width. The wrapped sizes a negative width can produce are not modelled.
- Filtering.ApplyFilter: requires a non-negative width. A negative width is possible only for a matrix with no rows, created directly by the factory.
- CtMatrices.ArrayCtMatrix.Sum: requires the argument to be this matrix or to share no row arrays with it. The constructors always allocate fresh rows, so two distinct matrices never share one.
- CtMatrices.ArrayCtMatrix.Paste: requires the pasted matrix to share no row arrays with the target. Pasting a matrix into itself is not modelled.
- Rotation.RotateRow: stores each pixel through the output row vector rather than through `out.update(x, y, v)`. This is the same array store, because the matrix delegates to that vector.
- Filtering.FilterRow: stores through the row vector rather than `matrix.update`, with the same justification.
- Concurrency: none in the source.
