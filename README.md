# Image splitter: square tiling and extraction, modelled in Dafny

The image splitter cuts a rectangular image into a single row of congruent,
side-by-side squares and writes each square to its own JPEG file.

- `geometry.dfy` (module `Geometry`) models `getBestSquares`. It takes the
  width `w` and height `h` and computes `k = ~~(w / h)`. It then builds two
  candidate rows. The width-fit row has `k + 1` squares of side
  `s = ~~(w / (k + 1))`, centred vertically. The height-fit row has `k`
  squares of side `h`, centred horizontally. It keeps the row covering more
  area; width-fit wins ties. `~~(a / b)` is modelled as `TruncDiv`, which
  truncates toward zero. The lemmas show that on the numerators that occur it
  equals Dafny's `/`.
- `driver.dfy` (module `Driver`) models the loop of `splitImage`. It walks the
  squares in order. For each one it builds the name `prefix + i + ".jpg"`,
  bumps the counter `i` and issues a crop request. A rejected crop ends the
  run. The crop-and-save is a parameter `cropToFile: (Square, string) -> bool`
  saying whether that request succeeds.

Two consequences of the code's arithmetic are worth stating.

- At an exact ratio `w = k*h` the width-fit row has `k + 1` squares and always
  loses (`ExactRatioPicksHeightFit`). For a 3000 x 1000 image the code compares
  4 x 750² with 3 x 1000² and picks height-fit, giving three 1000-pixel squares
  (`Example3000By1000`).
- The result is never empty, because `k = 0` makes the height-fit area 0 and
  the one-square width-fit row is then kept (`BestSquaresNonEmpty`,
  `PortraitSingleSquare`).

## Model

| member | source | states |
|---|---|---|
| `Geometry.TruncDiv` | index.ts:12-28 | `~~(a / b)` for `b > 0`: for `a >= 0` the floor quotient (`q*b <= a < q*b + b`), for `a < 0` the quotient truncated toward zero |
| `Geometry.AspectRatioFloor` | index.ts:12 | `k` is the number of whole heights in the width: `k*h <= w < k*h + h`, `k >= 0` |
| `Geometry.SquareSizeFitWidth` | index.ts:13 | `s` is the largest side with `k + 1` squares fitting in the width: `s*(k+1) <= w < s*(k+1) + (k+1)` |
| `Geometry.AreaFitWidth` | index.ts:14-15 | no contract; specified by `RowArea` and `BestSquaresCoverage`, which show it is the area the width-fit row covers |
| `Geometry.AreaFitHeight` | index.ts:16 | no contract; specified by `RowArea` and `BestSquaresCoverage`, which show it is the area the height-fit row covers |
| `Geometry.Row` | index.ts:22-32 | no contract; the `new Array(n).fill(null).map(...)` of both branches, specified by `RowIsStrip`, `RowWithin` and `RowArea` |
| `Geometry.WidthFit` | index.ts:20-24 | no contract; specified by `WidthFitLayout` and `WidthFitWithin` |
| `Geometry.HeightFit` | index.ts:28-32 | no contract; specified by `HeightFitLayout` and `HeightFitWithin` |
| `Geometry.BestSquares` | index.ts:11-33 | no contract; `getBestSquares` itself, specified by `SelectionRule`, `BestSquaresCoverage`, `BestSquaresNonEmpty`, `BestSquaresWithin`, `BestSquaresCongruent` and `BestSquaresDisjoint` |
| `Geometry.WidthFitFits` | index.ts:12-13 | `(k + 1) * s <= w` and `0 <= s < h`, so width-fit squares fit both ways |
| `Geometry.RowIsStrip` | index.ts:22-32 | a row built by `new Array(n).fill(null).map(...)` has `n` squares of one side on one line, each starting where the previous ends |
| `Geometry.RowWithin` | index.ts:22-32 | a row that starts at `x0 >= 0`, `y >= 0` and ends by `w` and `h` lies wholly inside the image |
| `Geometry.RowArea` | index.ts:14-16 | the squares of a row cover `count * side * side`, the area formula the selection compares |
| `Geometry.StripOrdered` | index.ts:22-32 | in a strip of adjacent squares, every square ends no further right than any later one begins, at the same `y` |
| `Geometry.StripDisjoint` | index.ts:22-32 | no two squares of a strip of adjacent squares overlap |
| `Geometry.AreaProductsBounded` | index.ts:13-16 | every product formed in `(k+1)*s*s` and `k*h*h`, evaluated left to right, lies between 0 and `w * w` |
| `Geometry.WidthFitLayout` | index.ts:13-24 | width-fit has exactly `k + 1` squares, the i-th at `(i*s, (h - s)/2)` of side `s`, with plain division |
| `Geometry.HeightFitLayout` | index.ts:28-32 | height-fit has exactly `k` squares, the i-th at `((w - k*h)/2 + i*h, 0)` of side `h` |
| `Geometry.WidthFitWithin` | index.ts:20-24 | every width-fit square lies inside the image |
| `Geometry.HeightFitWithin` | index.ts:28-32 | every height-fit square lies inside the image |
| `Geometry.SelectionRule` | index.ts:14-18 | width-fit is returned exactly when `(k+1)*s*s >= k*h*h` (ties go to width-fit), height-fit exactly when `<` |
| `Geometry.BestSquaresCoverage` | index.ts:14-18 | the returned squares cover one of the two candidate areas and at least as much as each |
| `Geometry.BestSquaresNonEmpty` | index.ts:16-22 | for positive dimensions at least one square is returned |
| `Geometry.BestSquaresWithin` | index.ts:11-33 | every returned square has `x >= 0`, `y >= 0`, `x + size <= w`, `y + size <= h` |
| `Geometry.BestSquaresCongruent` | index.ts:11-33 | all returned squares share one side, and that side is positive |
| `Geometry.BestSquaresDisjoint` | index.ts:11-33 | returned squares are adjacent on one line, `x` strictly increases, and no two overlap |
| `Geometry.ExactRatioPicksHeightFit` | index.ts:12-18 | for `w = k*h` with `k >= 1`, `~~(w/h)` is `k` and the height-fit row is returned |
| `Geometry.PortraitSingleSquare` | index.ts:12-24 | for `w < h` the result is the single square `(0, (h - w)/2)` of side `w` |
| `Geometry.Example1600By1000` | index.ts:11-33 | 1600 x 1000 gives `(0, 100, 800)` and `(800, 100, 800)` |
| `Geometry.Example3000By1000` | index.ts:11-33 | 3000 x 1000 picks height-fit and gives three 1000-pixel squares at x = 0, 1000, 2000 |
| `Driver.DecimalString` | index.ts:49 | the counter's text is a non-empty run of decimal digits, and it starts with `0` only when it is exactly `"0"` (no leading zero) |
| `Driver.DecimalRoundTrip` | index.ts:49 | reading the counter's text back gives the counter |
| `Driver.OutputPathInjective` | index.ts:49 | two output names are equal exactly when their indices are |
| `Driver.OutputPathExamples` | index.ts:49 | the first outputs are `prefix0.jpg`, `prefix1.jpg`, and index 10 gives `prefix10.jpg` |
| `Driver.OutputPath` | index.ts:49 | no contract; the template literal `${prefix}${i}.jpg`, specified by `OutputPathInjective` and `OutputPathExamples` |
| `Driver.CropPlan` | index.ts:46-54 | no contract; the requests of a full run, specified by `CropPlanDistinctFiles` and `CropPlanWithinImage` and tied to the loop by `SplitImage` |
| `Driver.CropPlanDistinctFiles` | index.ts:46-54 | a full run issues one request per square, in order, and no two requests write the same file |
| `Driver.CropPlanWithinImage` | index.ts:48-51 | every region handed to the crop lies inside the image, no two overlap, and there is at least one |
| `Driver.SplitImage` | index.ts:44-55 | the requests issued are a prefix of the plan, the counter equals their number, and the run stops at the first rejected crop. When no crop is rejected, every square is requested and the counter ends at the number of squares |

## Left out

- Reading the image metadata (index.ts:6-9). The dimensions are parameters of `SplitImage`.
- The zero defaults for missing metadata (index.ts:7). With a zero height JavaScript divides by zero and `~~` turns `Infinity`/`NaN` into junk. The model requires `w > 0 && h > 0`.
- `Geometry.TruncDiv`: does not model the 32-bit wrap-around of `~~` or the floating-point rounding of `/`. It assumes dimensions small enough that the truncated float quotient equals the integer one.
- `Geometry.AreaFitWidth`, `Geometry.AreaFitHeight`: the areas at index.ts:14-16 are products of doubles, and the model computes them as exact integers. The two agree only while every product stays at or below 2^53. `AreaProductsBounded` proves each product is at most `w * w`, so the model is exact for `w <= 94,906,265`. For wider images the doubles can round, and the comparison at index.ts:18 can then differ from the model's. For example, `w = 186444716, h = 131836323` gives `2*s*s = h*h - 1`, and both round to the same double.
- The crop, encode and file write of the image library (index.ts:35-42). They are the abstract parameter `cropToFile`, and the model records only whether each request succeeds.
- `async`/`await` sequencing and the top-level promise chain (index.ts:61-65). The model treats the awaits as sequential steps and a rejection as the end of the run. That chain logs the error and still prints `Done.`; this is not modelled.
- Console logging (index.ts:53, 64) and the hard-coded paths (index.ts:58-59).
- That `getBestSquares` gives the same result every time it is called needs no lemma. It is a Dafny function.
