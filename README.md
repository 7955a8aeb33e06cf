# Integer circle rasterisation, modelled in Dafny

The repository draws circles into a square buffer of packed 32-bit pixels and
shows the buffer as an SDL texture. Two classes do the drawing:

- `CircleTexture` (example/include/CircleTexture.hpp). Its constructor sets the
  bounding box and the packed colour, allocates a `2r × 2r` buffer and draws
  the outline. The midpoint (Bresenham) outline routine plots eight pixels per
  step of its decision variable. In filled mode it also draws four horizontal
  chords through the EFLA fixed-point line routine. `MoveTo` moves the circle
  without redrawing it.
- `Circle` (src/Circle.cpp) runs the same midpoint outline. Its chords are
  drawn by an error-term Bresenham line routine, and it also has a naive
  routine that colours every pixel within the radius.
- `Point<T>` and `Rect<T>` (example/include/geometry) are the value types that
  `CircleTexture` works with.

The model has one module per concern:

- `Arith`
  - C++ `int` as the checked newtype `int32`.
  - `Uint32` and `Uint8` as subset types.
  - Division that truncates toward zero (`TruncDiv`).
- `Geometry`
  - `Point` and `Rect` as datatypes.
  - The in-place operators (`+=`, `-=`, `Rect::MoveTo`) as the classes
    `MutablePoint` and `MutableRect`.
- `Colors`: the ARGB8888 packing for both byte orders.
- `Buffer`
  - Row-major indexing.
  - The predicates `Shows`, which says the buffer holds the colour exactly on
    a set of pixels and 0 elsewhere, and `Paints`, which says a step set the
    pixels of a set and left every other pixel as it was.
- `Midpoint`
  - The outline loop as a function `Octant` of the radius.
  - The pixel set it leaves coloured, `Outline(radius, filled)`.
  - Its shape, how close it stays to the circle, its bounds and its
    symmetries.
- `EflaLines`: the EFLA pixel sequence `EflaPath` and its properties.
- `BresenhamLines`
  - The chord routine of src/Circle.cpp as written (`ChordPathAsWritten`).
  - A corrected variant (`ChordPath`).
- `Textures`: class `CircleTexture`, whose imperative methods write an `array<uint32>`.
- `Circles`: class `Circle` with the naive routine and the error-term chord routine.

Every drawing method is proved against a specification function. The
constructors and `CreateCircleBresenham` of both classes leave the buffer
showing exactly `Outline(radius, filled)`, so the two copies of the outline
code draw the same circle.

Two facts about the code are worth stating plainly:

- Filled mode does not colour every pixel with `(x − r)² + (y − r)² ≤ r²`
  (the naive disk). For radius 3, pixel (column 5, row 1) is in the naive
  disk but not in the filled Bresenham circle
  (`Circles.NaiveDiskVersusOutline`). What the outline does promise is an
  outer bound: no pixel with `(x − r)² + (y − r)² > r² + r` is coloured
  (`Midpoint.OutlineWithinOuter`).
- The error-term chord routine of src/Circle.cpp stops one pixel short of
  (x2, y2) (`BresenhamLines.ChordHorizontal`); the EFLA chord includes it
  (`EflaLines.EflaHorizontal`). The filled circle is the same either way,
  because that endpoint is one of the eight outline pixels already plotted.

## Model

| member | source | states |
|---|---|---|
| Arith.Abs | src/Circle.cpp:116-117 | `std::abs` on `int`: the result is `a` or `−a` and never negative |
| Arith.TruncDiv | example/include/CircleTexture.hpp:117 | C++ `/` on `int`: the quotient times the divisor lies between 0 and the dividend and the remainder is smaller than the divisor in magnitude (truncation toward zero) |
| Arith.TruncDivUnique | example/include/CircleTexture.hpp:117 | a quotient with those properties is unique, so every use of them pins down C++ division |
| Arith.WrapInt32 | example/include/CircleTexture.hpp:43 | the `int` value of an out-of-range expression such as `255 << 24` is congruent to it modulo 2^32 and equals it when in range |
| Arith.ToUint32 | example/include/CircleTexture.hpp:43 | a conversion to `Uint32` reduces modulo 2^32 and keeps values already in range |
| Geometry.Equals | example/include/geometry/Point.hpp:61-64 | `==` on points holds exactly when both components agree |
| Geometry.NotEquals | example/include/geometry/Point.hpp:66-69 | `!=` is the negation of `==` |
| Geometry.AddComponentwise | example/include/geometry/Point.hpp:31-45 | `Add` and `Sub`, the models of `+` and `-`, add and subtract x and y separately |
| Geometry.AddCommutes | example/include/geometry/Point.hpp:31-37 | `p + q == q + p` |
| Geometry.SubUndoesAdd | example/include/geometry/Point.hpp:31-45 | `(p + q) - q == p` and `(p - q) + q == p` |
| Geometry.MutablePoint.constructor | example/include/geometry/Point.hpp:22-24 | the constructed point has the given coordinates |
| Geometry.MutablePoint.AddAssign | example/include/geometry/Point.hpp:47-52 | after `+=` the point equals the old point `+` the argument |
| Geometry.MutablePoint.SubAssign | example/include/geometry/Point.hpp:54-59 | after `-=` the point equals the old point `-` the argument |
| Geometry.MutableRect.constructor | example/include/geometry/Rect.hpp:21-25 | the rectangle holds the given top-left, width and height unchanged |
| Geometry.Corners | example/include/geometry/Rect.hpp:27-45 | `GetTopLeft`, `GetTopRight`, `GetBottomRight` and `GetBottomLeft` return the top-left plus (0,0), (w,0), (w,h) and (0,h) |
| Geometry.ContainsPointHalfOpen | example/include/geometry/Rect.hpp:47-50 | `ContainsPoint` holds iff the point it lies in `[x, x+w) × [y, y+h)`; the top-left is contained iff the rectangle is non-empty, and the other three corners never are |
| Geometry.ContainsRectStrict | example/include/geometry/Rect.hpp:52-56 | `ContainsRect` is strict, so no rectangle contains itself, and a contained rectangle's points are points of the outer one |
| Geometry.SharedPointIntersects | example/include/geometry/Rect.hpp:58-62 | two rectangles that share a point satisfy `Intersects`, in either order |
| Geometry.IntersectsNotSymmetric | example/include/geometry/Rect.hpp:58-62 | a rectangle whose right edge touches the left edge of its neighbour intersects it, but not the other way round |
| Geometry.CentredOrigin | example/include/geometry/Rect.hpp:66-67 | `destination − size / 2.0`, computed exactly in `double` and truncated toward zero when stored back in the `int` field: twice the result is within one of `2·destination − size`, on the side of zero |
| Geometry.MutableRect.MoveTo | example/include/geometry/Rect.hpp:64-68 | the size is kept and the top-left becomes `CentredOrigin` of the destination on each axis |
| Geometry.MoveToEvenSize | example/include/geometry/Rect.hpp:64-68 | for even sizes the new top-left is exactly `destination − size/2`, so the destination is the centre |
| Colors.PackLittleEndian | example/include/CircleTexture.hpp:42-44 | the little-endian pixel is `0xFF·2^24 + r·2^16 + g·2^8 + b` as a `Uint32` |
| Colors.PackBigEndian | example/include/CircleTexture.hpp:40-41 | the big-endian pixel is `b·2^24 + g·2^16 + r·2^8 + 0xFF` |
| Colors.PackColor | example/include/CircleTexture.hpp:40-44 | the packed colour is never 0, so a coloured pixel is distinguishable from a cleared one |
| Colors.LittleEndianChannels | example/include/CircleTexture.hpp:43 | the bytes of the little-endian pixel are alpha 0xFF, red, green and blue, from the top |
| Colors.BigEndianChannels | example/include/CircleTexture.hpp:41 | the bytes of the big-endian pixel are blue, green, red and 0xFF, from the top |
| Colors.PackColorInjective | src/Circle.cpp:22-26 | two colours pack alike exactly when their red, green and blue agree, so the packing loses only alpha |
| Buffer.CoordIndex | example/include/CircleTexture.hpp:84-91 | a pixel inside the `w × w` square has a row-major index in `[0, w²)` from which it is recovered |
| Buffer.IndexCoord | example/include/CircleTexture.hpp:84-91 | every index in `[0, w²)` is the index of exactly one pixel of the square |
| Buffer.ShowsTwoValues | src/Circle.cpp:89-104 | a buffer that shows a pixel set holds only 0 and the colour |
| Buffer.ShowsThenPaints | example/include/CircleTexture.hpp:84-98 | painting a set onto a buffer that shows another set shows their union |
| Midpoint.PassesShape | example/include/CircleTexture.hpp:70-82 | `Passes`, the loop iterated with `Step` from a state with `x ≥ 0`, makes at most `y − x` passes; pass `i` has `x` grown by `i + 1` and `x − 1 ≤ y`; `y` never increases; the last pass has `x ≥ y` |
| Midpoint.OctantShape | example/include/CircleTexture.hpp:66-82 | `Octant`, the passes of the outline loop from `Start` (`x = 0`, `y = r`, `d = 1 − r`), makes at most `radius` passes (none for `radius ≤ 0`); pass `i` has `x == i + 1` and `0 ≤ x − 1 ≤ y ≤ radius`; `y` is non-increasing; the loop stops with `x ≥ y` |
| Midpoint.OctantNext | example/include/CircleTexture.hpp:70-82 | the loop's state after some passes either continues with one more pass (`x < y`) or is final (`x ≥ y`) |
| Midpoint.PassesNear | example/include/CircleTexture.hpp:72-82 | after every pass the decision variable `d` equals `(x + 1)² + y² − y − r²` and every plotted point satisfies `x² + y² − y ≤ r² ≤ x² + y² + y` |
| Midpoint.StepNear | example/include/CircleTexture.hpp:72-82 | one pass keeps the decision variable's closed form and both nearness bounds |
| Midpoint.OctantNear | src/Circle.cpp:71-87 | every point the outline loop plots lies within half a pixel of the circle of the given radius, in the sense of the bounds above |
| Midpoint.PassInSquare | example/include/CircleTexture.hpp:84-98 | for a pass's `(x, y)` all eight points (`Eight`, the eight writes with their `− 1` offsets) and all four chords (`Chords`, rows `r − y`, `r − x`, `r − 1 + x`, `r − 1 + y`) lie in the `2r × 2r` square, and the eight points lie on the chords |
| Midpoint.OutlineInSquare | example/include/CircleTexture.hpp:84-98 | every pixel of `Outline`, the union of the pixels of all passes, filled or not, lies in the `2r × 2r` square (so every index written is in `[0, 4r²)`); radius ≤ 0 plots nothing |
| Midpoint.EightSymmetric | example/include/CircleTexture.hpp:84-91 | the eight points of one pass are closed under column mirror, row mirror and transpose |
| Midpoint.ChordsSymmetric | example/include/CircleTexture.hpp:95-98 | the four chords of one pass are closed under column and row mirror |
| Midpoint.OutlineSymmetric | src/Circle.cpp:89-104 | the drawn circle is closed under the column and row mirrors, and the unfilled outline also under transpose |
| Midpoint.FilledCoversOutline | example/include/CircleTexture.hpp:93-99 | the filled circle contains the unfilled outline and is that outline plus the chords |
| Midpoint.OutlineWithinOuter | example/include/CircleTexture.hpp:66-99 | every pixel of the outline, filled or not, satisfies `(x − r)² + (y − r)² ≤ r² + r`: the mirrored offsets and the chord columns never reach farther than the plotted octant point |
| Midpoint.OutsideTransparent | src/Circle.cpp:67-104 | a buffer showing the outline is 0 at every pixel with `(x − r)² + (y − r)² > r² + r`, so everything beyond `(r + 1)²` stays transparent in both classes |
| Midpoint.OutlineRadius3 | example/include/CircleTexture.hpp:66-91 | for radius 3 the loop makes the passes (1,3) and (2,2) and the outline is the listed twelve pixels |
| EflaLines.EflaSetup | example/include/CircleTexture.hpp:107-117 | the long length is the larger of `|dx|`, `|dy|` and the short one is not longer; a zero long length means equal endpoints and a step of 0 |
| EflaLines.EflaPathShape | example/include/CircleTexture.hpp:119-159 | `EflaPath`, the pixel at step `k` being the long coordinate plus `k` and the short one `EflaAccumulator(k) >> 16` with `EflaAccumulator(k) = 0x8000 + (start << 16) + k·decInc`, has `max(|dx|, |dy|) + 1` pixels, starting at (x1, y1), stepping by one along the longer axis towards the second endpoint |
| EflaLines.EflaHorizontal | example/include/CircleTexture.hpp:143-158 | with `y1 == y2` the pixels are exactly row `y1` between the two columns, both included, whichever way the chord runs; equal endpoints write one pixel |
| EflaLines.HorizontalChordShows | example/include/CircleTexture.hpp:95-98 | painting a horizontal EFLA chord onto a buffer that shows a set shows that set plus the whole row span |
| EflaLines.EflaVertical | example/include/CircleTexture.hpp:119-139 | with `x1 == x2` the pixels are exactly that column between the two rows, both included, one pixel per row in the direction of travel |
| EflaLines.SlopeBounds | example/include/CircleTexture.hpp:117 | the fixed-point step `(short << 16) / long` is at most one unit (2^16) in magnitude; `k ≤ long` steps stay between 0 and the scaled short length; after all `long` steps they fall short of it, in magnitude, by less than `long` |
| EflaLines.SlopeScaled | example/include/CircleTexture.hpp:117 | `k` steps never overshoot the exact offset `k·short/long` (all scaled by `long · 2^16`), and after `k > 0` steps fall short of it by less than `k · long`, for either sign of the short length |
| EflaLines.EflaInBox | example/include/CircleTexture.hpp:126-158 | every pixel lies in the bounding box of the two endpoints |
| EflaLines.EflaEndsAtTarget | example/include/CircleTexture.hpp:126-158 | when the longer axis spans at most 2^15 pixels the last pixel written is (x2, y2), at any slope |
| EflaLines.EflaAccumulatorRange | example/include/CircleTexture.hpp:126-153 | for endpoints inside a square smaller than 2^15 − 1 the accumulator `j` stays inside `int` for every step, the last increment included, and the step lies in `[−2^16, 2^16]` |
| EflaLines.EflaProgress | example/include/CircleTexture.hpp:126-158 | every pixel of a chord between two pixels of the buffer lies in the buffer, and the next accumulator value fits in `int` |
| EflaLines.EflaWrite | example/include/CircleTexture.hpp:128-155 | the index each loop variant computes is in range and writing it extends the painted prefix of the path by one pixel |
| BresenhamLines.Sign | src/Circle.cpp:119-147 | `sign_x`/`sign_y` are 0 exactly for 0 and multiply the difference to its absolute value |
| BresenhamLines.ChordSetup | src/Circle.cpp:112-153 | after the swap `dx` is the larger and `dy` the smaller of the two absolute differences, and `changed` says that `y` was the longer axis |
| BresenhamLines.InnerStepsLeast | src/Circle.cpp:161-173 | the inner `while (e >= 0)` stops, after the least number of subtractions of `2·dx` that make `e` negative |
| BresenhamLines.InnerEffect | src/Circle.cpp:161-173 | `Inner`, the inner loop with a given step (1 as written), moves the short coordinate by that number of steps and subtracts `2·dx` that often from `e` |
| BresenhamLines.PassKeeps | src/Circle.cpp:157-185 | `Pass`, one iteration of the `for` loop (inner loop, long step, `e += 2·dy`), keeps the error term equal to `2·dy·(k + 1) − dx − 2·dx·t` after `k` passes and `t` inner steps, and advances the long coordinate by its sign |
| BresenhamLines.WalkBounds | src/Circle.cpp:157-185 | in `ChordWalk`, the pixels written by the remaining passes, the passes write one pixel each, every one on the long axis at its offset with at most `dy` inner steps |
| BresenhamLines.ChordLength | src/Circle.cpp:155-185 | `ChordPathAsWritten` (inner step +1) and `ChordPath` (inner step towards the endpoint), the walks from (x1, y1) with `e = 2·dy − dx`, each hold `max(|dx|, |dy|)` pixels, the first at (x1, y1), and never (x2, y2) |
| BresenhamLines.ChordHorizontal | src/Circle.cpp:110-186 | with `y1 == y2` the routine as written and the corrected one agree; the `k`-th pixel is `(x1 + sign·k, y1)`; the set is the row span minus (x2, y1); equal endpoints write nothing |
| BresenhamLines.ChordVertical | src/Circle.cpp:110-186 | with `x1 == x2` the two agree and write the column span minus (x1, y2), one row per pass |
| BresenhamLines.AsWrittenLeavesBox | src/Circle.cpp:161-173 | the chord (0,1)→(2,0) as written writes (1,2), outside the endpoints' box; the corrected routine writes (1,0) |
| BresenhamLines.ChordPathInBox | src/Circle.cpp:161-173 | with the inner step taken towards the second endpoint every pixel lies in the endpoints' box, at any slope |
| Textures.CircleTexture.constructor | example/include/CircleTexture.hpp:27-51 | the box is `(c − r, c − r, 2r, 2r)`, the colour is packed for the byte order, a fresh buffer of `2r · 2r` pixels shows exactly the unfilled outline |
| Textures.CircleTexture.Clear | example/include/CircleTexture.hpp:64 | after clearing the buffer shows the empty set: every element is 0 |
| Textures.CircleTexture.CreateCircleBresenham | example/include/CircleTexture.hpp:62-103 | the buffer shows exactly `Outline(radius, filled)`: the colour on the outline (and chords when filled), 0 elsewhere |
| Textures.CircleTexture.PlotPass | example/include/CircleTexture.hpp:84-99 | one pass adds its eight points and, when filled, its four chords to the pixels shown |
| Textures.CircleTexture.PlotEight | example/include/CircleTexture.hpp:84-91 | the eight writes of one pass add exactly its eight points |
| Textures.CircleTexture.PlotFour | example/include/CircleTexture.hpp:84-91 | four writes, two in each of two rows, add exactly those four pixels |
| Textures.CircleTexture.PlotPair | example/include/CircleTexture.hpp:84-91 | two writes in one row add exactly those two pixels |
| Textures.CircleTexture.PlotChordPair | example/include/CircleTexture.hpp:95-98 | two chord calls add exactly their two row spans |
| Textures.CircleTexture.PlotChords | example/include/CircleTexture.hpp:93-99 | the four chord calls of one pass add exactly its four row spans |
| Textures.CircleTexture.PlotChord | example/include/CircleTexture.hpp:95 | one horizontal EFLA chord adds its full row span, both ends included |
| Textures.CircleTexture.Plot | example/include/CircleTexture.hpp:84 | one write inside the square adds one pixel to the pixels shown |
| Textures.CircleTexture.CreateCircleChordEFLA | example/include/CircleTexture.hpp:105-160 | for endpoints inside the buffer the routine colours exactly the pixels of `EflaPath` and leaves every other pixel as it was, with `j` never overflowing |
| Textures.CircleTexture.EflaDown | example/include/CircleTexture.hpp:124-131 | the downward, y-longer loop paints exactly `EflaPath` |
| Textures.CircleTexture.EflaUp | example/include/CircleTexture.hpp:132-139 | the upward, y-longer loop paints exactly `EflaPath` |
| Textures.CircleTexture.EflaRight | example/include/CircleTexture.hpp:143-150 | the rightward, x-longer loop paints exactly `EflaPath` |
| Textures.CircleTexture.EflaLeft | example/include/CircleTexture.hpp:151-158 | the leftward, x-longer loop paints exactly `EflaPath` (this is also the equal-endpoint case, one pixel) |
| Textures.CircleTexture.MoveTo | example/include/CircleTexture.hpp:162-167 | the centre becomes the new centre and the box's top-left `new centre − r`; size, radius, colour and pixels are unchanged |
| Circles.NaiveDiskMember | src/Circle.cpp:49-57 | a pixel is in `NaiveDisk` iff it lies in the `2r × 2r` square and satisfies `InDisk`, the test `(x − r)² + (y − r)² − r² ≤ 0` with `cx = cy = r` |
| Circles.NaiveVisit | src/Circle.cpp:55-60 | one inner iteration colours pixel (x, y) iff it is in the disk, with an index in range |
| Circles.NaiveDone | src/Circle.cpp:53-62 | once every column is visited the buffer shows exactly the naive disk |
| Circles.HorizontalChordShows | src/Circle.cpp:100-103 | a horizontal chord whose end pixel is already coloured completes its whole row span |
| Circles.ChordStart | src/Circle.cpp:112-153 | the set-up code computes `ChordSetup`: the absolute differences, the signs and the swap |
| Circles.ShortSteps | src/Circle.cpp:161-173 | the inner loop computes `Inner` with its unsigned step and leaves `e` negative |
| Circles.Circle.constructor | src/Circle.cpp:8-34 | for `|radius| ≤ 23170` the box is `(c − r, c − r, 2r, 2r)`, the colour is packed, and a fresh buffer shows exactly `Outline(radius, filled)` for the given `filled` |
| Circles.Circle.Clear | src/Circle.cpp:47 | after clearing every element is 0 |
| Circles.Circle.CreateCircleNaive | src/Circle.cpp:45-65 | the buffer shows exactly the pixels with `(x − r)² + (y − r)² ≤ r²`: the colour there and 0 elsewhere |
| Circles.Circle.CreateCircleBresenham | src/Circle.cpp:67-108 | the buffer shows exactly `Outline(radius, filled)`, the same set as `CircleTexture` draws |
| Circles.Circle.PlotPass | src/Circle.cpp:89-104 | one pass adds its eight points and, when filled, its four chords |
| Circles.Circle.PlotEight | src/Circle.cpp:89-96 | the eight writes add exactly the pass's eight points |
| Circles.Circle.PlotFour | src/Circle.cpp:89-96 | four writes, two in each of two rows, add exactly those four pixels |
| Circles.Circle.PlotPair | src/Circle.cpp:89-96 | two writes in one row add exactly those two pixels |
| Circles.Circle.PlotChordPair | src/Circle.cpp:100-103 | two chord calls add exactly their two row spans |
| Circles.Circle.PlotChords | src/Circle.cpp:98-104 | the four half-open chords, drawn after the eight points, add exactly the four closed row spans |
| Circles.Circle.PlotChord | src/Circle.cpp:100 | one half-open chord whose end pixel is already coloured completes its row span |
| Circles.Circle.Plot | src/Circle.cpp:89 | one write inside the square adds one pixel |
| Circles.Circle.CreateCircleChordBresenham | src/Circle.cpp:110-186 | when the pixels it visits lie in the buffer, the routine colours exactly the pixels of `ChordPathAsWritten` and leaves every other pixel as it was |
| Circles.NaiveDiskRadius3 | src/Circle.cpp:53-62 | for radius 3 the naive disk contains (5,1) and not (0,1) |
| Circles.FilledOutlineRadius3 | src/Circle.cpp:67-104 | for radius 3 the filled Bresenham circle does not colour (5,1) |
| Circles.NaiveDiskVersusOutline | src/Circle.cpp:45-104 | the naive disk and the filled Bresenham circle differ for radius 3 |

## Left out

- SDL: texture creation, `SDL_UpdateTexture`, `Render`, `Tick`, the destructors and the renderer are not modelled. They are I/O and memory management.
- The `std::rand() % 2` that the `Circle` constructor passes to `CreateCircleBresenham` is a parameter `filled` of `Circles.Circle.constructor`.
- `SDL_BYTEORDER` is a parameter `bigEndian` of both constructors.
- `Circle`'s `SDL_Rect` bounding box is modelled by `Geometry.Rect`, which has the same four fields.
- `Point::GetDistance`, example/include/geometry/Circle.hpp and every other floating-point geometry are left out, since real arithmetic is outside this integer model.
- `operator<<` on points and rectangles is left out, since it is output only.
- The default `Point` constructor leaves its fields uninitialised and is left out.
- include/Circle.hpp is not part of this model. It declares a `CreateLineBresenham` that nothing defines, and it does not declare `CreateCircleChordBresenham`, which src/Circle.cpp defines as a member of `Circle` and which is modelled as `Circles.Circle.CreateCircleChordBresenham`.
- The `float e` of src/Circle.cpp is modelled as an integer. Its values are integers of magnitude below 2^17, which a `float` holds exactly.
- `Rect`'s default arguments (all four 0, example/include/geometry/Rect.hpp:21) are not modelled separately; `Rect()` is `Geometry.MutableRect.constructor` applied to 0, 0, 0, 0.
- EflaLines.EflaSetup: `short_length << 16` is modelled as multiplication by 65536 also for a negative `short_length`. That is the C++20 meaning; before C++20 the shift of a negative value is undefined behaviour.
- Textures.CircleTexture.constructor: requires `|radius| < 2^14` (`Buffer.MaxRadius`). The EFLA computes `x1 << 16` and `y1 << 16` for coordinates up to `2r − 1` (example/include/CircleTexture.hpp:126,145); the model's proof that these 16.16 values and the accumulator fit in a 32-bit `int` needs `|r| < 2^14`. The source states no bound.
- Circles.Circle.constructor: requires `|radius| ≤ 23170` (`Circles.MaxCircleRadius`), the largest radius for which the buffer size `(2r)·(2r)` at src/Circle.cpp:28 fits in `int`. The source states no bound.
- Textures.CircleTexture.CreateCircleChordEFLA: requires both endpoints inside the buffer. Otherwise the source writes a pixel other than the intended one, possibly outside the array: a column past the right edge in a valid row lands in the next row, since the index is `row·w + column`.
- Circles.Circle.CreateCircleChordBresenham: requires every pixel the walk visits to lie in the buffer. The source does not check this; otherwise it writes a pixel other than the intended one, possibly outside the array (see Findings).
- Circles.Circle.CreateCircleChordBresenham: no claim about the pixels it draws at general slopes beyond `ChordLength`. The shape of the line at arbitrary slopes is not specified.
- At arbitrary slopes, the claim that a chord ends on (x2, y2) is made only for the EFLA (`EflaEndsAtTarget`). The error-term routine never writes that pixel.
- Signed overflow in the midpoint loop, the naive loop and the error-term chord is not checked by the model, whose integers are unbounded; under the radius bounds every value there is below 2^31 in magnitude. The EFLA accumulator uses the checked `int32` type, so it is proved not to overflow.
- Point `+`, `-`, `+=`, `-=`, the `Rect` corners and containment tests, `MoveTo` and the box corner `center − radius` use unbounded integers: C++ `int` overflow there, which is undefined behaviour, is not modelled.

## Findings

| source | as written | input that shows it | evidently intended | confidence | as-written member | corrected member |
|---|---|---|---|---|---|---|
| src/Circle.cpp:161-173 | the inner `while (e >= 0)` loop always steps the short coordinate by `++x` or `++y`, ignoring `sign_x` and `sign_y` | `CreateCircleChordBresenham(0, 1, 2, 0)` writes (0,1) and then (1,2), a pixel outside the endpoints' box | step the short coordinate by its sign, towards (x2, y2) | high, not executed | BresenhamLines.AsWrittenLeavesBox | BresenhamLines.ChordPathInBox |

`ChordPathAsWritten` models the code as written and `ChordPath` the corrected
step. The circle draws only horizontal chords. For those,
`BresenhamLines.ChordHorizontal` proves that the two routines coincide, so every
property of the filled circle holds for both.
