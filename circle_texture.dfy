/** `CircleTexture` (example program): a circle drawn once into its own
    buffer of `2r x 2r` packed pixels and then moved around the screen.
    The SDL renderer and texture are not modelled; the buffer is. */
module Textures {
  import opened Arith
  import opened Geometry
  import opened Colors
  import opened Buffer
  import opened Midpoint
  import opened EflaLines

  class CircleTexture {
    var center: Point
    var radius: int
    var bbox: Rect
    var color: Color
    const bigEndian: bool
    var pixelColor: uint32
    var pixels: array<uint32>

    /** What the constructor establishes and MoveTo keeps: the bounding box
        is the `2r x 2r` square centred on `center`, the buffer has one
        entry per pixel of it, and the pixel colour is the packed colour. */
    predicate Valid()
      reads this
    {
      && -MaxRadius < radius < MaxRadius
      && bbox == Rect(Point(center.x - radius, center.y - radius), 2 * radius, 2 * radius)
      && pixels.Length == bbox.width * bbox.height
      && pixelColor == PackColor(color, bigEndian)
    }

    constructor (center: Point, radius: int, color: Color, bigEndian: bool)
      requires -MaxRadius < radius < MaxRadius
      ensures Valid()
      ensures this.center == center && this.radius == radius && this.color == color
      ensures this.bigEndian == bigEndian
      ensures bbox == Rect(Point(center.x - radius, center.y - radius), 2 * radius, 2 * radius)
      ensures pixelColor == PackColor(color, bigEndian)
      ensures fresh(pixels)
      ensures Shows(pixels[..], 2 * radius, Outline(radius, false), pixelColor)
    {
      this.center := center;
      this.radius := radius;
      this.color := color;
      this.bigEndian := bigEndian;
      bbox := Rect(Point(center.x - radius, center.y - radius), 2 * radius, 2 * radius);
      pixelColor := PackColor(color, bigEndian);
      pixels := new uint32[(2 * radius) * (2 * radius)];
      new;
      CreateCircleBresenham(false);
    }

    /** Clears the buffer and draws the midpoint outline, with the four
        chords of every pass when `filled`: afterwards the buffer shows
        exactly `Outline(radius, filled)` in the pixel colour. */
    method CreateCircleBresenham(filled: bool)
      requires Valid()
      modifies pixels
      ensures Shows(pixels[..], bbox.width, Outline(radius, filled), pixelColor)
    {
      var w := bbox.width;
      var r := radius;
      var c := pixelColor;
      Clear();
      var x, y, d := 0, r, 1 - r;
      ghost var done: seq<State> := [];
      while x < y
        invariant Octant(r) == done + Passes(State(x, y, d))
        invariant Shows(pixels[..], w, Plotted(r, done, filled), c)
        decreases y - x
      {
        ghost var s := Step(State(x, y, d));
        OctantNext(r, done, State(x, y, d));
        if d < 0 {
          d := d + 2 * x + 3;
          x := x + 1;
        } else {
          d := d + 2 * (x - y) + 5;
          x := x + 1;
          y := y - 1;
        }
        assert State(x, y, d) == s;
        PlotPass(x, y, filled, Plotted(r, done, filled));
        PlottedAppend(r, done, s, filled);
        done := done + [s];
      }
      OctantNext(r, done, State(x, y, d));
    }

    /** `memset(pixels_, 0, ...)`: every pixel transparent. */
    method Clear()
      modifies pixels
      ensures Shows(pixels[..], bbox.width, {}, pixelColor)
    {
      forall k | 0 <= k < pixels.Length {
        pixels[k] := 0;
      }
    }

    /** The body of the outline loop after the step: the eight mirrored
        pixels of (x, y), then in filled mode the four chords joining them. */
    method PlotPass(x: int, y: int, filled: bool, ghost P: set<Pixel>)
      requires Valid() && 1 <= x <= radius && 0 <= y <= radius
      requires Shows(pixels[..], bbox.width, P, pixelColor)
      modifies pixels
      ensures Shows(pixels[..], bbox.width, P + PassPixels(radius, State(x, y, 0), filled), pixelColor)
    {
      PlotEight(x, y, P);
      if filled {
        PlotChords(x, y, P + Eight(radius, x, y));
      }
      ShowsPass(pixels[..], bbox.width, P, radius, x, y, filled, pixelColor);
    }

    /** The eight mirrored pixels of (x, y), in the order the source writes them. */
    method PlotEight(x: int, y: int, ghost P: set<Pixel>)
      requires Valid() && 1 <= x <= radius && 0 <= y <= radius
      requires Shows(pixels[..], bbox.width, P, pixelColor)
      modifies pixels
      ensures Shows(pixels[..], bbox.width, P + Eight(radius, x, y), pixelColor)
    {
      var r := radius;
      assert bbox.width == 2 * r;
      PlotFour(r - x, r - 1 + x, r - y, r - y, r - 1 + y, r - x, P);
      ghost var Q := P + {(r - x, r - y)} + {(r - 1 + x, r - y)} + {(r - y, r - x)} + {(r - 1 + y, r - x)};
      PlotFour(r - y, r - 1 + y, r - 1 + x, r - x, r - 1 + x, r - 1 + y, Q);
      ShowsEight(pixels[..], bbox.width, P, r, x, y, pixelColor);
    }

    /** Two pixels on row `rowA`, then two on row `rowB`. */
    method PlotFour(a1: int, a2: int, rowA: int, b1: int, b2: int, rowB: int, ghost P: set<Pixel>)
      requires Valid() && InSquare((a1, rowA), bbox.width) && InSquare((a2, rowA), bbox.width)
      requires InSquare((b1, rowB), bbox.width) && InSquare((b2, rowB), bbox.width)
      requires Shows(pixels[..], bbox.width, P, pixelColor)
      modifies pixels
      ensures Shows(pixels[..], bbox.width,
                    P + {(a1, rowA)} + {(a2, rowA)} + {(b1, rowB)} + {(b2, rowB)}, pixelColor)
    {
      PlotPair(a1, a2, rowA, P);
      PlotPair(b1, b2, rowB, P + {(a1, rowA)} + {(a2, rowA)});
    }

    /** Two pixels of one row, at columns `a` and `b`. */
    method PlotPair(a: int, b: int, row: int, ghost P: set<Pixel>)
      requires Valid() && InSquare((a, row), bbox.width) && InSquare((b, row), bbox.width)
      requires Shows(pixels[..], bbox.width, P, pixelColor)
      modifies pixels
      ensures Shows(pixels[..], bbox.width, P + {(a, row)} + {(b, row)}, pixelColor)
    {
      Plot(a, row, P);
      Plot(b, row, P + {(a, row)});
    }

    /** The four horizontal chords joining the mirrored pixels of (x, y). */
    method PlotChords(x: int, y: int, ghost P: set<Pixel>)
      requires Valid() && 1 <= x <= radius && 0 <= y <= radius
      requires Shows(pixels[..], bbox.width, P, pixelColor)
      modifies pixels
      ensures Shows(pixels[..], bbox.width, P + Chords(radius, x, y), pixelColor)
    {
      var r := radius;
      PlotChordPair(r - y, r - x, r - 1 + x, r - x, r - y, r - 1 + y, P);
      PlotChordPair(r - 1 + x, r - y, r - 1 + y, r - 1 + y, r - x, r - 1 + x,
                    P + RowSpan(r - y, r - x, r - 1 + x) + RowSpan(r - x, r - y, r - 1 + y));
      ShowsChords(pixels[..], bbox.width, P, r, x, y, pixelColor);
    }

    /** Two chords in a row, on rows `rowA` and `rowB`. */
    method PlotChordPair(rowA: int, a1: int, a2: int, rowB: int, b1: int, b2: int, ghost P: set<Pixel>)
      requires Valid()
      requires InSquare((a1, rowA), bbox.width) && InSquare((a2, rowA), bbox.width)
      requires InSquare((b1, rowB), bbox.width) && InSquare((b2, rowB), bbox.width)
      requires Shows(pixels[..], bbox.width, P, pixelColor)
      modifies pixels
      ensures Shows(pixels[..], bbox.width, P + RowSpan(rowA, a1, a2) + RowSpan(rowB, b1, b2), pixelColor)
    {
      PlotChord(a1, rowA, a2, P);
      PlotChord(b1, rowB, b2, P + RowSpan(rowA, a1, a2));
    }

    /** One chord, `CreateCircleChordEFLA(x1, row, x2, row)`: the whole row
        segment between the two columns is added to what the buffer shows. */
    method PlotChord(x1: int, row: int, x2: int, ghost S: set<Pixel>)
      requires Valid() && InSquare((x1, row), bbox.width) && InSquare((x2, row), bbox.width)
      requires Shows(pixels[..], bbox.width, S, pixelColor)
      modifies pixels
      ensures Shows(pixels[..], bbox.width, S + RowSpan(row, x1, x2), pixelColor)
    {
      ghost var before := pixels[..];
      CreateCircleChordEFLA(x1, row, x2, row);
      HorizontalChordShows(pixels[..], before, bbox.width, S, x1, row, x2, pixelColor);
    }

    /** One pixel write, `pixels_[row * width + column] = pixel_color_`,
        at a position inside the buffer. */
    method Plot(column: int, row: int, ghost S: set<Pixel>)
      requires Valid() && InSquare((column, row), bbox.width)
      requires Shows(pixels[..], bbox.width, S, pixelColor)
      modifies pixels
      ensures Shows(pixels[..], bbox.width, S + {(column, row)}, pixelColor)
    {
      ShowsPixel(pixels[..], bbox.width, S, (column, row), pixelColor);
      pixels[row * bbox.width + column] := pixelColor;
    }

    /** Draws the line from (x1, y1) to (x2, y2), both inside the buffer,
        with the EFLA and leaves every other pixel as it was. */
    method CreateCircleChordEFLA(x1: int, y1: int, x2: int, y2: int)
      requires Valid()
      requires InSquare((x1, y1), bbox.width) && InSquare((x2, y2), bbox.width)
      modifies pixels
      ensures Paints(pixels[..], old(pixels[..]), bbox.width,
                     Elements(EflaPath(x1, y1, x2, y2)), pixelColor)
    {
      var yLonger := false;
      var shortLength := y2 - y1;
      var longLength := x2 - x1;
      if Abs(shortLength) > Abs(longLength) {
        shortLength, longLength := longLength, shortLength;
        yLonger := true;
      }
      ghost var e := EflaSetup(x1, y1, x2, y2);
      assert e.yLonger == yLonger && e.shortLength == shortLength && e.longLength == longLength;
      EflaAccumulatorRange(x1, y1, x2, y2, 0, bbox.width - 1);
      var decInc: int32 := (if longLength == 0 then 0
                            else TruncDiv(shortLength * 0x1_0000, longLength)) as int32;
      if yLonger {
        if longLength > 0 {
          EflaDown(x1, y1, x2, y2, decInc);
        } else {
          EflaUp(x1, y1, x2, y2, decInc);
        }
      } else {
        if longLength > 0 {
          EflaRight(x1, y1, x2, y2, decInc);
        } else {
          EflaLeft(x1, y1, x2, y2, decInc);
        }
      }
    }

    /** The EFLA loop for a line steeper than 45 degrees drawn down the
        buffer: one pixel per row from row y1 to row y2. */
    method EflaDown(x1: int, y1: int, x2: int, y2: int, decInc: int32)
      requires Valid()
      requires InSquare((x1, y1), bbox.width) && InSquare((x2, y2), bbox.width)
      requires EflaSetup(x1, y1, x2, y2).yLonger && EflaSetup(x1, y1, x2, y2).longLength > 0
      requires decInc as int == EflaSetup(x1, y1, x2, y2).decInc
      modifies pixels
      ensures Paints(pixels[..], old(pixels[..]), bbox.width,
                     Elements(EflaPath(x1, y1, x2, y2)), pixelColor)
    {
      var w := bbox.width;
      var c := pixelColor;
      EflaAccumulatorRange(x1, y1, x2, y2, 0, w - 1);
      ghost var path := EflaPath(x1, y1, x2, y2);
      ghost var k := 0;
      var row := y1 * w;
      var lastRow := y2 * w;
      var j: int32 := (0x8000 + x1 * 0x1_0000) as int32;
      while row <= lastRow
        invariant 0 <= k <= |path| && row == (y1 + k) * w
        invariant j as int == EflaAccumulator(x1, y1, x2, y2, k)
        invariant Paints(pixels[..], old(pixels[..]), w, Elements(path[..k]), c)
        decreases lastRow - row
      {
        MulOrder(y1 + k, y2, w);
        EflaRowWrite(pixels[..], old(pixels[..]), w, x1, y1, x2, y2, k, c, row, j as int, decInc as int);
        pixels[row + (j / 0x1_0000) as int] := c;
        row := row + w;
        j := j + decInc;
        k := k + 1;
      }
      MulOrder(y1 + k, y2, w);
      assert path[..k] == path;
    }

    /** The same, drawn up the buffer from row y1 to row y2. */
    method EflaUp(x1: int, y1: int, x2: int, y2: int, decInc: int32)
      requires Valid()
      requires InSquare((x1, y1), bbox.width) && InSquare((x2, y2), bbox.width)
      requires EflaSetup(x1, y1, x2, y2).yLonger && EflaSetup(x1, y1, x2, y2).longLength <= 0
      requires decInc as int == EflaSetup(x1, y1, x2, y2).decInc
      modifies pixels
      ensures Paints(pixels[..], old(pixels[..]), bbox.width,
                     Elements(EflaPath(x1, y1, x2, y2)), pixelColor)
    {
      var w := bbox.width;
      var c := pixelColor;
      EflaAccumulatorRange(x1, y1, x2, y2, 0, w - 1);
      ghost var path := EflaPath(x1, y1, x2, y2);
      ghost var k := 0;
      var row := y1 * w;
      var lastRow := y2 * w;
      var j: int32 := (0x8000 + x1 * 0x1_0000) as int32;
      while row >= lastRow
        invariant 0 <= k <= |path| && row == (y1 - k) * w
        invariant j as int == EflaAccumulator(x1, y1, x2, y2, k)
        invariant Paints(pixels[..], old(pixels[..]), w, Elements(path[..k]), c)
        decreases row - lastRow
      {
        MulOrder(y2, y1 - k, w);
        EflaRowWrite(pixels[..], old(pixels[..]), w, x1, y1, x2, y2, k, c, row, j as int, -decInc as int);
        pixels[row + (j / 0x1_0000) as int] := c;
        row := row - w;
        j := j - decInc;
        k := k + 1;
      }
      MulOrder(y2, y1 - k, w);
      assert path[..k] == path;
    }

    /** The EFLA loop for a line at most 45 degrees steep drawn to the
        right: one pixel per column from column x1 to column x2. */
    method EflaRight(x1: int, y1: int, x2: int, y2: int, decInc: int32)
      requires Valid()
      requires InSquare((x1, y1), bbox.width) && InSquare((x2, y2), bbox.width)
      requires !EflaSetup(x1, y1, x2, y2).yLonger && EflaSetup(x1, y1, x2, y2).longLength > 0
      requires decInc as int == EflaSetup(x1, y1, x2, y2).decInc
      modifies pixels
      ensures Paints(pixels[..], old(pixels[..]), bbox.width,
                     Elements(EflaPath(x1, y1, x2, y2)), pixelColor)
    {
      var w := bbox.width;
      var c := pixelColor;
      EflaAccumulatorRange(x1, y1, x2, y2, 0, w - 1);
      ghost var path := EflaPath(x1, y1, x2, y2);
      ghost var k := 0;
      var column := x1;
      var j: int32 := (0x8000 + y1 * 0x1_0000) as int32;
      while column <= x2
        invariant 0 <= k <= |path| && column == x1 + k
        invariant j as int == EflaAccumulator(x1, y1, x2, y2, k)
        invariant Paints(pixels[..], old(pixels[..]), w, Elements(path[..k]), c)
      {
        EflaColumnWrite(pixels[..], old(pixels[..]), w, x1, y1, x2, y2, k, c, column, j as int, decInc as int);
        pixels[(j / 0x1_0000) as int * w + column] := c;
        column := column + 1;
        j := j + decInc;
        k := k + 1;
      }
      assert path[..k] == path;
    }

    /** The same, drawn to the left from column x1 to column x2. */
    method EflaLeft(x1: int, y1: int, x2: int, y2: int, decInc: int32)
      requires Valid()
      requires InSquare((x1, y1), bbox.width) && InSquare((x2, y2), bbox.width)
      requires !EflaSetup(x1, y1, x2, y2).yLonger && EflaSetup(x1, y1, x2, y2).longLength <= 0
      requires decInc as int == EflaSetup(x1, y1, x2, y2).decInc
      modifies pixels
      ensures Paints(pixels[..], old(pixels[..]), bbox.width,
                     Elements(EflaPath(x1, y1, x2, y2)), pixelColor)
    {
      var w := bbox.width;
      var c := pixelColor;
      EflaAccumulatorRange(x1, y1, x2, y2, 0, w - 1);
      ghost var path := EflaPath(x1, y1, x2, y2);
      ghost var k := 0;
      var column := x1;
      var j: int32 := (0x8000 + y1 * 0x1_0000) as int32;
      while column >= x2
        invariant 0 <= k <= |path| && column == x1 - k
        invariant j as int == EflaAccumulator(x1, y1, x2, y2, k)
        invariant Paints(pixels[..], old(pixels[..]), w, Elements(path[..k]), c)
      {
        EflaColumnWrite(pixels[..], old(pixels[..]), w, x1, y1, x2, y2, k, c, column, j as int, -decInc as int);
        pixels[(j / 0x1_0000) as int * w + column] := c;
        column := column - 1;
        j := j - decInc;
        k := k + 1;
      }
      assert path[..k] == path;
    }

    /** Moves the circle: the new centre, and the bounding box's top-left
        corner `radius` above and left of it; size, radius, colour and
        pixels are untouched. */
    method MoveTo(newCenter: Point)
      modifies this
      ensures center == newCenter
      ensures bbox == old(bbox).(topLeft := Point(newCenter.x - radius, newCenter.y - radius))
      ensures radius == old(radius) && color == old(color) && pixelColor == old(pixelColor)
      ensures pixels == old(pixels) && pixels[..] == old(pixels[..])
      ensures old(Valid()) ==> Valid()
    {
      center := newCenter;
      bbox := bbox.(topLeft := bbox.topLeft.(x := center.x - radius));
      bbox := bbox.(topLeft := bbox.topLeft.(y := center.y - radius));
    }
  }
}
