/** `Circle` (main program): a circle drawn once into its own buffer of
    `2r x 2r` packed pixels, either by testing every pixel against the
    circle (`CreateCircleNaive`) or by the midpoint outline whose chords
    are filled by `CreateCircleChordBresenham`. The SDL renderer and
    texture are not modelled; the buffer is. */
module Circles {
  import opened Arith
  import opened Geometry
  import opened Colors
  import opened Buffer
  import opened Midpoint
  import opened BresenhamLines

  /** The naive test for pixel p of a circle of radius r centred at (r, r)
      in buffer coordinates: `(x - cx)^2 + (y - cy)^2 - r^2 <= 0`. */
  predicate InDisk(p: Pixel, r: int)
  {
    (p.0 - r) * (p.0 - r) + (p.1 - r) * (p.1 - r) - r * r <= 0
  }

  /** The pixels of the `2r x 2r` buffer that pass the naive test. */
  function NaiveDisk(r: int): (S: set<Pixel>)
  {
    set x, y | 0 <= x < 2 * r && 0 <= y < 2 * r && InDisk((x, y), r) :: (x, y)
  }

  lemma NaiveDiskMember(r: int, p: Pixel)
    ensures p in NaiveDisk(r) <==> InSquare(p, 2 * r) && InDisk(p, r)
  {
  }

  /** The naive loops visit column by column, each column top to bottom:
      pixel p comes before the visit of (x, y). */
  predicate Before(p: Pixel, x: int, y: int)
  {
    p.0 < x || (p.0 == x && p.1 < y)
  }

  /** The naive loops' buffer when they are about to test (x, y): every
      pixel visited so far that passes the test holds `c`, every other
      pixel is transparent. */
  predicate NaiveSoFar(s: seq<uint32>, w: int, r: int, x: int, y: int, c: uint32)
  {
    forall k | 0 <= k < |s| ::
      s[k] == if w > 0 && Before(Coord(k, w), x, y) && InDisk(Coord(k, w), r) then c else 0
  }

  /** A cleared buffer is the state before the first visit. */
  lemma NaiveStart(s: seq<uint32>, w: int, r: int, c: uint32)
    requires Shows(s, w, {}, c)
    ensures NaiveSoFar(s, w, r, 0, 0, c)
  {
  }

  /** The visit of (x, y) writes `c` at index `y w + x` exactly when the
      pixel passes the test. */
  lemma NaiveVisit(s: seq<uint32>, w: int, r: int, x: int, y: int, c: uint32)
    requires NaiveSoFar(s, w, r, x, y, c) && |s| == w * w
    requires 0 <= x < w && 0 <= y < w
    ensures 0 <= y * w + x < |s|
    ensures NaiveSoFar(if InDisk((x, y), r) then s[y * w + x := c] else s, w, r, x, y + 1, c)
  {
    CoordIndex((x, y), w);
    var s' := if InDisk((x, y), r) then s[y * w + x := c] else s;
    forall k | 0 <= k < |s|
      ensures s'[k] == if Before(Coord(k, w), x, y + 1) && InDisk(Coord(k, w), r) then c else 0
    {
      IndexCoord(k, w);
    }
  }

  /** After the last row of column x the next column starts. */
  lemma NaiveColumnDone(s: seq<uint32>, w: int, r: int, x: int, c: uint32)
    requires NaiveSoFar(s, w, r, x, w, c) && |s| == w * w
    ensures NaiveSoFar(s, w, r, x + 1, 0, c)
  {
    forall k | 0 <= k < |s|
      ensures s[k] == if w > 0 && Before(Coord(k, w), x + 1, 0) && InDisk(Coord(k, w), r) then c else 0
    {
      if w > 0 {
        IndexCoord(k, w);
      }
    }
  }

  /** Once every column is visited the buffer shows exactly the disk. */
  lemma NaiveDone(s: seq<uint32>, w: int, r: int, x: int, c: uint32)
    requires w == 2 * r && |s| == w * w && 0 <= x && w <= x
    requires NaiveSoFar(s, w, r, x, 0, c)
    ensures Shows(s, w, NaiveDisk(r), c)
  {
    forall k | 0 <= k < |s| ensures s[k] == if Lit(k, w, NaiveDisk(r)) then c else 0 {
      if w > 0 {
        IndexCoord(k, w);
        NaiveDiskMember(r, Coord(k, w));
      }
    }
  }

  /** A horizontal Bresenham chord between two pixels of the buffer stays
      in the buffer, and adds its row span once its far end is shown. */
  lemma HorizontalChordInSquare(x1: int, row: int, x2: int, w: int)
    requires InSquare((x1, row), w) && InSquare((x2, row), w)
    ensures forall p | p in Elements(ChordPathAsWritten(x1, row, x2, row)) :: InSquare(p, w)
  {
    ChordHorizontal(x1, row, x2);
    RowSpanMembers(row, x1, x2);
  }

  lemma HorizontalChordShows(s: seq<uint32>, before: seq<uint32>, w: int, S: set<Pixel>,
                             x1: int, row: int, x2: int, c: uint32)
    requires Shows(before, w, S, c) && (x2, row) in S
    requires Paints(s, before, w, Elements(ChordPathAsWritten(x1, row, x2, row)), c)
    ensures Shows(s, w, S + RowSpan(row, x1, x2), c)
  {
    ChordHorizontal(x1, row, x2);
    ShowsThenPaints(s, before, w, S, RowSpan(row, x1, x2) - {(x2, row)}, c);
    assert S + (RowSpan(row, x1, x2) - {(x2, row)}) == S + RowSpan(row, x1, x2);
  }

  /** One pass of the chord loop's pixel write: the pixel at the head of
      the rest of the walk is in the buffer, and writing it extends the
      painted prefix by one pixel. */
  lemma ChordWrite(s: seq<uint32>, s0: seq<uint32>, w: int, path: seq<Pixel>,
                   done: seq<Pixel>, p: Pixel, rest: seq<Pixel>, c: uint32)
    requires path == done + ([p] + rest) && |s| == w * w
    requires forall q | q in Elements(path) :: InSquare(q, w)
    requires Paints(s, s0, w, Elements(done), c)
    ensures 0 <= Index(p, w) < |s|
    ensures Paints(s[Index(p, w) := c], s0, w, Elements(done + [p]), c)
    ensures path == (done + [p]) + rest
  {
    assert path[|done|] == p;
    assert InSquare(p, w);
    PaintPixel(s, w, p, c);
    PaintsThen(s[Index(p, w) := c], s, s0, w, Elements(done), {p}, c);
    assert Elements(done + [p]) == Elements(done) + {p} by {
      assert forall k | 0 <= k < |done| :: (done + [p])[k] == done[k];
      assert (done + [p])[|done|] == p;
    }
  }

  /** The set-up of `CreateCircleChordBresenham`: both lengths, the signs
      of `x2 - x1` and `y2 - y1`, and the swap that makes `dx` the longer
      length. */
  method ChordStart(x1: int, y1: int, x2: int, y2: int)
    returns (dx: int, dy: int, changed: bool, signX: int, signY: int)
    ensures Chord(dx, dy, changed, signX, signY) == ChordSetup(x1, y1, x2, y2)
  {
    changed := false;
    dx, dy := Abs(x2 - x1), Abs(y2 - y1);
    if x2 - x1 > 0 {
      signX := 1;
    } else if x2 - x1 < 0 {
      signX := -1;
    } else {
      signX := 0;
    }
    if y2 - y1 > 0 {
      signY := 1;
    } else if y2 - y1 < 0 {
      signY := -1;
    } else {
      signY := 0;
    }
    if dy > dx {
      dx, dy := dy, dx;
      changed := true;
    }
  }

  /** The inner `while (e >= 0)` loop of the chord walk, as written: each
      round moves the shorter axis by +1 and lowers e by `2 dx`. */
  method ShortSteps(changed: bool, dx: int, ghost c: Chord, x0: int, y0: int, e0: int)
    returns (x: int, y: int, e: int)
    requires 1 <= dx && c.dx == dx && c.changed == changed
    ensures Walker(x, y, e) == Inner(c, Walker(x0, y0, e0), 1)
    ensures e < 0
  {
    x, y, e := x0, y0, e0;
    while e >= 0
      invariant Inner(c, Walker(x, y, e), 1) == Inner(c, Walker(x0, y0, e0), 1)
      decreases e
    {
      if changed {
        x := x + 1;
      } else {
        y := y + 1;
      }
      e := e - 2 * dx;
    }
  }

  /** `Circle` keeps its radius below 23171 in absolute value, the largest
      bound for which the buffer size `(2 r) * (2 r)` fits in a 32-bit
      `int`; its other values (the decision variable, the naive test's
      squared distances, the chord error term) are smaller still. */
  const MaxCircleRadius := 23171

  class Circle {
    var center: Point
    var radius: int
    var bbox: Rect
    var color: Color
    const bigEndian: bool
    var pixelColor: uint32
    var pixels: array<uint32>

    /** What the constructor establishes: the bounding box is the `2r x 2r`
        square centred on `center`, the buffer has one entry per pixel of
        it, and the pixel colour is the packed colour. */
    predicate Valid()
      reads this
    {
      && -MaxCircleRadius < radius < MaxCircleRadius
      && bbox == Rect(Point(center.x - radius, center.y - radius), 2 * radius, 2 * radius)
      && pixels.Length == bbox.width * bbox.height
      && pixelColor == PackColor(color, bigEndian)
    }

    /** The constructor; `filled` stands for `std::rand() % 2`. */
    constructor (center: Point, radius: int, color: Color, bigEndian: bool, filled: bool)
      requires -MaxCircleRadius < radius < MaxCircleRadius
      ensures Valid()
      ensures this.center == center && this.radius == radius && this.color == color
      ensures this.bigEndian == bigEndian
      ensures bbox == Rect(Point(center.x - radius, center.y - radius), 2 * radius, 2 * radius)
      ensures pixelColor == PackColor(color, bigEndian)
      ensures fresh(pixels)
      ensures Shows(pixels[..], 2 * radius, Outline(radius, filled), pixelColor)
    {
      this.center := center;
      this.radius := radius;
      this.color := color;
      this.bigEndian := bigEndian;
      bbox := Rect(Point(center.x - radius, center.y - radius), 2 * radius, 2 * radius);
      pixelColor := PackColor(color, bigEndian);
      pixels := new uint32[(2 * radius) * (2 * radius)];
      new;
      CreateCircleBresenham(filled);
    }

    /** `memset(pixels_, 0, ...)`: every pixel transparent. */
    method Clear()
      modifies pixels
      ensures Shows(pixels[..], bbox.width, {}, pixelColor)
    {
      forall k | 0 <= k < pixels.Length {
        pixels[k] := 0;
      }
    }

    /** Clears the buffer and colours every pixel whose squared distance
        from the centre is at most `r^2`: afterwards the buffer shows
        exactly `NaiveDisk(radius)`. */
    method CreateCircleNaive()
      requires Valid()
      modifies pixels
      ensures Shows(pixels[..], bbox.width, NaiveDisk(radius), pixelColor)
    {
      Clear();
      var w, h := bbox.width, bbox.height;
      var c := pixelColor;
      var cx := center.x - bbox.topLeft.x;
      var cy := center.y - bbox.topLeft.y;
      var radiusSquared := radius * radius;
      NaiveStart(pixels[..], w, radius, c);
      var x := 0;
      while x < w
        invariant 0 <= x && (w > 0 ==> x <= w)
        invariant NaiveSoFar(pixels[..], w, radius, x, 0, c)
      {
        var y := 0;
        while y < h
          invariant 0 <= y <= h
          invariant NaiveSoFar(pixels[..], w, radius, x, y, c)
        {
          NaiveVisit(pixels[..], w, radius, x, y, c);
          if (x - cx) * (x - cx) + (y - cy) * (y - cy) - radiusSquared <= 0 {
            pixels[(y * w) + x] := c;
          }
          y := y + 1;
        }
        NaiveColumnDone(pixels[..], w, radius, x, c);
        x := x + 1;
      }
      NaiveDone(pixels[..], w, radius, x, c);
    }

    /** Clears the buffer and draws the midpoint outline, with the four
        Bresenham chords of every pass when `filled`: afterwards the buffer
        shows exactly `Outline(radius, filled)`, the same pixels as
        CircleTexture, although these chords never write their far end. */
    method CreateCircleBresenham(filled: bool)
      requires Valid()
      modifies pixels
      ensures Shows(pixels[..], bbox.width, Outline(radius, filled), pixelColor)
    {
      var w := bbox.width;
      var r := radius;
      var c := pixelColor;
      Clear();
      var x, y, d := 0, r, 1 - r;
      ghost var done: seq<State> := [];
      while x < y
        invariant Octant(r) == done + Passes(State(x, y, d))
        invariant Shows(pixels[..], w, Plotted(r, done, filled), c)
        decreases y - x
      {
        ghost var s := Step(State(x, y, d));
        OctantNext(r, done, State(x, y, d));
        if d < 0 {
          d := d + 2 * x + 3;
          x := x + 1;
        } else {
          d := d + 2 * (x - y) + 5;
          x := x + 1;
          y := y - 1;
        }
        assert State(x, y, d) == s;
        PlotPass(x, y, filled, Plotted(r, done, filled));
        PlottedAppend(r, done, s, filled);
        done := done + [s];
      }
      OctantNext(r, done, State(x, y, d));
    }

    /** The body of the outline loop after the step: the eight mirrored
        pixels of (x, y), then in filled mode the four chords joining them. */
    method PlotPass(x: int, y: int, filled: bool, ghost P: set<Pixel>)
      requires Valid() && 1 <= x <= radius && 0 <= y <= radius
      requires Shows(pixels[..], bbox.width, P, pixelColor)
      modifies pixels
      ensures Shows(pixels[..], bbox.width, P + PassPixels(radius, State(x, y, 0), filled), pixelColor)
    {
      PlotEight(x, y, P);
      if filled {
        PlotChords(x, y, P + Eight(radius, x, y));
      }
      ShowsPass(pixels[..], bbox.width, P, radius, x, y, filled, pixelColor);
    }

    /** The eight mirrored pixels of (x, y), in the order the source writes them. */
    method PlotEight(x: int, y: int, ghost P: set<Pixel>)
      requires Valid() && 1 <= x <= radius && 0 <= y <= radius
      requires Shows(pixels[..], bbox.width, P, pixelColor)
      modifies pixels
      ensures Shows(pixels[..], bbox.width, P + Eight(radius, x, y), pixelColor)
    {
      var r := radius;
      assert bbox.width == 2 * r;
      PlotFour(r - x, r - 1 + x, r - y, r - y, r - 1 + y, r - x, P);
      ghost var Q := P + {(r - x, r - y)} + {(r - 1 + x, r - y)} + {(r - y, r - x)} + {(r - 1 + y, r - x)};
      PlotFour(r - y, r - 1 + y, r - 1 + x, r - x, r - 1 + x, r - 1 + y, Q);
      ShowsEight(pixels[..], bbox.width, P, r, x, y, pixelColor);
    }

    /** Two pixels on row `rowA`, then two on row `rowB`. */
    method PlotFour(a1: int, a2: int, rowA: int, b1: int, b2: int, rowB: int, ghost P: set<Pixel>)
      requires Valid() && InSquare((a1, rowA), bbox.width) && InSquare((a2, rowA), bbox.width)
      requires InSquare((b1, rowB), bbox.width) && InSquare((b2, rowB), bbox.width)
      requires Shows(pixels[..], bbox.width, P, pixelColor)
      modifies pixels
      ensures Shows(pixels[..], bbox.width,
                    P + {(a1, rowA)} + {(a2, rowA)} + {(b1, rowB)} + {(b2, rowB)}, pixelColor)
    {
      PlotPair(a1, a2, rowA, P);
      PlotPair(b1, b2, rowB, P + {(a1, rowA)} + {(a2, rowA)});
    }

    /** Two pixels of one row, at columns `a` and `b`. */
    method PlotPair(a: int, b: int, row: int, ghost P: set<Pixel>)
      requires Valid() && InSquare((a, row), bbox.width) && InSquare((b, row), bbox.width)
      requires Shows(pixels[..], bbox.width, P, pixelColor)
      modifies pixels
      ensures Shows(pixels[..], bbox.width, P + {(a, row)} + {(b, row)}, pixelColor)
    {
      Plot(a, row, P);
      Plot(b, row, P + {(a, row)});
    }

    /** One pixel write, `pixels_[row * w + column] = pixel_color_`. */
    method Plot(column: int, row: int, ghost S: set<Pixel>)
      requires Valid() && InSquare((column, row), bbox.width)
      requires Shows(pixels[..], bbox.width, S, pixelColor)
      modifies pixels
      ensures Shows(pixels[..], bbox.width, S + {(column, row)}, pixelColor)
    {
      ShowsPixel(pixels[..], bbox.width, S, (column, row), pixelColor);
      pixels[row * bbox.width + column] := pixelColor;
    }

    /** The four horizontal chords joining the mirrored pixels of (x, y),
        once those eight pixels are shown. */
    method PlotChords(x: int, y: int, ghost P: set<Pixel>)
      requires Valid() && 1 <= x <= radius && 0 <= y <= radius
      requires Eight(radius, x, y) <= P
      requires Shows(pixels[..], bbox.width, P, pixelColor)
      modifies pixels
      ensures Shows(pixels[..], bbox.width, P + Chords(radius, x, y), pixelColor)
    {
      var r := radius;
      PlotChordPair(r - y, r - x, r - 1 + x, r - x, r - y, r - 1 + y, P);
      PlotChordPair(r - 1 + x, r - y, r - 1 + y, r - 1 + y, r - x, r - 1 + x,
                    P + RowSpan(r - y, r - x, r - 1 + x) + RowSpan(r - x, r - y, r - 1 + y));
      ShowsChords(pixels[..], bbox.width, P, r, x, y, pixelColor);
    }

    /** Two chords in a row, on rows `rowA` and `rowB`, whose far ends are
        already shown. */
    method PlotChordPair(rowA: int, a1: int, a2: int, rowB: int, b1: int, b2: int, ghost P: set<Pixel>)
      requires Valid()
      requires InSquare((a1, rowA), bbox.width) && InSquare((a2, rowA), bbox.width)
      requires InSquare((b1, rowB), bbox.width) && InSquare((b2, rowB), bbox.width)
      requires (a2, rowA) in P && (b2, rowB) in P
      requires Shows(pixels[..], bbox.width, P, pixelColor)
      modifies pixels
      ensures Shows(pixels[..], bbox.width, P + RowSpan(rowA, a1, a2) + RowSpan(rowB, b1, b2), pixelColor)
    {
      PlotChord(a1, rowA, a2, P);
      PlotChord(b1, rowB, b2, P + RowSpan(rowA, a1, a2));
    }

    /** One chord, `CreateCircleChordBresenham(x1, row, x2, row)`: it writes
        the row segment without its far end, which is already shown, so the
        whole segment is added to what the buffer shows. */
    method PlotChord(x1: int, row: int, x2: int, ghost S: set<Pixel>)
      requires Valid() && InSquare((x1, row), bbox.width) && InSquare((x2, row), bbox.width)
      requires (x2, row) in S
      requires Shows(pixels[..], bbox.width, S, pixelColor)
      modifies pixels
      ensures Shows(pixels[..], bbox.width, S + RowSpan(row, x1, x2), pixelColor)
    {
      ghost var before := pixels[..];
      HorizontalChordInSquare(x1, row, x2, bbox.width);
      CreateCircleChordBresenham(x1, row, x2, row);
      HorizontalChordShows(pixels[..], before, bbox.width, S, x1, row, x2, pixelColor);
    }

    /** The error-term line walk from (x1, y1) towards (x2, y2), as written:
        it paints exactly the pixels of `ChordPathAsWritten` and leaves
        every other pixel as it was. The source writes without a bounds
        check, so every pixel of the walk must lie in the buffer. */
    method CreateCircleChordBresenham(x1: int, y1: int, x2: int, y2: int)
      requires Valid()
      requires forall p | p in Elements(ChordPathAsWritten(x1, y1, x2, y2)) :: InSquare(p, bbox.width)
      modifies pixels
      ensures Paints(pixels[..], old(pixels[..]), bbox.width,
                     Elements(ChordPathAsWritten(x1, y1, x2, y2)), pixelColor)
    {
      var w := bbox.width;
      var col := pixelColor;
      var dx, dy, changed, signX, signY := ChordStart(x1, y1, x2, y2);
      ghost var c := Chord(dx, dy, changed, signX, signY);
      var x, y := x1, y1;
      ghost var path := ChordPathAsWritten(x1, y1, x2, y2);
      ghost var done: seq<Pixel> := [];
      var e := 2 * dy - dx;
      var i := 1;
      while i <= dx
        invariant 1 <= i <= dx + 1
        invariant path == done + ChordWalk(c, Walker(x, y, e), dx - (i - 1), 1)
        invariant Paints(pixels[..], old(pixels[..]), w, Elements(done), col)
      {
        ghost var start := Walker(x, y, e);
        ghost var rest := ChordWalk(c, Pass(c, start, 1), dx - i, 1);
        ChordWrite(pixels[..], old(pixels[..]), w, path, done, (x, y), rest, col);
        pixels[y * w + x] := col;
        x, y, e := ShortSteps(changed, dx, c, x, y, e);
        if changed {
          y := y + signY;
        } else {
          x := x + signX;
        }
        e := e + 2 * dy;
        assert Walker(x, y, e) == Pass(c, start, 1);
        done := done + [(start.x, start.y)];
        i := i + 1;
      }
      assert path == done;
    }
  }

  /** For radius 3 the naive test keeps pixel (5, 1) and drops (0, 1). */
  lemma NaiveDiskRadius3()
    ensures (5, 1) in NaiveDisk(3) && (0, 1) !in NaiveDisk(3)
  {
    assert InDisk((5, 1), 3) && !InDisk((0, 1), 3);
    NaiveDiskMember(3, (5, 1));
    NaiveDiskMember(3, (0, 1));
  }

  /** The filled midpoint circle of radius 3 fills row 1 only from column
      1 to 4. */
  lemma FilledOutlineRadius3()
    ensures (5, 1) !in Outline(3, true)
  {
    var s1, s2 := State(1, 3, 1), State(2, 2, 2);
    OutlineRadius3();
    assert [] + [s1] == [s1] && [s1] + [s2] == Octant(3);
    PlottedAppend(3, [], s1, true);
    PlottedAppend(3, [s1], s2, true);
    FirstPassRadius3();
    SecondPassRadius3();
  }

  lemma FirstPassRadius3()
    ensures (5, 1) !in PassPixels(3, State(1, 3, 1), true)
  {
    RowSpanMembers(0, 2, 3);
    RowSpanMembers(2, 0, 5);
    RowSpanMembers(3, 0, 5);
    RowSpanMembers(5, 2, 3);
  }

  lemma SecondPassRadius3()
    ensures (5, 1) !in PassPixels(3, State(2, 2, 2), true)
  {
    RowSpanMembers(1, 1, 4);
    RowSpanMembers(4, 1, 4);
  }

  /** The naive disk and the filled midpoint circle are different pixel
      sets: for radius 3, pixel (5, 1) passes the naive test but is not
      part of the filled outline. */
  lemma NaiveDiskVersusOutline()
    ensures NaiveDisk(3) != Outline(3, true)
  {
    NaiveDiskRadius3();
    FilledOutlineRadius3();
  }
}
