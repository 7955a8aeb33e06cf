/** The midpoint (Bresenham) circle outline that both rasterisers draw:
    the octant walk on `x, y, d`, the eight mirrored pixels plotted per
    pass, and the four horizontal chords added in filled mode. The local
    origin is the buffer's top-left corner and the circle's centre is the
    corner shared by pixels (r-1, r-1) and (r, r). */
module Midpoint {
  import opened Arith
  import opened Buffer

  /** The variables of the outline loop. */
  datatype State = State(x: int, y: int, d: int)

  function Start(radius: int): (t: State)
  {
    State(0, radius, 1 - radius)
  }

  /** One pass of the loop body before plotting: move right, and also up
      when the decision variable says the midpoint is outside. */
  function Step(s: State): (t: State)
  {
    if s.d < 0 then State(s.x + 1, s.y, s.d + 2 * s.x + 3)
    else State(s.x + 1, s.y - 1, s.d + 2 * (s.x - s.y) + 5)
  }

  /** The states that `while (x < y)` plots, started in `s`. */
  function Passes(s: State): (passes: seq<State>)
    decreases s.y - s.x
  {
    if s.x < s.y then [Step(s)] + Passes(Step(s)) else []
  }

  function Octant(radius: int): (passes: seq<State>)
  {
    Passes(Start(radius))
  }

  /** Shape of the walk from any state with `x >= 0`: `x` grows by one per
      pass, `y` never grows and stays at least `x - 1`, and there are at
      most `y - x` passes. */
  lemma {:induction false} PassesShape(s: State)
    requires s.x >= 0
    decreases s.y - s.x
    ensures var p := Passes(s);
      && (s.x < s.y ==> |p| <= s.y - s.x)
      && (s.x >= s.y ==> p == [])
      && (forall i | 0 <= i < |p| :: p[i].x == s.x + i + 1 && p[i].x - 1 <= p[i].y <= s.y)
      && (forall i, j | 0 <= i < j < |p| :: p[j].y <= p[i].y)
      && (p != [] ==> p[|p| - 1].x >= p[|p| - 1].y)
  {
    if s.x < s.y {
      var t := Step(s);
      PassesShape(t);
      var p := Passes(s);
      assert p == [t] + Passes(t);
      forall i, j | 0 <= i < j < |p| ensures p[j].y <= p[i].y {
        if i > 0 { assert p[i] == Passes(t)[i - 1] && p[j] == Passes(t)[j - 1]; }
      }
    }
  }

  /** The outline loop runs at most `radius` passes (none when
      `radius <= 0`); after pass `i`, `x == i + 1`, `0 <= x - 1 <= y <= radius`,
      `y` is non-increasing, and when the loop stops `x >= y`. */
  lemma OctantShape(radius: int)
    ensures var o := Octant(radius);
      && |o| <= (if radius < 0 then 0 else radius)
      && (forall i | 0 <= i < |o| :: o[i].x == i + 1 && 1 <= o[i].x <= radius && 0 <= o[i].x - 1 <= o[i].y <= radius)
      && (forall i, j | 0 <= i < j < |o| :: o[j].y <= o[i].y)
      && (o != [] ==> o[|o| - 1].x >= o[|o| - 1].y)
  {
    PassesShape(Start(radius));
  }

  /** The outline loop, one pass at a time: while `x < y` the next state
      is the next pass of the octant, with `1 <= x <= radius` and
      `0 <= y <= radius`; once `x >= y` all passes are done. */
  lemma OctantNext(radius: int, done: seq<State>, s: State)
    requires Octant(radius) == done + Passes(s)
    ensures s.x < s.y ==>
      && Octant(radius) == (done + [Step(s)]) + Passes(Step(s))
      && 1 <= Step(s).x <= radius && 0 <= Step(s).y <= radius
    ensures s.x >= s.y ==> done == Octant(radius)
  {
    if s.x < s.y {
      OctantShape(radius);
      assert Passes(s) == [Step(s)] + Passes(Step(s));
      assert Octant(radius)[|done|] == Step(s);
    }
  }

  /** The decision variable of the midpoint test in state (x, y) for a
      circle of radius `r`. */
  function Decision(x: int, y: int, r: int): (v: int)
  {
    (x + 1) * (x + 1) + y * y - y - r * r
  }

  /** Every plotted (x, y) is a nearest row to the true circle in column x:
      `x^2 + y^2 - y <= r^2 <= x^2 + y^2 + y`, that is, the circle passes
      within half a pixel of row y. The loop keeps `d` equal to Decision. */
  lemma {:induction false} PassesNear(s: State, r: int)
    requires s.x >= 0
    requires s.d == Decision(s.x, s.y, r)
    requires s.x < s.y ==> s.x * s.x + s.y * s.y - s.y < r * r
    requires r * r <= s.x * s.x + s.y * s.y + s.y
    ensures forall i | 0 <= i < |Passes(s)| ::
      var q := Passes(s)[i];
      && q.d == Decision(q.x, q.y, r)
      && q.x * q.x + q.y * q.y - q.y <= r * r <= q.x * q.x + q.y * q.y + q.y
    decreases s.y - s.x
  {
    if s.x < s.y {
      var t := Step(s);
      StepNear(s, r);
      PassesNear(t, r);
      assert Passes(s) == [t] + Passes(t);
    }
  }

  /** One pass keeps the loop's decision variable and the nearness of the
      plotted row. */
  lemma StepNear(s: State, r: int)
    requires 0 <= s.x < s.y
    requires s.d == Decision(s.x, s.y, r)
    requires s.x * s.x + s.y * s.y - s.y < r * r <= s.x * s.x + s.y * s.y + s.y
    ensures var t := Step(s);
      && t.x >= 0 && t.d == Decision(t.x, t.y, r)
      && t.x * t.x + t.y * t.y - t.y <= r * r <= t.x * t.x + t.y * t.y + t.y
      && (t.x < t.y ==> t.x * t.x + t.y * t.y - t.y < r * r)
  {
    var x, y := s.x, s.y;
    assert (x + 1) * (x + 1) == x * x + 2 * x + 1;
    assert (x + 2) * (x + 2) == (x + 1) * (x + 1) + 2 * x + 3;
    assert (y - 1) * (y - 1) == y * y - 2 * y + 1;
  }


  lemma OctantNear(radius: int)
    ensures forall i | 0 <= i < |Octant(radius)| ::
      var q := Octant(radius)[i];
      && q.d == Decision(q.x, q.y, radius)
      && q.x * q.x + q.y * q.y - q.y <= radius * radius <= q.x * q.x + q.y * q.y + q.y
  {
    if radius > 0 {
      PassesNear(Start(radius), radius);
    } else {
      PassesShape(Start(radius));
    }
  }

  /** The eight pixels plotted for (x, y): offsets (±x, ±y) and (±y, ±x)
      from the centre, each negative offset shifted by one so that the
      pixel lands in its own quadrant of the even-sized buffer. */
  function Eight(r: int, x: int, y: int): (S: set<Pixel>)
  {
    {(r - x, r - y), (r - 1 + x, r - y),
     (r - y, r - x), (r - 1 + y, r - x),
     (r - y, r - 1 + x), (r - 1 + y, r - 1 + x),
     (r - x, r - 1 + y), (r - 1 + x, r - 1 + y)}
  }

  /** The four horizontal chords that join the mirrored pairs of Eight on
      rows `r - y`, `r - x`, `r - 1 + x` and `r - 1 + y`. */
  function Chords(r: int, x: int, y: int): (S: set<Pixel>)
  {
    RowSpan(r - y, r - x, r - 1 + x) + RowSpan(r - x, r - y, r - 1 + y) +
    RowSpan(r - 1 + x, r - y, r - 1 + y) + RowSpan(r - 1 + y, r - x, r - 1 + x)
  }

  function PassPixels(r: int, s: State, filled: bool): (S: set<Pixel>)
  {
    if filled then Eight(r, s.x, s.y) + Chords(r, s.x, s.y) else Eight(r, s.x, s.y)
  }

  /** The pixels plotted by the passes `steps`, in loop order. */
  function Plotted(r: int, steps: seq<State>, filled: bool): (S: set<Pixel>)
  {
    if steps == [] then {}
    else Plotted(r, steps[..|steps| - 1], filled) + PassPixels(r, steps[|steps| - 1], filled)
  }

  /** The pixels that the outline routine leaves coloured. */
  function Outline(radius: int, filled: bool): (S: set<Pixel>)
  {
    Plotted(radius, Octant(radius), filled)
  }

  /** One more pass adds its pixels. */
  lemma PlottedAppend(r: int, steps: seq<State>, s: State, filled: bool)
    ensures Plotted(r, steps + [s], filled) == Plotted(r, steps, filled) + PassPixels(r, s, filled)
  {
    assert (steps + [s])[..|steps|] == steps;
  }

  /** The eight writes of a pass, one pixel at a time, in loop order. */
  lemma EightOneByOne(P: set<Pixel>, r: int, x: int, y: int)
    ensures P + {(r - x, r - y)} + {(r - 1 + x, r - y)} + {(r - y, r - x)} + {(r - 1 + y, r - x)}
              + {(r - y, r - 1 + x)} + {(r - 1 + y, r - 1 + x)} + {(r - x, r - 1 + y)}
              + {(r - 1 + x, r - 1 + y)} == P + Eight(r, x, y)
  {
  }

  /** A buffer that shows P and the eight points added one at a time
      shows P + Eight. */
  lemma ShowsEight(s: seq<uint32>, w: int, P: set<Pixel>, r: int, x: int, y: int, c: uint32)
    requires Shows(s, w, P + {(r - x, r - y)} + {(r - 1 + x, r - y)} + {(r - y, r - x)} + {(r - 1 + y, r - x)}
                       + {(r - y, r - 1 + x)} + {(r - 1 + y, r - 1 + x)} + {(r - x, r - 1 + y)}
                       + {(r - 1 + x, r - 1 + y)}, c)
    ensures Shows(s, w, P + Eight(r, x, y), c)
  {
    EightOneByOne(P, r, x, y);
  }

  /** The four chords of a pass, one at a time, in loop order. */
  lemma ChordsOneByOne(P: set<Pixel>, r: int, x: int, y: int)
    ensures P + RowSpan(r - y, r - x, r - 1 + x) + RowSpan(r - x, r - y, r - 1 + y)
              + RowSpan(r - 1 + x, r - y, r - 1 + y) + RowSpan(r - 1 + y, r - x, r - 1 + x)
            == P + Chords(r, x, y)
  {
  }

  /** A buffer that shows P and the four chords added one at a time
      shows P + Chords. */
  lemma ShowsChords(s: seq<uint32>, w: int, P: set<Pixel>, r: int, x: int, y: int, c: uint32)
    requires Shows(s, w, P + RowSpan(r - y, r - x, r - 1 + x) + RowSpan(r - x, r - y, r - 1 + y)
                       + RowSpan(r - 1 + x, r - y, r - 1 + y) + RowSpan(r - 1 + y, r - x, r - 1 + x), c)
    ensures Shows(s, w, P + Chords(r, x, y), c)
  {
    ChordsOneByOne(P, r, x, y);
  }

  /** A buffer that shows P, the eight points and, when filled, the chords
      shows P with the pixels of the pass. */
  lemma ShowsPass(s: seq<uint32>, w: int, P: set<Pixel>, r: int, x: int, y: int, filled: bool, c: uint32)
    requires Shows(s, w, if filled then P + Eight(r, x, y) + Chords(r, x, y) else P + Eight(r, x, y), c)
    ensures Shows(s, w, P + PassPixels(r, State(x, y, 0), filled), c)
  {
    if filled {
      assert P + Eight(r, x, y) + Chords(r, x, y) == P + PassPixels(r, State(x, y, 0), filled);
    }
  }

  /** A pass with `1 <= x <= r` and `0 <= y <= r` plots only inside the
      `2r x 2r` square, and its chords join the eight points. */
  lemma PassInSquare(r: int, x: int, y: int)
    requires 1 <= x <= r && 0 <= y <= r
    ensures forall p | p in Eight(r, x, y) + Chords(r, x, y) :: InSquare(p, 2 * r)
    ensures Eight(r, x, y) <= Chords(r, x, y)
  {
    SpanInSquare(r - y, r - x, r - 1 + x, r);
    SpanInSquare(r - x, r - y, r - 1 + y, r);
    SpanInSquare(r - 1 + x, r - y, r - 1 + y, r);
    SpanInSquare(r - 1 + y, r - x, r - 1 + x, r);
    EightOnChords(r, x, y);
  }

  lemma SpanInSquare(row: int, a: int, b: int, r: int)
    requires 0 <= row < 2 * r && 0 <= a < 2 * r && 0 <= b < 2 * r
    ensures forall p | p in RowSpan(row, a, b) :: InSquare(p, 2 * r)
  {
    RowSpanMembers(row, a, b);
  }

  /** Each of the eight points is an end of one of the four chords. */
  lemma EightOnChords(r: int, x: int, y: int)
    ensures Eight(r, x, y) <= Chords(r, x, y)
  {
    SpanEnds(r - y, r - x, r - 1 + x);
    SpanEnds(r - x, r - y, r - 1 + y);
    SpanEnds(r - 1 + x, r - y, r - 1 + y);
    SpanEnds(r - 1 + y, r - x, r - 1 + x);
  }

  lemma SpanEnds(row: int, a: int, b: int)
    ensures (a, row) in RowSpan(row, a, b) && (b, row) in RowSpan(row, a, b)
  {
    RowSpanMembers(row, a, b);
  }

  /** Every pixel of the outline, filled or not, lies in [0, 2r) x [0, 2r);
      for `radius <= 0` there are none. */
  lemma OutlineInSquare(radius: int, filled: bool)
    ensures forall p | p in Outline(radius, filled) :: InSquare(p, 2 * radius)
    ensures radius <= 0 ==> Outline(radius, filled) == {}
  {
    OctantShape(radius);
    PlottedInSquare(radius, Octant(radius), filled);
  }

  lemma {:induction false} PlottedInSquare(r: int, steps: seq<State>, filled: bool)
    requires forall i | 0 <= i < |steps| :: 1 <= steps[i].x <= r && 0 <= steps[i].y <= r
    ensures forall p | p in Plotted(r, steps, filled) :: InSquare(p, 2 * r)
  {
    if steps != [] {
      var last := steps[|steps| - 1];
      PlottedInSquare(r, steps[..|steps| - 1], filled);
      PassInSquare(r, last.x, last.y);
    }
  }

  /** The squared distance from the centre column (or row) that a chord
      from `r - u` to `r - 1 + u` can reach: `u^2`, or 1 when `u == 0`
      (the chord then runs from `r` back to `r - 1`). */
  function Reach(u: int): (d: int)
  {
    if u == 0 then 1 else u * u
  }

  lemma SquareWithin(a: int, m: int)
    requires -m <= a <= m
    ensures a * a <= m * m
  {
    var b := Abs(a);
    MulMonotone(b, m, b);
    MulMonotone(b, m, m);
    assert a * a == b * b;
  }

  lemma ChordColumnReach(p: Pixel, row: int, r: int, u: int)
    requires 0 <= u && p in RowSpan(row, r - u, r - 1 + u)
    ensures p.1 == row
    ensures (p.0 - r) * (p.0 - r) <= Reach(u)
  {
    RowSpanMembers(row, r - u, r - 1 + u);
    if u == 0 {
      SquareWithin(p.0 - r, 1);
    } else {
      SquareWithin(p.0 - r, u);
    }
  }

  lemma RowReach(row: int, r: int, v: int)
    requires 0 <= v && (row == r - v || row == r - 1 + v)
    ensures (row - r) * (row - r) <= Reach(v)
  {
    if v == 0 {
      SquareWithin(row - r, 1);
    } else {
      SquareWithin(row - r, v);
    }
  }

  /** A pixel plotted in the pass for (x, y), an outline point or a chord
      pixel, is within `Reach(x) + Reach(y)` of the centre, squared: the
      `- 1` of the mirrored offsets only brings it closer. */
  lemma PassReach(r: int, s: State, filled: bool, p: Pixel)
    requires 0 <= s.x && 0 <= s.y && p in PassPixels(r, s, filled)
    ensures (p.0 - r) * (p.0 - r) + (p.1 - r) * (p.1 - r) <= Reach(s.x) + Reach(s.y)
  {
    var x, y := s.x, s.y;
    EightOnChords(r, x, y);
    if p in RowSpan(r - y, r - x, r - 1 + x) {
      ChordColumnReach(p, r - y, r, x);
      RowReach(r - y, r, y);
    } else if p in RowSpan(r - x, r - y, r - 1 + y) {
      ChordColumnReach(p, r - x, r, y);
      RowReach(r - x, r, x);
    } else if p in RowSpan(r - 1 + x, r - y, r - 1 + y) {
      ChordColumnReach(p, r - 1 + x, r, y);
      RowReach(r - 1 + x, r, x);
    } else {
      ChordColumnReach(p, r - 1 + y, r, x);
      RowReach(r - 1 + y, r, y);
    }
  }

  /** For a point the loop plots, the reach of its pass is at most
      `r^2 + r`; the one pass with `y == 0` (radius 1) reaches exactly 2. */
  lemma NearWithinOuter(r: int, x: int, y: int)
    requires 1 <= x <= r && 0 <= x - 1 <= y <= r
    requires x * x + y * y - y <= r * r
    ensures Reach(x) + Reach(y) <= r * r + r
  {
    if y == 0 {
      MulMonotone(1, r, r);
    }
  }

  lemma {:induction false} PlottedWithinOuter(r: int, steps: seq<State>, filled: bool)
    requires forall i | 0 <= i < |steps| ::
      && 1 <= steps[i].x <= r && 0 <= steps[i].x - 1 <= steps[i].y <= r
      && steps[i].x * steps[i].x + steps[i].y * steps[i].y - steps[i].y <= r * r
    ensures forall p | p in Plotted(r, steps, filled) ::
      (p.0 - r) * (p.0 - r) + (p.1 - r) * (p.1 - r) <= r * r + r
  {
    if steps != [] {
      var last := steps[|steps| - 1];
      PlottedWithinOuter(r, steps[..|steps| - 1], filled);
      NearWithinOuter(r, last.x, last.y);
      forall p | p in PassPixels(r, last, filled)
        ensures (p.0 - r) * (p.0 - r) + (p.1 - r) * (p.1 - r) <= r * r + r
      {
        PassReach(r, last, filled, p);
      }
    }
  }

  /** The outer bound of the circle: no pixel of the outline, filled or
      not, is farther than `r^2 + r` (squared) from the centre corner, so
      every pixel with `(x - r)^2 + (y - r)^2 > r^2 + r`, in particular
      every pixel beyond `(r + 1)^2`, is left untouched. */
  lemma OutlineWithinOuter(radius: int, filled: bool)
    ensures forall p | p in Outline(radius, filled) ::
      (p.0 - radius) * (p.0 - radius) + (p.1 - radius) * (p.1 - radius) <= radius * radius + radius
  {
    OctantShape(radius);
    OctantNear(radius);
    PlottedWithinOuter(radius, Octant(radius), filled);
  }

  /** A buffer showing the outline is transparent at every pixel outside
      the outer bound. */
  lemma OutsideTransparent(s: seq<uint32>, w: int, radius: int, filled: bool, c: uint32, k: int)
    requires Shows(s, w, Outline(radius, filled), c)
    requires 0 <= k < |s| && w > 0
    requires var p := Coord(k, w);
      (p.0 - radius) * (p.0 - radius) + (p.1 - radius) * (p.1 - radius) > radius * radius + radius
    ensures s[k] == 0
  {
    OutlineWithinOuter(radius, filled);
  }

  /** Reflections of the `2r x 2r` square. */
  function MirrorColumn(p: Pixel, r: int): (q: Pixel)
  {
    (2 * r - 1 - p.0, p.1)
  }

  function MirrorRow(p: Pixel, r: int): (q: Pixel)
  {
    (p.0, 2 * r - 1 - p.1)
  }

  function Transpose(p: Pixel): (q: Pixel)
  {
    (p.1, p.0)
  }

  /** The pixel set is unchanged by reflection across the vertical and the
      horizontal bisector of the square. */
  predicate MirrorSymmetric(S: set<Pixel>, r: int)
  {
    forall p | p in S :: MirrorColumn(p, r) in S && MirrorRow(p, r) in S
  }

  /** The eight points are also unchanged by reflection across the
      diagonal. */
  predicate TransposeSymmetric(S: set<Pixel>)
  {
    forall p | p in S :: Transpose(p) in S
  }

  /** A span centred on the vertical bisector is its own column mirror;
      its row mirror is the same span on the mirrored row. */
  lemma SpanMirrors(p: Pixel, row: int, mirrored: int, a: int, b: int, r: int)
    requires a + b == 2 * r - 1 && row + mirrored == 2 * r - 1
    requires p in RowSpan(row, a, b)
    ensures MirrorColumn(p, r) in RowSpan(row, a, b) && MirrorRow(p, r) in RowSpan(mirrored, a, b)
  {
    RowSpanMembers(row, a, b);
    RowSpanMembers(mirrored, a, b);
  }

  lemma ChordsSymmetric(r: int, x: int, y: int)
    ensures MirrorSymmetric(Chords(r, x, y), r)
  {
    var top, upper := RowSpan(r - y, r - x, r - 1 + x), RowSpan(r - x, r - y, r - 1 + y);
    var lower, bottom := RowSpan(r - 1 + x, r - y, r - 1 + y), RowSpan(r - 1 + y, r - x, r - 1 + x);
    forall p | p in Chords(r, x, y)
      ensures MirrorColumn(p, r) in Chords(r, x, y) && MirrorRow(p, r) in Chords(r, x, y)
    {
      if p in top {
        SpanMirrors(p, r - y, r - 1 + y, r - x, r - 1 + x, r);
      } else if p in upper {
        SpanMirrors(p, r - x, r - 1 + x, r - y, r - 1 + y, r);
      } else if p in lower {
        SpanMirrors(p, r - 1 + x, r - x, r - y, r - 1 + y, r);
      } else {
        SpanMirrors(p, r - 1 + y, r - y, r - x, r - 1 + x, r);
      }
    }
  }

  lemma EightSymmetric(r: int, x: int, y: int)
    ensures MirrorSymmetric(Eight(r, x, y), r)
    ensures TransposeSymmetric(Eight(r, x, y))
  {
  }

  lemma PassSymmetric(r: int, s: State, filled: bool)
    ensures MirrorSymmetric(PassPixels(r, s, filled), r)
    ensures !filled ==> TransposeSymmetric(PassPixels(r, s, filled))
  {
    EightSymmetric(r, s.x, s.y);
    ChordsSymmetric(r, s.x, s.y);
  }

  lemma {:induction false} PlottedSymmetric(r: int, steps: seq<State>, filled: bool)
    ensures MirrorSymmetric(Plotted(r, steps, filled), r)
    ensures !filled ==> TransposeSymmetric(Plotted(r, steps, filled))
  {
    if steps != [] {
      PlottedSymmetric(r, steps[..|steps| - 1], filled);
      PassSymmetric(r, steps[|steps| - 1], filled);
    }
  }

  /** The outline is symmetric under `column -> 2r-1-column` and
      `row -> 2r-1-row`, filled or not; the unfilled outline is also
      symmetric under transposition. */
  lemma OutlineSymmetric(radius: int, filled: bool)
    ensures MirrorSymmetric(Outline(radius, filled), radius)
    ensures !filled ==> TransposeSymmetric(Outline(radius, filled))
  {
    PlottedSymmetric(radius, Octant(radius), filled);
  }

  lemma {:induction false} PlottedFilledCovers(r: int, steps: seq<State>)
    requires forall i | 0 <= i < |steps| :: 1 <= steps[i].x <= r && 0 <= steps[i].y <= r
    ensures Plotted(r, steps, false) <= Plotted(r, steps, true)
    ensures Plotted(r, steps, true) == Plotted(r, steps, false) + FilledChords(r, steps)
  {
    if steps != [] {
      var last := steps[|steps| - 1];
      PlottedFilledCovers(r, steps[..|steps| - 1]);
      PassInSquare(r, last.x, last.y);
    }
  }

  /** The chords of all passes. */
  function FilledChords(r: int, steps: seq<State>): (S: set<Pixel>)
  {
    if steps == [] then {}
    else FilledChords(r, steps[..|steps| - 1]) + Chords(r, steps[|steps| - 1].x, steps[|steps| - 1].y)
  }

  /** Filling only adds pixels: the filled outline is the unfilled outline
      plus the chords of every pass. */
  lemma FilledCoversOutline(radius: int)
    ensures Outline(radius, false) <= Outline(radius, true)
    ensures Outline(radius, true) == Outline(radius, false) + FilledChords(radius, Octant(radius))
  {
    OctantShape(radius);
    PlottedFilledCovers(radius, Octant(radius));
  }

  /** Radius 3, unfilled: two passes, (x, y) = (1, 3) and (2, 2), and twelve
      pixels. */
  lemma OutlineRadius3()
    ensures Octant(3) == [State(1, 3, 1), State(2, 2, 2)]
    ensures Outline(3, false) ==
      {(2, 0), (3, 0), (0, 2), (5, 2), (0, 3), (5, 3), (2, 5), (3, 5),
       (1, 1), (4, 1), (1, 4), (4, 4)}
  {
    assert Step(Start(3)) == State(1, 3, 1);
    assert Step(State(1, 3, 1)) == State(2, 2, 2);
    assert Passes(State(2, 2, 2)) == [];
    var o := Octant(3);
    assert o == [State(1, 3, 1), State(2, 2, 2)];
    assert o[..1] == [State(1, 3, 1)] && o[..1][..0] == [];
    assert Plotted(3, o[..1], false) == Eight(3, 1, 3);
    assert Eight(3, 2, 2) == {(1, 1), (4, 1), (1, 4), (4, 4)};
  }
}
