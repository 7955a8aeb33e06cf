/** The chord filler of `CircleTexture`, `CreateCircleChordEFLA` (the
    "extremely fast line algorithm" in 16.16 fixed point), as the sequence
    of pixels it writes: both endpoints included. */
module EflaLines {
  import opened Arith
  import opened Buffer

  /** What the EFLA derives from the endpoints before it loops: whether y
      is the longer axis, the two lengths after the swap, and the 16.16
      slope `(short_length << 16) / long_length`, 0 for a single point. */
  datatype Efla = Efla(yLonger: bool, shortLength: int, longLength: int, decInc: int)

  function EflaSetup(x1: int, y1: int, x2: int, y2: int): (e: Efla)
    ensures Abs(e.shortLength) <= Abs(e.longLength)
    ensures Abs(e.longLength) == (if Abs(x2 - x1) < Abs(y2 - y1) then Abs(y2 - y1) else Abs(x2 - x1))
    ensures e.longLength == 0 ==> e.decInc == 0 && x1 == x2 && y1 == y2
  {
    var yLonger := Abs(y2 - y1) > Abs(x2 - x1);
    var shortLength := if yLonger then x2 - x1 else y2 - y1;
    var longLength := if yLonger then y2 - y1 else x2 - x1;
    Efla(yLonger, shortLength, longLength,
         if longLength == 0 then 0 else TruncDiv(shortLength * 0x1_0000, longLength))
  }

  /** +1 when the loop counts the longer coordinate up, -1 when it counts
      down (also for a single point). */
  function Direction(e: Efla): (v: int)
  {
    if e.longLength > 0 then 1 else -1
  }

  /** The accumulator `j` after `k` steps, and the pixel drawn at step k:
      the longer coordinate moves by one per step and the shorter one is
      `j >> 16` (a floor division, as `j` is never negative here). */
  function EflaAccumulator(x1: int, y1: int, x2: int, y2: int, k: int): (v: int)
  {
    var e := EflaSetup(x1, y1, x2, y2);
    0x8000 + (if e.yLonger then x1 else y1) * 0x1_0000 + Direction(e) * k * e.decInc
  }

  function EflaPixel(x1: int, y1: int, x2: int, y2: int, k: int): (q: Pixel)
  {
    var e := EflaSetup(x1, y1, x2, y2);
    var j := EflaAccumulator(x1, y1, x2, y2, k);
    if e.yLonger then (j / 0x1_0000, y1 + Direction(e) * k)
    else (x1 + Direction(e) * k, j / 0x1_0000)
  }

  /** The pixels the EFLA writes, in order: one per longer-axis coordinate
      from the first endpoint to the second, both included. */
  function EflaPath(x1: int, y1: int, x2: int, y2: int): (path: seq<Pixel>)
  {
    var e := EflaSetup(x1, y1, x2, y2);
    seq(Abs(e.longLength) + 1, k => EflaPixel(x1, y1, x2, y2, k))
  }

  lemma Floor16(q: int, rest: int)
    requires 0 <= rest < 0x1_0000
    ensures (q * 0x1_0000 + rest) / 0x1_0000 == q
  {
  }

  /** The EFLA writes `max(|x2 - x1|, |y2 - y1|) + 1` pixels, starting with
      (x1, y1), each one step further along the longer axis. */
  lemma EflaPathShape(x1: int, y1: int, x2: int, y2: int)
    ensures var e := EflaSetup(x1, y1, x2, y2);
      && |EflaPath(x1, y1, x2, y2)| == (if Abs(x2 - x1) < Abs(y2 - y1) then Abs(y2 - y1) else Abs(x2 - x1)) + 1
      && EflaPath(x1, y1, x2, y2)[0] == (x1, y1)
      && forall k | 0 <= k < |EflaPath(x1, y1, x2, y2)| ::
           (if e.yLonger then EflaPath(x1, y1, x2, y2)[k].1 else EflaPath(x1, y1, x2, y2)[k].0) ==
           (if e.yLonger then y1 else x1) + Direction(e) * k
  {
    var e := EflaSetup(x1, y1, x2, y2);
    Floor16(if e.yLonger then x1 else y1, 0x8000);
  }

  /** A horizontal EFLA line writes exactly row y1, columns min(x1, x2) to
      max(x1, x2), whichever way it runs; equal endpoints write one pixel
      and need no division. */
  lemma EflaHorizontal(x1: int, y: int, x2: int)
    ensures forall k | 0 <= k < |EflaPath(x1, y, x2, y)| ::
      EflaPath(x1, y, x2, y)[k] == (x1 + (if x2 >= x1 then k else -k), y)
    ensures Elements(EflaPath(x1, y, x2, y)) == RowSpan(y, x1, x2)
    ensures x1 == x2 ==> EflaPath(x1, y, x2, y) == [(x1, y)]
  {
    var p := EflaPath(x1, y, x2, y);
    var e := EflaSetup(x1, y, x2, y);
    assert e.decInc == 0 by {
      if e.longLength != 0 {
        assert e.shortLength * 0x1_0000 == 0;
        TruncDivUnique(0, e.longLength, 0);
      }
    }
    Floor16(y, 0x8000);
    forall k | 0 <= k < |p| ensures p[k] == (x1 + (if x2 >= x1 then k else -k), y) {
      assert EflaAccumulator(x1, y, x2, y, k) == 0x8000 + y * 0x1_0000;
    }
    RowSpanMembers(y, x1, x2);
    forall q | q in RowSpan(y, x1, x2) ensures q in Elements(p) {
      var k := if x2 >= x1 then q.0 - x1 else x1 - q.0;
      assert p[k] == q;
    }
  }

  /** Drawing a horizontal EFLA line on a buffer that shows `S` makes it
      show the row span as well. */
  lemma HorizontalChordShows(s: seq<uint32>, before: seq<uint32>, w: int, S: set<Pixel>,
                             x1: int, y: int, x2: int, c: uint32)
    requires Shows(before, w, S, c)
    requires Paints(s, before, w, Elements(EflaPath(x1, y, x2, y)), c)
    ensures Shows(s, w, S + RowSpan(y, x1, x2), c)
  {
    EflaHorizontal(x1, y, x2);
    ShowsThenPaints(s, before, w, S, RowSpan(y, x1, x2), c);
  }

  /** A vertical EFLA line writes exactly column x, rows min(y1, y2) to
      max(y1, y2); equal endpoints are the single pixel of the horizontal
      case. */
  lemma EflaVertical(x: int, y1: int, y2: int)
    ensures forall k | 0 <= k < |EflaPath(x, y1, x, y2)| ::
      EflaPath(x, y1, x, y2)[k] == (x, y1 + (if y2 >= y1 then k else -k))
    ensures Elements(EflaPath(x, y1, x, y2)) == ColumnSpan(x, y1, y2)
  {
    var p := EflaPath(x, y1, x, y2);
    ColumnSpanMembers(x, y1, y2);
    if y1 == y2 {
      EflaHorizontal(x, y1, x);
      RowSpanMembers(y1, x, x);
      assert RowSpan(y1, x, x) == ColumnSpan(x, y1, y2);
    } else {
      var e := EflaSetup(x, y1, x, y2);
      assert e.yLonger;
      assert e.decInc == 0 by {
        assert e.shortLength * 0x1_0000 == 0;
        TruncDivUnique(0, e.longLength, 0);
      }
      Floor16(x, 0x8000);
      forall k | 0 <= k < |p| ensures p[k] == (x, y1 + (if y2 >= y1 then k else -k)) {
        assert EflaAccumulator(x, y1, x, y2, k) == 0x8000 + x * 0x1_0000;
      }
      forall q | q in ColumnSpan(x, y1, y2) ensures q in Elements(p) {
        var k := if y2 >= y1 then q.1 - y1 else y1 - q.1;
        assert p[k] == q;
      }
    }
  }

  /** The slope of a line that rises `s >= 0` over `m` steps, in 16.16
      fixed point: `k` steps rise by at most `s` (scaled), and all `m`
      steps fall short of it by less than one step's worth of rounding. */
  lemma SlopeNonnegative(s: int, m: int, k: int)
    requires 0 <= s <= m && 0 <= k <= m
    requires 0 < m
    ensures var slope := TruncDiv(s * 0x1_0000, m);
      && 0 <= slope <= 0x1_0000
      && 0 <= k * slope <= s * 0x1_0000
      && (k == m ==> s * 0x1_0000 - m < k * slope)
  {
    var slope := TruncDiv(s * 0x1_0000, m);
    assert 0 <= slope * m <= s * 0x1_0000;
    if slope < 0 {
      MulMonotone(slope, -1, m);
      assert false;
    }
    if slope > 0x1_0000 {
      MulMonotone(0x1_0001, slope, m);
      assert false;
    }
    MulMonotone(k, m, slope);
    MulMonotone(0, k, slope);
    assert m * slope == slope * m;
  }

  /** The same for a shorter length of either sign. */
  lemma SlopeBounds(s: int, m: int, k: int)
    requires 0 < m && Abs(s) <= m && 0 <= k <= m
    ensures var slope := TruncDiv(s * 0x1_0000, m);
      && -0x1_0000 <= slope <= 0x1_0000
      && (s >= 0 ==> 0 <= k * slope <= s * 0x1_0000)
      && (s < 0 ==> s * 0x1_0000 <= k * slope <= 0)
      && (k == m && s >= 0 ==> s * 0x1_0000 - m < k * slope)
      && (k == m && s < 0 ==> k * slope < s * 0x1_0000 + m)
  {
    if s >= 0 {
      SlopeNonnegative(s, m, k);
    } else {
      SlopeNonnegative(-s, m, k);
      var up := TruncDiv((-s) * 0x1_0000, m);
      TruncDivNegate((-s) * 0x1_0000, m);
      assert -((-s) * 0x1_0000) == s * 0x1_0000;
      assert TruncDiv(s * 0x1_0000, m) == -up;
      MulAdd(k, up, -up);
    }
  }

  /** `k` fixed-point steps against the exact offset `k s / m`, both
      scaled by `m 2^16`: the steps never overshoot it and, after at least
      one step, fall short of it by less than `k m`. */
  lemma SlopeScaled(s: int, m: int, k: nat)
    requires 0 < m
    ensures var slope := TruncDiv(s * 0x1_0000, m);
      && (s >= 0 ==> m * (k * slope) <= k * (s * 0x1_0000))
      && (s >= 0 && 0 < k ==> k * (s * 0x1_0000) < m * (k * slope) + k * m)
      && (s < 0 ==> k * (s * 0x1_0000) <= m * (k * slope))
      && (s < 0 && 0 < k ==> m * (k * slope) - k * m < k * (s * 0x1_0000))
  {
    var a := s * 0x1_0000;
    var slope := TruncDiv(a, m);
    var q := slope * m;
    assert m * (k * slope) == q * k;
    if s >= 0 {
      MulMonotone(q, a, k);
      MulMonotone(a - q + 1, m, k);
      MulSub(a + 1, q, k);
    } else {
      MulMonotone(a, q, k);
      MulMonotone(q - a + 1, m, k);
      MulSub(q + 1, a, k);
    }
  }

  /** The EFLA's signed step times the direction is the slope along the
      direction of travel. */
  lemma EflaStep(e: Efla, k: int)
    requires e.longLength != 0
    requires e.decInc == TruncDiv(e.shortLength * 0x1_0000, e.longLength)
    ensures Direction(e) * k * e.decInc == k * TruncDiv(e.shortLength * 0x1_0000, Abs(e.longLength))
    ensures e.decInc == Direction(e) * TruncDiv(e.shortLength * 0x1_0000, Abs(e.longLength))
  {
    if e.longLength < 0 {
      TruncDivNegate(e.shortLength * 0x1_0000, Abs(e.longLength));
      MulByAbs(k, e.decInc);
      assert (-1 * k) * e.decInc == -(k * e.decInc);
    }
  }

  lemma FloorBetween(v: int, lo: int, hi: int)
    requires lo * 0x1_0000 <= v < (hi + 1) * 0x1_0000
    ensures lo <= v / 0x1_0000 <= hi
  {
  }

  /** Every pixel of the EFLA line lies in the bounding box of its two
      endpoints, so a line between two pixels of the buffer writes only
      inside the buffer. */
  lemma EflaInBox(x1: int, y1: int, x2: int, y2: int, k: int)
    requires 0 <= k < |EflaPath(x1, y1, x2, y2)|
    ensures var p := EflaPath(x1, y1, x2, y2)[k];
      && (x1 <= p.0 <= x2 || x2 <= p.0 <= x1)
      && (y1 <= p.1 <= y2 || y2 <= p.1 <= y1)
  {
    var e := EflaSetup(x1, y1, x2, y2);
    var b1 := if e.yLonger then x1 else y1;
    var j := EflaAccumulator(x1, y1, x2, y2, k);
    if e.longLength == 0 {
      Floor16(b1, 0x8000);
    } else {
      var m := Abs(e.longLength);
      EflaStep(e, k);
      SlopeBounds(e.shortLength, m, k);
      var lo := if e.shortLength < 0 then e.shortLength else 0;
      var hi := if e.shortLength < 0 then 0 else e.shortLength;
      FloorBetween(j, b1 + lo, b1 + hi);
    }
  }

  /** The EFLA ends exactly on the second endpoint, at any slope, as long
      as the longer axis spans at most 2^15 pixels (the rounding offset
      0x8000 absorbs the truncation of the slope). */
  lemma EflaEndsAtTarget(x1: int, y1: int, x2: int, y2: int)
    requires Abs(x2 - x1) <= 0x8000 && Abs(y2 - y1) <= 0x8000
    ensures var p := EflaPath(x1, y1, x2, y2);
      p[|p| - 1] == (x2, y2)
  {
    var e := EflaSetup(x1, y1, x2, y2);
    var b1 := if e.yLonger then x1 else y1;
    var b2 := if e.yLonger then x2 else y2;
    var m := Abs(e.longLength);
    var j := EflaAccumulator(x1, y1, x2, y2, m);
    if m == 0 {
      Floor16(b1, 0x8000);
    } else {
      EflaStep(e, m);
      SlopeBounds(e.shortLength, m, m);
      FloorBetween(j, b2, b2);
    }
  }

  /** With every coordinate in `[0, bound]` and `bound < 2^15 - 1`, the
      accumulator stays well inside `int` for every step the loop takes,
      including the final increment after the last pixel. */
  lemma EflaAccumulatorRange(x1: int, y1: int, x2: int, y2: int, k: int, bound: int)
    requires 0 <= x1 <= bound && 0 <= y1 <= bound && 0 <= x2 <= bound && 0 <= y2 <= bound
    requires bound < 0x7FFF
    requires 0 <= k <= Abs(EflaSetup(x1, y1, x2, y2).longLength) + 1
    ensures -0x8000 <= EflaAccumulator(x1, y1, x2, y2, k) <= (bound + 1) * 0x1_0000 + 0x8000
    ensures -0x1_0000 <= EflaSetup(x1, y1, x2, y2).decInc <= 0x1_0000
  {
    var e := EflaSetup(x1, y1, x2, y2);
    var m := Abs(e.longLength);
    var base := if e.yLonger then x1 else y1;
    var t := Direction(e) * k * e.decInc;
    var s := e.shortLength;
    assert 0 <= base + s <= bound;
    if m == 0 {
      assert t == 0;
    } else {
      EflaStep(e, k);
      ScaledOffset(s, m, k);
      var slope := TruncDiv(s * 0x1_0000, m);
      assert e.decInc == slope || e.decInc == -slope;
    }
    AccumulatorWindow(base, s, t, bound);
  }

  /** The slope is at most one pixel per step, and `k <= m + 1` steps of
      it stay between 0 and one step past the scaled shorter length. */
  lemma ScaledOffset(s: int, m: int, k: int)
    requires 0 < m && Abs(s) <= m && 0 <= k <= m + 1
    ensures -0x1_0000 <= TruncDiv(s * 0x1_0000, m) <= 0x1_0000
    ensures var t := k * TruncDiv(s * 0x1_0000, m);
      && (s >= 0 ==> 0 <= t <= s * 0x1_0000 + 0x1_0000)
      && (s < 0 ==> s * 0x1_0000 - 0x1_0000 <= t <= 0)
  {
    if k <= m {
      SlopeBounds(s, m, k);
    } else {
      var slope := TruncDiv(s * 0x1_0000, m);
      SlopeBounds(s, m, k - 1);
      MulSub(k, 1, slope);
    }
  }

  /** The linear half of EflaAccumulatorRange: a start and an end in
      `[0, bound]` and a scaled offset between 0 and one step past the
      scaled length keep the rounded accumulator in range. */
  lemma AccumulatorWindow(base: int, s: int, t: int, bound: int)
    requires 0 <= base <= bound && 0 <= base + s <= bound
    requires s >= 0 ==> 0 <= t <= s * 0x1_0000 + 0x1_0000
    requires s < 0 ==> s * 0x1_0000 - 0x1_0000 <= t <= 0
    ensures -0x8000 <= 0x8000 + base * 0x1_0000 + t <= (bound + 1) * 0x1_0000 + 0x8000
  {
  }


  /** Each step adds the signed slope to the accumulator. */
  lemma EflaAccumulatorNext(x1: int, y1: int, x2: int, y2: int, k: int)
    ensures var e := EflaSetup(x1, y1, x2, y2);
      EflaAccumulator(x1, y1, x2, y2, k + 1) == EflaAccumulator(x1, y1, x2, y2, k) + Direction(e) * e.decInc
  {
    var e := EflaSetup(x1, y1, x2, y2);
    MulAdd(Direction(e), k, 1);
    MulSub(Direction(e) * (k + 1), Direction(e) * k, e.decInc);
  }

  /** What each pass of the EFLA loops needs between two pixels of a
      buffer of side `w < 2^15 - 1`: pixel `k` is in the buffer, the
      accumulator after it fits in `int`, and the pixels written so far
      grow by pixel `k`. */
  lemma EflaProgress(x1: int, y1: int, x2: int, y2: int, w: int, k: int)
    requires 0 < w < 0x7FFF
    requires InSquare((x1, y1), w) && InSquare((x2, y2), w)
    requires 0 <= k < |EflaPath(x1, y1, x2, y2)|
    ensures InSquare(EflaPath(x1, y1, x2, y2)[k], w)
    ensures -0x8000_0000 <= EflaAccumulator(x1, y1, x2, y2, k + 1) < 0x8000_0000
    ensures var p := EflaPath(x1, y1, x2, y2);
      Elements(p[..k + 1]) == Elements(p[..k]) + {p[k]}
  {
    var p := EflaPath(x1, y1, x2, y2);
    EflaInBox(x1, y1, x2, y2, k);
    EflaAccumulatorRange(x1, y1, x2, y2, k + 1, w - 1);
    assert p[..k + 1] == p[..k] + [p[k]];
  }

  /** One write of the EFLA loops: pixel `k` is at the index the loop
      computes, inside the buffer, and painting it extends the pixels
      painted so far by one; the accumulator after it fits in `int`. */
  lemma EflaWrite(s: seq<uint32>, s0: seq<uint32>, w: int, x1: int, y1: int, x2: int, y2: int,
                  k: int, c: uint32)
    requires 0 < w < 0x7FFF && |s| == w * w
    requires InSquare((x1, y1), w) && InSquare((x2, y2), w)
    requires 0 <= k < |EflaPath(x1, y1, x2, y2)|
    requires Paints(s, s0, w, Elements(EflaPath(x1, y1, x2, y2)[..k]), c)
    ensures var e := EflaSetup(x1, y1, x2, y2);
      var j := EflaAccumulator(x1, y1, x2, y2, k);
      var i := Index(EflaPath(x1, y1, x2, y2)[k], w);
      && i == (if e.yLonger then (y1 + Direction(e) * k) * w + j / 0x1_0000
               else (j / 0x1_0000) * w + (x1 + Direction(e) * k))
      && 0 <= i < |s|
      && Paints(s[i := c], s0, w, Elements(EflaPath(x1, y1, x2, y2)[..k + 1]), c)
      && EflaAccumulator(x1, y1, x2, y2, k + 1) == j + Direction(e) * e.decInc
      && -0x8000_0000 <= j + Direction(e) * e.decInc < 0x8000_0000
  {
    var p := EflaPath(x1, y1, x2, y2);
    EflaProgress(x1, y1, x2, y2, w, k);
    EflaAccumulatorNext(x1, y1, x2, y2, k);
    PaintPixel(s, w, p[k], c);
    PaintsThen(s[Index(p[k], w) := c], s, s0, w, Elements(p[..k]), {p[k]}, c);
  }

  /** EflaWrite in the variables of the two loops that walk the rows
      (`row` is the first index of the current row, `row = y * w`). */
  lemma EflaRowWrite(s: seq<uint32>, s0: seq<uint32>, w: int, x1: int, y1: int, x2: int, y2: int,
                     k: int, c: uint32, row: int, j: int, step: int)
    requires 0 < w < 0x7FFF && |s| == w * w
    requires InSquare((x1, y1), w) && InSquare((x2, y2), w)
    requires 0 <= k < |EflaPath(x1, y1, x2, y2)|
    requires EflaSetup(x1, y1, x2, y2).yLonger
    requires step == Direction(EflaSetup(x1, y1, x2, y2)) * EflaSetup(x1, y1, x2, y2).decInc
    requires row == (y1 + Direction(EflaSetup(x1, y1, x2, y2)) * k) * w
    requires j == EflaAccumulator(x1, y1, x2, y2, k)
    requires Paints(s, s0, w, Elements(EflaPath(x1, y1, x2, y2)[..k]), c)
    ensures 0 <= row + j / 0x1_0000 < |s|
    ensures Paints(s[row + j / 0x1_0000 := c], s0, w, Elements(EflaPath(x1, y1, x2, y2)[..k + 1]), c)
    ensures j + step == EflaAccumulator(x1, y1, x2, y2, k + 1)
    ensures -0x8000_0000 <= j + step < 0x8000_0000
    ensures row + Direction(EflaSetup(x1, y1, x2, y2)) * w == (y1 + Direction(EflaSetup(x1, y1, x2, y2)) * (k + 1)) * w
  {
    var e := EflaSetup(x1, y1, x2, y2);
    EflaWrite(s, s0, w, x1, y1, x2, y2, k, c);
    var a := y1 + Direction(e) * k;
    MulAdd(Direction(e), k, 1);
    MulSub(a + Direction(e), Direction(e), w);
  }

  /** EflaWrite in the variables of the two loops that walk the columns. */
  lemma EflaColumnWrite(s: seq<uint32>, s0: seq<uint32>, w: int, x1: int, y1: int, x2: int, y2: int,
                        k: int, c: uint32, column: int, j: int, step: int)
    requires 0 < w < 0x7FFF && |s| == w * w
    requires InSquare((x1, y1), w) && InSquare((x2, y2), w)
    requires 0 <= k < |EflaPath(x1, y1, x2, y2)|
    requires !EflaSetup(x1, y1, x2, y2).yLonger
    requires step == Direction(EflaSetup(x1, y1, x2, y2)) * EflaSetup(x1, y1, x2, y2).decInc
    requires column == x1 + Direction(EflaSetup(x1, y1, x2, y2)) * k
    requires j == EflaAccumulator(x1, y1, x2, y2, k)
    requires Paints(s, s0, w, Elements(EflaPath(x1, y1, x2, y2)[..k]), c)
    ensures 0 <= (j / 0x1_0000) * w + column < |s|
    ensures Paints(s[(j / 0x1_0000) * w + column := c], s0, w, Elements(EflaPath(x1, y1, x2, y2)[..k + 1]), c)
    ensures j + step == EflaAccumulator(x1, y1, x2, y2, k + 1)
    ensures -0x8000_0000 <= j + step < 0x8000_0000
    ensures column + Direction(EflaSetup(x1, y1, x2, y2)) == x1 + Direction(EflaSetup(x1, y1, x2, y2)) * (k + 1)
  {
    var e := EflaSetup(x1, y1, x2, y2);
    EflaWrite(s, s0, w, x1, y1, x2, y2, k, c);
    MulAdd(Direction(e), k, 1);
  }
}
