/** The chord filler of `Circle`, `CreateCircleChordBresenham`: an
    error-term line walk that plots one pixel per step of the longer axis
    and never the second endpoint. As written, the inner `while (e >= 0)`
    moves the shorter axis by +1 whatever its sign; ChordPath is the same
    walk with that step taken towards the second endpoint. */
module BresenhamLines {
  import opened Arith
  import opened Buffer

  function Sign(v: int): (s: int)
    ensures s == 0 <==> v == 0
    ensures s * v == Abs(v)
  {
    if v > 0 then 1 else if v < 0 then -1 else 0
  }

  /** The set-up before the loop: the lengths along both axes, swapped so
      that `dx` is the longer one (`changed` records the swap), and the
      signs of `x2 - x1` and `y2 - y1`. */
  datatype Chord = Chord(dx: int, dy: int, changed: bool, signX: int, signY: int)

  function ChordSetup(x1: int, y1: int, x2: int, y2: int): (c: Chord)
    ensures 0 <= c.dy <= c.dx
    ensures c.dx == (if Abs(y2 - y1) > Abs(x2 - x1) then Abs(y2 - y1) else Abs(x2 - x1))
    ensures c.dy == (if Abs(y2 - y1) > Abs(x2 - x1) then Abs(x2 - x1) else Abs(y2 - y1))
    ensures c.changed <==> Abs(y2 - y1) > Abs(x2 - x1)
  {
    var dx, dy := Abs(x2 - x1), Abs(y2 - y1);
    if dy > dx then Chord(dy, dx, true, Sign(x2 - x1), Sign(y2 - y1))
    else Chord(dx, dy, false, Sign(x2 - x1), Sign(y2 - y1))
  }

  /** The loop's variables at the top of a pass: the position (x, y) and
      the error term e (a `float` in the source that only ever holds
      integers). */
  datatype Walker = Walker(x: int, y: int, e: int)

  /** The inner loop `while (e >= 0)`: each round moves the shorter axis by
      `step` (x when `changed`, otherwise y) and lowers e by `2 dx`. */
  function Inner(c: Chord, w: Walker, step: int): (after: Walker)
    requires 1 <= c.dx
    decreases if w.e < 0 then 0 else w.e + 1
  {
    if w.e < 0 then w
    else if c.changed then Inner(c, Walker(w.x + step, w.y, w.e - 2 * c.dx), step)
    else Inner(c, Walker(w.x, w.y + step, w.e - 2 * c.dx), step)
  }

  /** The rest of a pass after the pixel write: the inner loop, one step of
      the longer axis towards the second endpoint and `e += 2 dy`. */
  function Pass(c: Chord, w: Walker, step: int): (after: Walker)
    requires 1 <= c.dx
  {
    var v := Inner(c, w, step);
    if c.changed then Walker(v.x, v.y + c.signY, v.e + 2 * c.dy)
    else Walker(v.x + c.signX, v.y, v.e + 2 * c.dy)
  }

  /** The pixels of `n` more passes of the outer loop from `w`. */
  function ChordWalk(c: Chord, w: Walker, n: int, step: int): (path: seq<Pixel>)
    requires 0 <= n <= c.dx
    decreases n
  {
    if n == 0 then [] else [(w.x, w.y)] + ChordWalk(c, Pass(c, w, step), n - 1, step)
  }

  /** The pixels `CreateCircleChordBresenham(x1, y1, x2, y2)` writes, in
      order, as the code is written: the inner step is `+1`. */
  function ChordPathAsWritten(x1: int, y1: int, x2: int, y2: int): (path: seq<Pixel>)
  {
    var c := ChordSetup(x1, y1, x2, y2);
    ChordWalk(c, Walker(x1, y1, 2 * c.dy - c.dx), c.dx, 1)
  }

  /** The same walk with the inner step taken towards the second endpoint. */
  function ChordPath(x1: int, y1: int, x2: int, y2: int): (path: seq<Pixel>)
  {
    var c := ChordSetup(x1, y1, x2, y2);
    ChordWalk(c, Walker(x1, y1, 2 * c.dy - c.dx), c.dx, if c.changed then c.signX else c.signY)
  }

  /** How often the inner loop runs from error term `e`. */
  function InnerSteps(e: int, dx: int): (m: nat)
    requires dx >= 1
    decreases if e < 0 then 0 else e + 1
  {
    if e < 0 then 0 else InnerSteps(e - 2 * dx, dx) + 1
  }

  /** It is the least count after which the error term is negative. */
  lemma {:induction false} InnerStepsLeast(e: int, dx: int)
    requires dx >= 1
    ensures e - 2 * dx * InnerSteps(e, dx) < 0
    ensures InnerSteps(e, dx) > 0 ==> e - 2 * dx * (InnerSteps(e, dx) - 1) >= 0
    decreases if e < 0 then 0 else e + 1
  {
    if e >= 0 {
      var m := InnerSteps(e - 2 * dx, dx);
      InnerStepsLeast(e - 2 * dx, dx);
      MulAdd(2 * dx, m, 1);
    }
  }

  /** The inner loop ends after InnerSteps rounds: the shorter axis has
      moved `step` that many times and e has dropped by `2 dx` as often. */
  lemma {:induction false} InnerEffect(c: Chord, w: Walker, step: int)
    requires 1 <= c.dx
    ensures var m := InnerSteps(w.e, c.dx);
      Inner(c, w, step) ==
        if c.changed then Walker(w.x + step * m, w.y, w.e - 2 * c.dx * m)
        else Walker(w.x, w.y + step * m, w.e - 2 * c.dx * m)
    decreases if w.e < 0 then 0 else w.e + 1
  {
    if w.e >= 0 {
      var v := if c.changed then Walker(w.x + step, w.y, w.e - 2 * c.dx)
               else Walker(w.x, w.y + step, w.e - 2 * c.dx);
      InnerEffect(c, v, step);
      var m := InnerSteps(v.e, c.dx);
      MulAdd(step, m, 1);
      MulAdd(2 * c.dx, m, 1);
    }
  }

  /** `v` lies between `a` and `b`, in either order. */
  predicate Between(v: int, a: int, b: int)
  {
    a <= v <= b || b <= v <= a
  }

  /** After `k + 1` passes the shorter axis has moved at most `dy` times. */
  lemma ShortCountBound(dx: int, dy: int, k: int, t: int)
    requires 1 <= dx && 0 <= dy <= dx && 0 <= k < dx && 0 <= t
    requires 2 * dy * (k + 1) - dx - 2 * dx * t >= -2 * dx
    ensures t <= dy
  {
    MulMonotone(k + 1, dx, dy);
    assert dy * (k + 1) <= dy * dx;
    if t > dy {
      MulMonotone(dy + 1, t, dx);
      assert false;
    }
  }

  /** The state of the walk after `k` passes and `t` inner steps from
      (x0, y0): the error term is `2 dy (k + 1) - dx - 2 dx t`, never below
      `-2 dx`, the longer axis is at offset `k` and the shorter one at
      `step * t`. */
  predicate WalkState(c: Chord, w: Walker, step: int, x0: int, y0: int, k: int, t: int)
  {
    && 0 <= t && w.e == 2 * c.dy * (k + 1) - c.dx - 2 * c.dx * t && w.e >= -2 * c.dx
    && if c.changed then w.x == x0 + step * t && w.y == y0 + c.signY * k
       else w.x == x0 + c.signX * k && w.y == y0 + step * t
  }

  /** Pixel `p` is plotted on pass `k`: the longer axis at offset `k`, the
      shorter one between the start and `step * dy` from it. */
  predicate Along(c: Chord, x0: int, y0: int, step: int, k: int, p: Pixel)
  {
    if c.changed then p.1 == y0 + c.signY * k && Between(p.0, x0, x0 + step * c.dy)
    else p.0 == x0 + c.signX * k && Between(p.1, y0, y0 + step * c.dy)
  }

  lemma PassAlong(c: Chord, w: Walker, step: int, x0: int, y0: int, k: int, t: int)
    requires 1 <= c.dx && 0 <= c.dy <= c.dx && 0 <= k < c.dx && -1 <= step <= 1
    requires WalkState(c, w, step, x0, y0, k, t)
    ensures Along(c, x0, y0, step, k, (w.x, w.y))
  {
    ShortCountBound(c.dx, c.dy, k, t);
    if step == 1 {
      assert step * t == t && step * c.dy == c.dy;
    } else if step == -1 {
      assert step * t == -t && step * c.dy == -c.dy;
    } else {
      assert step * t == 0 && step * c.dy == 0;
    }
  }

  /** The error-term half of PassKeeps. */
  lemma ErrorKeeps(dx: int, dy: int, e: int, k: int, t: int, m: int)
    requires 1 <= dx && 0 <= dy && 0 <= m
    requires e == 2 * dy * (k + 1) - dx - 2 * dx * t && e >= -2 * dx
    requires e - 2 * dx * m < 0 && (m > 0 ==> e - 2 * dx * (m - 1) >= 0)
    ensures e - 2 * dx * m + 2 * dy == 2 * dy * (k + 2) - dx - 2 * dx * (t + m)
    ensures e - 2 * dx * m + 2 * dy >= -2 * dx
  {
    assert 2 * dx * (t + m) == 2 * dx * t + 2 * dx * m;
    assert 2 * dy * (k + 2) == 2 * dy * (k + 1) + 2 * dy;
    if m > 0 {
      assert 2 * dx * (m - 1) == 2 * dx * m - 2 * dx;
    }
  }

  /** One pass of the walk keeps WalkState, with one more pass and the
      inner loop's rounds added. */
  lemma PassKeeps(c: Chord, w: Walker, step: int, x0: int, y0: int, k: int, t: int)
    requires 1 <= c.dx && 0 <= c.dy && WalkState(c, w, step, x0, y0, k, t)
    ensures WalkState(c, Pass(c, w, step), step, x0, y0, k + 1, t + InnerSteps(w.e, c.dx))
  {
    var m := InnerSteps(w.e, c.dx);
    InnerStepsLeast(w.e, c.dx);
    InnerEffect(c, w, step);
    ErrorKeeps(c.dx, c.dy, w.e, k, t, m);
    MulAdd(step, t, m);
    MulAdd(c.signX, k, 1);
    MulAdd(c.signY, k, 1);
  }

  /** Every pass of the walk from a WalkState plots along the line. */
  lemma {:induction false} WalkBounds(c: Chord, w: Walker, n: int, step: int,
                                      x0: int, y0: int, k: int, t: int)
    requires 1 <= c.dx && 0 <= c.dy <= c.dx && 0 <= n <= c.dx && k == c.dx - n
    requires -1 <= step <= 1
    requires WalkState(c, w, step, x0, y0, k, t)
    ensures |ChordWalk(c, w, n, step)| == n
    ensures forall i | 0 <= i < n :: Along(c, x0, y0, step, k + i, ChordWalk(c, w, n, step)[i])
    decreases n
  {
    if n > 0 {
      PassAlong(c, w, step, x0, y0, k, t);
      PassKeeps(c, w, step, x0, y0, k, t);
      WalkBounds(c, Pass(c, w, step), n - 1, step, x0, y0, k + 1, t + InnerSteps(w.e, c.dx));
      AlongShift(c, x0, y0, step, k, (w.x, w.y), ChordWalk(c, Pass(c, w, step), n - 1, step));
    }
  }

  /** Prepending the pixel of pass `k` to pixels along passes `k + 1`, ...
      gives pixels along passes `k`, .... */
  lemma AlongShift(c: Chord, x0: int, y0: int, step: int, k: int, p: Pixel, rest: seq<Pixel>)
    requires Along(c, x0, y0, step, k, p)
    requires forall i | 0 <= i < |rest| :: Along(c, x0, y0, step, k + 1 + i, rest[i])
    ensures forall i | 0 <= i < |rest| + 1 :: Along(c, x0, y0, step, k + i, ([p] + rest)[i])
  {
    forall i | 1 <= i < |rest| + 1 ensures Along(c, x0, y0, step, k + i, ([p] + rest)[i]) {
      assert ([p] + rest)[i] == rest[i - 1];
      assert k + i == k + 1 + (i - 1);
    }
  }

  /** Both walks write `max(|x2 - x1|, |y2 - y1|)` pixels, starting with
      (x1, y1) and moving the longer axis by one per pixel towards the
      second endpoint, which is never reached: the second endpoint is never
      written. */
  lemma ChordLength(x1: int, y1: int, x2: int, y2: int)
    ensures var c := ChordSetup(x1, y1, x2, y2);
      && |ChordPathAsWritten(x1, y1, x2, y2)| == c.dx
      && |ChordPath(x1, y1, x2, y2)| == c.dx
      && (c.dx > 0 ==> ChordPathAsWritten(x1, y1, x2, y2)[0] == (x1, y1) && ChordPath(x1, y1, x2, y2)[0] == (x1, y1))
      && (x2, y2) !in Elements(ChordPathAsWritten(x1, y1, x2, y2))
      && (x2, y2) !in Elements(ChordPath(x1, y1, x2, y2))
  {
    var c := ChordSetup(x1, y1, x2, y2);
    if c.dx > 0 {
      WalkAvoidsEnd(c, x1, y1, x2, y2, 1);
      WalkAvoidsEnd(c, x1, y1, x2, y2, if c.changed then c.signX else c.signY);
    }
  }

  /** A walk from (x1, y1) with either inner step has `dx` pixels and
      stops one pass short of the second endpoint's longer coordinate. */
  lemma WalkAvoidsEnd(c: Chord, x1: int, y1: int, x2: int, y2: int, step: int)
    requires c == ChordSetup(x1, y1, x2, y2) && c.dx > 0 && -1 <= step <= 1
    ensures |ChordWalk(c, Walker(x1, y1, 2 * c.dy - c.dx), c.dx, step)| == c.dx
    ensures ChordWalk(c, Walker(x1, y1, 2 * c.dy - c.dx), c.dx, step)[0] == (x1, y1)
    ensures (x2, y2) !in Elements(ChordWalk(c, Walker(x1, y1, 2 * c.dy - c.dx), c.dx, step))
  {
    var w := ChordWalk(c, Walker(x1, y1, 2 * c.dy - c.dx), c.dx, step);
    WalkBounds(c, Walker(x1, y1, 2 * c.dy - c.dx), c.dx, step, x1, y1, 0, 0);
    forall i | 0 <= i < c.dx ensures w[i] != (x2, y2) {
      assert Along(c, x1, y1, step, i, w[i]);
      if c.changed {
        SignTwice(c.signY, y2 - y1, i);
      } else {
        SignTwice(c.signX, x2 - x1, i);
      }
    }
  }

  /** Moving `i < |v|` unit steps along `Sign(v)` from 0 does not reach `v`. */
  lemma SignTwice(s: int, v: int, i: int)
    requires s == Sign(v) && 0 <= i < Abs(v)
    ensures s * i != v
  {
    if v > 0 {
      assert s * i == i;
    } else {
      assert s * i == -i;
    }
  }

  /** `i` steps of `Sign(v)` from `a`, at most `|v|` of them, stay between
      `a` and `a + v`. */
  lemma OffsetBetween(a: int, v: int, i: int)
    requires 0 <= i <= Abs(v)
    ensures Between(a + Sign(v) * i, a, a + v)
    ensures a + Sign(v) * Abs(v) == a + v
  {
    if v > 0 {
      assert Sign(v) * i == i;
    } else if v < 0 {
      assert Sign(v) * i == -i;
    }
  }

  /** With the inner step taken towards the second endpoint, every pixel
      lies in the bounding box of the two endpoints. */
  lemma ChordPathInBox(x1: int, y1: int, x2: int, y2: int)
    ensures forall p | p in Elements(ChordPath(x1, y1, x2, y2)) ::
      Between(p.0, x1, x2) && Between(p.1, y1, y2)
  {
    var c := ChordSetup(x1, y1, x2, y2);
    if c.dx > 0 {
      var s := if c.changed then c.signX else c.signY;
      WalkBounds(c, Walker(x1, y1, 2 * c.dy - c.dx), c.dx, s, x1, y1, 0, 0);
      var v := ChordPath(x1, y1, x2, y2);
      forall i | 0 <= i < c.dx ensures Between(v[i].0, x1, x2) && Between(v[i].1, y1, y2) {
        assert Along(c, x1, y1, s, i, v[i]);
        if c.changed {
          OffsetBetween(x1, x2 - x1, 0);
          OffsetBetween(y1, y2 - y1, i);
        } else {
          OffsetBetween(y1, y2 - y1, 0);
          OffsetBetween(x1, x2 - x1, i);
        }
      }
    }
  }

  /** With no slope the error term stays at `-dx`, the inner loop never
      runs, and the step it would take does not matter. */
  lemma {:induction false} WalkFlat(c: Chord, x: int, y: int, n: int, step: int)
    requires c.dy == 0 && 1 <= c.dx && 0 <= n <= c.dx
    ensures ChordWalk(c, Walker(x, y, -c.dx), n, step) == ChordWalk(c, Walker(x, y, -c.dx), n, 1)
    ensures |ChordWalk(c, Walker(x, y, -c.dx), n, 1)| == n
    ensures forall i | 0 <= i < n ::
      ChordWalk(c, Walker(x, y, -c.dx), n, 1)[i] ==
        if c.changed then (x, y + c.signY * i) else (x + c.signX * i, y)
    decreases n
  {
    if n > 0 {
      var next := if c.changed then (x, y + c.signY) else (x + c.signX, y);
      assert Pass(c, Walker(x, y, -c.dx), step) == Walker(next.0, next.1, -c.dx);
      assert Pass(c, Walker(x, y, -c.dx), 1) == Walker(next.0, next.1, -c.dx);
      WalkFlat(c, next.0, next.1, n - 1, step);
      var w := ChordWalk(c, Walker(x, y, -c.dx), n, 1);
      var rest := ChordWalk(c, Walker(next.0, next.1, -c.dx), n - 1, 1);
      forall i | 1 <= i < n
        ensures w[i] == if c.changed then (x, y + c.signY * i) else (x + c.signX * i, y)
      {
        assert w[i] == rest[i - 1];
        MulAdd(c.signX, i - 1, 1);
        MulAdd(c.signY, i - 1, 1);
      }
    }
  }

  /** A horizontal chord writes row y from x1 towards x2, one column per
      pixel, stopping just before x2: `|x2 - x1|` pixels, none when the
      endpoints are equal. The corrected walk is the same line. */
  lemma ChordHorizontal(x1: int, y: int, x2: int)
    ensures ChordPath(x1, y, x2, y) == ChordPathAsWritten(x1, y, x2, y)
    ensures |ChordPathAsWritten(x1, y, x2, y)| == Abs(x2 - x1)
    ensures forall k | 0 <= k < |ChordPathAsWritten(x1, y, x2, y)| ::
      ChordPathAsWritten(x1, y, x2, y)[k] == (x1 + Sign(x2 - x1) * k, y)
    ensures Elements(ChordPathAsWritten(x1, y, x2, y)) == RowSpan(y, x1, x2) - {(x2, y)}
    ensures x1 == x2 ==> ChordPathAsWritten(x1, y, x2, y) == []
  {
    var c := ChordSetup(x1, y, x2, y);
    var w := ChordPathAsWritten(x1, y, x2, y);
    if c.dx > 0 {
      WalkFlat(c, x1, y, c.dx, c.signY);
      assert 2 * c.dy - c.dx == -c.dx;
      ChordLength(x1, y, x2, y);
      RowSpanMembers(y, x1, x2);
      forall q | q in RowSpan(y, x1, x2) - {(x2, y)} ensures q in Elements(w) {
        var k := if x2 >= x1 then q.0 - x1 else x1 - q.0;
        if x2 > x1 {
          assert Sign(x2 - x1) * k == k;
        } else {
          assert Sign(x2 - x1) * k == -k;
        }
        assert w[k] == q;
      }
    } else {
      RowSpanMembers(y, x1, x2);
      assert RowSpan(y, x1, x2) == {(x1, y)};
    }
  }

  /** A vertical chord writes column x from y1 towards y2, stopping just
      before y2. */
  lemma ChordVertical(x: int, y1: int, y2: int)
    ensures ChordPath(x, y1, x, y2) == ChordPathAsWritten(x, y1, x, y2)
    ensures |ChordPathAsWritten(x, y1, x, y2)| == Abs(y2 - y1)
    ensures forall k | 0 <= k < |ChordPathAsWritten(x, y1, x, y2)| ::
      ChordPathAsWritten(x, y1, x, y2)[k] == (x, y1 + Sign(y2 - y1) * k)
    ensures Elements(ChordPathAsWritten(x, y1, x, y2)) == ColumnSpan(x, y1, y2) - {(x, y2)}
  {
    var c := ChordSetup(x, y1, x, y2);
    var w := ChordPathAsWritten(x, y1, x, y2);
    if c.dx > 0 {
      WalkFlat(c, x, y1, c.dx, c.signX);
      assert 2 * c.dy - c.dx == -c.dx;
      ChordLength(x, y1, x, y2);
      ColumnSpanMembers(x, y1, y2);
      forall q | q in ColumnSpan(x, y1, y2) - {(x, y2)} ensures q in Elements(w) {
        var k := if y2 >= y1 then q.1 - y1 else y1 - q.1;
        if y2 > y1 {
          assert Sign(y2 - y1) * k == k;
        } else {
          assert Sign(y2 - y1) * k == -k;
        }
        assert w[k] == q;
      }
    } else {
      ColumnSpanMembers(x, y1, y2);
      assert ColumnSpan(x, y1, y2) == {(x, y1)};
    }
  }

  /** As written, a line from (0, 1) to (2, 0) steps down to row 2 instead
      of up to row 0, leaving the endpoints' bounding box; the corrected
      walk stays on rows 1 and 0. */
  lemma AsWrittenLeavesBox()
    ensures ChordPathAsWritten(0, 1, 2, 0) == [(0, 1), (1, 2)]
    ensures !Between(2, 1, 0)
    ensures ChordPath(0, 1, 2, 0) == [(0, 1), (1, 0)]
  {
    var c := ChordSetup(0, 1, 2, 0);
    assert c == Chord(2, 1, false, 1, -1);
    var up, down := Walker(0, 2, -4), Walker(0, 0, -4);
    assert Inner(c, up, 1) == up && Inner(c, down, -1) == down;
    assert Inner(c, Walker(0, 1, 0), 1) == up;
    assert Inner(c, Walker(0, 1, 0), -1) == down;
    var up1, down1 := Walker(1, 2, -2), Walker(1, 0, -2);
    assert Pass(c, Walker(0, 1, 0), 1) == up1;
    assert Pass(c, Walker(0, 1, 0), -1) == down1;
    assert ChordWalk(c, up1, 1, 1) == [(1, 2)];
    assert ChordWalk(c, down1, 1, -1) == [(1, 0)];
  }
}
