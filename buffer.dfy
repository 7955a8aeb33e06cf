/** The row-major pixel buffer of a circle: a square of side `w`, where
    pixel (column, row) lives at index `row * w + column`. */
module Buffer {
  import opened Arith

  /** `CircleTexture` keeps its radius below 2^14 in absolute value: its
      EFLA shifts buffer coordinates (up to `2 r`) left by 16 bits, and
      those 16.16 values and the accumulator must fit in a 32-bit `int`. */
  const MaxRadius := 0x4000

  /** A pixel position in buffer coordinates: (column, row). */
  type Pixel = (int, int)

  function Index(p: Pixel, w: int): (v: int)
  {
    p.1 * w + p.0
  }

  /** The position stored at index `k`; the inverse of Index (IndexCoord,
      CoordIndex). */
  function Coord(k: int, w: int): (q: Pixel)
    requires w > 0
  {
    (k % w, k / w)
  }

  predicate InSquare(p: Pixel, w: int)
  {
    0 <= p.0 < w && 0 <= p.1 < w
  }

  /** A position inside the square is stored in the buffer, and reading the
      position back from its index gives it again. */
  lemma CoordIndex(p: Pixel, w: int)
    requires w > 0 && InSquare(p, w)
    ensures 0 <= Index(p, w) < w * w
    ensures Coord(Index(p, w), w) == p
  {
    var k := Index(p, w);
    MulMonotone(0, p.1, w);
    MulMonotone(p.1, w - 1, w);
    assert (w - 1) * w + w == w * w;
    var q := k / w;
    assert k == q * w + k % w;
    if q != p.1 {
      MulSub(q, p.1, w);
      NonzeroMultiple(q - p.1, w);
    }
  }

  /** Every index of the buffer holds a position inside the square. */
  lemma IndexCoord(k: int, w: int)
    requires w > 0 && 0 <= k < w * w
    ensures InSquare(Coord(k, w), w)
    ensures Index(Coord(k, w), w) == k
  {
    var q := k / w;
    assert k == q * w + k % w;
    if q >= w {
      MulMonotone(w, q, w);
      assert false;
    }
    if q < 0 {
      MulMonotone(q, -1, w);
      assert false;
    }
  }

  /** The pixels of one column between rows `a` and `b`, both included,
      in either order. */
  function ColumnSpan(column: int, a: int, b: int): (S: set<Pixel>)
  {
    if a <= b then ColumnRun(column, a, b) else ColumnRun(column, b, a)
  }

  /** The pixels of one row between columns `a` and `b`, both included,
      in either order. */
  function RowSpan(row: int, a: int, b: int): (S: set<Pixel>)
  {
    if a <= b then RowRun(row, a, b) else RowRun(row, b, a)
  }

  /** (lo, row), (lo + 1, row), ..., (hi, row). */
  function RowRun(row: int, lo: int, hi: int): (S: set<Pixel>)
    decreases hi - lo
  {
    if lo > hi then {} else {(lo, row)} + RowRun(row, lo + 1, hi)
  }

  /** (column, lo), (column, lo + 1), ..., (column, hi). */
  function ColumnRun(column: int, lo: int, hi: int): (S: set<Pixel>)
    decreases hi - lo
  {
    if lo > hi then {} else {(column, lo)} + ColumnRun(column, lo + 1, hi)
  }

  lemma {:induction false} RowRunMembers(row: int, lo: int, hi: int)
    ensures forall p :: p in RowRun(row, lo, hi) <==> p.1 == row && lo <= p.0 <= hi
    decreases hi - lo
  {
    if lo <= hi {
      RowRunMembers(row, lo + 1, hi);
    }
  }

  lemma {:induction false} ColumnRunMembers(column: int, lo: int, hi: int)
    ensures forall p :: p in ColumnRun(column, lo, hi) <==> p.0 == column && lo <= p.1 <= hi
    decreases hi - lo
  {
    if lo <= hi {
      ColumnRunMembers(column, lo + 1, hi);
    }
  }

  /** A row span holds exactly the pixels of its row between the smaller
      and the larger column. */
  lemma RowSpanMembers(row: int, a: int, b: int)
    ensures forall p :: p in RowSpan(row, a, b) <==>
      p.1 == row && (if a <= b then a else b) <= p.0 <= (if a <= b then b else a)
  {
    if a <= b { RowRunMembers(row, a, b); } else { RowRunMembers(row, b, a); }
  }

  /** A column span holds exactly the pixels of its column between the
      smaller and the larger row. */
  lemma ColumnSpanMembers(column: int, a: int, b: int)
    ensures forall p :: p in ColumnSpan(column, a, b) <==>
      p.0 == column && (if a <= b then a else b) <= p.1 <= (if a <= b then b else a)
  {
    if a <= b { ColumnRunMembers(column, a, b); } else { ColumnRunMembers(column, b, a); }
  }

  /** The pixels visited by a path, forgetting order and repetition. */
  function Elements(path: seq<Pixel>): (S: set<Pixel>)
  {
    set k | 0 <= k < |path| :: path[k]
  }

  /** Index `k` of a buffer of side `w` holds a pixel of `S`. */
  predicate Lit(k: int, w: int, S: set<Pixel>)
  {
    w > 0 && Coord(k, w) in S
  }

  /** The buffer `s` holds colour `c` exactly at the pixels of `S` and is
      transparent (0) everywhere else. */
  predicate Shows(s: seq<uint32>, w: int, S: set<Pixel>, c: uint32)
  {
    forall k | 0 <= k < |s| :: s[k] == if Lit(k, w, S) then c else 0
  }

  /** `s` is `s0` with the pixels of `S` set to `c` and nothing else changed. */
  predicate Paints(s: seq<uint32>, s0: seq<uint32>, w: int, S: set<Pixel>, c: uint32)
  {
    |s| == |s0| &&
    forall k | 0 <= k < |s| :: s[k] == if Lit(k, w, S) then c else s0[k]
  }

  /** Writing `c` at the index of one in-square position paints that pixel. */
  lemma PaintPixel(s: seq<uint32>, w: int, p: Pixel, c: uint32)
    requires w > 0 && InSquare(p, w) && |s| == w * w
    ensures 0 <= Index(p, w) < |s|
    ensures Paints(s[Index(p, w) := c], s, w, {p}, c)
  {
    CoordIndex(p, w);
    forall k | 0 <= k < |s|
      ensures s[Index(p, w) := c][k] == if Lit(k, w, {p}) then c else s[k]
    {
      IndexCoord(k, w);
    }
  }

  lemma PaintsThen(s2: seq<uint32>, s1: seq<uint32>, s0: seq<uint32>, w: int,
                   S: set<Pixel>, T: set<Pixel>, c: uint32)
    requires Paints(s1, s0, w, S, c) && Paints(s2, s1, w, T, c)
    ensures Paints(s2, s0, w, S + T, c)
  {
  }

  lemma ShowsThenPaints(s1: seq<uint32>, s0: seq<uint32>, w: int,
                        S: set<Pixel>, T: set<Pixel>, c: uint32)
    requires Shows(s0, w, S, c) && Paints(s1, s0, w, T, c)
    ensures Shows(s1, w, S + T, c)
  {
  }

  /** Writing `c` at one more in-square position adds it to what the
      buffer shows. */
  lemma ShowsPixel(s: seq<uint32>, w: int, S: set<Pixel>, p: Pixel, c: uint32)
    requires Shows(s, w, S, c) && w > 0 && InSquare(p, w) && |s| == w * w
    ensures 0 <= Index(p, w) < |s|
    ensures Shows(s[Index(p, w) := c], w, S + {p}, c)
  {
    PaintPixel(s, w, p, c);
    ShowsThenPaints(s[Index(p, w) := c], s, w, S, {p}, c);
  }

  /** A buffer that shows a set only ever holds `c` or 0. */
  lemma ShowsTwoValues(s: seq<uint32>, w: int, S: set<Pixel>, c: uint32)
    requires Shows(s, w, S, c)
    ensures forall k | 0 <= k < |s| :: s[k] == c || s[k] == 0
  {
  }
}
