/** C++ integer semantics that the rasteriser relies on: 32-bit `int`,
    `Uint32` / `Uint8` storage, and integer division that truncates toward
    zero (Dafny's own `/` is Euclidean). */
module Arith {

  /** C++ `int` on the targets the program is built for. Arithmetic on this
      type is checked by Dafny to stay in range, so a computation typed
      `int32` is proved free of signed overflow. */
  newtype int32 = x: int | -0x8000_0000 <= x < 0x8000_0000

  /** SDL's `Uint32`, the type of a packed pixel. */
  type uint32 = x: int | 0 <= x < 0x1_0000_0000

  /** SDL's `Uint8`, the type of a colour channel. */
  type byte = x: int | 0 <= x < 0x100

  function Abs(a: int): (r: nat)
    ensures r == a || r == -a
  {
    if a < 0 then -a else a
  }

  /** The value an `int` computation leaves in two's complement when its
      mathematical result does not fit (what `255 << 24` evaluates to). */
  function WrapInt32(v: int): (r: int32)
    ensures (r as int - v) % 0x1_0000_0000 == 0
    ensures -0x8000_0000 <= v < 0x8000_0000 ==> r as int == v
  {
    ((v + 0x8000_0000) % 0x1_0000_0000 - 0x8000_0000) as int32
  }

  /** Conversion of an `int` to `Uint32`: reduction modulo 2^32. */
  function ToUint32(v: int): (r: uint32)
    ensures (r - v) % 0x1_0000_0000 == 0
    ensures 0 <= v < 0x1_0000_0000 ==> r == v
  {
    v % 0x1_0000_0000
  }

  /** Helper facts of integer multiplication, kept small so that the solver
      does not have to find them itself. */
  lemma QuotientBounds(n: nat, d: nat)
    requires d > 0
    ensures 0 <= (n / d) * d <= n < (n / d) * d + d
  {
  }

  lemma MulByAbs(m: int, b: int)
    ensures m * b == (if b > 0 then m * Abs(b) else -(m * Abs(b)))
    ensures (-m) * b == -(m * b)
  {
  }

  lemma MulSub(q: int, t: int, b: int)
    ensures (q - t) * b == q * b - t * b
  {
  }

  lemma MulAdd(a: int, b: int, c: int)
    ensures a * (b + c) == a * b + a * c
  {
  }

  lemma MulMonotone(a: int, b: int, w: nat)
    requires a <= b
    ensures a * w <= b * w
  {
    MulSub(b, a, w);
    assert (b - a) * w >= 0;
  }

  /** Multiplying by a positive number keeps the order, both ways. */
  lemma MulOrder(a: int, b: int, w: int)
    requires w > 0
    ensures a * w <= b * w <==> a <= b
  {
    if a <= b {
      MulMonotone(a, b, w);
    } else {
      MulMonotone(b + 1, a, w);
      MulAdd(w, b, 1);
    }
  }

  lemma {:induction false} MulGrows(u: nat, v: nat)
    requires u >= 1
    ensures u * v >= v
  {
    if u > 1 {
      MulGrows(u - 1, v);
      assert u * v == (u - 1) * v + v;
    }
  }

  lemma NonzeroMultiple(k: int, b: int)
    requires k != 0
    ensures Abs(k * b) >= Abs(b)
  {
    MulGrows(Abs(k), Abs(b));
    MulByAbs(k, b);
    MulByAbs(Abs(k), b);
    if k < 0 {
      assert k == -(Abs(k) as int);
      assert k * b == -(Abs(k) * b);
    }
    assert Abs(k * b) == Abs(k) * Abs(b);
  }

  /** C++ `a / b` on integers: the quotient truncated toward zero. The
      contract is the defining property: `q * b` lies between 0 and `a`,
      and the remainder is smaller than the divisor in magnitude
      (TruncDivUnique shows that this pins `q` down). */
  function TruncDiv(a: int, b: int): (q: int)
    requires b != 0
    ensures 0 <= a ==> 0 <= q * b <= a
    ensures a < 0 ==> a <= q * b <= 0
    ensures Abs(a - q * b) < Abs(b)
  {
    var m := Abs(a) / Abs(b);
    QuotientBounds(Abs(a), Abs(b));
    var p := m * Abs(b);
    MulByAbs(m, b);
    if b > 0 then
      assert m * b == p;
      if a >= 0 then m else assert (-m) * b == -p; -m
    else
      assert m * b == -p;
      if a < 0 then m else assert (-m) * b == p; -m
  }

  /** Only the truncated quotient has TruncDiv's defining property. */
  lemma TruncDivUnique(a: int, b: int, q: int)
    requires b != 0
    requires 0 <= a ==> 0 <= q * b <= a
    requires a < 0 ==> a <= q * b <= 0
    requires Abs(a - q * b) < Abs(b)
    ensures q == TruncDiv(a, b)
  {
    var t := TruncDiv(a, b);
    if q != t {
      MulSub(q, t, b);
      NonzeroMultiple(q - t, b);
    }
  }

  /** Truncated division is odd in the dividend and in the divisor. */
  lemma TruncDivNegate(a: int, b: int)
    requires b != 0
    ensures TruncDiv(-a, b) == -TruncDiv(a, b)
    ensures TruncDiv(a, -b) == -TruncDiv(a, b)
  {
    var q := TruncDiv(a, b);
    MulByAbs(q, b);
    MulByAbs(q, -b);
    assert (-q) * (-b) == q * b;
    TruncDivUnique(-a, b, -q);
    TruncDivUnique(a, -b, -q);
  }
}
