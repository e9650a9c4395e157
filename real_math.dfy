/** The parts of JavaScript's `Math` and number semantics the model needs.

    Numbers are exact reals. The transcendental functions are not computed:
    they are fields of `Ops`, and a value of the subset type `Math` is any
    collection of them obeying the few laws below, the only ones any proof
    in this project uses. */
module RealMath {

  /** `Math.PI`. */
  const PI: real := 3.141592653589793

  datatype Ops = Ops(
    sqrt: real -> real,
    atan2: (real, real) -> real,
    cos: real -> real,
    tan: real -> real)
  {
    ghost predicate Sound() {
      && sqrt(0.0) == 0.0
      && (forall x: real :: x > 0.0 ==> sqrt(x) > 0.0)
      && (forall y: real :: y > 0.0 ==> atan2(y, 0.0) == PI / 2.0)
      && (forall a: real :: -1.0 <= cos(a) <= 1.0)
    }
  }

  /** Any implementation of the transcendental functions with the laws of `Sound`. */
  type Math = o: Ops | o.Sound()
    witness Ops(
      x => if x > 0.0 then x else 0.0,
      (y, x) => if x == 0.0 && y > 0.0 then PI / 2.0 else 0.0,
      _ => 1.0,
      _ => 0.0)

  lemma SqrtNonNegative(m: Math, x: real)
    requires x >= 0.0
    ensures m.sqrt(x) >= 0.0
  {
  }

  /** A JavaScript number: a finite value, or one of the non-finite results
      that a division by zero produces. */
  datatype Number = Finite(value: real) | NaN | Infinity | NegInfinity

  /** JavaScript's `a / b`. */
  function Divide(a: real, b: real): (r: Number)
    ensures b != 0.0 ==> r == Finite(a / b)
    ensures b == 0.0 ==> !r.Finite?
  {
    if b != 0.0 then Finite(a / b)
    else if a == 0.0 then NaN
    else if a > 0.0 then Infinity
    else NegInfinity
  }

  /** JavaScript's `n < b` for a finite `b`: every comparison with NaN is false. */
  predicate Below(n: Number, b: real) {
    match n
    case Finite(v) => v < b
    case NaN => false
    case Infinity => false
    case NegInfinity => true
  }

  /** JavaScript's `n > b` for a finite `b`. */
  predicate Above(n: Number, b: real) {
    match n
    case Finite(v) => v > b
    case NaN => false
    case Infinity => true
    case NegInfinity => false
  }

  function Abs(x: real): real { if x < 0.0 then -x else x }

  function Max(a: real, b: real): (r: real)
    ensures r >= a && r >= b && (r == a || r == b)
  {
    if a >= b then a else b
  }

  function Min(a: real, b: real): (r: real)
    ensures r <= a && r <= b && (r == a || r == b)
  {
    if a <= b then a else b
  }

  /** `Math.floor` on a finite number. */
  function Floor(x: real): (r: int)
    ensures r as real <= x < r as real + 1.0
  {
    x.Floor
  }

  /** `Math.ceil` on a finite number. */
  function Ceil(x: real): (r: int)
    ensures x <= r as real < x + 1.0
  {
    -((-x).Floor)
  }

  /** `Math.round`: the nearest integer, halves rounded towards +infinity. */
  function Round(x: real): (r: int)
    ensures x - 0.5 < r as real <= x + 0.5
  {
    Floor(x + 0.5)
  }

  /** `x` has no fractional part. */
  predicate IsIntegral(x: real) {
    x.Floor as real == x
  }

  lemma IntIsIntegral(k: int)
    ensures IsIntegral(k as real)
  {
  }

  lemma {:induction false} RoundIntegral(k: int)
    ensures Round(k as real) == k
  {
    assert (k as real + 0.5).Floor == k;
  }

  lemma FloorMonotone(x: real, y: real)
    requires x <= y
    ensures Floor(x) <= Floor(y)
  {
  }

  lemma CeilMonotone(x: real, y: real)
    requires x <= y
    ensures Ceil(x) <= Ceil(y)
  {
  }

  lemma MulLeftMonotone(a: real, b: real, s: real)
    requires a <= b && s >= 0.0
    ensures a * s <= b * s
  {
  }

  lemma DivMonotone(a: real, b: real, s: real)
    requires a <= b && s > 0.0
    ensures a / s <= b / s
  {
  }

  lemma DivStrictMonotone(a: real, b: real, s: real)
    requires a < b && s > 0.0
    ensures a / s < b / s
  {
  }

  lemma SquareNonNegative(a: real)
    ensures a * a >= 0.0
    ensures a != 0.0 ==> a * a > 0.0
  {
    if a < 0.0 {
      assert a * a == (-a) * (-a);
    }
  }

  /** `x * x` as a term of its own, so that facts about it carry over to any argument. */
  function Square(x: real): real {
    x * x
  }

  /** A square is never negative, and positive for a non-zero number. */
  lemma SquareSign(x: real)
    ensures Square(x) >= 0.0
    ensures x != 0.0 ==> Square(x) > 0.0
  {
    if x < 0.0 {
      calc { Square(x); == (-x) * (-x); > 0.0 * (-x); == 0.0; }
    } else if x > 0.0 {
      calc { Square(x); == x * x; > 0.0 * x; == 0.0; }
    }
  }

  lemma MulDivCancel(a: real, s: real)
    requires s != 0.0
    ensures (a * s) / s == a
    ensures (a / s) * s == a
  {
  }

  lemma MulDivAssoc(a: real, b: real, c: real)
    requires c != 0.0
    ensures (a * b) / c == a * (b / c)
  {
  }

  lemma MulStrictMonotone(a: real, b: real, s: real)
    requires a < b && s > 0.0
    ensures a * s < b * s
  {
  }

  lemma Distrib(a: real, b: real, s: real)
    ensures (a - b) * s == a * s - b * s
  {
  }

  lemma DivNegateBoth(a: real, c: real)
    requires c != 0.0
    ensures (-a) / (-c) == a / c
  {
  }

  lemma DivComplement(d: real, p: real)
    requires d != 0.0
    ensures (d - p) / d == 1.0 - p / d
  {
    MulDivCancel(d - p, d);
    MulDivCancel(p, d);
    AddMul((d - p) / d, p / d, d);
    MulDivCancel((d - p) / d + p / d, d);
    MulDivCancel(1.0, d);
  }

  lemma AddMul(a: real, b: real, s: real)
    ensures (a + b) * s == a * s + b * s
  {
  }
}
