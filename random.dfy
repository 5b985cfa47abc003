/** The random helpers of FireApplication (Random01, RandomRange). The C library's rand()
    is not modelled: its result enters as a parameter `raw` with 0 <= raw <= randMax. */
module Random {

  /** A value u drawn by Random01 lies in the closed unit interval. */
  predicate InUnit(u: real)
  {
    0.0 <= u <= 1.0
  }

  /** Random01: rand() / RAND_MAX. Both ends of [0, 1] are reachable. */
  function Random01(raw: nat, randMax: nat): (u: real)
    requires 0 < randMax && raw <= randMax
    ensures InUnit(u)
    ensures u == 0.0 <==> raw == 0
    ensures u == 1.0 <==> raw == randMax
  {
    raw as real / randMax as real
  }

  /** RandomRange(from, to) = Random01() * (to - from) + from, with the draw of Random01
      passed in as `u`. */
  function RandomRange(u: real, from: real, to: real): (r: real)
    requires InUnit(u)
    ensures from <= to ==> from <= r <= to
    ensures to <= from ==> to <= r <= from
    ensures from == to ==> r == from
  {
    ScaledOffsetBounds(u, from, to);
    u * (to - from) + from
  }

  /** Both ends of the range are produced: the range is closed at `to`, because rand()
      may return RAND_MAX. */
  lemma RangeEndsReachable(randMax: nat, from: real, to: real)
    requires 0 < randMax
    ensures RandomRange(Random01(0, randMax), from, to) == from
    ensures RandomRange(Random01(randMax, randMax), from, to) == to
  {
    assert Random01(0, randMax) == 0.0;
    assert Random01(randMax, randMax) == 1.0;
  }

  /** A larger draw never gives a smaller value when from <= to. */
  lemma RangeMonotone(u: real, v: real, from: real, to: real)
    requires InUnit(u) && InUnit(v) && u <= v && from <= to
    ensures RandomRange(u, from, to) <= RandomRange(v, from, to)
  {
    MulNonneg(v - u, to - from);
    assert v * (to - from) - u * (to - from) == (v - u) * (to - from);
  }

  /** Every point of a proper range is the value of exactly one draw: RandomRange is a
      bijection from [0, 1] onto [from, to], with this inverse. */
  function DrawFor(x: real, from: real, to: real): (u: real)
    requires from < to && from <= x <= to
    ensures InUnit(u) && RandomRange(u, from, to) == x
  {
    var u := (x - from) / (to - from);
    UnitQuotient(x - from, to - from);
    u
  }

  lemma DrawIsUnique(u: real, v: real, from: real, to: real)
    requires InUnit(u) && InUnit(v) && from < to
    requires RandomRange(u, from, to) == RandomRange(v, from, to)
    ensures u == v
  {
    var d := to - from;
    assert u * d == v * d;
    DivCancel(u, d);
    DivCancel(v, d);
  }

  lemma DivCancel(u: real, d: real)
    requires d != 0.0
    ensures (u * d) / d == u
  {}

  lemma MulNonneg(a: real, b: real)
    requires a >= 0.0 && b >= 0.0
    ensures a * b >= 0.0
  {}

  lemma MulNegate(a: real, b: real)
    ensures a * -b == -(a * b)
  {}

  lemma PosMul(a: real, b: real)
    requires a > 0.0 && b > 0.0
    ensures a * b > 0.0
  {}

  /** Scaling a non-negative length by a draw stays within the length. */
  lemma ScaleBound(u: real, d: real)
    requires InUnit(u) && d >= 0.0
    ensures 0.0 <= u * d <= d
  {
    MulNonneg(u, d);
    MulNonneg(1.0 - u, d);
  }

  lemma ScaledOffsetBounds(u: real, from: real, to: real)
    requires InUnit(u)
    ensures from <= to ==> 0.0 <= u * (to - from) <= to - from
    ensures to <= from ==> to - from <= u * (to - from) <= 0.0
  {
    var d := to - from;
    if d > 0.0 {
      ScaleBound(u, d);
    } else if d < 0.0 {
      ScaleBoundNegative(u, d);
    } else {
      assert u * d == 0.0;
    }
  }

  lemma ScaleBoundNegative(u: real, d: real)
    requires InUnit(u) && d <= 0.0
    ensures d <= u * d <= 0.0
  {
    ScaleBound(u, -d);
    MulNegate(u, d);
  }

  lemma UnitQuotient(a: real, d: real)
    requires 0.0 <= a <= d && d > 0.0
    ensures InUnit(a / d) && (a / d) * d == a
  {
    var q := a / d;
    assert q * d == a;
    if q < 0.0 {
      PosMul(-q, d);
    }
    if q > 1.0 {
      PosMul(q - 1.0, d);
    }
  }
}
