/** `map`: linear rescaling in 32-bit integer arithmetic. */
module WMath {
  import opened Bytes

  /** Division as in C: towards zero. */
  function TDiv(a: int, b: int): int
    requires b != 0
  {
    if a >= 0 && b > 0 then a / b
    else if a >= 0 then -(a / -b)
    else if b > 0 then -(-a / b)
    else -a / -b
  }

  /** The quotient leaves a remainder smaller than the divisor and with the sign of the dividend. */
  lemma {:induction false} TruncatesToZero(a: int, b: int)
    requires b != 0
    ensures var (r, m) := (a - TDiv(a, b) * b, if b < 0 then -b else b);
            (a >= 0 ==> 0 <= r < m) && (a <= 0 ==> -m < r <= 0)
  {
    var m, n := if b < 0 then -b else b, if a < 0 then -a else a;
    TDivIs(a, b);
    hide *;
    Floor(n, m);
    Signs(n / m, m);
  }

  lemma {:induction false} TDivIs(a: int, b: int)
    requires b != 0
    ensures var (m, n) := (if b < 0 then -b else b, if a < 0 then -a else a);
            TDiv(a, b) == if (a < 0) == (b < 0) then n / m else -(n / m)
  {
  }

  lemma {:induction false} Signs(q: int, m: int)
    ensures (-q) * m == -(q * m) && q * (-m) == -(q * m) && (-q) * (-m) == q * m
  {
  }

  /** `map`, with every operation wrapping as the machine's does. */
  function Map(x: int, inMin: int, inMax: int, outMin: int, outMax: int): int
    requires I32(inMax - inMin) != 0
  {
    I32(I32(TDiv(I32(I32(x - inMin) * I32(outMax - outMin)), I32(inMax - inMin))) + outMin)
  }

  /** Increasing ranges, on which no intermediate result leaves the range of a long. */
  predicate InDomain(x: int, inMin: int, inMax: int, outMin: int, outMax: int) {
    && inMin < inMax && outMin <= outMax && IsLong(outMin)
    && IsLong(x - inMin) && IsLong(inMax - inMin) && IsLong(outMax - outMin)
    && IsLong((x - inMin) * (outMax - outMin))
    && IsLong(TDiv((x - inMin) * (outMax - outMin), inMax - inMin) + outMin)
  }

  /** In the domain nothing wraps; the quotient of the distances is added to the lower bound. */
  lemma {:induction false} MapExact(x: int, inMin: int, inMax: int, outMin: int, outMax: int)
    requires InDomain(x, inMin, inMax, outMin, outMax)
    ensures I32(inMax - inMin) == inMax - inMin
    ensures Map(x, inMin, inMax, outMin, outMax) == TDiv((x - inMin) * (outMax - outMin), inMax - inMin) + outMin
  {
    var p, d := (x - inMin) * (outMax - outMin), inMax - inMin;
    QuotientIsLong(p, d);
    hide TDiv;
  }

  /** What `map` computes, said by multiplication: the distance from the lower bound leaves a remainder smaller than the
      input range, and rounding is towards the lower bound on either side of it. */
  lemma {:induction false} MapRounds(x: int, inMin: int, inMax: int, outMin: int, outMax: int)
    requires InDomain(x, inMin, inMax, outMin, outMax)
    requires I32(inMax - inMin) != 0
    ensures var (p, d) := ((x - inMin) * (outMax - outMin), inMax - inMin);
            var r := p - (Map(x, inMin, inMax, outMin, outMax) - outMin) * d;
            (x >= inMin ==> 0 <= r < d) && (x <= inMin ==> -d < r <= 0)
  {
    var p, d := (x - inMin) * (outMax - outMin), inMax - inMin;
    MapExact(x, inMin, inMax, outMin, outMax);
    Distances(x, inMin, inMax, outMin, outMax);
    hide *;
    TruncatesToZero(p, d);
    assert Map(x, inMin, inMax, outMin, outMax) - outMin == TDiv(p, d);
  }

  lemma {:induction false} Distances(x: int, inMin: int, inMax: int, outMin: int, outMax: int)
    requires InDomain(x, inMin, inMax, outMin, outMax)
    ensures inMin < inMax
    ensures (x >= inMin ==> (x - inMin) * (outMax - outMin) >= 0) && (x <= inMin ==> (x - inMin) * (outMax - outMin) <= 0)
  {
    var t, e := x - inMin, outMax - outMin;
    hide TDiv;
    hide IsLong;
    if t >= 0 { Product(0, t, e); } else { Product(t, 0, e); }
    assert 0 * e == 0;
  }

  lemma {:induction false} QuotientIsLong(p: int, d: int)
    requires IsLong(p) && d > 0
    ensures IsLong(TDiv(p, d))
  {
    var a := if p < 0 then -p else p;
    Floor(a, d);
    if a / d > a { Product(a + 1, a / d, d); }
  }

  /** The quotient of natural numbers, by multiplication. */
  lemma {:induction false} Floor(a: nat, d: nat)
    requires d > 0
    ensures a / d >= 0 && (a / d) * d <= a < (a / d) * d + d
  {
    assert a == d * (a / d) + a % d == (a / d) * d + a % d;
  }

  lemma {:induction false} Product(x: int, y: int, d: nat)
    requires x <= y
    ensures x * d <= y * d
  {
    assert y * d == x * d + (y - x) * d;
    assert (y - x) * d >= 0;
  }

  lemma {:induction false} Gap(x: int, y: int, d: nat)
    ensures x < y ==> x * d + d <= y * d
  {
    if x < y {
      Product(x + 1, y, d);
      assert (x + 1) * d == x * d + d;
    }
  }

  lemma {:induction false} FloorMonotone(a: nat, b: nat, d: nat)
    requires a <= b && d > 0
    ensures a / d <= b / d
  {
    Floor(a, d);
    Floor(b, d);
    Gap(b / d, a / d, d);
  }

  /** The quotient is the only number whose multiple is close enough below. */
  lemma {:induction false} FloorIs(a: nat, d: nat, q: int)
    requires d > 0 && q * d <= a < q * d + d
    ensures a / d == q
  {
    Floor(a, d);
    Gap(a / d, q, d);
    Gap(q, a / d, d);
  }

  /** `map` never turns the order of two numbers around. */
  lemma {:induction false} MapMonotone(x: int, y: int, inMin: int, inMax: int, outMin: int, outMax: int)
    requires x <= y && InDomain(x, inMin, inMax, outMin, outMax) && InDomain(y, inMin, inMax, outMin, outMax)
    ensures I32(inMax - inMin) != 0 && Map(x, inMin, inMax, outMin, outMax) <= Map(y, inMin, inMax, outMin, outMax)
  {
    MapExact(x, inMin, inMax, outMin, outMax);
    MapExact(y, inMin, inMax, outMin, outMax);
    hide Map;
    var d, e := inMax - inMin, outMax - outMin;
    Product(x - inMin, y - inMin, e);
    QuotientMonotone((x - inMin) * e, (y - inMin) * e, d);
  }

  lemma {:induction false} QuotientMonotone(p: int, q: int, d: int)
    requires p <= q && d > 0
    ensures TDiv(p, d) <= TDiv(q, d)
  {
    if p >= 0 {
      FloorMonotone(p, q, d);
    } else if q < 0 {
      FloorMonotone(-q, -p, d);
    } else {
      Floor(-p, d);
      Floor(q, d);
    }
  }

  /** Both ends of the range are hit exactly. */
  lemma {:induction false} MapEndpoints(inMin: int, inMax: int, outMin: int, outMax: int)
    requires InDomain(inMin, inMin, inMax, outMin, outMax) && InDomain(inMax, inMin, inMax, outMin, outMax)
    ensures I32(inMax - inMin) != 0
    ensures Map(inMin, inMin, inMax, outMin, outMax) == outMin
    ensures Map(inMax, inMin, inMax, outMin, outMax) == outMax
  {
    MapExact(inMin, inMin, inMax, outMin, outMax);
    MapExact(inMax, inMin, inMax, outMin, outMax);
    hide Map;
    var d, e := inMax - inMin, outMax - outMin;
    FloorIs(0, d, 0);
    Product(0, d, e);
    assert d * e == e * d;
    FloorIs(d * e, d, e);
  }

  /** A number within the input range is mapped into the output range. */
  lemma {:induction false} MapInRange(x: int, inMin: int, inMax: int, outMin: int, outMax: int)
    requires inMin <= x <= inMax
    requires InDomain(x, inMin, inMax, outMin, outMax)
    requires InDomain(inMin, inMin, inMax, outMin, outMax) && InDomain(inMax, inMin, inMax, outMin, outMax)
    ensures I32(inMax - inMin) != 0 && outMin <= Map(x, inMin, inMax, outMin, outMax) <= outMax
  {
    hide Map;
    hide InDomain;
    MapMonotone(inMin, x, inMin, inMax, outMin, outMax);
    MapMonotone(x, inMax, inMin, inMax, outMin, outMax);
    MapEndpoints(inMin, inMax, outMin, outMax);
  }

  /** Mapping a number to a range at least as wide and back returns it, or the number before it; it
      returns exactly when the first mapping divided without remainder. */
  lemma {:induction false} MapThereAndBack(x: int, inMin: int, inMax: int, outMin: int, outMax: int)
    requires inMin <= x <= inMax && outMax - outMin >= inMax - inMin
    requires InDomain(x, inMin, inMax, outMin, outMax)
    requires I32(inMax - inMin) != 0
    requires InDomain(Map(x, inMin, inMax, outMin, outMax), outMin, outMax, inMin, inMax)
    ensures I32(outMax - outMin) != 0
    ensures var back := Map(Map(x, inMin, inMax, outMin, outMax), outMin, outMax, inMin, inMax);
            back == if (x - inMin) * (outMax - outMin) % (inMax - inMin) == 0 then x else x - 1
  {
    var y := Map(x, inMin, inMax, outMin, outMax);
    MapExact(x, inMin, inMax, outMin, outMax);
    MapExact(y, outMin, outMax, inMin, inMax);
    hide Map;
    Back(x - inMin, inMax - inMin, outMax - outMin);
  }

  lemma {:induction false} Back(t: nat, d: nat, e: nat)
    requires 0 < d <= e
    ensures t * e >= 0
    ensures var u := TDiv(t * e, d);
            u * d >= 0 && TDiv(u * d, e) == if t * e % d == 0 then t else t - 1
  {
    Product(0, t, e);
    var a := t * e;
    Floor(a, d);
    var u, r := a / d, a % d;
    assert a == u * d + r by { assert a == d * (a / d) + a % d; }
    Product(0, u, d);
    if r == 0 {
      FloorIs(u * d, e, t);
    } else {
      assert (t - 1) * e == t * e - e;
      FloorIs(u * d, e, t - 1);
    }
  }
}
