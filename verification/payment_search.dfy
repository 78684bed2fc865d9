/**
 * The critical-valuation search that prices a contested sale: starting from
 * the winner's valuation, step down by a fixed 0.001 until the winner's
 * virtual valuation no longer exceeds the loser's, then round to a whole
 * number the way Python's round() does (ties to the even neighbour).
 * Arithmetic is on exact reals.
 */
module PaymentSearch {
  import opened Distribution

  /** The fixed step of the search. */
  const Eps: real := 0.001

  /** The smallest integer that is not below x. */
  function Ceil(x: real): (n: int)
    ensures x <= n as real < x + 1.0
  {
    -((-x).Floor)
  }

  function Abs(x: real): (r: real)
  {
    if x < 0.0 then -x else x
  }

  /**
   * Python's round() on a real: the nearest integer, and on an exact
   * half-way point the even one of the two neighbours.
   */
  function RoundHalfEven(x: real): (n: int)
    ensures Abs(n as real - x) <= 0.5
    ensures Abs(n as real - x) == 0.5 ==> n % 2 == 0
  {
    var f := x.Floor;
    var frac := x - f as real;
    if frac < 0.5 then f
    else if frac > 0.5 then f + 1
    else if f % 2 == 0 then f
    else f + 1
  }

  /** No integer lies nearer to x than RoundHalfEven(x). */
  lemma RoundIsNearest(x: real, m: int)
    ensures Abs(RoundHalfEven(x) as real - x) <= Abs(m as real - x)
  {
    var n := RoundHalfEven(x);
    if m < n {
      assert m as real <= n as real - 1.0;
    } else if m > n {
      assert m as real >= n as real + 1.0;
    }
  }

  /** Rounding leaves a whole number unchanged. */
  lemma RoundOfWhole(n: int)
    ensures RoundHalfEven(n as real) == n
  {
  }

  /** Every value in (c - 1/2, c] rounds to the whole number c. */
  lemma RoundToWhole(x: real, c: int)
    requires c as real - 0.5 < x <= c as real
    ensures RoundHalfEven(x) == c
  {
  }

  /** The valuation reached after j steps down from v. */
  function GridPoint(v: real, j: int): (g: real)
  {
    v - j as real * Eps
  }

  /**
   * How many steps the search takes: the first j at which the winner's
   * virtual valuation is no longer above `rv`, every earlier point still
   * being above it.
   */
  function SearchSteps(d: Uniform, v: real, rv: real): (n: nat)
    ensures VirtualValue(d, GridPoint(v, n)) <= rv
    ensures forall j :: 0 <= j < n ==> VirtualValue(d, GridPoint(v, j)) > rv
  {
    var gap := VirtualValue(d, v) - rv;
    if gap <= 0.0 then 0 else Ceil(gap / (2.0 * Eps))
  }

  /** The two properties of SearchSteps pin down the step count. */
  lemma SearchStepsUnique(d: Uniform, v: real, rv: real, m: nat)
    requires VirtualValue(d, GridPoint(v, m)) <= rv
    requires forall j :: 0 <= j < m ==> VirtualValue(d, GridPoint(v, j)) > rv
    ensures m == SearchSteps(d, v, rv)
  {
  }

  /** The valuation the search stops at, before rounding. */
  function SearchEnd(d: Uniform, v: real, rv: real): (e: real)
    ensures e <= v
    ensures VirtualValue(d, e) <= rv
    ensures VirtualValue(d, v) <= rv ==> e == v
    ensures VirtualValue(d, v) > rv ==> VirtualValue(d, e + Eps) > rv
    ensures VirtualValue(d, v) > rv ==> CriticalValue(d, rv) - Eps < e <= CriticalValue(d, rv)
  {
    var n := SearchSteps(d, v, rv);
    if n == 0 then v
    else
      assert VirtualValue(d, GridPoint(v, n - 1)) > rv;
      GridPoint(v, n)
  }

  /** What the search returns: the stopping valuation rounded to a whole number. */
  function Payment(d: Uniform, v: real, rv: real): (p: real)
    ensures p == p.Floor as real
    ensures Abs(p - SearchEnd(d, v, rv)) <= 0.5
  {
    RoundHalfEven(SearchEnd(d, v, rv)) as real
  }

  /**
   * The search as maximize_values.py runs it: a loop that lowers the valuation one
   * step at a time while its virtual valuation is still above `rv`, then
   * rounds. A ghost step count bounded by SearchSteps makes it terminate.
   */
  method PaymentForAgent(agent: Uniform, value: real, rv: real) returns (payment: real)
    ensures payment == Payment(agent, value, rv)
  {
    var eps := Eps;
    var current := value;
    var rvTemp := VirtualValue(agent, current);
    ghost var k: nat := 0;
    ghost var n := SearchSteps(agent, value, rv);
    while rvTemp > rv
      invariant k <= n
      invariant current == GridPoint(value, k)
      invariant rvTemp == VirtualValue(agent, current)
      decreases n - k
    {
      current := current - eps;
      rvTemp := VirtualValue(agent, current);
      k := k + 1;
    }
    payment := RoundHalfEven(current) as real;
  }

  /**
   * When the search runs at all, the payment is within half a unit plus one
   * step of the exact critical value (rv + high) / 2.
   */
  lemma PaymentNearCritical(d: Uniform, v: real, rv: real)
    requires VirtualValue(d, v) > rv
    ensures CriticalValue(d, rv) - Eps - 0.5 < Payment(d, v, rv) <= CriticalValue(d, rv) + 0.5
  {
  }

  /** When the exact critical value is a whole number below v, the payment is exactly it. */
  lemma PaymentAtWholeCritical(d: Uniform, v: real, rv: real, c: int)
    requires VirtualValue(d, v) > rv
    requires CriticalValue(d, rv) == c as real
    ensures Payment(d, v, rv) == c as real
  {
    RoundToWhole(SearchEnd(d, v, rv), c);
  }

  /** Rounding can lift the payment above the starting valuation, but by at most one half. */
  lemma PaymentAtMostValuePlusHalf(d: Uniform, v: real, rv: real)
    ensures Payment(d, v, rv) <= v + 0.5
  {
  }
}
