/**
 * A buyer's valuation distribution: uniform over the interval [low, high].
 * The value is built once and never changed, so it is a datatype; the two
 * quantities the auction reads from it are functions of it.
 */
module Distribution {

  /** One buyer's prior. `low` is carried but no computation reads it. */
  datatype Uniform = Uniform(low: real, high: real)

  /**
   * Myerson's virtual valuation for the uniform prior,
   * v - (1 - F(v)) / f(v), which simplifies to 2v - high.
   * Its sign is decided by which side of the reserve high/2 the value lies.
   */
  function VirtualValue(d: Uniform, v: real): (r: real)
    ensures r > 0.0 <==> v > d.high / 2.0
    ensures r == 0.0 <==> v == d.high / 2.0
  {
    2.0 * v - d.high
  }

  /** The reserve price: the one value at which the virtual valuation is zero. */
  function Threshold(d: Uniform): (t: real)
    ensures VirtualValue(d, t) == 0.0
    ensures forall v :: VirtualValue(d, v) == 0.0 ==> v == t
  {
    d.high / 2.0
  }

  /**
   * The valuation at which this buyer's virtual valuation equals `target`:
   * the inverse of VirtualValue, used to state what the payment search finds.
   */
  function CriticalValue(d: Uniform, target: real): (c: real)
    ensures VirtualValue(d, c) == target
  {
    (target + d.high) / 2.0
  }

  /** The virtual valuation reads only `high`: two priors with the same upper bound agree. */
  lemma VirtualValueIgnoresLow(d: Uniform, e: Uniform, v: real)
    requires d.high == e.high
    ensures VirtualValue(d, v) == VirtualValue(e, v)
    ensures Threshold(d) == Threshold(e)
  {
  }

  /** The virtual valuation is strictly increasing, with slope 2. */
  lemma VirtualValueStrictlyIncreasing(d: Uniform, v: real, w: real)
    requires v < w
    ensures VirtualValue(d, v) < VirtualValue(d, w)
    ensures VirtualValue(d, w) - VirtualValue(d, v) == 2.0 * (w - v)
  {
  }

  /** CriticalValue undoes VirtualValue, in both orders. */
  lemma CriticalValueRoundTrip(d: Uniform, v: real, target: real)
    ensures CriticalValue(d, VirtualValue(d, v)) == v
    ensures VirtualValue(d, CriticalValue(d, target)) == target
  {
  }

  /** A value's virtual valuation is at most `target` exactly when the value is at most the critical value. */
  lemma AtMostCriticalValue(d: Uniform, v: real, target: real)
    ensures VirtualValue(d, v) <= target <==> v <= CriticalValue(d, target)
  {
  }

  /** The reserve is the critical value against a virtual valuation of zero. */
  lemma ThresholdIsCriticalAtZero(d: Uniform)
    ensures Threshold(d) == CriticalValue(d, 0.0)
  {
  }
}
