/**
 * The revenue-maximising (Myerson) auction for one seller and one or two
 * buyers with uniform priors. The item goes to the buyer with the highest
 * strictly positive virtual valuation; a tie between two positive buyers
 * goes to buyer 1. maximize_values.py prints its verdict; here it is returned.
 */
module Auction {
  import opened Distribution
  import opened PaymentSearch

  datatype Agent = Agent1 | Agent2

  /** The verdict of one auction: no sale, or a winner and the price they pay. */
  datatype Outcome = NoSale | Sale(winner: Agent, payment: real)

  /** One buyer: sell at the reserve exactly when the buyer's virtual valuation is positive. */
  function ResolveSingle(agent1: Uniform, value1: real): (r: Outcome)
    ensures r.Sale? <==> value1 > Threshold(agent1)
    ensures r.Sale? ==> r.winner == Agent1 && r.payment == Threshold(agent1)
  {
    var rv := VirtualValue(agent1, value1);
    if rv > 0.0 then Sale(Agent1, Threshold(agent1)) else NoSale
  }

  /** The virtual valuation of the winner of `r`. */
  function WinnerValue(r: Outcome, rv1: real, rv2: real): (w: real)
    requires r.Sale?
  {
    if r.winner == Agent1 then rv1 else rv2
  }

  /**
   * Two buyers. There is a sale unless both virtual valuations are at most
   * zero, and the winner's virtual valuation is positive and no smaller than
   * the other buyer's.
   */
  function ResolvePair(agent1: Uniform, agent2: Uniform, value1: real, value2: real): (r: Outcome)
    ensures var rv1, rv2 := VirtualValue(agent1, value1), VirtualValue(agent2, value2);
      && (r == NoSale <==> rv1 <= 0.0 && rv2 <= 0.0)
      && (r.Sale? ==> WinnerValue(r, rv1, rv2) > 0.0)
      && (r.Sale? ==> WinnerValue(r, rv1, rv2) >= rv1 && WinnerValue(r, rv1, rv2) >= rv2)
  {
    var rv1 := VirtualValue(agent1, value1);
    var rv2 := VirtualValue(agent2, value2);
    if rv1 <= 0.0 && rv2 <= 0.0 then NoSale
    else if rv1 <= 0.0 then Sale(Agent2, Threshold(agent2))
    else if rv2 <= 0.0 then Sale(Agent1, Threshold(agent1))
    else if rv1 > rv2 then Sale(Agent1, Payment(agent1, value1, rv2))
    else if rv2 > rv1 then Sale(Agent2, Payment(agent2, value2, rv1))
    else Sale(Agent1, Threshold(agent1))
  }

  /** On a one-buyer sale the price is the reserve, whatever the buyer's valuation. */
  lemma SinglePriceIgnoresValue(agent1: Uniform, value1: real, other: real)
    requires ResolveSingle(agent1, value1).Sale? && ResolveSingle(agent1, other).Sale?
    ensures ResolveSingle(agent1, value1) == ResolveSingle(agent1, other)
  {
  }

  /** Exactly one buyer with a positive virtual valuation: that buyer wins at their own reserve. */
  lemma PairSolePositive(agent1: Uniform, agent2: Uniform, value1: real, value2: real)
    requires (VirtualValue(agent1, value1) > 0.0) != (VirtualValue(agent2, value2) > 0.0)
    ensures ResolvePair(agent1, agent2, value1, value2) ==
      if VirtualValue(agent1, value1) > 0.0 then Sale(Agent1, Threshold(agent1))
      else Sale(Agent2, Threshold(agent2))
  {
  }

  /** A buyer whose virtual valuation is at most zero has no say in the outcome, price included. */
  lemma PairNonPositiveBuyerIrrelevant(agent1: Uniform, agent2: Uniform, value1: real, value2: real,
                                       other: Uniform, otherValue: real)
    requires VirtualValue(agent2, value2) <= 0.0 && VirtualValue(other, otherValue) <= 0.0
    ensures ResolvePair(agent1, agent2, value1, value2) == ResolvePair(agent1, other, value1, otherValue)
    ensures ResolvePair(agent2, agent1, value2, value1) == ResolvePair(other, agent1, otherValue, value1)
  {
  }

  /**
   * Both positive and different: the strictly larger virtual valuation wins
   * and pays the searched critical value against the loser's virtual valuation.
   */
  lemma PairContested(agent1: Uniform, agent2: Uniform, value1: real, value2: real)
    requires VirtualValue(agent1, value1) > 0.0 && VirtualValue(agent2, value2) > 0.0
    requires VirtualValue(agent1, value1) != VirtualValue(agent2, value2)
    ensures var rv1, rv2 := VirtualValue(agent1, value1), VirtualValue(agent2, value2);
      ResolvePair(agent1, agent2, value1, value2) ==
        if rv1 > rv2 then Sale(Agent1, Payment(agent1, value1, rv2))
        else Sale(Agent2, Payment(agent2, value2, rv1))
  {
  }

  /**
   * In a contested sale the winner's price lies within half a unit plus one
   * search step of their exact critical value (rv_loser + high_winner) / 2.
   */
  lemma PairContestedPriceNearCritical(agent1: Uniform, agent2: Uniform, value1: real, value2: real)
    requires VirtualValue(agent1, value1) > 0.0 && VirtualValue(agent2, value2) > 0.0
    requires VirtualValue(agent1, value1) != VirtualValue(agent2, value2)
    ensures var r := ResolvePair(agent1, agent2, value1, value2);
      var rv1, rv2 := VirtualValue(agent1, value1), VirtualValue(agent2, value2);
      var c := if r.winner == Agent1 then CriticalValue(agent1, rv2) else CriticalValue(agent2, rv1);
      r.Sale? && c - Eps - 0.5 < r.payment <= c + 0.5
  {
  }

  /** Equal positive virtual valuations: buyer 1 wins and pays their own reserve. */
  lemma PairTieGoesToAgent1(agent1: Uniform, agent2: Uniform, value1: real, value2: real)
    requires VirtualValue(agent1, value1) > 0.0
    requires VirtualValue(agent1, value1) == VirtualValue(agent2, value2)
    ensures ResolvePair(agent1, agent2, value1, value2) == Sale(Agent1, Threshold(agent1))
  {
  }

  /** The same outcome seen with the two buyers' places exchanged. */
  function Swapped(r: Outcome): (s: Outcome)
  {
    match r
    case NoSale => NoSale
    case Sale(w, p) => Sale(if w == Agent1 then Agent2 else Agent1, p)
  }

  /**
   * Apart from ties, the rule does not favour either seat: exchanging the
   * buyers exchanges the winner and keeps the price.
   */
  lemma PairSymmetricOffTies(agent1: Uniform, agent2: Uniform, value1: real, value2: real)
    requires VirtualValue(agent1, value1) != VirtualValue(agent2, value2)
      || VirtualValue(agent1, value1) <= 0.0
    ensures ResolvePair(agent2, agent1, value2, value1) == Swapped(ResolvePair(agent1, agent2, value1, value2))
  {
  }

  /** The one-buyer doctests of maximize_values.py. */
  lemma SingleExamples()
    ensures ResolveSingle(Uniform(10.0, 30.0), 12.0) == NoSale
    ensures ResolveSingle(Uniform(10.0, 30.0), 18.0) == Sale(Agent1, 15.0)
    ensures ResolveSingle(Uniform(20.0, 40.0), 19.9999) == NoSale
    ensures ResolveSingle(Uniform(20.0, 40.0), 20.0) == NoSale
    ensures ResolveSingle(Uniform(20.0, 40.0), 20.0001) == Sale(Agent1, 20.0)
  {
  }

  /** The two-buyer doctests of maximize_values.py, buyer 1 on [10, 30] and buyer 2 on [20, 40]. */
  lemma PairExamples()
    ensures ResolvePair(Uniform(10.0, 30.0), Uniform(20.0, 40.0), 23.0, 27.0) == Sale(Agent1, 22.0)
    ensures ResolvePair(Uniform(10.0, 30.0), Uniform(20.0, 40.0), 18.0, 27.0) == Sale(Agent2, 23.0)
    ensures ResolvePair(Uniform(10.0, 30.0), Uniform(20.0, 40.0), 14.0, 19.0) == NoSale
    ensures ResolvePair(Uniform(10.0, 30.0), Uniform(20.0, 40.0), 14.0, 26.0) == Sale(Agent2, 20.0)
    ensures ResolvePair(Uniform(10.0, 30.0), Uniform(20.0, 40.0), 19.0, 19.0) == Sale(Agent1, 15.0)
    ensures ResolvePair(Uniform(10.0, 30.0), Uniform(20.0, 40.0), 15.0, 20.0) == NoSale
    ensures ResolvePair(Uniform(10.0, 30.0), Uniform(20.0, 40.0), 16.0, 21.0) == Sale(Agent1, 15.0)
  {
  }
}
