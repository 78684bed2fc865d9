# Myerson auction for one or two uniform buyers

A Dafny model of `maximize_values.py`. The file implements the revenue-maximising
(Myerson) auction for one seller and one or two buyers. Each buyer's valuation is
uniform on `[low, high]`. The model has three modules:

- `Distribution` (`distribution.dfy`): the `Uniform` prior as an immutable datatype.
  It has the virtual valuation φ(v) = 2v − high (`VirtualValue`), the reserve
  high/2 (`Threshold`) and φ's inverse (`CriticalValue`).
- `PaymentSearch` (`payment_search.dfy`): `payment_for_agent`, the
  critical-valuation search. `PaymentForAgent` is a method with the program's
  `while` loop. It lowers the valuation in steps of 0.001 until φ no longer exceeds
  the loser's virtual valuation, then rounds. It is proved equal to the
  specification function `Payment`. `Payment` is built from `SearchSteps`, the
  number of 0.001 steps to the first grid point where the loop stops, and from
  `RoundHalfEven`, which models Python's `round`.
- `Auction` (`auction.dfy`): the two `max_revenue_auction` entry points.
  `ResolveSingle` handles one buyer and `ResolvePair` handles two. Each returns an
  `Outcome` (`NoSale | Sale(winner, payment)`) instead of printing. The module also
  holds the allocation and pricing lemmas and the documented examples.

All arithmetic is on exact `real`s. Termination is proved with a ghost step count `k`.
The invariant `k <= SearchSteps(...)` bounds `k`, and the loop decreases
`SearchSteps(...) - k`.

About the inputs and the search:
- The code checks no input, and the model adds no precondition. Nothing requires
  `low < high`, and no computation reads `low`.
- The code puts no cap on the number of search steps. Over exact reals the model
  proves that the loop ends (over floats it need not; see "## Left out").
- A prior with negative `high` gives a negative reserve, so a payment can be
  negative. The model claims no sign for the payment.

## Model

| member | source | states |
|---|---|---|
| Distribution.VirtualValue | maximize_values.py:13-14 | φ(v) is positive exactly when v is above high/2, and zero exactly at high/2 |
| Distribution.Threshold | maximize_values.py:17-18 | the reserve is a zero of φ, and the only one |
| Distribution.CriticalValue | maximize_values.py:121-123 | the valuation whose φ equals a given target (φ's inverse) |
| Distribution.VirtualValueIgnoresLow | maximize_values.py:8-18 | φ and the reserve depend on `high` only, never on `low` |
| Distribution.VirtualValueStrictlyIncreasing | maximize_values.py:13-14 | φ is strictly increasing with slope 2 |
| Distribution.CriticalValueRoundTrip | maximize_values.py:13-14 | CriticalValue and VirtualValue undo each other, in both orders |
| Distribution.AtMostCriticalValue | maximize_values.py:121 | φ(v) ≤ target holds exactly when v ≤ CriticalValue(target), so the loop guard has a closed form |
| Distribution.ThresholdIsCriticalAtZero | maximize_values.py:17-18 | the reserve is the critical value against a virtual valuation of zero |
| PaymentSearch.RoundHalfEven | maximize_values.py:124 | the result is within 1/2 of x, and an exact half goes to the even neighbour (Python's `round`) |
| PaymentSearch.RoundIsNearest | maximize_values.py:124 | no integer is nearer to x than the rounded value |
| PaymentSearch.RoundOfWhole | maximize_values.py:124 | rounding leaves a whole number unchanged |
| PaymentSearch.RoundToWhole | maximize_values.py:124 | every x in (c − 1/2, c] rounds to the whole number c |
| PaymentSearch.SearchSteps | maximize_values.py:118-123 | the number of 0.001 steps is the first at which φ ≤ rv; every earlier point still has φ > rv |
| PaymentSearch.SearchStepsUnique | maximize_values.py:121-123 | those two properties fix the step count uniquely |
| PaymentSearch.SearchEnd | maximize_values.py:117-123 | the value before rounding never exceeds the start and has φ ≤ rv. It is the start itself when φ(start) ≤ rv. Otherwise φ(end + 0.001) > rv and the end lies in (critical − 0.001, critical] |
| PaymentSearch.Payment | maximize_values.py:117-125 | the payment is a whole number within 1/2 of the value the search stops at |
| PaymentSearch.PaymentForAgent | maximize_values.py:117-125 | the loop terminates and returns exactly `Payment` of its inputs |
| PaymentSearch.PaymentNearCritical | maximize_values.py:121-124 | when the loop runs, the payment is within 1/2 + 0.001 of the closed form (rv + high)/2 |
| PaymentSearch.PaymentAtWholeCritical | maximize_values.py:121-124 | when the closed form is a whole number below the start, the payment equals it exactly |
| PaymentSearch.PaymentAtMostValuePlusHalf | maximize_values.py:121-124 | the payment exceeds the winner's valuation by at most 1/2 (rounding) |
| Auction.ResolveSingle | maximize_values.py:45-52 | one buyer: a sale exactly when the value is above the reserve (φ > 0, so φ = 0 is no sale); on a sale buyer 1 pays the reserve |
| Auction.ResolvePair | maximize_values.py:89-114 | two buyers: no sale exactly when both φ ≤ 0; a winner's φ is positive and at least the other buyer's |
| Auction.SinglePriceIgnoresValue | maximize_values.py:48-50 | the one-buyer price does not depend on the buyer's valuation |
| Auction.PairSolePositive | maximize_values.py:97-103 | exactly one positive φ: that buyer wins at their own reserve |
| Auction.PairNonPositiveBuyerIrrelevant | maximize_values.py:93-103 | a buyer with φ ≤ 0 can be replaced by any other such buyer without changing the outcome or price, in either seat |
| Auction.PairContested | maximize_values.py:106-111 | both φ positive and unequal: the strictly larger wins and pays the searched payment against the loser's φ |
| Auction.PairContestedPriceNearCritical | maximize_values.py:106-111 | a contested winner's price is within 1/2 + 0.001 of their exact critical value |
| Auction.PairTieGoesToAgent1 | maximize_values.py:112-114 | equal positive φ: buyer 1 wins and pays buyer 1's own reserve |
| Auction.PairSymmetricOffTies | maximize_values.py:93-114 | apart from positive ties, exchanging the buyers exchanges the winner and keeps the price |
| Auction.SingleExamples | maximize_values.py:28-41 | the five documented one-buyer outcomes, including 20 (no sale) against 20.0001 (sale at 20) on [20, 40] |
| Auction.PairExamples | maximize_values.py:66-85 | the seven documented two-buyer outcomes, including the searched prices 22 and 23 and the tie at 16, 21 (19, 19 is a sole-positive sale: φ2(19) = −2) |

## Left out

- Printing: the program prints "Agent1 wins and pays …" or "No agent wins" (maximize_values.py:50-52, 94-114). The model returns an `Outcome` instead.
- Floating point: the program subtracts 0.001 from a binary float again and again. The model works on exact reals, where the search lands exactly on the 0.001 grid. Float rounding drift is not modelled. Termination is proved only for exact reals: over floats, once value > 2^44, or value ≤ −2^44, the subtraction `value - 0.001` leaves `value` unchanged and the loop at maximize_values.py:121-123 never ends.
- Name rebinding: Python keeps only the second `max_revenue_auction` (maximize_values.py:54 replaces :21). The model keeps both as `ResolveSingle` and `ResolvePair`. After the rebinding, doctest never runs the one-buyer examples at maximize_values.py:28-41, so `Auction.SingleExamples` states documented behaviour that the Python code never checks.
- `round` then `float`: Python's `round` returns an integer that the program turns back into a float. The model returns that integer as a `real`.
- Input validation: the program validates nothing (`low < high`, finite valuations). The model carries `low` unused and adds no precondition.
