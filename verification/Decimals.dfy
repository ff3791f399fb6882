/** Six decimal places, as numbers are stored and displayed. */
module Decimals {

  /** `Math.trunc(x * 1_000_000) / 1_000_000`: truncated towards zero, never rounded. */
  function Truncate6(x: real): real {
    var scaled := x * 1000000.0;
    (if scaled < 0.0 then -(0.0 - scaled).Floor else scaled.Floor) as real / 1000000.0
  }

  /** Truncation commutes with the sign, moves a number towards zero, and by less than one unit of the sixth place. */
  lemma Truncate6Laws(x: real)
    ensures Truncate6(0.0 - x) == 0.0 - Truncate6(x)
    ensures x >= 0.0 ==> 0.0 <= Truncate6(x) <= x < Truncate6(x) + 0.000001
  {
    var scaled := x * 1000000.0;
    assert (0.0 - x) * 1000000.0 == 0.0 - scaled;
  }
}
