/** Numbers in positional notation, told by the place of each digit in the list of digits. */
module Positional {
  const LOWER := "0123456789abcdef"
  const UPPER := "0123456789ABCDEF"

  /** c is the digit for d. */
  predicate IsDigitOf(base: nat, c: char, d: nat) {
    d < base && d < 16 && (c == LOWER[d] || c == UPPER[d])
  }

  /** The text consists of the digits for ds. */
  predicate AreDigitsOf(base: nat, text: string, ds: seq<nat>) {
    |text| == |ds| && forall i :: 0 <= i < |ds| ==> IsDigitOf(base, text[i], ds[i])
  }

  /** The number with these digits. */
  function Positioned(base: nat, ds: seq<nat>): nat {
    if ds == [] then 0 else base * Positioned(base, ds[..|ds| - 1]) + ds[|ds| - 1]
  }
}
