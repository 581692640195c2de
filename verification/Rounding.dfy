/** Rounding to the nearest integer, ties to even. */
module Rounding {

  function RoundHalfEven(x: real): (r: int)
    ensures -0.5 <= r as real - x <= 0.5
    ensures x - x.Floor as real == 0.5 ==> r % 2 == 0
  {
    var below := x.Floor;
    var part := x - below as real;
    if part < 0.5 || (part == 0.5 && below % 2 == 0) then below else below + 1
  }
}
