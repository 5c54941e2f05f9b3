/** Button bit assignments and the result code of the host interface. */
module Enums {

  /** Operator buttons (`OpBtn`). */
  const Test: bv8 := 0x01
  const Service: bv8 := 0x02
  const Coin: bv8 := 0x04

  /** Game buttons of one hand's cluster (`GameBtn`). */
  const Btn1: bv8 := 0x01
  const Btn2: bv8 := 0x02
  const Btn3: bv8 := 0x04
  const Side: bv8 := 0x08
  const Menu: bv8 := 0x10

  /** Every bit a game-button mask can carry, and every bit an operator mask can carry. */
  const GameBits: bv8 := 0x1F
  const OpBits: bv8 := 0x07

  datatype HResult = Ok | Bad

  /** Two game-button masks without stray bits are equal when their five
      button bits are. */
  lemma SameGameBits(a: bv8, b: bv8)
    requires a & !GameBits == 0 && b & !GameBits == 0
    requires (a & Btn1 != 0) == (b & Btn1 != 0)
    requires (a & Btn2 != 0) == (b & Btn2 != 0)
    requires (a & Btn3 != 0) == (b & Btn3 != 0)
    requires (a & Side != 0) == (b & Side != 0)
    requires (a & Menu != 0) == (b & Menu != 0)
    ensures a == b
  {
  }

  /** Two operator masks without stray bits are equal when their three
      button bits are. */
  lemma SameOpBits(a: bv8, b: bv8)
    requires a & !OpBits == 0 && b & !OpBits == 0
    requires (a & Test != 0) == (b & Test != 0)
    requires (a & Service != 0) == (b & Service != 0)
    requires (a & Coin != 0) == (b & Coin != 0)
    ensures a == b
  {
  }
}
