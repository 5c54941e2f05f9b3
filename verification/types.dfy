/** Machine types of the controller library and the few generic wrappers it uses.

    Rust's fixed-width integers are modelled as subsets of `int`, except the
    button masks and the legacy LED mask, whose bits are what the code works
    on; those are bit-vectors.
    Where the code narrows a value with `as`, the narrowing is written out. */
module Types {

  datatype Option<+T> = None | Some(value: T)
  {
    /** `Option::unwrap_or`. */
    function GetOr(default: T): T
    {
      match this
      case Some(v) => v
      case None => default
    }
  }

  type i16 = x: int | -0x8000 <= x <= 0x7FFF
  type i32 = x: int | -0x8000_0000 <= x <= 0x7FFF_FFFF
  type u16 = x: int | 0 <= x <= 0xFFFF
  type u8 = x: int | 0 <= x <= 0xFF

  /** An `rgb::RGB8` value: one light, three colour channels. */
  datatype Rgb = Rgb(r: u8, g: u8, b: u8)

  function Abs(x: int): nat
  {
    if x < 0 then -x else x
  }

  /** `v as i16`: keeps the low 16 bits of `v` and reads them as two's complement. */
  function WrapI16(v: int): (r: i16)
    ensures (v - r) % 0x1_0000 == 0
    ensures -0x8000 <= v <= 0x7FFF ==> r == v
  {
    var m := v % 0x1_0000;
    if m >= 0x8000 then m - 0x1_0000 else m
  }

  /** Wrapping `i32` arithmetic (a release build without overflow checks). */
  function WrapI32(v: int): (r: i32)
    ensures (v - r) % 0x1_0000_0000 == 0
    ensures -0x8000_0000 <= v <= 0x7FFF_FFFF ==> r == v
  {
    var m := v % 0x1_0000_0000;
    if m >= 0x8000_0000 then m - 0x1_0000_0000 else m
  }

  /** Rust's `/` on signed integers: the quotient rounded toward zero, so its
      magnitude is that of the quotient of the magnitudes and its sign is the
      product of the operands' signs (Dafny's own `/` rounds toward minus
      infinity for a positive divisor instead). */
  function TruncDiv(a: int, b: int): (q: int)
    requires b != 0
    ensures Abs(q) == Abs(a) / Abs(b)
    ensures q > 0 ==> (a > 0) == (b > 0)
    ensures q < 0 ==> (a > 0) != (b > 0)
    ensures a >= 0 && b > 0 ==> q == a / b
  {
    var n := Abs(a) / Abs(b);
    assert n >= 0 by { DivNonNegative(Abs(a), Abs(b)); }
    if (a > 0) == (b > 0) || a == 0 then n else -n
  }

  lemma DivNonNegative(x: nat, y: int)
    requires y > 0
    ensures x / y >= 0
  {
  }
}
