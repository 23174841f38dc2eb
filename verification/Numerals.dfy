/** Numbers as they are written: by repeated division, with digits taken from tables. */
module Numerals {
  import opened Bytes

  /** `0123456789abcdef`. */
  const LOWER: seq<Byte> := [48, 49, 50, 51, 52, 53, 54, 55, 56, 57, 97, 98, 99, 100, 101, 102]

  /** `0123456789ABCDEF`. */
  const UPPER: seq<Byte> := [48, 49, 50, 51, 52, 53, 54, 55, 56, 57, 65, 66, 67, 68, 69, 70]

  /** Which digits are in upper case, counted from the last one. */
  type Cases = nat -> bool

  /** The cases of the digits in front of the last one. */
  function Before(upper: Cases): Cases {
    (i: nat) => upper(i + 1)
  }

  function HexDigitOf(d: nat, upper: bool): Byte
    requires d < 16
  {
    if upper then UPPER[d] else LOWER[d]
  }

  /** The number to base 16. */
  function Hex(n: nat, upper: Cases): (text: seq<Byte>)
    ensures text != []
    decreases n
  {
    (if n < 16 then [] else Hex(n / 16, Before(upper))) + [HexDigitOf(n % 16, upper(0))]
  }

  /** The number to base 10. */
  function Decimal(n: nat): (text: seq<Byte>)
    ensures text != []
    decreases n
  {
    (if n < 10 then [] else Decimal(n / 10)) + [LOWER[n % 10]]
  }
}
