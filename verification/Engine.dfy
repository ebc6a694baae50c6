/** The digit size that jsbn.js picks once, while the script loads. `ENGINE` has no value on purpose:
    every proof of the project holds whichever of the three kernels the browser selects. */
module Engine {
  import opened JsNumbers

  datatype Kernel = Am1 | Am2 | Am3

  const ENGINE: Kernel

  const DB: nat := match ENGINE case Am1 => 26 case Am2 => 30 case Am3 => 28
  const DV: int := match ENGINE case Am1 => 0x400_0000 case Am2 => 0x4000_0000 case Am3 => 0x1000_0000
  const DM: int := DV - 1

  // 2^F1, 2^F2 and FV = 2^52: how divRemTo scales its two leading digits to 52 bits.
  const TWO_F1: int := match ENGINE case Am1 => 0x400_0000 case Am2 => 0x40_0000 case Am3 => 0x100_0000
  const TWO_F2: int := match ENGINE case Am1 => 1 case Am2 => 0x100 case Am3 => 0x10
  const FV: int := 0x10_0000_0000_0000

  // 2^(DB-15): what is left of a digit above its low 15 bits.
  const TWO_DB15: int := match ENGINE case Am1 => 0x800 case Am2 => 0x8000 case Am3 => 0x2000

  predicate IsDigit(x: int) { 0 <= x < DV }

  /** `c & this.DM` */
  function LowDigit(c: int): (r: int)
    requires IsInt32(c)
    ensures IsDigit(r)
  {
    c % DV
  }

  /** `c >> this.DB` */
  function Carry(c: int): (r: int)
    requires IsInt32(c)
    ensures c == LowDigit(c) + DV * r
  {
    c / DV
  }
}
