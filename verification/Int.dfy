/** Integer constants and helpers used across the analyser. */
module Int {

  /** 2^256: one more than the largest EVM word. */
  const TWO_256: nat := 0x1_0000000000000000000000000000000000000000000000000000000000000000

  function Max(a: int, b: int): (r: int)
    ensures r >= a && r >= b
    ensures r == a || r == b
  {
    if a >= b then a else b
  }
}
