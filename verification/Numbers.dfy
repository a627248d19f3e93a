/** Bounded and clamped numbers. */
module Numbers {
  type Byte = x: int | 0 <= x < 0x100

  function Min(a: nat, b: nat): nat {
    if a <= b then a else b
  }

  /** `max(0, n)` */
  function Max0(n: int): nat {
    if n < 0 then 0 else n
  }
}
