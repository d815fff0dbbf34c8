/** Machine words as bounded integers, and the option type shared by the models. */
module Words {
  type Byte = x: int | 0 <= x < 256
  type Bit = x: int | 0 <= x <= 1

  const WORD := 0x1_0000_0000

  datatype Option<+T> = None | Some(value: T)

  function Pow2(n: nat): (p: nat)
    ensures p >= 1
  {
    if n == 0 then 1 else 2 * Pow2(n - 1)
  }

  function Min(a: int, b: int): int {
    if a < b then a else b
  }

  function Max(a: int, b: int): int {
    if a < b then b else a
  }
}
