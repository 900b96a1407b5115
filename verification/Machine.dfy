// 32-bit machine words, the page size and what else several modules share.
module Machine {

  const WORD: nat := 0x1_0000_0000
  const PAGE_SIZE: nat := 4096
  const MAX_TASK_COUNT: nat := 64

  datatype Option<+T> = None | Some(value: T)

  /** The values of the source's uint32; wrap-around is written out where it can happen. */
  type u32 = n: int | 0 <= n < 0x1_0000_0000

  function Wrap(n: int): u32 {
    n % WORD
  }

  function Power2(n: nat): (p: nat)
    ensures p > 0
  {
    if n == 0 then 1 else 2 * Power2(n - 1)
  }

  function Max(a: int, b: int): int {
    if a > b then a else b
  }

  function Min(a: int, b: int): int {
    if a < b then a else b
  }
}
