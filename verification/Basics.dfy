/** What several of the modules share: an optional value, the widths of the C integers, and the
    number of ports that are saved, reset and counted, and texts made of parts. */
module Basics {
  datatype Option<+T> = None | Some(value: T)

  type Byte = x: nat | x < 0x100
  type Short = x: nat | x < 0x1_0000
  type Word = x: nat | x < 0x1_0000_0000

  const MAX_OC_NUM: nat := 4

  /** The first `n` parts, one behind the other. */
  function Concat<T>(part: nat -> seq<T>, n: nat): seq<T> {
    if n == 0 then [] else Concat(part, n - 1) + part(n - 1)
  }

  /** Part `k` is the one looked for, if any is. */
  predicate IsPlace(k: nat, place: nat, live: bool) {
    live && k == place
  }

  function PowerOf2(n: nat): (p: nat)
    ensures p >= 1
  {
    if n == 0 then 1 else 2 * PowerOf2(n - 1)
  }
}
