/** `std::optional` and the 32-bit `unsigned int` of the sources. */
module Wrappers {
  datatype Option<+T> = None | Some(value: T)

  const TWO_TO_THE_32: int := 0x1_0000_0000
  const TWO_TO_THE_64: int := 0x1_0000_0000_0000_0000

  /** `unsigned int`: every assignment has to be shown not to wrap around. */
  type uint32 = x: int | 0 <= x < 0x1_0000_0000

  /** Conversion of an `unsigned long` to `unsigned int` keeps the low 32 bits. */
  function Truncate32(n: nat): uint32 {
    n % 0x1_0000_0000
  }

  /** `++` on an `unsigned int`, which wraps around. */
  function Increment32(n: uint32): (r: uint32)
    ensures n + 1 < TWO_TO_THE_32 ==> r == n + 1
  {
    var m: int := n;
    Truncate32(m + 1)
  }

  lemma Increment32Is(n: uint32)
    ensures Increment32(n) == if n + 1 < TWO_TO_THE_32 then n + 1 else 0
  {
  }

  lemma Truncate32Keeps(n: uint32)
    ensures Truncate32(n) == n
  {
  }

  /** The low 32 bits of a number. */
  lemma LowBits(q: nat, r: nat)
    requires r < 4294967296
    ensures Truncate32(4294967296 * q + r) == r
    ensures TWO_TO_THE_32 == 4294967296 && TWO_TO_THE_64 == 18446744073709551616
  {
  }

  lemma Assoc<T>(a: seq<T>, b: seq<T>, c: seq<T>)
    ensures a + b + c == a + (b + c)
  {
  }
}
