/** String hashing and bucket selection shared by both hash tables. */
module Hashing {

  const TwoTo32: nat := 0x1_0000_0000

  /** Java's `String.hashCode`: `h = 31 * h + c` over the characters, kept to 32 bits.
      The 32-bit pattern is held as its unsigned value. No proof depends on the polynomial. */
  function HashCode(s: string): (h: nat)
    ensures h < TwoTo32
  {
    if s == [] then 0 else (31 * HashCode(s[..|s| - 1]) + s[|s| - 1] as int) % TwoTo32
  }

  /** `hash & (cap - 1)`: for a power-of-two capacity the mask keeps the low bits,
      which is the remainder of the unsigned hash by the capacity. */
  function Bucket(key: string, cap: nat): (i: nat)
    requires cap > 0
    ensures i < cap
  {
    HashCode(key) % cap
  }

  /** Capacities are 8 doubled some number of times. */
  predicate IsPow2(n: nat)
  {
    n == 1 || (n > 1 && n % 2 == 0 && IsPow2(n / 2))
  }

  const InitialCapacity: nat := 8
}
