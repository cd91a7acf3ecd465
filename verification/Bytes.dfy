/** Octets, as they go over the wire, and IPv6 addresses made of them. */
module Bytes {
  type Byte = n: int | 0 <= n < 256

  type Address = a: seq<Byte> | |a| == 16 witness [0, 0, 0, 0, 0, 0, 0, 0, 0, 0, 0, 0, 0, 0, 0, 0]

  const V4PREFIX: seq<Byte> := [0, 0, 0, 0, 0, 0, 0, 0, 0, 0, 255, 255]

  /** v4mapped */
  predicate V4Mapped(p: Address) {
    p[..12] == V4PREFIX
  }

  /** The last `k` octets of a number. */
  function Octets(n: nat, k: nat): (s: seq<Byte>)
    ensures |s| == k
  {
    if k == 0 then [] else Octets(n / 256, k - 1) + [n % 256]
  }
}
