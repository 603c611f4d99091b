/** Shared value types of the image buffers: every buffer of the pipeline is a
    sequence of bytes (the source's Uint8Array, Uint8ClampedArray). */
module Pixels {
  /** One byte of a pixel buffer. */
  type Byte = b: int | 0 <= b < 256

  /** Number of entries of `s` equal to `v`. */
  function Count(s: seq<int>, v: int): (n: nat)
    ensures n <= |s|
  {
    if s == [] then 0 else Count(s[..|s| - 1], v) + (if s[|s| - 1] == v then 1 else 0)
  }
}
