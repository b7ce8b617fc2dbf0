/** What several modules share: the bytes and characters of C, and powers of two. */
module CTypes {
  type byte = b: int | 0 <= b < 256

  // A character of a C string, never NUL.
  type ch = b: int | 0 < b < 256 witness 1

  function Pow2(n: nat): (p: nat)
    ensures p >= 1
  {
    if n == 0 then 1 else 2 * Pow2(n - 1)
  }
}
