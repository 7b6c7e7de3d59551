/** Types shared by every module: bytes, block hashes and an optional value. */
module Common {

  type byte = x: int | 0 <= x < 256

  /** A 32-byte block hash; hashing itself is not modelled. */
  type Hash = h: seq<byte> | |h| == 32 witness seq(32, _ => 0)

  datatype Option<+T> = None | Some(value: T)

  const TWO_31: nat := 0x8000_0000
  const TWO_32: nat := 0x1_0000_0000
  const TWO_63: nat := 0x8000_0000_0000_0000
  const TWO_64: nat := 0x1_0000_0000_0000_0000

  /** Two's-complement truncation to 32 bits. */
  function ToInt32(x: int): int {
    (x + TWO_31) % TWO_32 - TWO_31
  }

  /** Multiples of 2^64 do not matter modulo 2^64. */
  lemma WrapAdd(a: int, z: int)
    ensures (a + z * TWO_64) % TWO_64 == a % TWO_64
  {
  }

  /** No entry occurs twice. */
  predicate Distinct<T(==)>(s: seq<T>) {
    forall i: nat, j: nat :: i < j < |s| ==> s[i] != s[j]
  }

  /** Two to the power `k`. */
  function Pow2(k: nat): (r: nat)
    ensures r > 0
  {
    if k == 0 then 1 else 2 * Pow2(k - 1)
  }

  /** Powers of two grow strictly with the exponent. */
  lemma {:induction false} Pow2Monotonic(a: nat, b: nat)
    requires a < b
    ensures Pow2(a) < Pow2(b)
  {
    if a + 1 < b {
      Pow2Monotonic(a, b - 1);
    }
  }
}
