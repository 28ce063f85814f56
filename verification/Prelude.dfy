// Shared vocabulary: bytes, optional values, results and a few facts of arithmetic.
module Prelude {
  type byte = x: int | 0 <= x < 256
  type bytes = seq<byte>
  type u16 = x: int | 0 <= x < 65536

  datatype Option<+T> = None | Some(value: T)

  datatype Result<+T, +E> = Ok(value: T) | Err(error: E)

  const U64_MAX: nat := 0xFFFF_FFFF_FFFF_FFFF
  const NANOS: nat := 1_000_000_000  // nanoseconds in a second

  // ASCII text as bytes.
  function Ascii(s: string): (r: bytes)
    ensures |r| == |s|
  {
    seq(|s|, (i: int) requires 0 <= i < |s| => (s[i] as int) % 256)
  }

  function Min(a: int, b: int): int {
    if a <= b then a else b
  }

  function Max(a: int, b: int): int {
    if a >= b then a else b
  }

  function Abs(a: int): nat {
    if a < 0 then -a else a
  }

  lemma MulMonotone(a: int, b: int, m: nat)
    requires a <= b
    ensures a * m <= b * m
  {
  }

  lemma OneMore(n: int, m: int)
    ensures (n + 1) * m == n * m + m
  {
  }

  lemma QuotientUnique(p: int, m: nat, q: int, a: int)
    requires m > 0
    requires 0 <= p - q * m < m && 0 <= p - a * m < m
    ensures q == a
  {
    if q < a {
      MulMonotone(q + 1, a, m);
    } else if a < q {
      MulMonotone(a + 1, q, m);
    }
  }
}
