/** Arithmetic shared by the other modules: C's integer widths and division, powers of two, products. */
module Arithmetic {

  const UINT16: int := 0x1_0000
  const UINT32: int := 0x1_0000_0000
  const INT64: int := 0x8000_0000_0000_0000

  /** Division as C does it, towards zero. */
  function TruncatedDiv(a: int, b: int): int
    requires b > 0
  {
    if a >= 0 then a / b else -(-a / b)
  }

  /** r is a / b rounded towards zero. */
  predicate Rounds(a: int, b: int, r: int) {
    if a >= 0 then b * r <= a < b * (r + 1) else b * (r - 1) < a <= b * r
  }

  lemma DivRounds(a: int, b: int)
    requires b > 0
    ensures Rounds(a, b, TruncatedDiv(a, b))
  {
    if a >= 0 {
      QuotientOf(a, b);
    } else {
      QuotientOf(-a, b);
    }
  }

  lemma QuotientOf(a: int, b: int)
    requires b > 0
    ensures b * (a / b) <= a < b * (a / b + 1)
    ensures b * -(a / b) == -(b * (a / b)) && b * (-(a / b) - 1) == -(b * (a / b + 1))
  {
  }

  /** Conversions to int16_t, uint16_t and int32_t. */
  function ToInt16(v: int): (r: int)
    ensures -0x8000 <= r < 0x8000
  {
    (v + 0x8000) % UINT16 - 0x8000
  }

  function ToUInt16(v: int): nat {
    v % UINT16
  }

  lemma Int16Exact(v: int)
    requires -0x8000 <= v < 0x8000
    ensures ToInt16(v) == v
  {
  }

  lemma UInt16Exact(v: int)
    requires 0 <= v < UINT16
    ensures ToUInt16(v) == v
  {
  }

  function ToInt32(v: int): int {
    (v + 0x8000_0000) % UINT32 - 0x8000_0000
  }

  /** The conversions take off a multiple of the width. */
  lemma Int16Wraps(v: int) returns (k: int)
    ensures v == ToInt16(v) + k * UINT16
  {
    k := (v + 0x8000) / UINT16;
  }

  lemma UInt16Wraps(v: int) returns (k: int)
    ensures v == ToUInt16(v) + k * UINT16 && ToUInt16(v) < UINT16
  {
    k := v / UINT16;
  }

  lemma Int32Wraps(v: int) returns (k: int)
    ensures v == ToInt32(v) + k * UINT32 && -0x8000_0000 <= ToInt32(v) < 0x8000_0000
  {
    k := (v + 0x8000_0000) / UINT32;
  }

  lemma Int32Exact(v: int)
    requires -0x8000_0000 <= v < 0x8000_0000
    ensures ToInt32(v) == v
  {
  }

  function Pow2(n: nat): nat {
    if n == 0 then 1 else 2 * Pow2(n - 1)
  }

  lemma Scale(a: int, b: int, c: int)
    requires a <= b && 0 <= c
    ensures a * c <= b * c
  {
  }

  lemma ProductBound(a: int, b: int, m: int, n: int)
    requires -m <= a <= m && -n <= b <= n
    ensures -(m * n) <= a * b <= m * n
  {
    assert (m - a) * (n + b) >= 0 && (m + a) * (n - b) >= 0;
    assert (m - a) * (n - b) >= 0 && (m + a) * (n + b) >= 0;
  }
}
