/**
 * Integer helpers shared by the decoders: unsigned bytes, logical right
 * shifts on naturals and the division facts the index arithmetic needs.
 */
module Bits {

  /** One unsigned byte (`uint8_t`). */
  type uint8 = x: int | 0 <= x < 256

  /** One unsigned 32-bit word (`uint32_t`). */
  type uint32 = x: int | 0 <= x < 0x1_0000_0000

  /** `v >> n` for a non-negative value: n successive halvings. */
  function Shr(v: nat, n: nat): nat
  {
    if n == 0 then v else Shr(v, n - 1) / 2
  }

  /** Shifting by two more bits divides by 4. */
  lemma ShrBy2(v: nat, n: nat)
    ensures Shr(v, n + 2) == Shr(v, n) / 4
  {
    assert Shr(v, n + 2) == Shr(v, n + 1) / 2;
  }

  /** The register of 2-bit fields after k + 1 fields is the one after k fields shifted right by 2. */
  lemma ShrPairs(v: nat, k: nat)
    ensures Shr(v, 2 * (k + 1)) == Shr(v, 2 * k) / 4
  {
    ShrBy2(v, 2 * k);
  }

  /** Shifting by three more bits divides by 8. */
  lemma ShrBy3(v: nat, n: nat)
    ensures Shr(v, n + 3) == Shr(v, n) / 8
  {
    assert Shr(v, n + 3) == Shr(v, n + 2) / 2;
    assert Shr(v, n + 2) == Shr(v, n + 1) / 2;
  }

  /**
   * `n * k` as k repeated additions of n. Sizes and offsets that multiply
   * two variables are written with it, so that a proof only sees the product
   * where it asks for it with `TimesIs`.
   */
  function Times(n: nat, k: nat): nat
  {
    if k == 0 then 0 else Times(n, k - 1) + n
  }

  lemma TimesIs(n: nat, k: nat)
    ensures Times(n, k) == n * k
  {
  }

  /** Repeated addition distributes over a sum. */
  lemma {:induction false} TimesAdd(a: nat, b: nat, k: nat)
    ensures Times(a + b, k) == Times(a, k) + Times(b, k)
  {
    if k > 0 {
      TimesAdd(a, b, k - 1);
    }
  }

  /** Repeated addition is monotone in the count. */
  lemma {:induction false} TimesMono(n: nat, a: nat, b: nat)
    requires a <= b
    ensures Times(n, a) <= Times(n, b)
  {
    if a < b {
      TimesMono(n, a, b - 1);
    }
  }

  /** Quotient and remainder are determined by `a == q * d + r` with `0 <= r < d`. */
  lemma DivModUnique(a: int, d: int, q: int, r: int)
    requires d > 0 && 0 <= r < d && a == q * d + r
    ensures a / d == q && a % d == r
  {
    var q', r' := a / d, a % d;
    assert a == q' * d + r';
    assert (q - q') * d == r' - r;
    if q > q' {
      MulMono(1, q - q', d);
    } else if q < q' {
      MulMono(1, q' - q, d);
    }
  }

  /** Multiplication by a natural is monotone. */
  lemma MulMono(a: int, b: int, k: nat)
    requires a <= b
    ensures a * k <= b * k
  {
    assert b * k - a * k == (b - a) * k;
  }
}
