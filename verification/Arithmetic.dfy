/** 32-bit words, and division facts that hold for every divisor. */
module Arithmetic {

  const WORD := 0x1_0000_0000

  type u32 = x: int | 0 <= x < WORD

  lemma DivMod(v: nat, n: nat)
    requires n > 0
    ensures v == v / n * n + v % n && 0 <= v % n < n && v / n >= 0
    ensures v >= n ==> v / n > 0
  {
  }

  /** A multiple of n above another is at least n above it. */
  lemma Gap(a: nat, b: nat, n: nat)
    ensures a < b ==> a * n + n <= b * n
  {
    if a < b {
      assert (a + 1) * n <= b * n;
    }
  }

  lemma UniqueQuotient(v: nat, q: nat, r: nat, n: nat)
    requires n > 0 && v == q * n + r && r < n
    ensures v / n == q && v % n == r
  {
    DivMod(v, n);
    Gap(q, v / n, n);
    Gap(v / n, q, n);
  }

  /** Dividing twice is dividing by the product. */
  lemma DivDiv(v: nat, p: nat, base: nat)
    requires p > 0 && base > 0
    ensures p * base > 0 && v / p / base == v / (p * base)
  {
    var q, r := v / p, v % p;
    DivMod(v, p);
    var q', r' := q / base, q % base;
    DivMod(q, base);
    Regroup(q', r', r, p, base);
    UniqueQuotient(v, q', r' * p + r, p * base);
  }

  lemma Regroup(q: nat, r': nat, r: nat, p: nat, base: nat)
    requires r' < base && r < p
    ensures (q * base + r') * p + r == q * (p * base) + (r' * p + r)
    ensures 0 <= r' * p + r < p * base
  {
    Gap(r', base, p);
    assert q * base * p == q * (p * base);
  }
}
