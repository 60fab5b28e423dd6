/** Numerals in bases 8, 10 and 16: what they denote, when they are canonical, and the digit
    loops of the two printf implementations. */
module Numerals {
  import opened Arithmetic

  type Base = b: int | b == 8 || b == 10 || b == 16 witness 10

  /** The number a digit sequence denotes, most significant digit first. */
  function Value(ds: seq<nat>, base: Base): nat {
    if ds == [] then 0 else Value(ds[..|ds| - 1], base) * base + ds[|ds| - 1]
  }

  /** Proper digits and no superfluous leading zero. */
  predicate Canonical(ds: seq<nat>, base: Base) {
    && ds != []
    && (forall i | 0 <= i < |ds| :: ds[i] < base)
    && (|ds| > 1 ==> ds[0] != 0)
  }

  /** The canonical numeral of v. */
  function Digits(v: nat, base: Base): seq<nat> {
    if v < base then [v] else Digits(v / base, base) + [v % base]
  }

  lemma {:induction false} DigitsDenote(v: nat, base: Base)
    ensures Canonical(Digits(v, base), base) && Value(Digits(v, base), base) == v
    ensures v > 0 ==> Digits(v, base)[0] > 0
  {
    if v < base {
      assert [v][..0] == [];
    } else {
      DivMod(v, base);
      var q, r := v / base, v % base;
      DigitsDenote(q, base);
      var ds := Digits(q, base);
      ValueSnoc(ds, r, base);
    }
  }

  lemma {:induction false} PositiveValue(ds: seq<nat>, base: Base)
    requires ds != [] && ds[0] > 0
    ensures Value(ds, base) > 0
  {
    if |ds| > 1 {
      PositiveValue(ds[..|ds| - 1], base);
    }
  }

  /** A number has only one canonical numeral, whatever loop produced it. */
  lemma {:induction false} CanonicalIsDigits(ds: seq<nat>, base: Base)
    requires Canonical(ds, base)
    ensures ds == Digits(Value(ds, base), base)
    decreases |ds|
  {
    var n := |ds| - 1;
    var init, last := ds[..n], ds[n];
    var v := Value(init, base);
    assert ds == init + [last];
    if n == 0 {
      assert Value(ds, base) == last;
    } else {
      PositiveValue(init, base);
      LastDigit(v, last, base);
      CanonicalIsDigits(init, base);
    }
  }

  lemma LastDigit(v: nat, d: nat, base: Base)
    requires d < base
    ensures (v * base + d) / base == v && (v * base + d) % base == d
  {
  }

  lemma {:induction false} ValueSnoc(ds: seq<nat>, d: nat, base: Base)
    ensures Value(ds + [d], base) == Value(ds, base) * base + d
  {
  }

  // ---- Powers of the base ----

  function Pow(base: Base, k: nat): (p: nat)
    ensures p > 0
  {
    if k == 0 then 1 else Pow(base, k - 1) * base
  }
}
