/** Rounding up to a multiple.  For a power of two this is what masking off the low bits
    after adding one less than the alignment computes. */
module Alignment {

  /** The least multiple of `a` that is not below `v`. */
  function AlignUp(v: nat, a: nat): (r: nat)
    requires a > 0
  {
    (v + (a - 1)) / a * a
  }

  lemma AlignUpBounds(v: nat, a: nat)
    requires a > 0
    ensures v <= AlignUp(v, a) < v + a && AlignUp(v, a) % a == 0
  {
    var q := (v + (a - 1)) / a;
    assert q * a % a == 0 by { MultipleMod(q, a); }
  }

  lemma MultipleMod(q: nat, a: nat)
    requires a > 0
    ensures q * a % a == 0
  {
    assert q * a == q * a + 0;
    DivUnique(q * a, a, q, 0);
  }

  lemma DivUnique(n: int, d: int, q: int, r: int)
    requires d > 0 && 0 <= r < d && n == q * d + r
    ensures n / d == q && n % d == r
  {
    SameQuotient(d, q, r, n / d, n % d);
  }

  lemma SameQuotient(d: int, q: int, r: int, q': int, r': int)
    requires d > 0 && 0 <= r < d && 0 <= r' < d && q * d + r == q' * d + r'
    ensures q == q' && r == r'
  {
    if q > q' {
      AtLeastOnce(q - q', d);
    } else if q < q' {
      AtLeastOnce(q' - q, d);
    }
  }

  lemma AtLeastOnce(e: int, d: int)
    requires e >= 1 && d > 0
    ensures e * d >= d
  {
  }

  /** A multiple of `a` is a multiple of every divisor of `a`. */
  lemma ModOfMod(p: nat, a: nat, d: nat)
    requires a > 0 && d > 0 && p % a == 0 && a % d == 0
    ensures p % d == 0
  {
    var k, m := p / a, a / d;
    assert p == k * a && a == m * d;
    assert p == (k * m) * d by { assert k * (m * d) == (k * m) * d; }
    MultipleMod(k * m, d);
  }

  lemma NextMod(p: nat, a: nat)
    requires a > 0 && p % a == 0
    ensures (p + a) % a == 0
  {
    var q := p / a;
    assert p + a == (q + 1) * a;
    DivUnique(p + a, a, q + 1, 0);
  }

  /** The alignments that have a single bit set. */
  predicate IsPowerOfTwo(a: nat) {
    a == 1 || (a > 1 && a % 2 == 0 && IsPowerOfTwo(a / 2))
  }

  /** Of two powers of two the smaller divides the larger. */
  lemma {:induction false} PowersDivide(a: nat, b: nat)
    requires IsPowerOfTwo(a) && IsPowerOfTwo(b) && a <= b
    ensures b % a == 0
  {
    if a > 1 {
      PowersDivide(a / 2, b / 2);
      var k := (b / 2) / (a / 2);
      assert b / 2 == k * (a / 2);
      assert b == k * a;
      DivUnique(b, a, k, 0);
    }
  }
}
