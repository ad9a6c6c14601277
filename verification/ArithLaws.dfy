/** What the operators of `$(( ... ))` compute, for all 64-bit operands, by laws of arithmetic, of
    order and of bits. */
module ArithLaws {
  import opened Common
  import opened Alignment
  import opened Binary
  import opened ArithSyntax

  /** The values of a long long. */
  predicate Is64(v: int) {
    -0x8000_0000_0000_0000 <= v < 0x8000_0000_0000_0000
  }

  /** `r` is the long long with the same low 64 bits as `x`. */
  ghost predicate Wraps(x: int, r: int) {
    Is64(r) && (x - r) % 0x1_0000_0000_0000_0000 == 0
  }

  lemma WrapIs(x: int)
    ensures Wraps(x, Wrap(x))
    ensures Is64(x) ==> Wrap(x) == x
  {
  }

  lemma WrapsUnique(x: int, y: int, r: int, s: int)
    requires Wraps(x, r) && Wraps(y, s) && (x - y) % 0x1_0000_0000_0000_0000 == 0
    ensures r == s
  {
  }

  /** Equal modulo 2^64 the other way round. */
  lemma Reversed(x: int)
    requires x % 0x1_0000_0000_0000_0000 == 0
    ensures (-x) % 0x1_0000_0000_0000_0000 == 0
  {
  }

  /** A value that differs from a long long by a multiple of 2^64 wraps to it. */
  lemma WrapsTo(x: int, v: int)
    requires Is64(v) && (x - v) % 0x1_0000_0000_0000_0000 == 0
    ensures Wrap(x) == v
  {
    WrapIs(x);
    hide Wrap;
    WrapsUnique(x, v, Wrap(x), v);
  }

  // ----- sums, differences and products -----

  /** Sums are the true ones modulo 2^64, and subtraction undoes addition. */
  lemma SubtractionUndoesAddition(v: int, r: int)
    requires Is64(v) && Is64(r)
    ensures var a := ApplyBin(Add, v, r);
            && a.Some? && Wraps(v + r, a.value)
            && ApplyBin(Sub, a.value, r) == Some(v) && ApplyBin(Sub, a.value, v) == Some(r)
  {
    WrapIs(v + r);
    hide Wrap;
    var a := Wrap(v + r);
    Reversed(v + r - a);
    assert a - r - v == -(v + r - a) == a - v - r;
    WrapsTo(a - r, v);
    WrapsTo(a - v, r);
  }

  /** Differences are the true ones modulo 2^64, and addition undoes subtraction. */
  lemma AdditionUndoesSubtraction(v: int, r: int)
    requires Is64(v) && Is64(r)
    ensures var d := ApplyBin(Sub, v, r);
            && d.Some? && Wraps(v - r, d.value) && ApplyBin(Add, d.value, r) == Some(v)
  {
    WrapIs(v - r);
    hide Wrap;
    var d := Wrap(v - r);
    Reversed(v - r - d);
    assert d + r - v == -(v - r - d);
    WrapsTo(d + r, v);
  }

  lemma ProductsWrap(v: int, r: int)
    ensures var m := ApplyBin(Mul, v, r); m.Some? && Wraps(v * r, m.value)
  {
    WrapIs(v * r);
  }

  // ----- division -----

  /** Division by zero has no value.  Otherwise quotient and remainder belong together: the remainder is
      smaller than the divisor and has the sign of the dividend.  MIN / -1 wraps. */
  lemma DivisionPair(v: int, r: int)
    requires Is64(v) && Is64(r)
    ensures ApplyBin(Div, v, r).None? <==> r == 0
    ensures ApplyBin(Mod, v, r).None? <==> r == 0
    ensures r != 0 ==>
              var q, m := ApplyBin(Div, v, r).value, ApplyBin(Mod, v, r).value;
              && (v == -0x8000_0000_0000_0000 && r == -1 ==> q == v && m == 0)
              && (v != -0x8000_0000_0000_0000 || r != -1 ==> v == q * r + m)
              && (if r > 0 then -r < m < r else r < m < -r)
              && (m > 0 ==> v > 0) && (m < 0 ==> v < 0)
  {
    if r != 0 {
      var q, m := TruncDiv(v, r), TruncMod(v, r);
      TruncBounds(v, r);
      hide TruncDiv, TruncMod;
      WrapsTo(m, m);
      if v == -0x8000_0000_0000_0000 && r == -1 {
        WrapsTo(q, v);
      } else {
        WrapsTo(q, q);
      }
    }
  }

  lemma TruncBounds(v: int, r: int)
    requires Is64(v) && Is64(r) && r != 0
    ensures var q, m := TruncDiv(v, r), TruncMod(v, r);
            && v == q * r + m && Is64(m) && (if r > 0 then -r < m < r else r < m < -r)
            && (m > 0 ==> v > 0) && (m < 0 ==> v < 0)
            && (v == -0x8000_0000_0000_0000 && r == -1 ==> q == 0x8000_0000_0000_0000 && m == 0)
            && (v != -0x8000_0000_0000_0000 || r != -1 ==> Is64(q))
  {
    var n := if v >= 0 then v else -v;
    EuclidParts(n, r);
    QuotientBound(n, r);
    var q, m := n / r, n % r;
    if v < 0 { NegProduct(q, r); }
  }

  lemma EuclidParts(n: int, r: int)
    requires r != 0
    ensures n == n / r * r + n % r && 0 <= n % r && (if r > 0 then n % r < r else n % r < -r)
  {
  }

  lemma NegProduct(q: int, r: int)
    ensures (-q) * r == -(q * r)
  {
  }

  lemma QuotientBound(n: int, r: int)
    requires n >= 0 && r != 0
    ensures if r > 0 then 0 <= n / r <= n else -n <= n / r <= 0
    ensures r != -1 && r != 1 && n > 0 ==> -n < n / r < n
  {
    var q, m := n / r, n % r;
    assert n == q * r + m && 0 <= m;
    if r > 0 {
      if q < 0 { AtLeastOnce(-q, r); assert false; }
      if q > 0 { SmallerFactor(q, r); }
    } else {
      if q > 0 { AtLeastOnce(q, -r); assert false; }
      if q < 0 { SmallerFactor(-q, -r); }
    }
  }

  lemma SmallerFactor(q: int, r: int)
    requires q > 0 && r > 0
    ensures q <= q * r && (r > 1 ==> q < q * r)
  {
  }

  // ----- comparisons and logic -----

  /** Of two values exactly one of less, equal and greater gives 1, the one that their difference
      calls for, and the others 0; the three other comparisons follow. */
  lemma OneTotalOrder(v: int, r: int)
    ensures var lt, eq, gt := ApplyBin(Lt, v, r), ApplyBin(Eq, v, r), ApplyBin(Gt, v, r);
            && (r - v > 0 ==> lt == Some(1) && eq == Some(0) && gt == Some(0))
            && (r - v == 0 ==> lt == Some(0) && eq == Some(1) && gt == Some(0))
            && (r - v < 0 ==> lt == Some(0) && eq == Some(0) && gt == Some(1))
            && ApplyBin(Le, v, r) == Some(lt.value + eq.value) && ApplyBin(Ge, v, r) == Some(gt.value + eq.value)
            && ApplyBin(Ne, v, r) == Some(lt.value + gt.value)
  {
  }

  /** `&&` and `||` on the truth of their operands, and `!`. */
  lemma TruthTables(v: int, r: int)
    ensures ApplyBin(LogAnd, v, r) == Some(if v == 0 then 0 else if r == 0 then 0 else 1)
    ensures ApplyBin(LogOr, v, r) == Some(if v != 0 then 1 else if r != 0 then 1 else 0)
    ensures ApplyUn(Not, v) == if v == 0 then 1 else 0
    ensures ApplyUn(Not, ApplyUn(Not, v)) == ApplyBin(Ne, v, 0).value
  {
  }

  // ----- signs -----

  /** Minus and complement undo themselves; a value and its minus sum to 0, and a value and its
      complement to -1. */
  lemma Involutions(v: int)
    requires Is64(v)
    ensures ApplyUn(Neg, ApplyUn(Neg, v)) == v && ApplyBin(Add, v, ApplyUn(Neg, v)) == Some(0)
    ensures ApplyUn(Compl, ApplyUn(Compl, v)) == v && ApplyBin(Add, v, ApplyUn(Compl, v)) == Some(-1)
    ensures ApplyUn(Pos, v) == v && Is64(ApplyUn(Neg, v)) && Is64(ApplyUn(Compl, v))
  {
    var n := Wrap(-v);
    WrapIs(-v);
    WrapsTo(-v - 1, -v - 1);
    WrapsTo(-(-v - 1) - 1, v);
    WrapsTo(-1, -1);
    hide Wrap;
    Reversed(-v - n);
    assert -n - v == -v - n && v + n - 0 == -(-v - n);
    WrapsTo(-n, v);
    WrapsTo(v + n, 0);
  }

  // ----- shifts -----

  /** Only the low 6 bits of the count matter; to the left is multiplication modulo 2^64, to the right
      division toward minus infinity. */
  lemma Shifts(v: int, r: int)
    ensures var k := r % 64;
            && ApplyBin(Shl, v, r) == ApplyBin(Shl, v, k) && ApplyBin(Shr, v, r) == ApplyBin(Shr, v, k)
            && Wraps(v * Pow2(k), ApplyBin(Shl, v, r).value)
            && var q := ApplyBin(Shr, v, r).value; q * Pow2(k) <= v < (q + 1) * Pow2(k)
  {
    var k := r % 64;
    assert k % 64 == k;
    WrapIs(v * Pow2(k));
    hide Wrap;
    var p := Pow2(k);
    assert v == (v / p) * p + v % p;
    assert (v / p + 1) * p == (v / p) * p + p;
  }

  // ----- bits -----

  /** Bit `i` of a value in two's complement. */
  function Bit(v: int, i: nat): int {
    v / Pow2(i) % 2
  }

  lemma BitNext(v: int, i: nat)
    ensures Bit(v, i + 1) == Bit(v / 2, i)
  {
    var p, a := Pow2(i), v / 2;
    var q, s := a / p, a % p;
    assert a == q * p + s && v == 2 * a + v % 2;
    assert v == q * (2 * p) + (2 * s + v % 2) by { assert q * (2 * p) == 2 * (q * p); }
    DivUnique(v, 2 * p, q, 2 * s + v % 2);
  }

  /** Multiples of 2^64 do not touch the low 64 bits. */
  lemma BitOfSum(x: int, k: int, i: nat)
    requires i < 64
    ensures Bit(x + k * 0x1_0000_0000_0000_0000, i) == Bit(x, i)
  {
    Pow2Values();
    Pow2Add(i, 64 - i);
    var p, h := Pow2(i), Pow2(63 - i);
    assert Pow2(64 - i) == 2 * h;
    hide Pow2;
    assert 0x1_0000_0000_0000_0000 == p * (2 * h);
    BitShift(x, k, p, h);
  }

  lemma BitShift(x: int, k: int, p: int, h: int)
    requires p > 0
    ensures (x + k * (p * (2 * h))) / p % 2 == x / p % 2
  {
    var q, s := x / p, x % p;
    Regroup(k, p, h);
    assert x + k * (p * (2 * h)) == (q + 2 * (k * h)) * p + s by {
      assert (q + 2 * (k * h)) * p == q * p + 2 * (k * h) * p;
    }
    DivUnique(x + k * (p * (2 * h)), p, q + 2 * (k * h), s);
    EvenMore(q, k * h);
  }

  lemma Regroup(k: int, p: int, h: int)
    ensures k * (p * (2 * h)) == 2 * (k * h) * p
  {
  }

  lemma EvenMore(q: int, m: int)
    ensures (q + 2 * m) % 2 == q % 2
  {
  }

  lemma BitOfWrap(x: int, i: nat)
    requires i < 64
    ensures Bit(Wrap(x), i) == Bit(x, i)
  {
    WrapIs(x);
    var r := Wrap(x);
    var k := (x - r) / 0x1_0000_0000_0000_0000;
    assert x == r + k * 0x1_0000_0000_0000_0000;
    BitOfSum(r, k, i);
  }

  lemma {:induction false} BitOfBitwise(f: (bool, bool) -> bool, n: nat, x: int, y: int, i: nat)
    requires i < n
    ensures Bit(Bitwise(f, n, x, y), i) == if f(Bit(x, i) == 1, Bit(y, i) == 1) then 1 else 0
    decreases n
  {
    var r := Bitwise(f, n, x, y);
    var rest := Bitwise(f, n - 1, x / 2, y / 2);
    if i == 0 {
      assert Pow2(0) == 1;
      EvenMore(if f(x % 2 == 1, y % 2 == 1) then 1 else 0, rest);
    } else {
      BitOfBitwise(f, n - 1, x / 2, y / 2, i - 1);
      BitNext(r, i - 1);
      BitNext(x, i - 1);
      BitNext(y, i - 1);
      assert r / 2 == rest;
    }
  }

  /** The bit operations work bit by bit: the product of two bits, the larger one, and their sum modulo
      2; the complement turns every bit round. */
  lemma BitByBit(v: int, r: int, i: nat)
    requires i < 64
    ensures var x, y := Bit(v, i), Bit(r, i);
            && Bit(ApplyBin(BitAnd, v, r).value, i) == x * y
            && Bit(ApplyBin(BitOr, v, r).value, i) == (if x > y then x else y)
            && Bit(ApplyBin(BitXor, v, r).value, i) == (x + y) % 2
            && Bit(ApplyUn(Compl, v), i) == 1 - x
  {
    hide Bit, Wrap, Bitwise;
    BitOfResult(Both, v, r, i);
    BitOfResult(Either, v, r, i);
    BitOfResult(Differ, v, r, i);
    BitOfWrap(-v - 1, i);
    BitOfCompl(v, i);
    BitRange(v, i);
    BitRange(r, i);
  }

  lemma BitRange(v: int, i: nat)
    ensures Bit(v, i) == 0 || Bit(v, i) == 1
  {
  }

  lemma BitOfResult(f: (bool, bool) -> bool, v: int, r: int, i: nat)
    requires i < 64
    ensures Bit(Wrap(Bitwise(f, 64, v, r)), i) == if f(Bit(v, i) == 1, Bit(r, i) == 1) then 1 else 0
  {
    hide Bit, Wrap;
    BitOfBitwise(f, 64, v, r, i);
    BitOfWrap(Bitwise(f, 64, v, r), i);
  }

  lemma BitOfCompl(v: int, i: nat)
    ensures Bit(-v - 1, i) == 1 - Bit(v, i)
  {
    var p := Pow2(i);
    var q, s := v / p, v % p;
    assert -v - 1 == (-q - 1) * p + (p - 1 - s) by { assert (-q - 1) * p == -(q * p) - p; }
    DivUnique(-v - 1, p, -q - 1, p - 1 - s);
  }
}
