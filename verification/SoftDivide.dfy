/** 64-bit division by shifting and subtracting (src/udivdi3.c). */
module SoftDivide {
  import opened Alignment
  import opened Binary

  type U64 = x: int | 0 <= x < 0x1_0000_0000_0000_0000
  type I64 = x: int | -0x8000_0000_0000_0000 <= x < 0x8000_0000_0000_0000 witness 0

  function WrapU(x: int): U64 {
    x % 0x1_0000_0000_0000_0000
  }

  /** The signed reading of 64 bits. */
  function Signed(x: U64): I64 {
    if x >= 0x8000_0000_0000_0000 then x - 0x1_0000_0000_0000_0000 else x
  }

  function WrapI(x: int): (r: I64)
    ensures -0x8000_0000_0000_0000 <= x < 0x8000_0000_0000_0000 ==> r == x
  {
    Signed(WrapU(x))
  }

  /** Setting bit `k`. */
  function OrBit(q: nat, k: nat): nat {
    if q / Pow2(k) % 2 == 1 then q else q + Pow2(k)
  }

  /** A divisor times a power of two that fits in 64 bits has fewer than 64 shifts behind it. */
  lemma ShiftsBound(d: U64, k: nat, b: U64)
    requires d > 0 && Times(d, Pow2(k)) == b
    ensures k < 64
  {
    if k >= 64 {
      Pow2Values();
      Pow2Monotone(64, k);
      MulOrder(1, d, Pow2(k));
    }
  }

  lemma ShiftUp(d: int, k: nat)
    ensures Times(d, Pow2(k + 1)) == 2 * Times(d, Pow2(k))
  {
    Swap3(d, 2, Pow2(k));
  }

  /** `q` has only bits above bit `k`, so bit `k` is clear and can be set. */
  lemma BitIsClear(q: nat, k: nat, h: nat)
    requires q == Times(h, Pow2(k + 1))
    ensures OrBit(q, k) == q + Pow2(k) == Times(2 * h + 1, Pow2(k)) && q == Times(2 * h, Pow2(k))
  {
    var p := Pow2(k);
    assert Pow2(k + 1) == 2 * p;
    hide Pow2;
    assert q == (2 * h) * p by { Swap3(h, 2, p); }
    AddMultiple(0, 2 * h, p);
    assert (2 * h + 1) * p == (2 * h) * p + p;
  }

  /** Subtracting the divisor once, at bit `k`. */
  lemma Subtract(a: int, q: nat, d: nat, k: nat, b: nat, r: int)
    requires a == Times(q, d) + r && b == Times(d, Pow2(k))
    ensures a == Times(q + Pow2(k), d) + (r - b)
  {
    var p := Pow2(k);
    hide Pow2;
    assert (q + p) * d == q * d + d * p;
  }

  method UDivide(a: U64, b0: U64) returns (q: U64)
    ensures b0 == 0 ==> q == 0
    ensures b0 != 0 ==> q == a / b0
  {
    if b0 == 0 { return 0; }
    var b: U64 := b0;
    var r, shift := a, 0;
    assert Times(b0, Pow2(0)) == b0;
    hide Times, Pow2, OrBit;
    while b < r && b < 0x8000_0000_0000_0000
      invariant shift >= 0 && b == Times(b0, Pow2(shift)) && r == a && b > 0
      decreases r - b
    {
      ShiftUp(b0, shift);
      assert WrapU(2 * b) == 2 * b;
      b := WrapU(2 * b);
      shift := shift + 1;
    }
    q := Subtractions(a, b0, b, shift);
  }

  /** The second loop: from the highest bit down, with a below twice the shifted divisor. */
  method Subtractions(a: U64, b0: U64, top: U64, high: nat) returns (q: U64)
    requires b0 > 0 && top == Times(b0, Pow2(high)) && a < 2 * top
    ensures q == a / b0
  {
    ShiftUp(b0, high);
    ghost var h := 0;
    assert Times(0, b0) == 0 && Times(0, Pow2(high + 1)) == 0;
    hide Times, Pow2, OrBit;
    var b, r, shift := top, a, high as int;
    q := 0;
    while shift >= 0
      invariant -1 <= shift && h >= 0 && r >= 0 && 0 <= q <= a
      invariant a == Times(q, b0) + r
      invariant q == Times(h, Pow2(shift + 1))
      invariant r < Times(b0, Pow2(shift + 1))
      invariant shift >= 0 ==> b == Times(b0, Pow2(shift))
    {
      ShiftsBound(b0, shift, b);
      BitIsClear(q, shift, h);
      ShiftUp(b0, shift);
      if r >= b {
        Subtract(a, q, b0, shift, b, r);
        r := r - b;
        BelowProduct(OrBit(q, shift), b0, a, r);
        q := OrBit(q, shift);
        h := 2 * h + 1;
      } else {
        h := 2 * h;
      }
      if shift > 0 { ShiftUp(b0, shift - 1); }
      b := b / 2;
      shift := shift - 1;
    }
    Finished(a, q, b0, r);
  }

  lemma BelowProduct(q: nat, d: nat, a: nat, r: nat)
    requires d > 0 && a == Times(q, d) + r
    ensures q <= a
  {
    MulOrder(1, d, q);
  }

  lemma Finished(a: nat, q: nat, d: nat, r: nat)
    requires d > 0 && a == Times(q, d) + r && r < Times(d, Pow2(0))
    ensures q == a / d
  {
    DivUnique(a, d, q, r);
  }

  method UModulo(a: U64, b: U64) returns (r: U64)
    ensures b == 0 ==> r == 0
    ensures b != 0 ==> r == a % b
  {
    if b == 0 { return 0; }
    hide Times;
    var q := UDivide(a, b);
    RemainderIs(a, b, q);
    r := WrapU(a - Times(q, b));
  }

  lemma RemainderIs(a: nat, b: nat, q: int)
    requires b > 0 && q == a / b
    ensures a - Times(q, b) == a % b && 0 <= a % b < b
  {
    assert a == b * (a / b) + a % b;
  }

  // ----- signed -----

  /** `q` and `r` are quotient and remainder of a division that rounds towards zero. */
  ghost predicate Truncates(a: int, b: int, q: int, r: int) {
    && a == q * b + r
    && (if b > 0 then -b < r < b else b < r < -b)
    && (r != 0 ==> (r < 0 <==> a < 0))
  }

  function Magnitude(a: I64): U64 {
    if a < 0 then WrapU(WrapU(-(a + 1)) + 1) else a
  }

  lemma MagnitudeIs(a: I64)
    ensures Magnitude(a) == if a < 0 then -(a as int) else a
  {
  }

  lemma SignProduct(q: int, b: int)
    ensures (-q) * b == -(q * b) && q * (-b) == -(q * b)
  {
  }

  lemma SignedQuotient(a: int, b: int, ua: nat, ub: nat, q: int)
    requires b != 0 && ua == (if a < 0 then -a else a) && ub == (if b < 0 then -b else b) && q == ua / ub
    ensures 0 <= q <= ua && (ub >= 2 ==> 2 * q <= ua)
    ensures var s := if (a < 0) != (b < 0) then -q else q; Truncates(a, b, s, a - s * b)
  {
    QuotientBound(ua, ub, q);
    SignProduct(q, b);
  }

  lemma QuotientBound(ua: nat, ub: nat, q: int)
    requires ub > 0 && q == ua / ub
    ensures 0 <= q <= ua && (ub >= 2 ==> 2 * q <= ua) && 0 <= ua - q * ub < ub
  {
    MulOrder(1, ub, q);
    if ub >= 2 { MulOrder(2, ub, q); }
  }

  /** The truncated quotient, except that MIN / -1 is MIN again and a zero divisor gives zero. */
  method Divide(a: I64, b: I64) returns (r: I64)
    ensures b == 0 ==> r == 0
    ensures b != 0 ==> (Truncates(a, b, r, a - r * b) <==> !(a == -0x8000_0000_0000_0000 && b == -1))
    ensures a == -0x8000_0000_0000_0000 && b == -1 ==> r == a
  {
    var neg := (a < 0) != (b < 0);
    var ua, ub := Magnitude(a), Magnitude(b);
    MagnitudeIs(a);
    MagnitudeIs(b);
    var q := UDivide(ua, ub);
    if b != 0 { SignedQuotient(a, b, ua, ub, q); }
    hide Truncates;
    r := if neg then WrapI(-(Signed(q) as int)) else Signed(q);
    if a == -0x8000_0000_0000_0000 && b == -1 { NoQuotient(); }
  }

  lemma NoQuotient()
    ensures !Truncates(-0x8000_0000_0000_0000, -1, -0x8000_0000_0000_0000, 0 - 0x1_0000_0000_0000_0000)
  {
  }

  /** The remainder that belongs to the truncated quotient, for every non-zero divisor. */
  method Modulo(a: I64, b: I64) returns (r: I64)
    ensures b == 0 ==> r == a
    ensures b != 0 ==> exists q :: Truncates(a, b, q, r)
  {
    var q := Divide(a, b);
    var p := q * b;
    if b != 0 && !(a == -0x8000_0000_0000_0000 && b == -1) {
      assert Truncates(a, b, q, a - p);
    }
    r := WrapI(a - p);
    if a == -0x8000_0000_0000_0000 && b == -1 {
      assert Truncates(a, b, 0x8000_0000_0000_0000, r);
    }
  }
}
