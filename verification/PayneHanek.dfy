/** Argument reduction modulo pi/2 in exact integer arithmetic (src/math.c).

    A finite double is `m * 2^e`.  With `q` the first 1280 bits of 2/pi, the product `m * q`
    has its binary point below bit `s = 1280 - e`; the bits above it give the quadrant and
    those below it the remainder. */
module PayneHanek {
  import opened Alignment
  import opened Binary

  const WORDS: nat := 40

  /** `x` scaled by a power of two, rounded down; `pos < 0` scales up. */
  function Scaled(x: nat, pos: int): int {
    if pos >= 0 then x / Pow2(pos) else x * Pow2(-pos)
  }

  lemma ScaledStep(x: nat, pos: int)
    ensures pos >= 0 ==> Scaled(x, pos) == 2 * Scaled(x, pos + 1) + x / Pow2(pos) % 2
    ensures pos < 0 ==> Scaled(x, pos) == 2 * Scaled(x, pos + 1)
  {
    if pos >= 0 {
      DivDiv(x, Pow2(pos), 2);
      assert Pow2(pos + 1) == Pow2(pos) * 2;
    } else if pos == -1 {
      assert Pow2(1) == 2 && Pow2(0) == 1;
    } else {
      assert Pow2(-pos) == 2 * Pow2(-pos - 1);
      Swap3(x, 2, Pow2(-pos - 1));
    }
  }

  /** `count` bits from bit `pos` on; bits outside the array read as zero. */
  method BitsLe(w: array<Word>, n: nat, pos: int, count: nat) returns (v: nat)
    requires n <= w.Length && count <= 64
    ensures v == Scaled(Val(w[..n]), pos) % Pow2(count) < 0x1_0000_0000_0000_0000
  {
    ghost var x := Val(w[..n]);
    v := 0;
    var i := count;
    assert Scaled(x, pos + count) % 1 == 0;
    while i > 0
      invariant 0 <= i <= count
      invariant v == Scaled(x, pos + i) % Pow2(count - i)
    {
      i := i - 1;
      var b := pos + i;
      ScaledStep(x, b);
      ghost var below := v;
      v := 2 * v;
      if 0 <= b < 32 * n {
        BitOfWord(w[..n], b);
        v := v + w[b / 32] / Pow2(b % 32) % 2;
      } else if b >= 32 * n {
        BitBeyond(w[..n], b);
      }
      DoubledMod(Scaled(x, b + 1), v - 2 * below, Pow2(count - i - 1));
    }
    Pow2Monotone(count, 64);
    Pow2Values();
  }

  lemma DoubledMod(y: int, bit: nat, p: nat)
    requires p > 0 && bit < 2
    ensures (2 * y + bit) % (2 * p) == 2 * (y % p) + bit
  {
    assert 2 * y + bit == y / p * (2 * p) + (2 * (y % p) + bit);
    DivUnique(2 * y + bit, 2 * p, y / p, 2 * (y % p) + bit);
  }

  // ----- the product -----

  /** One step of long multiplication: the low word stays, the high word carries. */
  lemma CarryStep(t: nat)
    requires t < 0x1_0000_0000_0000_0000
    ensures 0 <= Hi(t) < 0x1_0000_0000
  {
  }

  lemma WordProduct(x: Word, y: Word, r: Word, carry: Word)
    ensures 0 <= Times(x, y) + r + carry < 0x1_0000_0000_0000_0000
  {
    MulOrder(x, 0xffff_ffff, y);
    MulOrder(0, x, y);
  }

  /** `q` is given most significant word first. */
  function Reversed(q: seq<Word>): (r: seq<Word>)
    ensures |r| == |q|
    ensures forall i | 0 <= i < |q| :: r[i] == q[|q| - 1 - i]
  {
    seq(|q|, i requires 0 <= i < |q| => q[|q| - 1 - i])
  }

  /** The exact product of a 53-bit number with the table, word by word; every intermediate
      value fits in 64 bits. */
  method Multiply(q: seq<Word>, m: nat) returns (R: array<Word>)
    requires |q| == WORDS && m < 0x1_0000_0000_0000_0000
    ensures fresh(R) && R.Length == WORDS + 3
    ensures Val(R[..]) == m * Val(Reversed(q))
  {
    hide Val;
    R := new Word[WORDS + 3](_ => 0);
    var m0, m1 := m % 0x1_0000_0000, m / 0x1_0000_0000;
    LowRow(R, q, m0);
    ghost var low := R[..];
    HighRow(R, q, m1);
    assert m == m1 * 0x1_0000_0000 + m0;
    var v := Val(Reversed(q));
    assert m * v == m0 * v + 0x1_0000_0000 * (m1 * v);
  }

  /** R := m0 * q. */
  method LowRow(R: array<Word>, q: seq<Word>, m0: Word)
    requires |q| == WORDS && R.Length == WORDS + 3
    requires forall i | 0 <= i < R.Length :: R[i] == 0
    modifies R
    ensures Val(R[..]) == Times(m0, Val(Reversed(q)))
    ensures R[WORDS + 1] == 0 && R[WORDS + 2] == 0
  {
    ghost var r := Reversed(q);
    var carry := 0;
    var i := 0;
    assert Val([]) == 0 && Times(m0, 0) == 0 && Times(Pow2(0), 0) == 0;
    hide Val, Pow2, Times, Up, Lo, Hi;
    assert R[..0] == [] && r[..0] == [];
    while i < WORDS
      invariant 0 <= i <= WORDS && 0 <= carry < 0x1_0000_0000
      invariant Val(R[..i]) + Times(Pow2(32 * i), carry) == Times(m0, Val(r[..i]))
      invariant forall j | i <= j < R.Length :: R[j] == 0
    {
      WordProduct(m0, q[WORDS - 1 - i], 0, carry);
      var t := Times(m0, q[WORDS - 1 - i]) + carry;
      CarryStep(t);
      RowStep(R[..i], r[..i], m0, r[i], carry, t);
      R[i] := Lo(t);
      carry := Hi(t);
      assert R[..i + 1] == R[..i] + [Lo(t)] && r[..i + 1] == r[..i] + [r[i]];
      i := i + 1;
    }
    R[WORDS] := carry;
    assert r[..WORDS] == r;
    Finish(R[..], WORDS);
  }

  /** The words done so far and the carry hold `low` plus the product, moved up by a word. */
  ghost predicate HighSum(done: seq<Word>, low: seq<Word>, r: seq<Word>, m: Word, carry: int) {
    && |done| == |low| == |r| + 1 && 0 <= carry < 0x1_0000_0000
    && Val(done) + Times(Pow2(32 * |done|), carry) == Val(low) + Up(Times(m, Val(r)))
  }

  /** R := R + 2^32 * m1 * q. */
  method HighRow(R: array<Word>, q: seq<Word>, m1: Word)
    requires |q| == WORDS && R.Length == WORDS + 3
    requires R[WORDS + 1] == 0 && R[WORDS + 2] == 0
    modifies R
    ensures Val(R[..]) == old(Val(R[..])) + Up(Times(m1, Val(Reversed(q))))
  {
    ghost var r := Reversed(q);
    ghost var low := R[..];
    var carry := 0;
    var i := 1;
    assert HighSum(R[..1], low[..1], r[..0], m1, 0) by {
      assert R[..1] == low[..1] && r[..0] == [];
    }
    hide HighSum, Val, Times, Up, Lo, Hi;
    while i <= WORDS
      invariant 1 <= i <= WORDS + 1 && 0 <= carry < 0x1_0000_0000
      invariant HighSum(R[..i], low[..i], r[..i - 1], m1, carry)
      invariant forall j | i <= j < R.Length :: R[j] == low[j]
    {
      WordProduct(m1, q[WORDS - i], R[i], carry);
      var t := Times(m1, q[WORDS - i]) + R[i] + carry;
      CarryStep(t);
      HighStep(R[..i], low[..i], r[..i - 1], m1, r[i - 1], low[i], carry, t);
      R[i] := Lo(t);
      carry := Hi(t);
      assert R[..i + 1] == R[..i] + [Lo(t)] && r[..i] == r[..i - 1] + [r[i - 1]];
      assert low[..i + 1] == low[..i] + [low[i]];
      i := i + 1;
    }
    R[WORDS + 1] := carry;
    assert r[..WORDS] == r && R[..][..WORDS + 1] == R[..WORDS + 1];
    HighDone(R[..], low, r, m1, carry);
  }

  lemma {:induction false} HighDone(w: seq<Word>, low: seq<Word>, r: seq<Word>, m: Word, carry: Word)
    requires |w| == |low| == WORDS + 3 && |r| == WORDS
    requires HighSum(w[..WORDS + 1], low[..WORDS + 1], r, m, carry)
    requires w[WORDS + 1] == carry && w[WORDS + 2] == 0 && low[WORDS + 1] == 0 && low[WORDS + 2] == 0
    ensures Val(w) == Val(low) + Up(Times(m, Val(r)))
  {
    hide Val, Up;
    Finish(w, WORDS + 1);
    Finish(low, WORDS + 1);
  }

  /** Zero words on top of word `k` do not count. */
  lemma {:induction false} Finish(w: seq<Word>, k: nat)
    requires k < |w| && forall j | k < j < |w| :: w[j] == 0
    ensures Val(w) == Val(w[..k]) + Times(Pow2(32 * k), w[k])
  {
    hide Val, Pow2;
    assert w == w[..k + 1] + w[k + 1..];
    ValJoin(w[..k + 1], w[k + 1..]);
    ValZeros(w[k + 1..]);
    assert w[..k + 1] == w[..k] + [w[k]];
    ValSnoc(w[..k], w[k]);
  }

  lemma SplitProduct(p: nat, up: nat, t: nat)
    requires up == Up(p)
    ensures Times(up, Hi(t)) + Times(p, Lo(t)) == Times(p, t)
  {
    assert 0x1_0000_0000 * p * Hi(t) == p * (0x1_0000_0000 * Hi(t));
    assert t == 0x1_0000_0000 * Hi(t) + Lo(t);
  }

  lemma RowArith(d: nat, p: nat, carry: nat, m: nat, v: nat, x: nat)
    requires d + Times(p, carry) == Times(m, v)
    ensures d + Times(p, Times(m, x) + carry) == Times(m, v + Times(p, x))
  {
    assert p * (m * x + carry) == p * (m * x) + p * carry;
    Swap3(p, m, x);
    assert m * (v + p * x) == m * v + m * (p * x);
  }

  lemma {:induction false} RowStep(done: seq<Word>, r: seq<Word>, m: Word, x: Word, carry: Word, t: nat)
    requires |done| == |r| && t == Times(m, x) + carry
    requires Val(done) + Times(Pow2(32 * |done|), carry) == Times(m, Val(r))
    ensures Val(done + [Lo(t)]) + Times(Pow2(32 * (|done| + 1)), Hi(t)) == Times(m, Val(r + [x]))
  {
    hide Val, Pow2, Times, Up, Lo, Hi;
    var p := Pow2(32 * |done|);
    ValSnoc(done, Lo(t));
    ValSnoc(r, x);
    WordUp(|done|);
    SplitProduct(p, Pow2(32 * (|done| + 1)), t);
    RowArith(Val(done), p, carry, m, Val(r), x);
  }

  lemma HighArith(d: nat, p: nat, b: nat, carry: nat, l: nat, word: nat, m: nat, v: nat, x: nat)
    requires b == Up(p) && d + Times(b, carry) == l + Up(Times(m, v))
    ensures d + Times(b, Times(m, x) + word + carry) == l + Times(b, word) + Up(Times(m, v + Times(p, x)))
  {
    assert b * (m * x + word + carry) == b * (m * x) + b * word + b * carry;
    assert m * (v + p * x) == m * v + m * (p * x);
    Swap3(m, p, x);
    assert b * (m * x) == 0x1_0000_0000 * (p * (m * x));
  }

  lemma {:induction false} HighStep(done: seq<Word>, low: seq<Word>, r: seq<Word>, m: Word, x: Word, word: Word,
                                    carry: Word, t: nat)
    requires HighSum(done, low, r, m, carry) && t == Times(m, x) + word + carry && 0 <= Hi(t) < 0x1_0000_0000
    ensures HighSum(done + [Lo(t)], low + [word], r + [x], m, Hi(t))
  {
    hide Val, Pow2, Times, Up, Lo, Hi;
    var b := Pow2(32 * |done|);
    ValSnoc(done, Lo(t));
    ValSnoc(low, word);
    ValSnoc(r, x);
    WordUp(|done|);
    WordUp(|r|);
    assert 32 * |done| == 32 * (|r| + 1);
    SplitProduct(b, Pow2(32 * (|done| + 1)), t);
    HighArith(Val(done), Pow2(32 * |r|), b, carry, Val(low), word, m, Val(r), x);
  }

  // ----- the reduction -----

  /** A finite double: its sign, biased exponent and fraction. */
  datatype Double = Double(neg: bool, expo: nat, frac: nat) {
    ghost predicate Finite() {
      expo < 2047 && frac < 0x10_0000_0000_0000
    }

    /** |x| is `Mantissa() * 2^Exponent()`. */
    function Mantissa(): nat {
      if expo == 0 then frac else frac + 0x10_0000_0000_0000
    }

    function Exponent(): int {
      if expo == 0 then -1074 else expo - 1075
    }
  }

  /** `n` is the integer nearest to p / 2^s, halves going up. */
  ghost predicate IsNearest(p: nat, s: nat, n: int) {
    (2 * n - 1) * Pow2(s) <= 2 * p < (2 * n + 1) * Pow2(s)
  }

  /** p / 2^s is split: `quad` is its nearest integer `n` modulo 4, and `f` the signed rest in
      units of 2^-64, cut, and at most a half. */
  ghost predicate Cut(p: nat, s: nat, quad: int, f: int, n: int) {
    && s >= 64 && n >= 0 && IsNearest(p, s, n)
    && quad == n % 4
    && -0x8000_0000_0000_0000 <= f < 0x8000_0000_0000_0000
    && f * Pow2(s - 64) <= p - n * Pow2(s) < (f + 1) * Pow2(s - 64)
  }

  /** The same of x * 2/pi for a double x of either sign, `q` being the table. */
  ghost predicate Reduced(q: nat, d: Double, quad: int, fd: int, n: int)
    requires d.Finite()
  {
    && 0 <= quad < 4
    && Cut(d.Mantissa() * q, (1280 - d.Exponent()) as nat,
           (if d.neg then -quad else quad) % 4, if d.neg then -fd else fd, n)
  }

  /** The quotient, the rounding bit and the fraction, all from y = p / u. */
  lemma SplitPoint(p: nat, u: nat, half: nat, one: nat)
    requires u > 0 && half == u * 0x8000_0000_0000_0000 && one == u * 0x1_0000_0000_0000_0000
    ensures p / one == p / u / 0x1_0000_0000_0000_0000
    ensures p / half == p / u / 0x8000_0000_0000_0000
    ensures u * (p / u) <= p < u * (p / u + 1)
  {
    DivDiv(p, u, 0x1_0000_0000_0000_0000);
    DivDiv(p, u, 0x8000_0000_0000_0000);
  }

  lemma HalfBit(y: nat, x: nat, b: nat, f: nat)
    requires x == y / 0x1_0000_0000_0000_0000 && b == y / 0x8000_0000_0000_0000 % 2 && f == y % 0x1_0000_0000_0000_0000
    ensures b <= 1 && y == x * 0x1_0000_0000_0000_0000 + f
    ensures b == 1 <==> f >= 0x8000_0000_0000_0000
  {
    var h, r := y / 0x8000_0000_0000_0000, y % 0x8000_0000_0000_0000;
    TopBit(h, r, y);
    hide *;
    assert b == h % 2 && f == h % 2 * 0x8000_0000_0000_0000 + r;
  }

  /** The halves of a number, taken together two by two. */
  lemma TopBit(h: nat, r: nat, y: nat)
    requires y == h * 0x8000_0000_0000_0000 + r && r < 0x8000_0000_0000_0000
    ensures y / 0x1_0000_0000_0000_0000 == h / 2 && y % 0x1_0000_0000_0000_0000 == h % 2 * 0x8000_0000_0000_0000 + r
  {
    var b := h % 2;
    assert h == 2 * (h / 2) + b;
    assert y == h / 2 * 0x1_0000_0000_0000_0000 + (b * 0x8000_0000_0000_0000 + r);
    DivUnique(y, 0x1_0000_0000_0000_0000, h / 2, b * 0x8000_0000_0000_0000 + r);
  }

  lemma OneIs(u: nat, one: nat, k: int)
    requires one == u * 0x1_0000_0000_0000_0000
    ensures k * one == k * 0x1_0000_0000_0000_0000 * u
  {
  }

  lemma RoundedNearest(p: nat, u: nat, one: nat, y: nat, n: int)
    requires one == u * 0x1_0000_0000_0000_0000 && u * y <= p < u * (y + 1)
    requires (2 * n - 1) * 0x1_0000_0000_0000_0000 <= 2 * y && 2 * (y + 1) <= (2 * n + 1) * 0x1_0000_0000_0000_0000
    ensures (2 * n - 1) * one <= 2 * p < (2 * n + 1) * one
  {
    OneIs(u, one, 2 * n - 1);
    OneIs(u, one, 2 * n + 1);
    MulOrder((2 * n - 1) * 0x1_0000_0000_0000_0000, 2 * y, u);
    MulOrder(2 * (y + 1), (2 * n + 1) * 0x1_0000_0000_0000_0000, u);
  }

  lemma RoundedRest(p: nat, u: nat, one: nat, y: nat, n: int, r: int)
    requires one == u * 0x1_0000_0000_0000_0000 && u * y <= p < u * (y + 1) && y == n * 0x1_0000_0000_0000_0000 + r
    ensures r * u <= p - n * one < (r + 1) * u
  {
    OneIs(u, one, n);
    assert r * u == u * y - n * 0x1_0000_0000_0000_0000 * u;
  }

  lemma Rounded(p: nat, u: nat, one: nat, y: nat, x: nat, b: nat, f: nat)
    requires one == u * 0x1_0000_0000_0000_0000
    requires u * y <= p < u * (y + 1) && y == x * 0x1_0000_0000_0000_0000 + f
    requires 0 <= b <= 1 && (b == 1 <==> f >= 0x8000_0000_0000_0000) && f < 0x1_0000_0000_0000_0000
    ensures (2 * (x + b) - 1) * one <= 2 * p < (2 * (x + b) + 1) * one
    ensures var r := if b == 1 then f - 0x1_0000_0000_0000_0000 else f;
            r * u <= p - (x + b) * one < (r + 1) * u
  {
    RoundedNearest(p, u, one, y, x + b);
    RoundedRest(p, u, one, y, x + b, if b == 1 then f - 0x1_0000_0000_0000_0000 else f);
  }

  lemma ModFour(x: nat, b: nat)
    ensures (x % 4 + b) % 4 == (x + b) % 4
  {
  }

  lemma CutArith(p: nat, u: nat, half: nat, one: nat, y: nat, x: nat, low: nat, b: nat, f: nat)
    requires u > 0 && half == u * 0x8000_0000_0000_0000 && one == u * 0x1_0000_0000_0000_0000
    requires y == p / u && x == p / one
    requires b == p / half % 2 && low == x % 4 && f == y % 0x1_0000_0000_0000_0000
    ensures 0 <= b <= 1
    ensures var n := x + b;
            var r := if b == 1 then f - 0x1_0000_0000_0000_0000 else f;
            && (2 * n - 1) * one <= 2 * p < (2 * n + 1) * one
            && (low + b) % 4 == n % 4
            && -0x8000_0000_0000_0000 <= r < 0x8000_0000_0000_0000
            && r * u <= p - n * one < (r + 1) * u
  {
    SplitPoint(p, u, half, one);
    HalfBit(y, x, b, f);
    ModFour(x, b);
    Rounded(p, u, one, y, x, b, f);
  }

  function Quotient(p: nat, d: nat): nat
    requires d > 0
  {
    p / d
  }

  lemma Recombine(p: nat, s: nat, low: nat, b: nat, f: nat)
    requires s > 64
    requires b == Scaled(p, s - 1) % Pow2(1) && low == Scaled(p, s) % Pow2(2) && f == Scaled(p, s - 64) % Pow2(64)
    ensures b <= 1
    ensures Cut(p, s, (low + b) % 4, if b == 1 then f - 0x1_0000_0000_0000_0000 else f, p / Pow2(s) + b)
  {
    hide Pow2;
    Pow2Values();
    Pow2Add(s - 64, 64);
    Pow2Add(s - 64, 63);
    var u, one := Pow2(s - 64), Pow2(s);
    CutArith(p, u, Pow2(s - 1), one, Quotient(p, u), Quotient(p, one), low, b, f);
  }

  /** The whole reduction, with the table `q`. */
  method Reduce(q: seq<Word>, d: Double) returns (quad: int, fd: int)
    requires |q| == WORDS && d.Finite()
    ensures exists n :: Reduced(Val(Reversed(q)), d, quad, fd, n)
  {
    hide Val, Cut, Scaled, Pow2, Reversed;
    var m, e := d.Mantissa(), d.Exponent();
    var R := Multiply(q, m);
    var s := 1280 - e;
    ghost var p := Val(R[..]);
    assert R[..WORDS + 3] == R[..];
    var roundUp := BitsLe(R, WORDS + 3, s - 1, 1);
    var low := BitsLe(R, WORDS + 3, s, 2);
    quad := (low + roundUp) % 4;
    if d.neg && quad != 0 { quad := 4 - quad; }
    var f := BitsLe(R, WORDS + 3, s - 64, 64);
    fd := f;
    if roundUp == 1 { fd := fd - 0x1_0000_0000_0000_0000; }
    if d.neg { fd := -fd; }
    Recombine(p, s, low, roundUp, f);
    assert Reduced(Val(Reversed(q)), d, quad, fd, p / Pow2(s) + roundUp);
  }

  /** Against any real `t` whose integer part is the table (2/pi scaled by 2^1280), the error is
      below 2^-64 + 2^-256 of a quadrant, whatever the size of the argument. */
  lemma ErrorIndependentOfSize(q: nat, d: Double, quad: int, fd: int, n: int, t: real)
    requires d.Finite() && Reduced(q, d, quad, fd, n)
    requires q as real <= t < q as real + 1.0
    ensures var s := 1280 - d.Exponent();
            var f := if d.neg then -fd else fd;
            0.0 <= d.Mantissa() as real * t - (n * Pow2(s) + f * Pow2(s - 64)) as real
                 < (Pow2(s - 64) + Pow2(s - 256)) as real
  {
    var s, m := 1280 - d.Exponent(), d.Mantissa();
    var f := if d.neg then -fd else fd;
    hide IsNearest, Pow2;
    Pow2Monotone(53, s - 256);
    SmallMantissa();
    ProductCast(m, q);
    RealSlack(m as real, q as real, t, (m * q) as real);
    ErrorBounds(m * q, n * Pow2(s), f, Pow2(s - 64), Pow2(s - 256), m, m as real * t);
  }

  lemma SmallMantissa()
    ensures Pow2(53) == 0x20_0000_0000_0000
  {
    assert Pow2(11) == 2048;
    Pow2Values();
    hide Pow2;
    Pow2Add(53, 11);
  }

  lemma ErrorBounds(p: int, a: int, f: int, u: int, w: int, m: int, t: real)
    requires f * u <= p - a < (f + 1) * u && m <= w && p as real <= t <= p as real + m as real
    ensures 0.0 <= t - (a + f * u) as real < (u + w) as real
  {
    assert (f + 1) * u == f * u + u;
  }

  lemma ProductCast(m: nat, q: nat)
    ensures m as real * q as real == (m * q) as real
  {
  }

  lemma RealSlack(x: real, y: real, t: real, p: real)
    requires x >= 0.0 && y <= t <= y + 1.0 && p == x * y
    ensures p <= x * t <= p + x
  {
    var lo, hi := t - y, y + 1.0 - t;
    assert x * lo >= 0.0 && x * hi >= 0.0;
    assert x * lo == x * t - x * y;
    assert x * hi == x * y + x - x * t;
  }
}
