/** Powers of two, and numbers held in words of 32 bits, least significant first. */
module Binary {
  import opened Alignment


  type Word = w: int | 0 <= w < 0x1_0000_0000

  function Pow2(k: nat): (r: nat)
    ensures r > 0
  {
    if k == 0 then 1 else 2 * Pow2(k - 1)
  }

  lemma {:induction false} PowerIsOne(k: nat)
    ensures IsPowerOfTwo(Pow2(k))
  {
    if k > 0 { PowerIsOne(k - 1); }
  }

  lemma {:induction false} ExponentOf(a: nat) returns (k: nat)
    requires IsPowerOfTwo(a)
    ensures a == Pow2(k)
  {
    k := 0;
    if a > 1 {
      k := ExponentOf(a / 2);
      k := k + 1;
    }
  }

  /** The alignments that count as powers of two are the powers of two. */
  lemma PowersOfTwo(a: nat)
    ensures IsPowerOfTwo(a) <==> exists k: nat :: a == Pow2(k)
  {
    hide IsPowerOfTwo, Pow2;
    if k: nat :| a == Pow2(k) { PowerIsOne(k); }
    if IsPowerOfTwo(a) {
      var k := ExponentOf(a);
      assert a == Pow2(k);
    }
  }

  lemma {:induction false} Pow2Add(a: nat, b: nat)
    ensures Pow2(a + b) == Pow2(a) * Pow2(b)
  {
    if b == 0 {
      assert a + b == a;
    } else {
      Pow2Add(a, b - 1);
      assert a + b - 1 == a + (b - 1);
      assert Pow2(a + b) == 2 * Pow2(a + b - 1);
      Swap3(2, Pow2(a), Pow2(b - 1));
    }
  }

  lemma Swap3(x: int, y: int, z: int)
    ensures x * (y * z) == y * (x * z)
  {
  }

  lemma Pow2Values()
    ensures Pow2(1) == 2 && Pow2(2) == 4 && Pow2(32) == 0x1_0000_0000
    ensures Pow2(63) == 0x8000_0000_0000_0000 && Pow2(64) == 0x1_0000_0000_0000_0000
  {
    assert Pow2(8) == 256;
    Pow2Add(8, 8);
    Pow2Add(16, 16);
    Pow2Add(32, 32);
  }

  lemma {:induction false} Pow2Monotone(a: nat, b: nat)
    requires a <= b
    ensures Pow2(a) <= Pow2(b)
  {
    if a < b { Pow2Monotone(a, b - 1); }
  }

  lemma DivDiv(n: nat, a: nat, b: nat)
    requires a > 0 && b > 0
    ensures a * b > 0 && n / (a * b) == n / a / b
  {
    var q := n / a;
    var r := q % b * a + n % a;
    assert q % b * a <= (b - 1) * a by { MulOrder(q % b, b - 1, a); }
    assert r < b * a;
    assert n == q / b * (a * b) + r by {
      assert n == q * a + n % a;
      assert q * a == (q / b * b + q % b) * a;
      assert (q / b * b) * a == q / b * (a * b);
    }
    DivUnique(n, a * b, q / b, r);
  }

  lemma MulOrder(x: int, y: int, z: int)
    requires x <= y && z >= 0
    ensures x * z <= y * z
  {
  }

  lemma AddMultiple(x: nat, k: nat, a: nat)
    requires a > 0
    ensures (x + k * a) / a == x / a + k && (x + k * a) % a == x % a
  {
    assert x + k * a == (x / a + k) * a + x % a;
    DivUnique(x + k * a, a, x / a + k, x % a);
  }

  // ----- words -----

  function Val(w: seq<Word>): nat {
    if w == [] then 0 else w[0] + Up(Val(w[1..]))
  }

  /** A product, by name: the lemmas on words treat it as a unit. */
  function Times(x: int, y: int): int {
    x * y
  }

  /** A number moved up by one word, and the two words of a 64-bit number. */
  function Up(x: int): int {
    0x1_0000_0000 * x
  }

  function Lo(t: int): Word {
    t % 0x1_0000_0000
  }

  function Hi(t: int): int {
    t / 0x1_0000_0000
  }

  lemma TimesScale(p: int, v: int)
    ensures Times(Up(p), v) == Up(Times(p, v))
  {
  }

  lemma {:induction false} ValJoin(a: seq<Word>, b: seq<Word>)
    ensures Val(a + b) == Val(a) + Times(Pow2(32 * |a|), Val(b))
  {
    if a == [] {
      assert a + b == b;
    } else {
      var p, v := Pow2(32 * (|a| - 1)), Val(b);
      ValJoin(a[1..], b);
      assert (a + b)[1..] == a[1..] + b;
      WordUp(|a| - 1);
      TimesScale(p, v);
      assert Val(a + b) == a[0] + Up(Val(a[1..] + b));
      hide Times, Pow2;
    }
  }

  /** One word is worth a factor of 2^32. */
  lemma WordUp(k: nat)
    ensures Pow2(32 * (k + 1)) == Up(Pow2(32 * k))
  {
    Pow2Values();
    Pow2Add(32, 32 * k);
    assert 32 * (k + 1) == 32 + 32 * k;
  }

  lemma {:induction false} ValBound(w: seq<Word>)
    ensures Val(w) < Pow2(32 * |w|)
  {
    if w != [] {
      ValBound(w[1..]);
      WordUp(|w| - 1);
    }
  }

  /** One more word on top. */
  lemma ValSnoc(w: seq<Word>, x: Word)
    ensures Val(w + [x]) == Val(w) + Times(Pow2(32 * |w|), x)
  {
    hide Times, Pow2;
    ValJoin(w, [x]);
    assert Val([x]) == x;
  }

  lemma {:induction false} ValZeros(w: seq<Word>)
    requires forall i | 0 <= i < |w| :: w[i] == 0
    ensures Val(w) == 0
  {
    if w != [] { ValZeros(w[1..]); }
  }

  /** A bit of a number is a bit of one of its words. */
  lemma {:induction false} BitOfWord(w: seq<Word>, b: nat)
    requires b < 32 * |w|
    ensures Val(w) / Pow2(b) % 2 == w[b / 32] / Pow2(b % 32) % 2
  {
    var rest := Val(w[1..]);
    assert Val(w) == w[0] + 0x1_0000_0000 * rest;
    hide Val, Pow2;
    if b < 32 {
      LowBit(w[0], rest, b);
    } else {
      HighBits(w[0], rest, b);
      BitOfWord(w[1..], b - 32);
      assert w[1..][(b - 32) / 32] == w[b / 32];
    }
  }

  lemma LowBit(x: Word, rest: nat, b: nat)
    requires b < 32
    ensures (x + 0x1_0000_0000 * rest) / Pow2(b) % 2 == x / Pow2(b) % 2
  {
    Pow2Values();
    Pow2Add(b, 32 - b);
    assert Pow2(32 - b) == 2 * Pow2(31 - b);
    hide Pow2;
    LowBitArith(x, rest, 0x1_0000_0000, Pow2(b), Pow2(31 - b));
  }

  lemma LowBitArith(x: nat, rest: nat, base: nat, p: nat, h: nat)
    requires p > 0 && base == p * (2 * h)
    ensures (x + base * rest) / p % 2 == x / p % 2
  {
    var k, n := h * rest, base * rest;
    Rearranged(p, h, rest);
    assert n == 2 * k * p;
    AddMultiple(x, 2 * k, p);
    TwoMore(x / p, k);
  }

  lemma Rearranged(p: int, h: int, x: int)
    ensures p * (2 * h) * x == 2 * (h * x) * p
  {
  }

  lemma TwoMore(y: int, k: int)
    ensures (y + 2 * k) % 2 == y % 2
  {
  }

  lemma HighBits(x: Word, rest: nat, b: nat)
    requires b >= 32
    ensures (x + 0x1_0000_0000 * rest) / Pow2(b) == rest / Pow2(b - 32)
  {
    hide Pow2;
    Pow2Values();
    Pow2Add(32, b - 32);
    DivDiv(x + 0x1_0000_0000 * rest, 0x1_0000_0000, Pow2(b - 32));
    AddMultiple(x, rest, 0x1_0000_0000);
    assert x / 0x1_0000_0000 == 0;
  }

  /** Bits beyond the words are zero. */
  lemma BitBeyond(w: seq<Word>, b: nat)
    requires b >= 32 * |w|
    ensures Val(w) / Pow2(b) == 0
  {
    hide Pow2, Val;
    ValBound(w);
    Pow2Monotone(32 * |w|, b);
    DivUnique(Val(w), Pow2(b), 0, Val(w));
  }
}
