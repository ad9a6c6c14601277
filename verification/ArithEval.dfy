/** The evaluator as src/wordexp.c runs it: a cursor and an error flag, moved by methods
    that call each other. */
module ArithEval {
  import opened Common
  import opened ArithSyntax
  import opened ArithParser

  /** A digit at a time in 64 bits is the whole number in 64 bits. */
  lemma WrapStep(x: int, base: int, d: int)
    ensures Wrap(Wrap(x) * base + d) == Wrap(x * base + d)
  {
    var k := (x + 0x8000_0000_0000_0000) / 0x1_0000_0000_0000_0000;
    assert Wrap(x) == x - k * 0x1_0000_0000_0000_0000;
    WrapShift(x * base + d, -k * base);
    assert (x - k * 0x1_0000_0000_0000_0000) * base == x * base + (-k * base) * 0x1_0000_0000_0000_0000;
  }

  lemma WrapShift(x: int, k: int)
    ensures Wrap(x + k * 0x1_0000_0000_0000_0000) == Wrap(x)
  {
    ModShift(x + 0x8000_0000_0000_0000, k);
  }

  lemma ModShift(y: int, k: int)
    ensures (y + k * 0x1_0000_0000_0000_0000) % 0x1_0000_0000_0000_0000 == y % 0x1_0000_0000_0000_0000
  {
    assert y + k * 0x1_0000_0000_0000_0000
        == (y / 0x1_0000_0000_0000_0000 + k) * 0x1_0000_0000_0000_0000 + y % 0x1_0000_0000_0000_0000;
  }

  /** One more digit in 64 bits. */
  function Push(base: int, v: int, c: char): int {
    Wrap(v * base + DigitValue(c))
  }

  /** The number that the digits between two positions of a text spell, in 64 bits. */
  function Spelled(base: int, t: string, a: nat, b: nat): int
    requires a <= b <= |t|
  {
    Wrap(Positional(base, t[a..b]))
  }

  lemma NextDigit(base: int, t: string, a: nat, b: nat)
    requires a <= b <= |t|
    ensures Spelled(base, t, a, a) == 0
    ensures b < |t| ==> Spelled(base, t, a, b + 1) == Push(base, Spelled(base, t, a, b), t[b])
  {
    assert t[a..a] == [];
    if b < |t| {
      var d := t[a..b + 1];
      assert d[..|d| - 1] == t[a..b] && d[|d| - 1] == t[b];
      WrapStep(Positional(base, t[a..b]), base, DigitValue(t[b]));
    }
  }

  class Arith {
    const t: string
    const env: Env
    var p: nat
    var err: bool

    constructor (t: string, env: Env)
      ensures this.t == t && this.env == env && p == 0 && !err
    {
      this.t, this.env, p, err := t, env, 0, false;
    }

    /** The cursor and the value agree with `r`, or both report an error. */
    ghost predicate Agrees(r: Res, v: int)
      reads this
    {
      p <= |t| && err == r.Err? && (r.Ok? ==> v == r.v && p == r.p)
    }

    /** _a_skip. */
    method SkipSpaces()
      requires p <= |t|
      modifies this`p
      ensures p == Skip(t, old(p))
    {
      while p < |t| && IsSpace(t[p])
        invariant old(p) <= p <= |t|
        invariant Run(IsSpace, t[old(p)..]) == p - old(p) + Run(IsSpace, t[p..])
      {
        assert t[p..][1..] == t[p + 1..];
        p := p + 1;
      }
    }

    /** Accumulate the digits of `base` at the cursor. */
    method Digits(base: int, f: char -> bool) returns (v: int)
      requires p <= |t|
      modifies this`p
      ensures p == old(p) + RunAt(f, t, old(p)) && v == Spelled(base, t, old(p), p)
    {
      hide RunAt, Spelled, Push;
      v := 0;
      RunFrom(f, t, p);
      NextDigit(base, t, p, p);
      while p < |t| && f(t[p])
        invariant old(p) <= p <= |t|
        invariant RunAt(f, t, old(p)) == p - old(p) + RunAt(f, t, p)
        invariant v == Spelled(base, t, old(p), p)
        decreases |t| - p
      {
        RunFrom(f, t, p);
        NextDigit(base, t, old(p), p);
        v := Push(base, v, t[p]);
        p := p + 1;
      }
      RunFrom(f, t, p);
    }

    /** The number case of _a_prim. */
    method Number() returns (v: int)
      requires p < |t| && IsDigit(t[p])
      modifies this`p
      ensures p == NumEnd(t, old(p)) && v == LiteralValue(t[old(p)..p])
    {
      hide Positional, Run, Wrap;
      ghost var q := p;
      if t[p] == '0' && p + 1 < |t| && (t[p + 1] == 'x' || t[p + 1] == 'X') {
        p := p + 2;
        v := Digits(16, IsHex);
        assert t[q..p][2..] == t[q + 2..p];
      } else if t[p] == '0' && p + 1 < |t| && IsOctal(t[p + 1]) {
        p := p + 1;
        v := Digits(8, IsOctal);
        assert t[q..p][1..] == t[q + 1..p];
      } else {
        v := Digits(10, IsDigit);
      }
    }

    /** The variable case of _a_prim. */
    method Variable() returns (v: int)
      requires p < |t| && (NameStart(t[p]) || t[p] == '$')
      modifies this`p
      ensures p == VarEnd(t, old(p)) && v == VarValue(env, t[NameBegin(t, old(p))..NameEnd(t, old(p))])
    {
      hide Run, VarValue, NameStart, NameChar, Min;
      if t[p] == '$' {
        p := p + 1;
        if p < |t| && t[p] == '{' {
          p := p + 1;
        }
      }
      var name := Name();
      if p < |t| && t[p] == '}' {
        p := p + 1;
      }
      v := ValueOf(name);
    }

    /** At most 127 characters of a name. */
    method Name() returns (name: string)
      requires p <= |t|
      modifies this`p
      ensures p == old(p) + Min(RunAt(NameChar, t, old(p)), NAME_MAX) <= |t| && name == t[old(p)..p]
    {
      hide RunAt, NameChar;
      name := "";
      while p < |t| && NameChar(t[p]) && |name| < NAME_MAX
        invariant old(p) <= p <= |t| && name == t[old(p)..p] && |name| <= NAME_MAX
        invariant RunAt(NameChar, t, old(p)) == p - old(p) + RunAt(NameChar, t, p)
      {
        RunFrom(NameChar, t, p);
        name := name + [t[p]];
        p := p + 1;
      }
      RunFrom(NameChar, t, p);
    }

    /** What getenv finds, read as a decimal number. */
    method ValueOf(name: string) returns (r: int)
      ensures r == VarValue(env, name)
    {
      hide Run, Positional, Wrap;
      r := 0;
      if name in env {
        var v := env[name];
        var neg := false;
        if v != [] && v[0] == '-' {
          neg := true;
          v := v[1..];
        } else if v != [] && v[0] == '+' {
          v := v[1..];
        }
        r := LeadingDigits(v);
        if neg {
          r := Wrap(-r);
        }
      }
    }

    static method LeadingDigits(v: string) returns (r: int)
      ensures r == Wrap(Positional(10, v[..Run(IsDigit, v)]))
    {
      r := 0;
      var i := 0;
      assert RunAt(IsDigit, v, 0) == Run(IsDigit, v) by { assert v[0..] == v; }
      ghost var end := Run(IsDigit, v);
      assert Spelled(10, v, 0, end) == Wrap(Positional(10, v[..end])) by { assert v[0..end] == v[..end]; }
      hide Run, RunAt, Spelled, Push, Wrap, Positional;
      NextDigit(10, v, 0, 0);
      while i < |v| && IsDigit(v[i])
        invariant 0 <= i <= |v|
        invariant RunAt(IsDigit, v, 0) == i + RunAt(IsDigit, v, i)
        invariant r == Spelled(10, v, 0, i)
      {
        RunFrom(IsDigit, v, i);
        NextDigit(10, v, 0, i);
        r := Push(10, r, v[i]);
        i := i + 1;
      }
      RunFrom(IsDigit, v, i);
    }

    /** _a_prim. */
    method ReadPrim() returns (v: int)
      requires p <= |t| && !err
      modifies this
      ensures Agrees(Prim(env, t, old(p)), v)
      decreases |t| - p, 1
    {
      hide Run, NumEnd, LiteralValue, VarEnd, NameBegin, NameEnd, VarValue, BinAt, Skip;
      SkipSpaces();
      if p < |t| && t[p] == '(' {
        p := p + 1;
        v := ReadBin(0);
        if !err {
          SkipSpaces();
          if p < |t| && t[p] == ')' {
            p := p + 1;
          } else {
            err := true;
          }
        }
      } else if p < |t| && (NameStart(t[p]) || t[p] == '$') {
        v := Variable();
      } else if p < |t| && IsDigit(t[p]) {
        v := Number();
      } else {
        err, v := true, 0;
      }
    }

    /** _a_unary. */
    method ReadUnary() returns (v: int)
      requires p <= |t| && !err
      modifies this
      ensures Agrees(Unary(env, t, old(p)), v)
      decreases |t| - p, 2
    {
      SkipSpaces();
      var op := if p < |t| then UnAt(t[p]) else None;
      if op.Some? {
        p := p + 1;
        v := ReadUnary();
        v := ApplyUn(op.value, v);
      } else {
        v := ReadPrim();
      }
    }

    /** _a_bin. */
    method ReadBin(lv: nat) returns (v: int)
      requires p <= |t| && !err && lv <= 9
      modifies this
      ensures Agrees(BinAt(env, t, lv, old(p)), v)
      decreases |t| - p, 4 + 2 * (9 - lv)
    {
      hide Operand, OpAt, OpText, ApplyBin, Skip, Rest;
      v := ReadOperand(lv);
      while !err
        invariant p <= |t| && (err ==> BinAt(env, t, lv, old(p)).Err?)
        invariant !err ==> BinAt(env, t, lv, old(p)) == Rest(env, t, lv, v, p) && old(p) < p
        decreases !err, |t| - p
      {
        RestStep(env, t, lv, v, p);
        SkipSpaces();
        var c1 := if p < |t| then t[p] else '\0';
        var c2 := if p + 1 < |t| then t[p + 1] else '\0';
        var op := OpAt(lv, c1, c2);
        if op.None? {
          return;
        }
        OpAtText(lv, t, p);
        p := p + |OpText(op.value)|;
        var r := ReadOperand(lv);
        if !err {
          var x := ApplyBin(op.value, v, r);
          if x.None? {
            err, v := true, 0;
          } else {
            v := x.value;
          }
        }
      }
    }

    method ReadOperand(lv: nat) returns (v: int)
      requires p <= |t| && !err && lv <= 9
      modifies this
      ensures Agrees(Operand(env, t, lv, old(p)), v)
      decreases |t| - p, 3 + 2 * (9 - lv)
    {
      if lv == 9 {
        v := ReadUnary();
      } else {
        v := ReadBin(lv + 1);
      }
    }
  }

  /** _eval_arith. */
  method Evaluate(env: Env, body: string) returns (v: int, err: bool)
    ensures err <==> EvalArith(env, body).None?
    ensures !err ==> EvalArith(env, body) == Some(v)
  {
    var a := new Arith(body, env);
    v := a.ReadBin(0);
    if !a.err {
      a.SkipSpaces();
    }
    if a.err || a.p < |body| {
      return 0, true;
    }
    return v, false;
  }
}
