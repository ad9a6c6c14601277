/** The evaluator accepts nothing but well-formed texts. */
module ArithSound {
  import opened Common
  import opened ArithSyntax
  import opened ArithParser
  import opened ArithCorrect

  lemma SliceAhead(t: string, p: nat, q: nat)
    requires p <= q <= |t|
    ensures Ahead(t, p, t[p..q])
  {
  }

  lemma NumShape(t: string, p: nat)
    requires p < |t| && IsDigit(t[p])
    ensures IsLiteral(t[p..NumEnd(t, p)])
  {
    var d := t[p..NumEnd(t, p)];
    if t[p] == '0' && (At(t, p + 1) == 'x' || At(t, p + 1) == 'X') {
      assert d[2..] == t[p + 2..][..Run(IsHex, t[p + 2..])];
    } else if t[p] == '0' && IsOctal(At(t, p + 1)) {
      assert d[1..] == t[p + 1..][..Run(IsOctal, t[p + 1..])];
      assert |d| >= 2;
    } else {
      assert d == t[p..][..Run(IsDigit, t[p..])];
    }
  }

  /** What the parts of a variable reference look like. */
  lemma VarShape(t: string, p: nat) returns (dollar: bool, open: bool, close: bool)
    requires p < |t| && (NameStart(t[p]) || t[p] == '$')
    ensures WfVar(dollar, open, t[NameBegin(t, p)..NameEnd(t, p)])
    ensures var x := VarText(dollar, open, t[NameBegin(t, p)..NameEnd(t, p)], close);
            Ahead(t, p, x) && VarEnd(t, p) == p + |x|
  {
    hide Ahead, AllOf, NameStart, NameChar, Run, VarText;
    var b, e := NameBegin(t, p), NameEnd(t, p);
    dollar, open, close := t[p] == '$', b == p + 2, At(t, e) == '}';
    NameShape(t, b);
    NameStartsName(t, b, e);
    VarPieces(t, p, dollar, open, b, e, close);
  }

  lemma NameStartsName(t: string, b: nat, e: nat)
    requires b <= e <= |t|
    ensures b < e ==> t[b..e][0] == At(t, b)
  {
  }

  lemma VarPieces(t: string, p: nat, dollar: bool, open: bool, b: nat, e: nat, close: bool)
    requires b <= e <= |t| && b == p + (if dollar then 1 else 0) + (if open then 1 else 0) && (open ==> dollar)
    requires dollar ==> At(t, p) == '$'
    requires open ==> At(t, p + 1) == '{'
    requires close ==> At(t, e) == '}'
    ensures Ahead(t, p, VarText(dollar, open, t[b..e], close))
    ensures |VarText(dollar, open, t[b..e], close)| == e - p + (if close then 1 else 0)
  {
    hide Ahead, At;
    var x, y, z := if dollar then "$" else "", if open then "{" else "", if close then "}" else "";
    if dollar { AheadOne(t, p, '$'); } else { AheadNone(t, p); }
    if open { AheadOne(t, p + 1, '{'); } else { AheadNone(t, b); }
    if close { AheadOne(t, e, '}'); } else { AheadNone(t, e); }
    SliceAhead(t, b, e);
    AheadSplit(t, p, x, y);
    AheadSplit(t, p, x + y, t[b..e]);
    AheadSplit(t, p, x + y + t[b..e], z);
  }

  lemma AheadNone(t: string, p: nat)
    requires p <= |t|
    ensures Ahead(t, p, "") && AllOf(IsSpace, "")
  {
  }

  lemma NameShape(t: string, b: nat)
    requires b <= |t|
    ensures var n := Min(Run(NameChar, t[b..]), NAME_MAX);
            AllOf(NameChar, t[b..b + n]) && n <= NAME_MAX && (NameStart(At(t, b)) ==> n > 0)
  {
    var m := Run(NameChar, t[b..]);
    var n := Min(m, NAME_MAX);
    assert t[b..b + n] == t[b..][..m][..n];
  }

  /** `e` is what was read from `p` up to the white space `ws`, and `r` its value. */
  ghost predicate Read(env: Env, t: string, p: nat, e: Expr, ws: string, r: Res) {
    && Wf(e) && Lies(t, p, e)
    && AllOf(IsSpace, ws) && Ahead(t, p + Len(e), ws)
    && r.Ok? && Eval(env, e) == Some(r.v) && r.p == p + Len(e) + |ws|
  }

  lemma {:induction false} PrimSound(env: Env, t: string, p: nat) returns (e: Expr)
    requires p <= |t| && Prim(env, t, p).Ok?
    ensures Read(env, t, p, e, [], Prim(env, t, p)) && LevelOf(e) == 11
    decreases |t| - p, 1
  {
    hide LiteralValue, VarValue, IsLiteral, WfVar, VarText, NumEnd, NameBegin, NameEnd, VarEnd, BinAt, Ahead, OpText,
         Skip, AllOf;
    var q := Skip(t, p);
    var ws := t[p..q];
    SliceAhead(t, p, q);
    var r := Prim(env, t, p);
    AheadNone(t, r.p);
    if t[q] == '(' {
      var e', ws1 := BinSound(env, t, 0, q + 1);
      var inner := BinAt(env, t, 0, q + 1);
      SpacesJoin(t, q + 1 + Len(e'), ws1, inner.p);
      e := Paren(ws, e', t[q + 1 + Len(e')..Skip(t, inner.p)]);
    } else if NameStart(t[q]) || t[q] == '$' {
      var dollar, open, close := VarShape(t, q);
      e := Var(ws, dollar, open, t[NameBegin(t, q)..NameEnd(t, q)], close);
    } else {
      NumShape(t, q);
      SliceAhead(t, q, NumEnd(t, q));
      e := Num(ws, t[q..NumEnd(t, q)]);
    }
  }

  /** White space behind white space. */
  lemma SpacesJoin(t: string, a: nat, ws: string, p: nat)
    requires AllOf(IsSpace, ws) && Ahead(t, a, ws) && p == a + |ws| <= |t|
    ensures AllOf(IsSpace, t[a..Skip(t, p)]) && Ahead(t, a, t[a..Skip(t, p)])
  {
    AheadIsSlice(t, a, ws);
    assert t[a..Skip(t, p)] == t[a..p] + t[p..Skip(t, p)];
  }

  lemma {:induction false} UnarySound(env: Env, t: string, p: nat) returns (e: Expr)
    requires p <= |t| && Unary(env, t, p).Ok?
    ensures Read(env, t, p, e, [], Unary(env, t, p)) && LevelOf(e) >= 10
    decreases |t| - p, 2
  {
    hide Prim, ApplyUn, Ahead, OpText, Skip, AllOf;
    var q := Skip(t, p);
    SliceAhead(t, p, q);
    match UnAt(At(t, q))
    case None =>
      PrimFrom(env, t, p);
      e := PrimSound(env, t, p);
    case Some(op) =>
      var e' := UnarySound(env, t, q + 1);
      e := Un(t[p..q], op, e');
  }

  lemma {:induction false} OperandSound(env: Env, t: string, lv: nat, p: nat) returns (e: Expr, ws: string)
    requires p <= |t| && lv <= 9 && Operand(env, t, lv, p).Ok?
    ensures Read(env, t, p, e, ws, Operand(env, t, lv, p)) && LevelOf(e) > lv
    decreases |t| - p, 3 + 2 * (9 - lv)
  {
    hide Unary, BinAt, Read;
    if lv == 9 {
      e := UnarySound(env, t, p);
      ws := [];
    } else {
      e, ws := BinSound(env, t, lv + 1, p);
    }
  }

  lemma {:induction false} BinSound(env: Env, t: string, lv: nat, p: nat) returns (e: Expr, ws: string)
    requires p <= |t| && lv <= 9 && BinAt(env, t, lv, p).Ok?
    ensures Read(env, t, p, e, ws, BinAt(env, t, lv, p)) && LevelOf(e) >= lv
    decreases |t| - p, 4 + 2 * (9 - lv)
  {
    hide Operand, Rest, Read;
    var r := Operand(env, t, lv, p);
    var e0, ws0 := OperandSound(env, t, lv, p);
    e, ws := RestSound(env, t, lv, p, e0, ws0, r);
  }

  /** The loop continues an expression read so far. */
  lemma {:induction false} RestSound(env: Env, t: string, lv: nat, p: nat, e0: Expr, ws0: string, r0: Res)
    returns (e: Expr, ws: string)
    requires lv <= 9 && Read(env, t, p, e0, ws0, r0) && LevelOf(e0) >= lv && p < r0.p <= |t|
    requires Rest(env, t, lv, r0.v, r0.p).Ok?
    ensures Read(env, t, p, e, ws, Rest(env, t, lv, r0.v, r0.p)) && LevelOf(e) >= lv
    decreases |t| - r0.p, 0
  {
    hide Operand, OpAt, OpText, ApplyBin, Ahead, Skip, AllOf, At, Level;
    var a := p + Len(e0);
    var q := Skip(t, r0.p);
    SpacesJoin(t, a, ws0, r0.p);
    ws := t[a..q];
    match OpAt(lv, At(t, q), At(t, q + 1))
    case None =>
      e := e0;
    case Some(op) =>
      OpAtText(lv, t, q);
      var b := q + |OpText(op)|;
      SliceAhead(t, q, b);
      var r1 := Operand(env, t, lv, b);
      var e1, ws1 := OperandSound(env, t, lv, b);
      var x := ApplyBin(op, r0.v, r1.v).value;
      e, ws := RestSound(env, t, lv, p, Bin(e0, ws, op, e1), ws1, Ok(x, r1.p));
  }

  /** The evaluator succeeds on a text, with value `v`, exactly when the text is a
      well-formed expression of that value followed by white space. */
  lemma Exact(env: Env, t: string, v: int)
    ensures EvalArith(env, t) == Some(v) <==>
            exists e, ws :: Wf(e) && AllOf(IsSpace, ws) && t == Text(e) + ws && Eval(env, e) == Some(v)
  {
    hide Eval, Wf, BinAt, Text, Skip, AllOf, Lies, Len, Ahead;
    forall e, ws | Wf(e) && AllOf(IsSpace, ws) && t == Text(e) + ws
      ensures EvalArith(env, t) == Eval(env, e)
    {
      Complete(env, e, ws);
    }
    if EvalArith(env, t) == Some(v) {
      var e, ws := BinSound(env, t, 0, 0);
      SpacesJoin(t, Len(e), ws, BinAt(env, t, 0, 0).p);
      LiesIsText(t, 0, e);
      AheadIsSlice(t, 0, Text(e));
      assert t == t[..Len(e)] + t[Len(e)..|t|];
    }
  }
}
