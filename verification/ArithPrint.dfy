/** Printing a syntax tree with no more parentheses than precedence calls for. */
module ArithPrint {
  import opened Common
  import opened ArithSyntax
  import opened ArithParser
  import opened ArithCorrect

  datatype Tree =
    | Lit(n: nat)
    | Name(name: string)
    | Unary(uop: UnOp, t: Tree)
    | Binary(op: BinOp, l: Tree, r: Tree)

  ghost predicate WfTree(t: Tree) {
    match t
    case Lit(_) => true
    case Name(name) => WfVar(false, false, name)
    case Unary(_, t') => WfTree(t')
    case Binary(_, l, r) => WfTree(l) && WfTree(r)
  }

  function Value(env: Env, t: Tree): Option<int> {
    match t
    case Lit(n) => Some(Wrap(n))
    case Name(name) => Some(VarValue(env, name))
    case Unary(op, t') =>
      (match Value(env, t')
       case None => None
       case Some(v) => Some(ApplyUn(op, v)))
    case Binary(op, l, r) =>
      match (Value(env, l), Value(env, r))
      case (Some(v), Some(w)) => ApplyBin(op, v, w)
      case _ => None
  }

  function Digit(d: nat): char
    requires d < 10
  {
    "0123456789"[d]
  }

  function Decimal(n: nat): (s: string)
    ensures s != []
  {
    if n < 10 then [Digit(n)] else Decimal(n / 10) + [Digit(n % 10)]
  }

  lemma {:induction false} DecimalReads(n: nat)
    ensures AllOf(IsDigit, Decimal(n)) && Positional(10, Decimal(n)) == n
    ensures Decimal(n)[0] == '0' ==> n == 0 && |Decimal(n)| == 1
  {
    var s := Decimal(n);
    if n >= 10 {
      DecimalReads(n / 10);
      assert s[..|s| - 1] == Decimal(n / 10);
    } else {
      assert s[..0] == [];
    }
  }

  /** The tree as an operand of level `lv`. */
  function Print(t: Tree, lv: nat): Expr {
    match t
    case Lit(n) => Num("", Decimal(n))
    case Name(name) => Var("", false, false, name, false)
    case Unary(op, t') => Protect(Un("", op, Print(t', 10)), lv)
    case Binary(op, l, r) => Protect(Bin(Print(l, Level(op)), "", op, Print(r, Level(op) + 1)), lv)
  }

  function Protect(e: Expr, lv: nat): Expr {
    if LevelOf(e) < lv then Paren("", e, "") else e
  }

  lemma {:induction false} PrintKeepsValue(env: Env, t: Tree, lv: nat)
    requires WfTree(t) && lv <= 10
    ensures Wf(Print(t, lv)) && LevelOf(Print(t, lv)) >= lv && Eval(env, Print(t, lv)) == Value(env, t)
    decreases t
  {
    hide ApplyBin, ApplyUn, VarValue, OpText, Protect, Positional, Wrap;
    match t
    case Lit(n) => LiteralPrints(env, n);
    case Name(_) =>
    case Unary(op, t') =>
      PrintKeepsValue(env, t', 10);
      ProtectKeeps(env, Un("", op, Print(t', 10)), lv);
    case Binary(op, l, r) =>
      PrintKeepsValue(env, l, Level(op));
      PrintKeepsValue(env, r, Level(op) + 1);
      ProtectKeeps(env, Bin(Print(l, Level(op)), "", op, Print(r, Level(op) + 1)), lv);
  }

  lemma LiteralPrints(env: Env, n: nat)
    ensures Wf(Num("", Decimal(n))) && Eval(env, Num("", Decimal(n))) == Some(Wrap(n))
  {
    DecimalReads(n);
  }

  lemma ProtectKeeps(env: Env, e: Expr, lv: nat)
    requires Wf(e) && lv <= 10
    ensures Wf(Protect(e, lv)) && LevelOf(Protect(e, lv)) >= lv && Eval(env, Protect(e, lv)) == Eval(env, e)
  {
  }

  /** The evaluator gives every printed tree its value under C's precedence and left
      associativity, and an error exactly when some division in it is by zero. */
  lemma PrintedTreeEvaluates(env: Env, t: Tree)
    requires WfTree(t)
    ensures EvalArith(env, Text(Print(t, 0))) == Value(env, t)
  {
    hide Text, Eval, Value, EvalArith, Print, Wf;
    PrintKeepsValue(env, t, 0);
    Complete(env, Print(t, 0), "");
    assert Text(Print(t, 0)) + "" == Text(Print(t, 0));
  }
}
