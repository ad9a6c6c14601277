/** The recursive-descent evaluator of src/wordexp.c as functions of the text and a cursor. */
module ArithParser {
  import opened Common
  import opened ArithSyntax

  /** The value read and the cursor behind it, or an error. */
  datatype Res = Ok(v: int, p: nat) | Err

  function At(t: string, p: nat): char {
    if p < |t| then t[p] else '\0'
  }

  /** The cursor behind any white space. */
  function Skip(t: string, p: nat): (q: nat)
    requires p <= |t|
    ensures p <= q <= |t| && AllOf(IsSpace, t[p..q]) && !IsSpace(At(t, q))
  {
    var n := Run(IsSpace, t[p..]);
    assert t[p..p + n] == t[p..][..n];
    p + n
  }

  /** The operator of level `lv` that starts with the characters `c1`, `c2`. */
  function OpAt(lv: nat, c1: char, c2: char): Option<BinOp> {
    match lv
    case 0 => if c1 == '|' && c2 == '|' then Some(LogOr) else None
    case 1 => if c1 == '&' && c2 == '&' then Some(LogAnd) else None
    case 2 => if c1 != '|' || c2 == '|' then None else Some(BitOr)
    case 3 => if c1 != '^' then None else Some(BitXor)
    case 4 => if c1 != '&' || c2 == '&' then None else Some(BitAnd)
    case 5 => if c1 == '=' && c2 == '=' then Some(Eq) else if c1 == '!' && c2 == '=' then Some(Ne) else None
    case 6 =>
      if c1 == '<' && c2 == '=' then Some(Le)
      else if c1 == '>' && c2 == '=' then Some(Ge)
      else if c1 == '<' && c2 != '<' then Some(Lt)
      else if c1 == '>' && c2 != '>' then Some(Gt)
      else None
    case 7 => if c1 == '<' && c2 == '<' then Some(Shl) else if c1 == '>' && c2 == '>' then Some(Shr) else None
    case 8 => if c1 == '+' then Some(Add) else if c1 == '-' then Some(Sub) else None
    case _ => if c1 == '*' then Some(Mul) else if c1 == '/' then Some(Div) else if c1 == '%' then Some(Mod) else None
  }

  lemma OpAtText(lv: nat, t: string, p: nat)
    requires lv <= 9
    ensures OpAt(lv, At(t, p), At(t, p + 1)).Some? ==>
              var op := OpAt(lv, At(t, p), At(t, p + 1)).value;
              Level(op) == lv && p + |OpText(op)| <= |t| && t[p..p + |OpText(op)|] == OpText(op)
  {
  }

  function UnAt(c: char): Option<UnOp> {
    if c == '-' then Some(Neg) else if c == '+' then Some(Pos)
    else if c == '!' then Some(Not) else if c == '~' then Some(Compl)
    else None
  }

  // ----- tokens -----

  /** The end of a number that starts at `p`. */
  function NumEnd(t: string, p: nat): (q: nat)
    requires p < |t| && IsDigit(t[p])
    ensures p < q <= |t|
  {
    if t[p] == '0' && (At(t, p + 1) == 'x' || At(t, p + 1) == 'X') then p + 2 + Run(IsHex, t[p + 2..])
    else if t[p] == '0' && IsOctal(At(t, p + 1)) then p + 1 + Run(IsOctal, t[p + 1..])
    else p + Run(IsDigit, t[p..])
  }

  /** Start and end of the name of a variable that starts at `p`, and the cursor behind it. */
  function NameBegin(t: string, p: nat): (q: nat)
    requires p < |t|
    ensures p <= q <= |t|
  {
    if t[p] != '$' then p else if At(t, p + 1) == '{' then p + 2 else p + 1
  }

  function NameEnd(t: string, p: nat): (q: nat)
    requires p < |t|
    ensures NameBegin(t, p) <= q <= |t|
  {
    var b := NameBegin(t, p);
    b + Min(Run(NameChar, t[b..]), NAME_MAX)
  }

  function VarEnd(t: string, p: nat): (q: nat)
    requires p < |t|
    ensures NameEnd(t, p) <= q <= |t|
  {
    var e := NameEnd(t, p);
    if At(t, e) == '}' then e + 1 else e
  }

  // ----- the grammar -----

  function Prim(env: Env, t: string, p: nat): (r: Res)
    requires p <= |t|
    ensures r.Ok? ==> p < r.p <= |t|
    decreases |t| - p, 1
  {
    var q := Skip(t, p);
    if q == |t| then Err
    else if t[q] == '(' then
      match BinAt(env, t, 0, q + 1)
      case Err => Err
      case Ok(v, e) =>
        var e' := Skip(t, e);
        if At(t, e') == ')' then Ok(v, e' + 1) else Err
    else if NameStart(t[q]) || t[q] == '$' then
      Ok(VarValue(env, t[NameBegin(t, q)..NameEnd(t, q)]), VarEnd(t, q))
    else if IsDigit(t[q]) then
      Ok(LiteralValue(t[q..NumEnd(t, q)]), NumEnd(t, q))
    else Err
  }

  function Unary(env: Env, t: string, p: nat): (r: Res)
    requires p <= |t|
    ensures r.Ok? ==> p < r.p <= |t|
    decreases |t| - p, 2
  {
    var q := Skip(t, p);
    match UnAt(At(t, q))
    case None => Prim(env, t, q)
    case Some(op) =>
      match Unary(env, t, q + 1)
      case Err => Err
      case Ok(v, e) => Ok(ApplyUn(op, v), e)
  }

  function Operand(env: Env, t: string, lv: nat, p: nat): (r: Res)
    requires p <= |t| && lv <= 9
    ensures r.Ok? ==> p < r.p <= |t|
    decreases |t| - p, 3 + 2 * (9 - lv)
  {
    if lv == 9 then Unary(env, t, p) else BinAt(env, t, lv + 1, p)
  }

  /** _a_bin. */
  function BinAt(env: Env, t: string, lv: nat, p: nat): (r: Res)
    requires p <= |t| && lv <= 9
    ensures r.Ok? ==> p < r.p <= |t|
    decreases |t| - p, 4 + 2 * (9 - lv)
  {
    match Operand(env, t, lv, p)
    case Err => Err
    case Ok(v, q) => Rest(env, t, lv, v, q)
  }

  /** The loop of _a_bin, with `v` accumulated so far. */
  function Rest(env: Env, t: string, lv: nat, v: int, p: nat): (r: Res)
    requires p <= |t| && lv <= 9
    ensures r.Ok? ==> p <= r.p <= |t|
    decreases |t| - p, 0
  {
    var q := Skip(t, p);
    match OpAt(lv, At(t, q), At(t, q + 1))
    case None => Ok(v, q)
    case Some(op) =>
      OpAtText(lv, t, q);
      match Operand(env, t, lv, q + |OpText(op)|)
      case Err => Err
      case Ok(w, e) =>
        match ApplyBin(op, v, w)
        case None => Err
        case Some(x) => Rest(env, t, lv, x, e)
  }

  /** One round of that loop. */
  lemma {:induction false} RestStep(env: Env, t: string, lv: nat, v: int, p: nat)
    requires p <= |t| && lv <= 9
    ensures var q := Skip(t, p);
            var op := OpAt(lv, At(t, q), At(t, q + 1));
            if op.None? then Rest(env, t, lv, v, p) == Ok(v, q)
            else
              && q + |OpText(op.value)| <= |t|
              && var o := Operand(env, t, lv, q + |OpText(op.value)|);
                 if o.Err? || ApplyBin(op.value, v, o.v).None? then Rest(env, t, lv, v, p).Err?
                 else Rest(env, t, lv, v, p) == Rest(env, t, lv, ApplyBin(op.value, v, o.v).value, o.p)
  {
    hide Operand, OpAt, OpText, ApplyBin, Skip, At;
    OpAtText(lv, t, Skip(t, p));
  }

  /** _eval_arith: the value of the whole text. */
  function EvalArith(env: Env, t: string): Option<int> {
    match BinAt(env, t, 0, 0)
    case Err => None
    case Ok(v, p) => if Skip(t, p) == |t| then Some(v) else None
  }
}
