/** The evaluator computes the value of every well-formed text, and accepts no other. */
module ArithCorrect {
  import opened Common
  import opened ArithSyntax
  import opened ArithParser

  /** The text `s` stands at the cursor. */
  ghost predicate Ahead(t: string, p: nat, s: string) {
    p + |s| <= |t| && forall i | 0 <= i < |s| :: t[p + i] == s[i]
  }

  lemma AheadSplit(t: string, p: nat, a: string, b: string)
    ensures Ahead(t, p, a + b) <==> Ahead(t, p, a) && Ahead(t, p + |a|, b)
  {
    var s := a + b;
    if Ahead(t, p, s) {
      forall i | 0 <= i < |a| ensures t[p + i] == a[i] { assert s[i] == a[i]; }
      forall i | 0 <= i < |b| ensures t[p + |a| + i] == b[i] { assert s[|a| + i] == b[i]; }
    }
    if Ahead(t, p, a) && Ahead(t, p + |a|, b) {
      forall i | 0 <= i < |s|
        ensures t[p + i] == s[i]
      {
        if i >= |a| {
          assert t[p + |a| + (i - |a|)] == b[i - |a|];
        }
      }
    }
  }

  lemma AheadIsSlice(t: string, p: nat, s: string)
    requires Ahead(t, p, s)
    ensures t[p..p + |s|] == s
  {
  }

  lemma AheadAt(t: string, p: nat, s: string, i: nat)
    requires Ahead(t, p, s) && i < |s|
    ensures p + |s| <= |t| && At(t, p + i) == s[i]
  {
  }

  // ----- runs of characters -----

  lemma {:induction false} RunIs(f: char -> bool, s: string, n: nat)
    requires n <= |s| && AllOf(f, s[..n]) && (n < |s| ==> !f(s[n]))
    ensures Run(f, s) == n
  {
    if n > 0 {
      assert f(s[..n][0]);
      assert s[1..][..n - 1] == s[..n][1..];
      RunIs(f, s[1..], n - 1);
    }
  }

  /** A run that stands at the cursor and cannot go on. */
  lemma RunAhead(f: char -> bool, t: string, p: nat, s: string)
    requires Ahead(t, p, s) && AllOf(f, s) && (p + |s| < |t| ==> !f(t[p + |s|]))
    ensures Run(f, t[p..]) == |s|
  {
    AheadIsSlice(t, p, s);
    assert t[p..][..|s|] == t[p..p + |s|];
    RunIs(f, t[p..], |s|);
  }

  lemma SkipAhead(t: string, p: nat, ws: string)
    requires Ahead(t, p, ws) && AllOf(IsSpace, ws) && !IsSpace(At(t, p + |ws|))
    ensures Skip(t, p) == p + |ws|
  {
    RunAhead(IsSpace, t, p, ws);
  }

  lemma SkipNone(t: string, p: nat)
    requires p <= |t| && !IsSpace(At(t, p))
    ensures Skip(t, p) == p
  {
    SkipAhead(t, p, []);
  }

  lemma RestFrom(env: Env, t: string, lv: nat, v: int, p: nat, q: nat)
    requires p <= |t| && q <= |t| && lv <= 9 && Skip(t, p) == Skip(t, q)
    ensures Rest(env, t, lv, v, p) == Rest(env, t, lv, v, q)
  {
    hide ApplyBin, OpText, OpAt, Operand, Skip, At;
  }

  // ----- what may stand next to what -----

  /** The characters an operand can start with. */
  predicate Starter(c: char) {
    IsSpace(c) || IsDigit(c) || NameStart(c) || c == '$' || c == '(' || UnAt(c).Some?
  }

  /** Nothing at `q` would prolong a number or a variable that ends there. */
  ghost predicate TokenEnd(t: string, q: nat) {
    !NameChar(At(t, q)) && At(t, q) != '{' && At(t, q) != '}'
  }

  /** No operator tighter than level `lv` follows. */
  ghost predicate Stop(t: string, q: nat, lv: nat) {
    && q <= |t| && TokenEnd(t, q)
    && forall l | lv < l <= 9 :: NoOp(t, q, l)
  }

  ghost predicate NoOp(t: string, q: nat, l: nat)
    requires q <= |t|
  {
    OpAt(l, At(t, Skip(t, q)), At(t, Skip(t, q) + 1)).None?
  }

  /** An operator in front of an operand is read at its own level and at no other. */
  lemma OpUnambiguous(op: BinOp, c: char, l: nat)
    requires Starter(c) && l <= 9
    ensures var x := OpText(op);
            OpAt(l, x[0], if |x| == 2 then x[1] else c) == if l == Level(op) then Some(op) else None
    ensures !IsSpace(OpText(op)[0]) && !NameChar(OpText(op)[0]) && OpText(op)[0] != '{' && OpText(op)[0] != '}'
  {
    match op
    case LogOr => case LogAnd => case BitOr => case BitXor => case BitAnd => case Eq => case Ne =>
    case Le => case Ge => case Lt => case Gt => case Shl => case Shr => case Add => case Sub =>
    case Mul => case Div => case Mod =>
  }

  // ----- an expression laid out along the text -----

  function Len(e: Expr): nat {
    match e
    case Num(ws, digits) => |ws| + |digits|
    case Var(ws, dollar, open, name, close) => |ws| + |VarText(dollar, open, name, close)|
    case Paren(ws, e', ws2) => |ws| + 1 + Len(e') + |ws2| + 1
    case Un(ws, _, e') => |ws| + 1 + Len(e')
    case Bin(l, ws, op, r) => Len(l) + |ws| + |OpText(op)| + Len(r)
  }

  /** The parts of `e` stand one after the other in `t` from `p` on. */
  ghost predicate Lies(t: string, p: nat, e: Expr)
    decreases e
  {
    match e
    case Num(ws, digits) => Ahead(t, p, ws) && Ahead(t, p + |ws|, digits)
    case Var(ws, dollar, open, name, close) =>
      Ahead(t, p, ws) && Ahead(t, p + |ws|, VarText(dollar, open, name, close))
    case Paren(ws, e', ws2) =>
      var b := p + |ws| + 1;
      && Ahead(t, p, ws) && At(t, b - 1) == '(' && Lies(t, b, e')
      && Ahead(t, b + Len(e'), ws2) && At(t, b + Len(e') + |ws2|) == ')'
    case Un(ws, op, e') => Ahead(t, p, ws) && At(t, p + |ws|) == UnChar(op) && Lies(t, p + |ws| + 1, e')
    case Bin(l, ws, op, r) =>
      var a := p + Len(l);
      && Lies(t, p, l) && Ahead(t, a, ws) && Ahead(t, a + |ws|, OpText(op))
      && Lies(t, a + |ws| + |OpText(op)|, r)
  }

  lemma {:induction false} LiesIsText(t: string, p: nat, e: Expr)
    ensures |Text(e)| == Len(e)
    ensures Ahead(t, p, Text(e)) <==> Lies(t, p, e)
    decreases e, 1
  {
    hide Ahead, OpText, VarText, UnChar;
    match e
    case Num(ws, digits) => AheadSplit(t, p, ws, digits);
    case Var(ws, dollar, open, name, close) => AheadSplit(t, p, ws, VarText(dollar, open, name, close));
    case Paren(ws, e', ws2) => LiesIsTextParen(t, p, e);
    case Un(ws, op, e') => LiesIsTextUn(t, p, e);
    case Bin(l, ws, op, r) => LiesIsTextBin(t, p, e);
  }

  lemma {:induction false} LiesIsTextParen(t: string, p: nat, e: Expr)
    requires e.Paren?
    ensures |Text(e)| == Len(e)
    ensures Ahead(t, p, Text(e)) <==> Lies(t, p, e)
    decreases e, 0
  {
    hide Ahead;
    var ws, e', ws2 := e.ws, e.e, e.ws2;
    var b := p + |ws| + 1;
    LiesIsText(t, b, e');
    AheadSplit(t, p, ws + "(" + Text(e') + ws2, ")");
    AheadSplit(t, p, ws + "(" + Text(e'), ws2);
    AheadSplit(t, p, ws + "(", Text(e'));
    AheadSplit(t, p, ws, "(");
    AheadOne(t, b - 1, '(');
    AheadOne(t, b + Len(e') + |ws2|, ')');
  }

  lemma {:induction false} LiesIsTextUn(t: string, p: nat, e: Expr)
    requires e.Un?
    ensures |Text(e)| == Len(e)
    ensures Ahead(t, p, Text(e)) <==> Lies(t, p, e)
    decreases e, 0
  {
    hide Ahead;
    var ws, op, e' := e.ws, e.uop, e.e;
    LiesIsText(t, p + |ws| + 1, e');
    AheadSplit(t, p, ws + [UnChar(op)], Text(e'));
    AheadSplit(t, p, ws, [UnChar(op)]);
    AheadOne(t, p + |ws|, UnChar(op));
  }

  lemma {:induction false} LiesIsTextBin(t: string, p: nat, e: Expr)
    requires e.Bin?
    ensures |Text(e)| == Len(e)
    ensures Ahead(t, p, Text(e)) <==> Lies(t, p, e)
    decreases e, 0
  {
    hide Ahead, OpText;
    var l, ws, op, r := e.l, e.ws, e.op, e.r;
    LiesIsText(t, p, l);
    LiesIsText(t, p + Len(l) + |ws| + |OpText(op)|, r);
    AheadSplit(t, p, Text(l) + ws + OpText(op), Text(r));
    AheadSplit(t, p, Text(l) + ws, OpText(op));
    AheadSplit(t, p, Text(l), ws);
  }

  lemma AheadOne(t: string, p: nat, c: char)
    requires c != '\0'
    ensures Ahead(t, p, [c]) <==> At(t, p) == c
  {
    if Ahead(t, p, [c]) {
      AheadAt(t, p, [c], 0);
    }
  }

  lemma {:induction false} LiesStart(t: string, p: nat, e: Expr)
    requires Wf(e) && Lies(t, p, e)
    ensures p + Len(e) <= |t| && Starter(At(t, p))
    decreases e
  {
    hide OpText, Ahead;
    match e
    case Bin(l, ws, op, r) =>
      LiesStart(t, p, l);
      LiesStart(t, p + Len(l) + |ws| + |OpText(op)|, r);
    case Num(ws, digits) =>
      WsOrNext(t, p, ws);
      AheadAt(t, p + |ws|, digits, 0);
    case Var(ws, dollar, open, name, close) =>
      WsOrNext(t, p, ws);
      AheadAt(t, p + |ws|, VarText(dollar, open, name, close), 0);
    case Paren(ws, e', ws2) =>
      WsOrNext(t, p, ws);
      LiesStart(t, p + |ws| + 1, e');
    case Un(ws, op, e') =>
      WsOrNext(t, p, ws);
      LiesStart(t, p + |ws| + 1, e');
  }

  lemma WsOrNext(t: string, p: nat, ws: string)
    requires Ahead(t, p, ws) && AllOf(IsSpace, ws)
    ensures p + |ws| <= |t| && (ws == [] || IsSpace(At(t, p)))
  {
    if ws != [] {
      AheadAt(t, p, ws, 0);
    }
  }

  /** The situation behind the left operand of `op`. */
  lemma BeforeOp(t: string, q: nat, ws: string, op: BinOp, r: Expr)
    requires AllOf(IsSpace, ws) && Ahead(t, q, ws) && Ahead(t, q + |ws|, OpText(op))
    requires Wf(r) && Lies(t, q + |ws| + |OpText(op)|, r)
    ensures q <= |t| && Skip(t, q) == q + |ws| && Stop(t, q, Level(op))
    ensures OpAt(Level(op), At(t, Skip(t, q)), At(t, Skip(t, q) + 1)) == Some(op)
  {
    hide OpText, OpAt, Lies, Wf, Ahead, Starter;
    var s := q + |ws|;
    var c := At(t, s + |OpText(op)|);
    LiesStart(t, s + |OpText(op)|, r);
    OpChars(t, s, op);
    OpUnambiguous(op, c, Level(op));
    SkipAhead(t, q, ws);
    WsOrNext(t, q, ws);
    forall l | Level(op) < l <= 9
      ensures NoOp(t, q, l)
    {
      OpUnambiguous(op, c, l);
    }
  }

  lemma OpChars(t: string, s: nat, op: BinOp)
    requires Ahead(t, s, OpText(op))
    ensures At(t, s) == OpText(op)[0]
    ensures |OpText(op)| == 2 ==> At(t, s + 1) == OpText(op)[1]
  {
    AheadAt(t, s, OpText(op), 0);
    if |OpText(op)| == 2 {
      AheadAt(t, s, OpText(op), 1);
    }
  }

  // ----- completeness: every well-formed text gets its value -----

  /** Reading `e` gives its value, or an error if it has none, and leaves the cursor at `q`
      or at the white space behind it. */
  ghost predicate Delivers(env: Env, t: string, e: Expr, r: Res, q: nat) {
    match Eval(env, e)
    case None => r.Err?
    case Some(v) => r.Ok? && r.v == v && r.p <= |t| && q <= |t| && Skip(t, r.p) == Skip(t, q)
  }

  /** The digits of a literal behind its prefix of `k` characters. */
  lemma DigitsRead(f: char -> bool, t: string, p: nat, d: string, k: nat)
    requires k <= |d| && Ahead(t, p, d) && AllOf(f, d[k..]) && (p + |d| < |t| ==> !f(t[p + |d|]))
    ensures p + |d| <= |t| && Run(f, t[p + k..]) == |d| - k
  {
    hide Run, AllOf;
    assert d == d[..k] + d[k..];
    AheadSplit(t, p, d[..k], d[k..]);
    RunAhead(f, t, p + k, d[k..]);
  }

  lemma LiteralStart(d: string)
    requires IsLiteral(d)
    ensures d != [] && IsDigit(d[0])
  {
  }

  lemma TokenEndsDigits(t: string, q: nat)
    requires TokenEnd(t, q) && q < |t|
    ensures !IsHex(t[q]) && !IsOctal(t[q]) && !IsDigit(t[q])
  {
  }

  lemma {:induction false} NumReads(t: string, p: nat, d: string)
    requires IsLiteral(d) && Ahead(t, p, d) && TokenEnd(t, p + |d|)
    ensures p < |t| && IsDigit(t[p]) && NumEnd(t, p) == p + |d| && t[p..NumEnd(t, p)] == d
  {
    LiteralStart(d);
    AheadIsSlice(t, p, d);
    AheadAt(t, p, d, 0);
    if |d| >= 2 {
      AheadAt(t, p, d, 1);
    }
    if p + |d| < |t| { TokenEndsDigits(t, p + |d|); }
    hide Ahead, Run, AllOf, TokenEnd, IsHex;
    match RadixOf(d)
    case Hex => DigitsRead(IsHex, t, p, d, 2);
    case Oct => DigitsRead(IsOctal, t, p, d, 1);
    case Dec => DigitsRead(IsDigit, t, p, d, 0);
  }

  lemma VarReads(t: string, p: nat, dollar: bool, open: bool, name: string, close: bool)
    requires WfVar(dollar, open, name) && Ahead(t, p, VarText(dollar, open, name, close))
    requires TokenEnd(t, p + |VarText(dollar, open, name, close)|)
    ensures p < |t| && (NameStart(t[p]) || t[p] == '$')
    ensures t[NameBegin(t, p)..NameEnd(t, p)] == name && VarEnd(t, p) == p + |VarText(dollar, open, name, close)|
  {
    hide Ahead, Run;
    var a, b, c := if dollar then "$" else "", if open then "{" else "", if close then "}" else "";
    AheadSplit(t, p, a + b + name, c);
    AheadSplit(t, p, a + b, name);
    AheadSplit(t, p, a, b);
    var s := p + |a| + |b|;
    if dollar {
      AheadOne(t, p, '$');
    }
    if open {
      AheadOne(t, p + 1, '{');
    }
    if close {
      AheadOne(t, s + |name|, '}');
    }
    NameReads(t, s, name);
    assert NameBegin(t, p) == s;
  }

  lemma NameReads(t: string, s: nat, name: string)
    requires AllOf(NameChar, name) && Ahead(t, s, name) && !NameChar(At(t, s + |name|))
    ensures s <= |t| && Run(NameChar, t[s..]) == |name| && t[s..s + |name|] == name
    ensures name != [] ==> At(t, s) == name[0]
  {
    AheadIsSlice(t, s, name);
    RunAhead(NameChar, t, s, name);
  }

  lemma RestStops(env: Env, t: string, lv: nat, v: int, q: nat)
    requires q <= |t| && lv <= 9 && NoOp(t, q, lv)
    ensures Rest(env, t, lv, v, q) == Ok(v, Skip(t, q))
  {
    hide OpAt, ApplyBin, OpText, Operand, At;
  }

  /** One round of the loop, ending in `x` with the cursor at `q`. */
  lemma RestGoes(env: Env, t: string, lv: nat, v: int, p: nat, op: BinOp, r: Res, x: int, q: nat)
    requires p <= |t| && q <= |t| && lv <= 9
    requires OpAt(lv, At(t, Skip(t, p)), At(t, Skip(t, p) + 1)) == Some(op)
    requires Skip(t, p) + |OpText(op)| <= |t| && r == Operand(env, t, lv, Skip(t, p) + |OpText(op)|)
    ensures r.Err? ==> Rest(env, t, lv, v, p).Err?
    ensures r.Ok? && ApplyBin(op, v, r.v).None? ==> Rest(env, t, lv, v, p).Err?
    ensures r.Ok? && ApplyBin(op, v, r.v) == Some(x) && Skip(t, r.p) == Skip(t, q) ==>
              Rest(env, t, lv, v, p) == Rest(env, t, lv, x, q)
  {
    hide OpAt, ApplyBin, OpText, Operand, At;
    if r.Ok? && ApplyBin(op, v, r.v) == Some(x) && Skip(t, r.p) == Skip(t, q) {
      RestFrom(env, t, lv, x, r.p, q);
    }
  }

  lemma PrimNum(env: Env, t: string, p: nat, ws: string, d: string)
    requires AllOf(IsSpace, ws) && Ahead(t, p, ws) && IsLiteral(d) && Ahead(t, p + |ws|, d)
    requires TokenEnd(t, p + |ws| + |d|)
    ensures p <= |t| && Prim(env, t, p) == Ok(LiteralValue(d), p + |ws| + |d|)
    ensures UnAt(At(t, Skip(t, p))).None?
  {
    hide BinAt, LiteralValue, VarValue, IsLiteral, Ahead, NumEnd;
    NumReads(t, p + |ws|, d);
    SkipAhead(t, p, ws);
  }

  lemma PrimVar(env: Env, t: string, p: nat, ws: string, dollar: bool, open: bool, name: string, close: bool)
    requires AllOf(IsSpace, ws) && Ahead(t, p, ws)
    requires WfVar(dollar, open, name) && Ahead(t, p + |ws|, VarText(dollar, open, name, close))
    requires TokenEnd(t, p + |ws| + |VarText(dollar, open, name, close)|)
    ensures p <= |t|
    ensures Prim(env, t, p) == Ok(VarValue(env, name), p + |ws| + |VarText(dollar, open, name, close)|)
    ensures UnAt(At(t, Skip(t, p))).None?
  {
    hide BinAt, LiteralValue, VarValue, WfVar, VarText, Ahead, NumEnd, NameBegin, NameEnd, VarEnd;
    VarReads(t, p + |ws|, dollar, open, name, close);
    SkipAhead(t, p, ws);
  }

  /** A parenthesis whose inside is read up to `q`. */
  lemma PrimParen(env: Env, t: string, p: nat, ws: string, r: Res, q: nat, ws2: string)
    requires AllOf(IsSpace, ws) && Ahead(t, p, ws) && At(t, p + |ws|) == '('
    requires r == BinAt(env, t, 0, p + |ws| + 1)
    requires r.Ok? ==> r.p <= |t| && q <= |t| && Skip(t, r.p) == Skip(t, q)
    requires AllOf(IsSpace, ws2) && Ahead(t, q, ws2) && At(t, q + |ws2|) == ')'
    ensures p <= |t| && Prim(env, t, p) == if r.Ok? then Ok(r.v, q + |ws2| + 1) else Err
    ensures UnAt(At(t, Skip(t, p))).None?
  {
    hide BinAt, LiteralValue, VarValue, Ahead, Skip, NameStart, IsDigit, NameBegin, NameEnd, VarEnd, NumEnd;
    SkipAhead(t, p, ws);
    SkipAhead(t, q, ws2);
  }

  lemma {:induction false} PrimReads(env: Env, t: string, p: nat, e: Expr)
    requires Wf(e) && LevelOf(e) == 11 && Lies(t, p, e) && TokenEnd(t, p + Len(e))
    ensures p <= |t| && Delivers(env, t, e, Prim(env, t, p), p + Len(e))
    ensures UnAt(At(t, Skip(t, p))).None?
    decreases e, 0
  {
    hide Prim, BinAt, Rest, OpText, LiteralValue, VarValue, VarText, IsLiteral, WfVar, Ahead, TokenEnd, UnAt, Skip,
         Stop, NoOp, AllOf, At, Level;
    match e
    case Num(ws, digits) =>
      PrimNum(env, t, p, ws, digits);
    case Var(ws, dollar, open, name, close) =>
      PrimVar(env, t, p, ws, dollar, open, name, close);
    case Paren(ws, e', ws2) =>
      var b := p + |ws| + 1;
      var q := b + Len(e');
      ParenStops(t, q, ws2);
      BinReads(env, t, b, e', 0);
      if Eval(env, e').Some? {
        RestStops(env, t, 0, Eval(env, e').value, q);
        SkipSkip(t, q);
      }
      PrimParen(env, t, p, ws, BinAt(env, t, 0, b), q, ws2);
  }

  lemma SkipSkip(t: string, q: nat)
    requires q <= |t|
    ensures Skip(t, Skip(t, q)) == Skip(t, q)
  {
    SkipNone(t, Skip(t, q));
  }

  lemma ParenStops(t: string, q: nat, ws: string)
    requires AllOf(IsSpace, ws) && Ahead(t, q, ws) && At(t, q + |ws|) == ')'
    ensures q <= |t| && Stop(t, q, 0) && NoOp(t, q, 0)
  {
    SkipAhead(t, q, ws);
    WsOrNext(t, q, ws);
  }

  lemma {:induction false} UnaryReads(env: Env, t: string, p: nat, e: Expr)
    requires Wf(e) && LevelOf(e) >= 10 && Lies(t, p, e) && TokenEnd(t, p + Len(e))
    ensures p <= |t| && Delivers(env, t, e, Unary(env, t, p), p + Len(e))
    decreases e, 1
  {
    hide Prim, ApplyUn, OpText, BinAt, Ahead, TokenEnd, Unary, Skip, UnAt;
    if e.Un? {
      UnaryReads(env, t, p + |e.ws| + 1, e.e);
      UnarySign(env, t, p, e.ws, e.uop);
    } else {
      PrimReads(env, t, p, e);
      PrimFrom(env, t, p);
      UnaryPrim(env, t, p);
    }
  }

  lemma UnarySign(env: Env, t: string, p: nat, ws: string, op: UnOp)
    requires AllOf(IsSpace, ws) && Ahead(t, p, ws) && At(t, p + |ws|) == UnChar(op)
    ensures p + |ws| + 1 <= |t|
    ensures Unary(env, t, p) ==
            match Unary(env, t, p + |ws| + 1)
            case Err => Err
            case Ok(v, e) => Ok(ApplyUn(op, v), e)
  {
    hide Prim, ApplyUn, Ahead, Skip;
    SkipAhead(t, p, ws);
  }

  lemma UnaryPrim(env: Env, t: string, p: nat)
    requires p <= |t| && UnAt(At(t, Skip(t, p))).None?
    ensures Unary(env, t, p) == Prim(env, t, Skip(t, p))
  {
    hide Prim, ApplyUn, UnAt;
  }

  lemma PrimFrom(env: Env, t: string, p: nat)
    requires p <= |t|
    ensures Prim(env, t, Skip(t, p)) == Prim(env, t, p)
  {
    hide BinAt, LiteralValue, VarValue;
    SkipNone(t, Skip(t, p));
  }

  /** An operand of level `lv` is read up to the white space behind it. */
  lemma {:induction false} OperandReads(env: Env, t: string, p: nat, e: Expr, lv: nat)
    requires Wf(e) && lv <= 9 && LevelOf(e) > lv && Lies(t, p, e) && Stop(t, p + Len(e), lv)
    ensures p <= |t| && Delivers(env, t, e, Operand(env, t, lv, p), p + Len(e))
    decreases e, 2 + 2 * (9 - lv)
  {
    hide Unary, BinAt, Rest, OpAt, OpText, Lies, Wf;
    if lv == 9 {
      UnaryReads(env, t, p, e);
    } else {
      BinReads(env, t, p, e, lv + 1);
      var q := p + Len(e);
      assert NoOp(t, q, lv + 1);
      if Eval(env, e).Some? {
        RestStops(env, t, lv + 1, Eval(env, e).value, q);
        SkipNone(t, Skip(t, q));
      }
    }
  }

  /** At level `lv` the whole expression is read and the loop goes on behind it. */
  lemma {:induction false} BinReads(env: Env, t: string, p: nat, e: Expr, lv: nat)
    requires Wf(e) && lv <= 9 && LevelOf(e) >= lv && Lies(t, p, e) && Stop(t, p + Len(e), lv)
    ensures p <= |t|
    ensures match Eval(env, e)
            case None => BinAt(env, t, lv, p).Err?
            case Some(v) => BinAt(env, t, lv, p) == Rest(env, t, lv, v, p + Len(e))
    decreases e, 3 + 2 * (9 - lv)
  {
    hide Operand, Rest, OpAt, OpText, ApplyBin, Ahead, Stop, Skip, At, Wf, Lies, Len;
    LiesStart(t, p, e);
    if LevelOf(e) > lv {
      OperandReads(env, t, p, e, lv);
      if Eval(env, e).Some? {
        RestFrom(env, t, lv, Eval(env, e).value, Operand(env, t, lv, p).p, p + Len(e));
      }
    } else {
      NodeReads(env, t, p, e);
    }
  }

  /** The left operand, then one round of the loop for the operator. */
  lemma {:induction false} NodeReads(env: Env, t: string, p: nat, e: Expr)
    requires Wf(e) && e.Bin? && Lies(t, p, e) && Stop(t, p + Len(e), Level(e.op))
    ensures p <= |t|
    ensures match Eval(env, e)
            case None => BinAt(env, t, Level(e.op), p).Err?
            case Some(v) => BinAt(env, t, Level(e.op), p) == Rest(env, t, Level(e.op), v, p + Len(e))
    decreases e, 0
  {
    hide BinAt, Operand, Rest, OpAt, OpText, ApplyBin, Ahead, Stop, Skip, At, Level;
    var lv := Level(e.op);
    var a := p + Len(e.l);
    var b := a + |e.ws| + |OpText(e.op)|;
    var q := b + Len(e.r);
    LiesStart(t, p, e);
    BeforeOp(t, a, e.ws, e.op, e.r);
    BinReads(env, t, p, e.l, lv);
    OperandReads(env, t, b, e.r, lv);
    if Eval(env, e.l).Some? {
      RestGoes(env, t, lv, Eval(env, e.l).value, a, e.op, Operand(env, t, lv, b),
               if Eval(env, e).Some? then Eval(env, e).value else 0, q);
    }
  }

  /** Every well-formed text, with white space behind it, evaluates to its value: an error
      exactly when some division in it is by zero. */
  lemma Complete(env: Env, e: Expr, ws: string)
    requires Wf(e) && AllOf(IsSpace, ws)
    ensures EvalArith(env, Text(e) + ws) == Eval(env, e)
  {
    hide Text, Eval, OpText, Lies, BinAt, Wf, OpAt;
    var t := Text(e) + ws;
    LiesIsText(t, 0, e);
    var q := Len(e);
    assert Ahead(t, 0, t) && Ahead(t, 0, Text(e)) && Ahead(t, q, ws) by { AheadSplit(t, 0, Text(e), ws); }
    SkipAhead(t, q, ws);
    SkipNone(t, |t|);
    WsOrNext(t, q, ws);
    EndStops(t, q);
    BinReads(env, t, 0, e, 0);
    if Eval(env, e).Some? {
      RestStops(env, t, 0, Eval(env, e).value, q);
    }
  }

  /** At the end of the text no operator follows. */
  lemma EndStops(t: string, q: nat)
    requires q <= |t| && Skip(t, q) == |t| && TokenEnd(t, q)
    ensures Stop(t, q, 0) && NoOp(t, q, 0)
  {
  }
}
