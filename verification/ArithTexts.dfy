/** How expressions are written: the spelling of the operators, their precedence and the three kinds of
    literals, on texts. */
module ArithTexts {
  import opened Common
  import opened ArithSyntax
  import opened ArithParser
  import opened ArithCorrect

  /** The value of a digit. */
  function Digit(c: char): int
    requires IsDigit(c)
  {
    c as int - 48
  }

  function One(c: char): Expr {
    Num("", [c])
  }

  lemma OneIs(env: Env, c: char)
    requires IsDigit(c)
    ensures Wf(One(c)) && Text(One(c)) == [c] && LevelOf(One(c)) == 11 && Eval(env, One(c)) == Some(Digit(c))
  {
    assert [c][..0] == "" && Positional(10, "") == 0;
    assert Positional(10, [c]) == DigitValue(c);
    assert "" + [c] == [c];
  }

  /** An expression without white space behind it. */
  lemma EvalText(env: Env, e: Expr, t: string)
    requires Wf(e) && Text(e) == t
    ensures EvalArith(env, t) == Eval(env, e)
  {
    hide EvalArith, Text, Eval, Wf;
    Complete(env, e, "");
    assert t + "" == t;
  }

  /** Two operators, the first or the second applied first. */
  function LeftFirst(op1: BinOp, op2: BinOp, x: int, y: int, z: int): Option<int> {
    match ApplyBin(op1, x, y)
    case None => None
    case Some(v) => ApplyBin(op2, v, z)
  }

  function RightFirst(op1: BinOp, op2: BinOp, x: int, y: int, z: int): Option<int> {
    match ApplyBin(op2, y, z)
    case None => None
    case Some(v) => ApplyBin(op1, x, v)
  }

  lemma Pair(env: Env, l: Expr, op: BinOp, r: Expr)
    requires Wf(l) && Wf(r) && LevelOf(l) >= Level(op) && LevelOf(r) > Level(op)
    ensures var e := Bin(l, "", op, r);
            && Wf(e) && Text(e) == Text(l) + OpText(op) + Text(r) && LevelOf(e) == Level(op)
            && Eval(env, e) == match (Eval(env, l), Eval(env, r))
                               case (Some(v), Some(w)) => ApplyBin(op, v, w)
                               case _ => None
  {
    hide ApplyBin;
    assert Text(l) + "" == Text(l);
  }

  lemma GroupsRight(env: Env, a: char, op1: BinOp, b: char, op2: BinOp, c: char)
    requires IsDigit(a) && IsDigit(b) && IsDigit(c) && Level(op1) < Level(op2)
    ensures EvalArith(env, [a] + OpText(op1) + [b] + OpText(op2) + [c])
         == RightFirst(op1, op2, Digit(a), Digit(b), Digit(c))
  {
    hide EvalArith, OpText, Eval, Text, Wf, LevelOf, Level, ApplyBin, Digit, One, IsDigit;
    OneIs(env, a);
    OneIs(env, b);
    OneIs(env, c);
    var r := Bin(One(b), "", op2, One(c));
    Pair(env, One(b), op2, One(c));
    Pair(env, One(a), op1, r);
    Reassociate([a] + OpText(op1), [b], OpText(op2), [c]);
    EvalText(env, Bin(One(a), "", op1, r), [a] + OpText(op1) + [b] + OpText(op2) + [c]);
  }

  lemma GroupsLeft(env: Env, a: char, op1: BinOp, b: char, op2: BinOp, c: char)
    requires IsDigit(a) && IsDigit(b) && IsDigit(c) && Level(op1) >= Level(op2)
    ensures EvalArith(env, [a] + OpText(op1) + [b] + OpText(op2) + [c])
         == LeftFirst(op1, op2, Digit(a), Digit(b), Digit(c))
  {
    hide EvalArith, OpText, Eval, Text, Wf, LevelOf, Level, ApplyBin, Digit, One, IsDigit;
    OneIs(env, a);
    OneIs(env, b);
    OneIs(env, c);
    var l := Bin(One(a), "", op1, One(b));
    Pair(env, One(a), op1, One(b));
    Pair(env, l, op2, One(c));
    EvalText(env, Bin(l, "", op2, One(c)), [a] + OpText(op1) + [b] + OpText(op2) + [c]);
  }

  lemma Reassociate(s: string, t: string, u: string, v: string)
    ensures s + (t + u + v) == s + t + u + v
  {
  }

  /** Every level binds tighter than the one before it. */
  lemma Precedence(env: Env, a: char, b: char, c: char)
    requires IsDigit(a) && IsDigit(b) && IsDigit(c)
    ensures var x, y, z := Digit(a), Digit(b), Digit(c);
            && EvalArith(env, [a] + "||" + [b] + "&&" + [c]) == RightFirst(LogOr, LogAnd, x, y, z)
            && EvalArith(env, [a] + "&&" + [b] + "|" + [c]) == RightFirst(LogAnd, BitOr, x, y, z)
            && EvalArith(env, [a] + "|" + [b] + "^" + [c]) == RightFirst(BitOr, BitXor, x, y, z)
            && EvalArith(env, [a] + "^" + [b] + "&" + [c]) == RightFirst(BitXor, BitAnd, x, y, z)
            && EvalArith(env, [a] + "&" + [b] + "==" + [c]) == RightFirst(BitAnd, Eq, x, y, z)
            && EvalArith(env, [a] + "!=" + [b] + "<" + [c]) == RightFirst(Ne, Lt, x, y, z)
            && EvalArith(env, [a] + "<=" + [b] + "<<" + [c]) == RightFirst(Le, Shl, x, y, z)
            && EvalArith(env, [a] + ">>" + [b] + "+" + [c]) == RightFirst(Shr, Add, x, y, z)
            && EvalArith(env, [a] + "-" + [b] + "*" + [c]) == RightFirst(Sub, Mul, x, y, z)
  {
    hide EvalArith, RightFirst, LeftFirst, Digit;
    GroupsRight(env, a, LogOr, b, LogAnd, c);
    GroupsRight(env, a, LogAnd, b, BitOr, c);
    GroupsRight(env, a, BitOr, b, BitXor, c);
    GroupsRight(env, a, BitXor, b, BitAnd, c);
    GroupsRight(env, a, BitAnd, b, Eq, c);
    GroupsRight(env, a, Ne, b, Lt, c);
    GroupsRight(env, a, Le, b, Shl, c);
    GroupsRight(env, a, Shr, b, Add, c);
    GroupsRight(env, a, Sub, b, Mul, c);
  }

  /** Operators of one level group from the left. */
  lemma Associativity(env: Env, a: char, b: char, c: char)
    requires IsDigit(a) && IsDigit(b) && IsDigit(c)
    ensures var x, y, z := Digit(a), Digit(b), Digit(c);
            && EvalArith(env, [a] + "-" + [b] + "+" + [c]) == LeftFirst(Sub, Add, x, y, z)
            && EvalArith(env, [a] + "/" + [b] + "*" + [c]) == LeftFirst(Div, Mul, x, y, z)
            && EvalArith(env, [a] + "*" + [b] + "%" + [c]) == LeftFirst(Mul, Mod, x, y, z)
            && EvalArith(env, [a] + "<<" + [b] + ">>" + [c]) == LeftFirst(Shl, Shr, x, y, z)
            && EvalArith(env, [a] + ">" + [b] + ">=" + [c]) == LeftFirst(Gt, Ge, x, y, z)
            && EvalArith(env, [a] + "==" + [b] + "!=" + [c]) == LeftFirst(Eq, Ne, x, y, z)
  {
    hide EvalArith, RightFirst, LeftFirst, Digit;
    GroupsLeft(env, a, Sub, b, Add, c);
    GroupsLeft(env, a, Div, b, Mul, c);
    GroupsLeft(env, a, Mul, b, Mod, c);
    GroupsLeft(env, a, Shl, b, Shr, c);
    GroupsLeft(env, a, Gt, b, Ge, c);
    GroupsLeft(env, a, Eq, b, Ne, c);
  }

  /** Prefix operators bind tighter than any other, and parentheses override all. */
  lemma PrefixAndParentheses(env: Env, a: char, b: char, c: char)
    requires IsDigit(a) && IsDigit(b) && IsDigit(c)
    ensures var x, y, z := Digit(a), Digit(b), Digit(c);
            && EvalArith(env, "-" + [a] + "*" + [b]) == ApplyBin(Mul, ApplyUn(Neg, x), y)
            && EvalArith(env, "!" + [a] + "*" + [b]) == ApplyBin(Mul, ApplyUn(Not, x), y)
            && EvalArith(env, "~" + [a] + "*" + [b]) == ApplyBin(Mul, ApplyUn(Compl, x), y)
            && EvalArith(env, "+" + [a] + "*" + [b]) == ApplyBin(Mul, x, y)
            && EvalArith(env, [a] + "*(" + [b] + "+" + [c] + ")") == RightFirst(Mul, Add, x, y, z)
  {
    hide EvalArith, ApplyBin, Wf;
    PrefixIs(env, Neg, a, b);
    PrefixIs(env, Not, a, b);
    PrefixIs(env, Compl, a, b);
    PrefixIs(env, Pos, a, b);
    ParenthesesAre(env, a, b, c);
  }

  lemma PrefixIs(env: Env, op: UnOp, a: char, b: char)
    requires IsDigit(a) && IsDigit(b)
    ensures EvalArith(env, [UnChar(op)] + [a] + "*" + [b]) == ApplyBin(Mul, ApplyUn(op, Digit(a)), Digit(b))
  {
    hide EvalArith, Eval, Text, Wf, LevelOf, ApplyBin, ApplyUn, Digit, UnChar, One, IsDigit;
    OneIs(env, b);
    var u := Un("", op, One(a));
    PrefixOne(env, op, a);
    Pair(env, u, Mul, One(b));
    EvalText(env, Bin(u, "", Mul, One(b)), [UnChar(op)] + [a] + "*" + [b]);
  }

  lemma PrefixOne(env: Env, op: UnOp, a: char)
    requires IsDigit(a)
    ensures var u := Un("", op, One(a));
            && Wf(u) && Text(u) == [UnChar(op)] + [a] && LevelOf(u) == 10
            && Eval(env, u) == Some(ApplyUn(op, Digit(a)))
  {
    OneIs(env, a);
    hide ApplyUn, One, IsDigit, UnChar;
    assert "" + [UnChar(op)] == [UnChar(op)];
  }

  lemma ParenthesesAre(env: Env, a: char, b: char, c: char)
    requires IsDigit(a) && IsDigit(b) && IsDigit(c)
    ensures EvalArith(env, [a] + "*(" + [b] + "+" + [c] + ")")
         == RightFirst(Mul, Add, Digit(a), Digit(b), Digit(c))
  {
    hide EvalArith, Eval, Text, Wf, LevelOf, ApplyBin, Digit, One, IsDigit;
    OneIs(env, a);
    OneIs(env, b);
    OneIs(env, c);
    var s := Bin(One(b), "", Add, One(c));
    Pair(env, One(b), Add, One(c));
    var e := Paren("", s, "");
    InParentheses(env, s);
    Pair(env, One(a), Mul, e);
    var t := [a] + "*(" + [b] + "+" + [c] + ")";
    assert [a] + "*" + ("(" + ([b] + "+" + [c]) + ")") == t;
    EvalText(env, Bin(One(a), "", Mul, e), t);
  }

  lemma InParentheses(env: Env, s: Expr)
    requires Wf(s)
    ensures var e := Paren("", s, "");
            Wf(e) && Eval(env, e) == Eval(env, s) && LevelOf(e) == 11 && Text(e) == "(" + Text(s) + ")"
  {
    hide Eval;
    assert Eval(env, Paren("", s, "")) == Eval(env, s) by { ParenValue(env, s); }
    assert "" + "(" + Text(s) + "" + ")" == "(" + Text(s) + ")";
  }

  lemma ParenValue(env: Env, s: Expr)
    ensures Eval(env, Paren("", s, "")) == Eval(env, s)
  {
  }

  /** Decimal, octal and hexadecimal literals of two digits. */
  lemma Literals(env: Env, a: char, b: char)
    ensures IsDigit(a) && a != '0' && IsDigit(b) ==> EvalArith(env, [a, b]) == Some(10 * Digit(a) + Digit(b))
    ensures '0' <= a <= '7' && '0' <= b <= '7' ==> EvalArith(env, ['0', a, b]) == Some(8 * Digit(a) + Digit(b))
    ensures IsDigit(a) && IsDigit(b) ==> EvalArith(env, ['0', 'x', a, b]) == Some(16 * Digit(a) + Digit(b))
    ensures IsDigit(a) && 'a' <= b <= 'f' ==>
              EvalArith(env, ['0', 'x', a, b]) == Some(16 * Digit(a) + (b as int - 97) + 10)
    ensures IsDigit(a) && 'A' <= b <= 'F' ==>
              EvalArith(env, ['0', 'X', a, b]) == Some(16 * Digit(a) + (b as int - 65) + 10)
  {
    TwoDigits(8, a, b);
    TwoDigits(10, a, b);
    TwoDigits(16, a, b);
    LiteralText(env, [a, b]);
    LiteralText(env, ['0', a, b]);
    LiteralText(env, ['0', 'x', a, b]);
    LiteralText(env, ['0', 'X', a, b]);
    hide EvalArith, Positional;
    assert ['0', a, b][1..] == [a, b] && ['0', 'x', a, b][2..] == [a, b] && ['0', 'X', a, b][2..] == [a, b];
  }

  lemma LiteralText(env: Env, d: string)
    ensures IsLiteral(d) ==> EvalArith(env, d) == Some(LiteralValue(d))
  {
    if IsLiteral(d) {
      hide EvalArith, LiteralValue, IsLiteral;
      var e := Num("", d);
      assert "" + d == d;
      assert Wf(e);
      EvalText(env, e, d);
    }
  }

  lemma TwoDigits(base: int, a: char, b: char)
    ensures Positional(base, [a, b]) == DigitValue(a) * base + DigitValue(b)
  {
    assert [a, b][..1] == [a] && [a][..0] == "";
    assert Positional(base, [a]) == DigitValue(a);
  }

  /** The three ways to write a variable. */
  lemma VariableSpellings(env: Env)
    ensures EvalArith(env, "x") == EvalArith(env, "$x") == EvalArith(env, "${x}") == Some(VarValue(env, "x"))
  {
    hide EvalArith, VarValue;
    VariableText(env, false, false, false, "x");
    VariableText(env, true, false, false, "$x");
    VariableText(env, true, true, true, "${x}");
  }

  /** A variable is 0 if it is not set, and otherwise the decimal number it begins with, after a sign. */
  lemma VariableValues(env: Env, x: string, a: char, b: char)
    requires IsDigit(a) && IsDigit(b)
    ensures x !in env ==> VarValue(env, x) == 0
    ensures x in env && env[x] == [a, b] ==> VarValue(env, x) == 10 * Digit(a) + Digit(b)
    ensures x in env && env[x] == ['-', a, b] ==> VarValue(env, x) == -(10 * Digit(a) + Digit(b))
    ensures x in env && env[x] == ['+', a, b, ' '] ==> VarValue(env, x) == 10 * Digit(a) + Digit(b)
  {
    FrontNumber([a, b], a, b);
    FrontNumber([a, b, ' '], a, b);
    hide Positional, Run, Digit;
    assert ['-', a, b][1..] == [a, b] && ['+', a, b, ' '][1..] == [a, b, ' '];
    SmallWraps(10 * Digit(a) + Digit(b), a, b);
  }

  lemma SmallWraps(n: int, a: char, b: char)
    requires IsDigit(a) && IsDigit(b) && n == 10 * Digit(a) + Digit(b)
    ensures Wrap(n) == n && Wrap(-n) == -n
  {
  }

  lemma FrontNumber(s: string, a: char, b: char)
    requires IsDigit(a) && IsDigit(b) && (s == [a, b] || s == [a, b, ' '])
    ensures Positional(10, s[..Run(IsDigit, s)]) == 10 * Digit(a) + Digit(b)
  {
    RunOfTwo(s);
    assert s[..2] == [a, b];
    TwoDigits(10, a, b);
  }

  lemma RunOfTwo(s: string)
    requires 2 <= |s| <= 3 && IsDigit(s[0]) && IsDigit(s[1]) && (|s| == 3 ==> !IsDigit(s[2]))
    ensures Run(IsDigit, s) == 2
  {
    RunFrom(IsDigit, s, 0);
    RunFrom(IsDigit, s, 1);
    RunFrom(IsDigit, s, 2);
    assert s[0..] == s;
  }

  lemma VariableText(env: Env, dollar: bool, open: bool, close: bool, t: string)
    requires (open ==> dollar) && t == VarText(dollar, open, "x", close)
    ensures EvalArith(env, t) == Some(VarValue(env, "x"))
  {
    hide EvalArith, VarValue;
    var e := Var("", dollar, open, "x", close);
    assert "" + t == t;
    EvalText(env, e, t);
  }
}
