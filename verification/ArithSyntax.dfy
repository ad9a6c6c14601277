/** The arithmetic of `$(( ... ))`: its operators, its values and its concrete syntax.

    An `Expr` is a source text split into its parts, white space and redundant parentheses
    included; `Text` puts it together again and `Eval` is its value.
 */
module ArithSyntax {
  import opened Common
  import Binary

  datatype BinOp =
    | LogOr | LogAnd | BitOr | BitXor | BitAnd | Eq | Ne | Le | Ge | Lt | Gt | Shl | Shr
    | Add | Sub | Mul | Div | Mod

  datatype UnOp = Neg | Pos | Not | Compl

  /** Precedence, loosest first. */
  function Level(op: BinOp): (l: nat)
    ensures l <= 9
  {
    match op
    case LogOr => 0
    case LogAnd => 1
    case BitOr => 2
    case BitXor => 3
    case BitAnd => 4
    case Eq => 5 case Ne => 5
    case Le => 6 case Ge => 6 case Lt => 6 case Gt => 6
    case Shl => 7 case Shr => 7
    case Add => 8 case Sub => 8
    case Mul => 9 case Div => 9 case Mod => 9
  }

  function OpText(op: BinOp): (s: string)
    ensures 1 <= |s| <= 2
  {
    match op
    case LogOr => "||"
    case LogAnd => "&&"
    case BitOr => "|"
    case BitXor => "^"
    case BitAnd => "&"
    case Eq => "==" case Ne => "!="
    case Le => "<=" case Ge => ">=" case Lt => "<" case Gt => ">"
    case Shl => "<<" case Shr => ">>"
    case Add => "+" case Sub => "-"
    case Mul => "*" case Div => "/" case Mod => "%"
  }

  function UnChar(op: UnOp): char {
    match op
    case Neg => '-'
    case Pos => '+'
    case Not => '!'
    case Compl => '~'
  }

  // ----- 64-bit values -----

  /** The long long with the same low 64 bits. */
  function Wrap(x: int): (r: int)
    ensures -0x8000_0000_0000_0000 <= r < 0x8000_0000_0000_0000
  {
    (x + 0x8000_0000_0000_0000) % 0x1_0000_0000_0000_0000 - 0x8000_0000_0000_0000
  }

  /** `n` low bits of two values combined bit by bit. */
  function Bitwise(f: (bool, bool) -> bool, n: nat, x: int, y: int): (r: nat) {
    if n == 0 then 0
    else (if f(x % 2 == 1, y % 2 == 1) then 1 else 0) + 2 * Bitwise(f, n - 1, x / 2, y / 2)
  }

  predicate Both(a: bool, b: bool) { a && b }
  predicate Either(a: bool, b: bool) { a || b }
  predicate Differ(a: bool, b: bool) { a != b }

  function Bool(b: bool): int {
    if b then 1 else 0
  }

  /** The remainder of division toward zero. */
  function TruncMod(a: int, b: int): int
    requires b != 0
  {
    a - TruncDiv(a, b) * b
  }

  /** The value of a binary operation; dividing by zero has none. */
  function ApplyBin(op: BinOp, v: int, r: int): Option<int> {
    match op
    case LogOr => Some(Bool(v != 0 || r != 0))
    case LogAnd => Some(Bool(v != 0 && r != 0))
    case BitOr => Some(Wrap(Bitwise(Either, 64, v, r)))
    case BitXor => Some(Wrap(Bitwise(Differ, 64, v, r)))
    case BitAnd => Some(Wrap(Bitwise(Both, 64, v, r)))
    case Eq => Some(Bool(v == r))
    case Ne => Some(Bool(v != r))
    case Le => Some(Bool(v <= r))
    case Ge => Some(Bool(v >= r))
    case Lt => Some(Bool(v < r))
    case Gt => Some(Bool(v > r))
    case Shl => Some(Wrap(v * Binary.Pow2(r % 64)))
    case Shr => Some(v / Binary.Pow2(r % 64))
    case Add => Some(Wrap(v + r))
    case Sub => Some(Wrap(v - r))
    case Mul => Some(Wrap(v * r))
    case Div => if r == 0 then None else Some(Wrap(TruncDiv(v, r)))
    case Mod => if r == 0 then None else Some(Wrap(TruncMod(v, r)))
  }

  function ApplyUn(op: UnOp, v: int): int {
    match op
    case Neg => Wrap(-v)
    case Pos => v
    case Not => Bool(v == 0)
    case Compl => Wrap(-v - 1)
  }

  // ----- characters -----

  predicate IsSpace(c: char) { c == ' ' || c == '\t' || c == '\n' }
  predicate IsDigit(c: char) { '0' <= c <= '9' }
  predicate IsOctal(c: char) { '0' <= c <= '7' }
  predicate IsHex(c: char) { IsDigit(c) || 'a' <= c <= 'f' || 'A' <= c <= 'F' }
  predicate NameStart(c: char) { c == '_' || 'a' <= c <= 'z' || 'A' <= c <= 'Z' }
  predicate NameChar(c: char) { NameStart(c) || IsDigit(c) }

  predicate AllOf(f: char -> bool, s: string) {
    forall i | 0 <= i < |s| :: f(s[i])
  }

  const NAME_MAX: nat := 127

  // ----- literals and variables -----

  datatype Radix = Dec | Oct | Hex

  /** How a digit string is read: by its first two characters. */
  function RadixOf(d: string): Radix {
    if |d| >= 2 && d[0] == '0' && (d[1] == 'x' || d[1] == 'X') then Hex
    else if |d| >= 2 && d[0] == '0' && IsOctal(d[1]) then Oct
    else Dec
  }

  function DigitValue(c: char): int {
    if IsDigit(c) then c as int - '0' as int
    else if 'a' <= c <= 'f' then c as int - 'a' as int + 10
    else c as int - 'A' as int + 10
  }

  /** Positional value of a digit string. */
  function Positional(base: int, d: string): int {
    if d == [] then 0 else Positional(base, d[..|d| - 1]) * base + DigitValue(d[|d| - 1])
  }

  predicate IsLiteral(d: string) {
    match RadixOf(d)
    case Hex => AllOf(IsHex, d[2..])
    case Oct => AllOf(IsOctal, d[1..])
    case Dec => |d| >= 1 && AllOf(IsDigit, d)
  }

  function LiteralValue(d: string): int {
    match RadixOf(d)
    case Hex => Wrap(Positional(16, d[2..]))
    case Oct => Wrap(Positional(8, d[1..]))
    case Dec => Wrap(Positional(10, d))
  }

  /** The longest prefix of `s` whose characters all satisfy `f`. */
  function Run(f: char -> bool, s: string): (n: nat)
    ensures n <= |s| && AllOf(f, s[..n]) && (n < |s| ==> !f(s[n]))
  {
    if s == [] || !f(s[0]) then 0
    else
      var n := Run(f, s[1..]);
      assert s[..n + 1] == [s[0]] + s[1..][..n];
      n + 1
  }

  /** The run that starts at position `p` of a text. */
  function RunAt(f: char -> bool, t: string, p: nat): nat
    requires p <= |t|
  {
    Run(f, t[p..])
  }

  lemma {:induction false} RunFrom(f: char -> bool, t: string, p: nat)
    requires p <= |t|
    ensures RunAt(f, t, p) == if p < |t| && f(t[p]) then 1 + RunAt(f, t, p + 1) else 0
  {
    if p < |t| {
      assert t[p..][1..] == t[p + 1..];
    }
  }

  type Env = map<string, string>

  /** A variable's value: an optional sign and the digits that follow, 0 if unset. */
  function VarValue(env: Env, name: string): int {
    if name !in env then 0
    else
      var v := env[name];
      var neg := v != [] && v[0] == '-';
      var d := if v != [] && (v[0] == '-' || v[0] == '+') then v[1..] else v;
      var n := Wrap(Positional(10, d[..Run(IsDigit, d)]));
      if neg then Wrap(-n) else n
  }

  // ----- expressions as text -----

  /** Each part keeps the white space in front of it.  A variable may be written `x`,
      `$x`, `${x}`, and the evaluator also lets single braces pass. */
  datatype Expr =
    | Num(ws: string, digits: string)
    | Var(ws: string, dollar: bool, open: bool, name: string, close: bool)
    | Paren(ws: string, e: Expr, ws2: string)
    | Un(ws: string, uop: UnOp, e: Expr)
    | Bin(l: Expr, ws: string, op: BinOp, r: Expr)

  function Text(e: Expr): string {
    match e
    case Num(ws, digits) => ws + digits
    case Var(ws, dollar, open, name, close) => ws + VarText(dollar, open, name, close)
    case Paren(ws, e', ws2) => ws + "(" + Text(e') + ws2 + ")"
    case Un(ws, op, e') => ws + [UnChar(op)] + Text(e')
    case Bin(l, ws, op, r) => Text(l) + ws + OpText(op) + Text(r)
  }

  function VarText(dollar: bool, open: bool, name: string, close: bool): string {
    (if dollar then "$" else "") + (if open then "{" else "") + name + (if close then "}" else "")
  }

  function LevelOf(e: Expr): nat {
    match e
    case Bin(_, _, op, _) => Level(op)
    case Un(_, _, _) => 10
    case _ => 11
  }

  /** Parentheses stand wherever precedence and left associativity call for them. */
  predicate Wf(e: Expr) {
    match e
    case Num(ws, digits) => AllOf(IsSpace, ws) && IsLiteral(digits)
    case Var(ws, dollar, open, name, close) => AllOf(IsSpace, ws) && WfVar(dollar, open, name)
    case Paren(ws, e', ws2) => AllOf(IsSpace, ws) && AllOf(IsSpace, ws2) && Wf(e')
    case Un(ws, _, e') => AllOf(IsSpace, ws) && Wf(e') && LevelOf(e') >= 10
    case Bin(l, ws, op, r) =>
      AllOf(IsSpace, ws) && Wf(l) && Wf(r) && LevelOf(l) >= Level(op) && LevelOf(r) > Level(op)
  }

  predicate WfVar(dollar: bool, open: bool, name: string) {
    && AllOf(NameChar, name) && |name| <= NAME_MAX
    && (open ==> dollar) && (!dollar ==> name != [] && NameStart(name[0]))
  }

  /** Both sides of every operator are evaluated, those of `&&` and `||` too. */
  function Eval(env: Env, e: Expr): Option<int> {
    match e
    case Num(_, digits) => Some(LiteralValue(digits))
    case Var(_, _, _, name, _) => Some(VarValue(env, name))
    case Paren(_, e', _) => Eval(env, e')
    case Un(_, op, e') =>
      (match Eval(env, e')
       case None => None
       case Some(v) => Some(ApplyUn(op, v)))
    case Bin(l, _, op, r) =>
      match (Eval(env, l), Eval(env, r))
      case (Some(v), Some(w)) => ApplyBin(op, v, w)
      case _ => None
  }
}
