/** The compiled form of a regular expression and what it means to match one.

    A pattern compiles to a tree of nodes.  `MatchNode` gives the tree its meaning as a
    relation between two matcher states (a position and the capture arrays), with no
    search order, no continuations and no step limit in it.
 */
module RegexTree {
  import opened Common

  const NGROUPS: nat := 32
  const STEP_LIMIT: nat := 4000000

  /** `max < 0` means unbounded. */
  datatype Node =
    | Char(ch: Byte)
    | Any
    | Class(bits: set<Byte>, neg: bool)
    | Bol
    | Eol
    | Group(idx: nat, sub: Branch)
    | Backref(idx: nat)
    | Alt(alts: seq<Branch>)
    | Rep(min: nat, max: int, sub: Branch)

  datatype Branch = Branch(v: seq<Node>)

  /** The string searched (`len` bytes of `s`) with the flags of regcomp and regexec. */
  datatype Subject = Subject(s: seq<Byte>, len: nat, icase: bool, newline: bool, notbol: bool, noteol: bool)

  ghost predicate ValidSubject(x: Subject) {
    x.len <= |x.s|
  }

  /** A position together with the starts and ends of all groups, -1 when unset. */
  datatype St = St(pos: nat, gs: seq<int>, ge: seq<int>)

  /** One of the two capture arrays. */
  ghost predicate ValidCaps(x: Subject, g: seq<int>) {
    |g| == NGROUPS + 1 && forall i | 0 <= i <= NGROUPS :: -1 <= g[i] <= x.len
  }

  ghost predicate ValidSt(x: Subject, a: St) {
    a.pos <= x.len && ValidCaps(x, a.gs) && ValidCaps(x, a.ge)
  }

  /** The parser numbers groups from 1 and refuses a 32nd one. */
  ghost predicate WfNode(n: Node)
    decreases n, 0
  {
    match n
    case Group(idx, sub) => 1 <= idx <= NGROUPS && WfBranch(sub)
    case Backref(idx) => idx <= NGROUPS
    case Alt(alts) => forall j | 0 <= j < |alts| :: WfBranch(alts[j])
    case Rep(_, _, sub) => WfBranch(sub)
    case _ => true
  }

  ghost predicate WfBranch(q: Branch)
    decreases q, 1
  {
    forall j | 0 <= j < |q.v| :: WfNode(q.v[j])
  }

  // ----- single characters -----

  function ToLower(c: Byte): (r: Byte) {
    if 'A' as int <= c <= 'Z' as int then c + 32 else c
  }

  function ToUpper(c: Byte): (r: Byte) {
    if 'a' as int <= c <= 'z' as int then c - 32 else c
  }

  const NEWLINE: Byte := 10

  /** Two bytes are the same letter under the subject's case rule. */
  ghost predicate SameChar(x: Subject, a: Byte, b: Byte) {
    a == b || (x.icase && ToLower(a) == ToLower(b))
  }

  /** Does the one-character node `n` match the byte `c`? */
  ghost predicate Accepts(x: Subject, n: Node, c: Byte) {
    match n
    case Char(ch) => SameChar(x, c, ch)
    case Any => !(x.newline && c == NEWLINE)
    case Class(bits, neg) =>
      var member := exists d | d in bits :: SameChar(x, c, d);
      if neg then !member && !(x.newline && c == NEWLINE) else member
    case _ => false
  }

  ghost predicate AtBol(x: Subject, pos: nat)
    requires ValidSubject(x)
  {
    (pos == 0 && !x.notbol) || (x.newline && 0 < pos <= x.len && x.s[pos - 1] == NEWLINE)
  }

  ghost predicate AtEol(x: Subject, pos: nat)
    requires ValidSubject(x)
  {
    (pos == x.len && !x.noteol) || (x.newline && pos < x.len && x.s[pos] == NEWLINE)
  }

  /** The text of group `idx` occurs again at `pos`. */
  ghost predicate Repeats(x: Subject, a: St, idx: nat)
    requires ValidSubject(x) && ValidSt(x, a) && idx <= NGROUPS
  {
    var lo, hi := a.gs[idx], a.ge[idx];
    && 0 <= lo <= hi
    && a.pos + (hi - lo) <= x.len
    && SameText(x, x.s[lo..hi], x.s[a.pos..a.pos + (hi - lo)])
  }

  ghost predicate SameText(x: Subject, u: seq<Byte>, v: seq<Byte>) {
    |u| == |v| && forall i | 0 <= i < |u| :: SameChar(x, u[i], v[i])
  }

  // ----- the meaning of a tree, with captures -----

  ghost function Open(a: St, idx: nat): St
    requires idx < |a.gs|
  {
    a.(gs := a.gs[idx := a.pos])
  }

  ghost function Close(a: St, idx: nat): St
    requires idx < |a.ge|
  {
    a.(ge := a.ge[idx := a.pos])
  }

  /** Node `n` can take the matcher from state `a` to state `b`. */
  ghost predicate MatchNode(x: Subject, n: Node, a: St, b: St)
    requires ValidSubject(x)
    decreases n, 0
  {
    && ValidSt(x, a)
    && ValidSt(x, b)
    && match n
       case Char(_) => OneChar(x, n, a, b)
       case Any => OneChar(x, n, a, b)
       case Class(_, _) => OneChar(x, n, a, b)
       case Bol => AtBol(x, a.pos) && b == a
       case Eol => AtEol(x, a.pos) && b == a
       case Group(idx, sub) =>
         1 <= idx <= NGROUPS && exists m :: MatchSeq(x, sub, 0, Open(a, idx), m) && b == Close(m, idx)
       case Backref(idx) =>
         idx <= NGROUPS && Repeats(x, a, idx) && b == a.(pos := a.pos + (a.ge[idx] - a.gs[idx]))
       case Alt(alts) =>
         exists j | 0 <= j < |alts| :: MatchSeq(x, alts[j], 0, a, b)
       case Rep(min, max, sub) =>
         exists t: seq<St> :: Rounds(x, sub, t) && t[0] == a && t[|t| - 1] == b && CountOk(0, min, max, |t| - 1)
  }

  ghost predicate OneChar(x: Subject, n: Node, a: St, b: St)
    requires ValidSubject(x)
  {
    a.pos < x.len && Accepts(x, n, x.s[a.pos]) && b == a.(pos := a.pos + 1)
  }

  /** The nodes of `q` from index `i` on, one after the other. */
  ghost predicate MatchSeq(x: Subject, q: Branch, i: nat, a: St, b: St)
    requires ValidSubject(x)
    decreases q, 1, |q.v| - i
  {
    && ValidSt(x, a)
    && ValidSt(x, b)
    && if i >= |q.v| then a == b
       else exists m :: MatchNode(x, q.v[i], a, m) && MatchSeq(x, q, i + 1, m, b)
  }

  /** `t` lists the states before, between and after the rounds of a repetition.  Every
      round but the last one consumes something. */
  ghost predicate Rounds(x: Subject, q: Branch, t: seq<St>)
    requires ValidSubject(x)
    decreases q, 2
  {
    && |t| >= 1
    && ValidSt(x, t[0])
    && (forall i | 0 <= i < |t| - 1 :: MatchSeq(x, q, 0, t[i], t[i + 1]))
    && (forall i | 0 <= i < |t| - 2 :: t[i].pos < t[i + 1].pos)
  }

  /** After `done` rounds, `n` more of them respect the bounds of the repetition. */
  ghost predicate CountOk(done: nat, min: nat, max: int, n: int) {
    min <= done + n && (max < 0 || n == 0 || done + n <= max)
  }

  /** The rest of a repetition of which `done` rounds have already been matched. */
  ghost predicate MatchRep(x: Subject, q: Branch, done: nat, min: nat, max: int, a: St, b: St)
    requires ValidSubject(x)
  {
    exists t: seq<St> :: Rounds(x, q, t) && t[0] == a && t[|t| - 1] == b && CountOk(done, min, max, |t| - 1)
  }

  /** One repetition step at a time: stop here if enough rounds are done, or match the
      body once more; an empty round is always the last. */
  ghost predicate RepUnrolled(x: Subject, q: Branch, done: nat, min: nat, max: int, a: St, b: St)
    requires ValidSubject(x)
  {
    || (done >= min && a == b && ValidSt(x, a))
    || ((max < 0 || done < max) && exists m :: MatchSeq(x, q, 0, a, m) && RepAfter(x, q, done, min, max, a.pos, m, b))
  }

  ghost predicate RepAfter(x: Subject, q: Branch, done: nat, min: nat, max: int, prev: nat, m: St, b: St)
    requires ValidSubject(x)
  {
    if m.pos == prev then done + 1 >= min && m == b else MatchRep(x, q, done + 1, min, max, m, b)
  }

  // ----- first consequences -----

  lemma {:induction false} MatchNodeForward(x: Subject, n: Node, a: St, b: St)
    requires ValidSubject(x) && MatchNode(x, n, a, b)
    ensures a.pos <= b.pos
    decreases n, 0
  {
    match n
    case Group(idx, sub) =>
      var m :| MatchSeq(x, sub, 0, Open(a, idx), m) && b == Close(m, idx);
      MatchSeqForward(x, sub, 0, Open(a, idx), m);
    case Alt(alts) =>
      var j :| 0 <= j < |alts| && MatchSeq(x, alts[j], 0, a, b);
      MatchSeqForward(x, alts[j], 0, a, b);
    case Rep(min, max, sub) =>
      var t: seq<St> :| Rounds(x, sub, t) && t[0] == a && t[|t| - 1] == b && CountOk(0, min, max, |t| - 1);
      RoundsForward(x, sub, t);
    case _ =>
  }

  lemma {:induction false} MatchSeqForward(x: Subject, q: Branch, i: nat, a: St, b: St)
    requires ValidSubject(x) && MatchSeq(x, q, i, a, b)
    ensures a.pos <= b.pos
    decreases q, 1, |q.v| - i
  {
    if i < |q.v| {
      var m :| MatchNode(x, q.v[i], a, m) && MatchSeq(x, q, i + 1, m, b);
      MatchNodeForward(x, q.v[i], a, m);
      MatchSeqForward(x, q, i + 1, m, b);
    }
  }

  lemma {:induction false} RoundsForward(x: Subject, q: Branch, t: seq<St>)
    requires ValidSubject(x) && Rounds(x, q, t)
    ensures ValidSt(x, t[|t| - 1])
    ensures t[0].pos <= t[|t| - 1].pos
    decreases q, 2, |t|
  {
    if |t| > 1 {
      MatchSeqForward(x, q, 0, t[|t| - 2], t[|t| - 1]);
      var t' := t[..|t| - 1];
      assert Rounds(x, q, t');
      RoundsForward(x, q, t');
    }
  }

  lemma MatchRepValid(x: Subject, q: Branch, done: nat, min: nat, max: int, a: St, b: St)
    requires ValidSubject(x) && MatchRep(x, q, done, min, max, a, b)
    ensures ValidSt(x, a) && ValidSt(x, b)
  {
    var t: seq<St> :| Rounds(x, q, t) && t[0] == a && t[|t| - 1] == b && CountOk(done, min, max, |t| - 1);
    RoundsForward(x, q, t);
  }

  lemma RoundsPrepend(x: Subject, q: Branch, a: St, t: seq<St>)
    requires ValidSubject(x) && Rounds(x, q, t) && MatchSeq(x, q, 0, a, t[0])
    requires |t| > 1 ==> a.pos < t[0].pos
    ensures Rounds(x, q, [a] + t)
  {
    var t' := [a] + t;
    forall i | 0 <= i < |t'| - 1
      ensures MatchSeq(x, q, 0, t'[i], t'[i + 1])
    {
      assert i > 0 ==> MatchSeq(x, q, 0, t[i - 1], t[i]);
    }
    forall i | 0 <= i < |t'| - 2
      ensures t'[i].pos < t'[i + 1].pos
    {
      assert i > 0 ==> t[i - 1].pos < t[i].pos;
    }
  }

  lemma RoundsTail(x: Subject, q: Branch, t: seq<St>)
    requires ValidSubject(x) && Rounds(x, q, t) && |t| > 1
    ensures MatchSeq(x, q, 0, t[0], t[1]) && Rounds(x, q, t[1..])
  {
    var t' := t[1..];
    assert MatchSeq(x, q, 0, t[0], t[1]);
    forall i | 0 <= i < |t'| - 1
      ensures MatchSeq(x, q, 0, t'[i], t'[i + 1])
    {
      assert MatchSeq(x, q, 0, t[i + 1], t[i + 2]);
    }
    forall i | 0 <= i < |t'| - 2
      ensures t'[i].pos < t'[i + 1].pos
    {
      assert t[i + 1].pos < t[i + 2].pos;
    }
  }

  /** A repetition is exactly its one-round-at-a-time unrolling. */
  lemma RepUnroll(x: Subject, q: Branch, done: nat, min: nat, max: int, a: St, b: St)
    requires ValidSubject(x) && ValidSt(x, a)
    ensures MatchRep(x, q, done, min, max, a, b) <==> RepUnrolled(x, q, done, min, max, a, b)
  {
    if MatchRep(x, q, done, min, max, a, b) {
      RepUnfold(x, q, done, min, max, a, b);
    }
    if RepUnrolled(x, q, done, min, max, a, b) {
      RepFold(x, q, done, min, max, a, b);
    }
  }

  lemma RepUnfold(x: Subject, q: Branch, done: nat, min: nat, max: int, a: St, b: St)
    requires ValidSubject(x) && MatchRep(x, q, done, min, max, a, b)
    ensures RepUnrolled(x, q, done, min, max, a, b)
  {
    var t: seq<St> :| Rounds(x, q, t) && t[0] == a && t[|t| - 1] == b && CountOk(done, min, max, |t| - 1);
    if |t| > 1 {
      RoundsTail(x, q, t);
      var t' := t[1..];
      if t[1].pos != a.pos {
        assert t'[0] == t[1] && t'[|t'| - 1] == b && CountOk(done + 1, min, max, |t'| - 1);
      } else {
        assert |t| == 2;
      }
      assert RepAfter(x, q, done, min, max, a.pos, t[1], b);
    }
  }

  lemma RepFold(x: Subject, q: Branch, done: nat, min: nat, max: int, a: St, b: St)
    requires ValidSubject(x) && RepUnrolled(x, q, done, min, max, a, b)
    ensures MatchRep(x, q, done, min, max, a, b)
  {
    var t: seq<St> := [a];
    if done >= min && a == b && ValidSt(x, a) {
      assert Rounds(x, q, t);
    } else {
      var m :| MatchSeq(x, q, 0, a, m) && RepAfter(x, q, done, min, max, a.pos, m, b);
      t := [m];
      if m.pos != a.pos {
        MatchSeqForward(x, q, 0, a, m);
        t :| Rounds(x, q, t) && t[0] == m && t[|t| - 1] == b && CountOk(done + 1, min, max, |t| - 1);
      }
      RoundsPrepend(x, q, a, t);
      t := [a] + t;
    }
    assert t[0] == a && t[|t| - 1] == b && CountOk(done, min, max, |t| - 1);
  }
}
