/** The backtracking matcher: src/regex.c with its continuations as data. */
module RegexMatcher {
  import opened Common
  import opened RegexTree

  /** The continuation records, innermost first.  `KTop` is the one that keeps the best
      match; the others carry the rest of a sequence, the end of a group and the rest of
      a repetition whose current round started at `prev`. */
  datatype Kont =
    | KTop
    | KSeq(q: Branch, next: nat, k: Kont)
    | KGrp(idx: nat, k: Kont)
    | KRep(sub: Branch, done: nat, prev: nat, min: nat, max: int, k: Kont)

  ghost predicate WfKont(k: Kont) {
    match k
    case KTop => true
    case KSeq(q, next, k') => next <= |q.v| && WfBranch(q) && WfKont(k')
    case KGrp(idx, k') => 1 <= idx <= NGROUPS && WfKont(k')
    case KRep(sub, _, _, _, _, k') => WfBranch(sub) && WfKont(k')
  }

  // ----- the states a search may reach -----

  /** Running continuation `k` in state `a` may hand state `f` to the top. */
  ghost predicate ReachK(x: Subject, k: Kont, a: St, f: St)
    requires ValidSubject(x)
    decreases k
  {
    match k
    case KTop => f == a
    case KSeq(q, next, k') => exists m :: MatchSeq(x, q, next, a, m) && ReachK(x, k', m, f)
    case KGrp(idx, k') => idx < |a.ge| && ReachK(x, k', Close(a, idx), f)
    case KRep(sub, done, prev, min, max, k') =>
      exists m :: RepAfter(x, sub, done, min, max, prev, a, m) && ReachK(x, k', m, f)
  }

  /** A pending call of the matcher: one of its four functions with its arguments. */
  datatype Call =
    | RunK(k: Kont)
    | RunSeq(q: Branch, i: nat, k: Kont)
    | RunNode(n: Node, k: Kont)
    | RunRep(sub: Branch, done: nat, min: nat, max: int, k: Kont)

  ghost predicate WfCall(c: Call) {
    match c
    case RunK(k) => WfKont(k)
    case RunSeq(q, i, k) => i <= |q.v| && WfBranch(q) && WfKont(k)
    case RunNode(n, k) => WfNode(n) && WfKont(k)
    case RunRep(sub, _, _, _, k) => WfBranch(sub) && WfKont(k)
  }

  /** What matching the call's own part and then its continuation can hand to the top. */
  ghost predicate Reach(x: Subject, c: Call, a: St, f: St)
    requires ValidSubject(x)
  {
    match c
    case RunK(k) => ReachK(x, k, a, f)
    case RunSeq(q, i, k) => exists m :: MatchSeq(x, q, i, a, m) && ReachK(x, k, m, f)
    case RunNode(n, k) => exists m :: MatchNode(x, n, a, m) && ReachK(x, k, m, f)
    case RunRep(sub, done, min, max, k) =>
      exists m :: MatchRep(x, sub, done, min, max, a, m) && ReachK(x, k, m, f)
  }

  /** `before` grew to `after` by visits that the call can reach, and by all of them if
      the search was not cut short. */
  ghost predicate Explored(x: Subject, c: Call, a: St, before: seq<St>, after: seq<St>, full: bool)
    requires ValidSubject(x)
  {
    && before <= after
    && (forall f | f in after[|before|..] :: Reach(x, c, a, f))
    && (full ==> forall f | Reach(x, c, a, f) :: f in after[|before|..])
  }

  lemma ExploredNothing(x: Subject, c: Call, a: St, v: seq<St>)
    requires ValidSubject(x)
    ensures Explored(x, c, a, v, v, false)
  {
  }

  // ----- termination -----

  ghost function Weight(n: Node): nat
    decreases n, 0
  {
    match n
    case Group(_, sub) => 3 + WeightSeq(sub, 0)
    case Alt(alts) => 2 + WeightAlts(alts, 0)
    case Rep(_, _, sub) => 5 + WeightSeq(sub, 0)
    case _ => 1
  }

  ghost function WeightSeq(q: Branch, i: nat): nat
    decreases q, 1, |q.v| - i
  {
    if i >= |q.v| then 0 else 2 + Weight(q.v[i]) + WeightSeq(q, i + 1)
  }

  ghost function WeightAlts(alts: seq<Branch>, j: nat): nat
    decreases alts, 2, |alts| - j
  {
    if j >= |alts| then 0 else WeightSeq(alts[j], 0) + WeightAlts(alts, j + 1)
  }

  /** The weight of a pending repetition depends on the position: it counts its body
      again only once the current round has advanced. */
  ghost function WeightK(k: Kont, pos: nat): nat {
    match k
    case KTop => 0
    case KSeq(q, next, k') => 2 + WeightSeq(q, next) + WeightK(k', pos)
    case KGrp(_, k') => 1 + WeightK(k', pos)
    case KRep(sub, _, prev, _, _, k') => (if pos == prev then 1 else 5 + WeightSeq(sub, 0)) + WeightK(k', pos)
  }

  lemma {:induction false} AltWeighsLess(alts: seq<Branch>, i: nat, j: nat)
    requires i <= j < |alts|
    ensures WeightSeq(alts[j], 0) <= WeightAlts(alts, i)
    decreases j - i
  {
    if i < j {
      AltWeighsLess(alts, i + 1, j);
    }
  }

  ghost function Measure(c: Call, pos: nat): nat {
    match c
    case RunK(k) => WeightK(k, pos)
    case RunSeq(q, i, k) => 1 + WeightSeq(q, i) + WeightK(k, pos)
    case RunNode(n, k) => Weight(n) + WeightK(k, pos)
    case RunRep(sub, _, _, _, k) => 4 + WeightSeq(sub, 0) + WeightK(k, pos)
  }

  // ----- how many nodes an unlimited search visits -----

  /** Where a node without operands ends when matched in state `a`, or -1. */
  ghost function AtomEnd(x: Subject, n: Node, a: St): (e: int)
    requires ValidSubject(x) && ValidSt(x, a) && WfNode(n)
    ensures e == -1 || a.pos <= e <= x.len
  {
    match n
    case Bol => if AtBol(x, a.pos) then a.pos else -1
    case Eol => if AtEol(x, a.pos) then a.pos else -1
    case Backref(idx) => if Repeats(x, a, idx) then a.pos + (a.ge[idx] - a.gs[idx]) else -1
    case _ => if a.pos < x.len && Accepts(x, n, x.s[a.pos]) then a.pos + 1 else -1
  }

  /** The number of m_node calls that call `c` makes when nothing stops it. */
  ghost function Cost(x: Subject, c: Call, a: St): (r: nat)
    requires ValidSubject(x) && ValidSt(x, a) && WfCall(c)
    ensures c.RunNode? ==> r >= 1
    decreases x.len - a.pos, Measure(c, a.pos), 0
  {
    match c
    case RunK(KTop) => 0
    case RunK(KSeq(q, next, k)) => Cost(x, RunSeq(q, next, k), a)
    case RunK(KGrp(idx, k)) => Cost(x, RunK(k), Close(a, idx))
    case RunK(KRep(sub, done, prev, min, max, k)) =>
      if a.pos != prev then Cost(x, RunRep(sub, done + 1, min, max, k), a)
      else if done + 1 >= min then Cost(x, RunK(k), a)
      else 0
    case RunSeq(q, i, k) =>
      if i >= |q.v| then Cost(x, RunK(k), a) else Cost(x, RunNode(q.v[i], KSeq(q, i + 1, k)), a)
    case RunRep(sub, done, min, max, k) =>
      (if done >= min then Cost(x, RunK(k), a) else 0)
      + (if max >= 0 && done >= max then 0
         else Cost(x, RunSeq(sub, 0, KRep(sub, done, a.pos, min, max, k)), a))
    case RunNode(Group(idx, sub), k) => 1 + Cost(x, RunSeq(sub, 0, KGrp(idx, k)), Open(a, idx))
    case RunNode(Alt(alts), k) => 1 + CostAlts(x, alts, 0, k, a)
    case RunNode(Rep(min, max, sub), k) => 1 + Cost(x, RunRep(sub, 0, min, max, k), a)
    case RunNode(n, k) =>
      var e := AtomEnd(x, n, a);
      1 + if e < 0 then 0 else Cost(x, RunK(k), a.(pos := e))
  }

  ghost function CostAlts(x: Subject, alts: seq<Branch>, j: nat, k: Kont, a: St): nat
    requires ValidSubject(x) && ValidSt(x, a) && WfNode(Alt(alts)) && WfKont(k)
    decreases x.len - a.pos, 1 + WeightAlts(alts, j) + WeightK(k, a.pos), |alts| - j
  {
    if j >= |alts| then 0 else Cost(x, RunSeq(alts[j], 0, k), a) + CostAlts(x, alts, j + 1, k, a)
  }

  // ----- how one call's reachable states follow from those of the calls it makes -----

  ghost predicate SameReach(x: Subject, c: Call, a: St, c': Call, a': St)
    requires ValidSubject(x)
  {
    forall f :: Reach(x, c, a, f) <==> Reach(x, c', a', f)
  }

  /** Call `c` reaches what `c1` reaches and, besides, what `c2` reaches. */
  ghost predicate SplitReach(x: Subject, c: Call, c1: Call, c2: Call, a: St)
    requires ValidSubject(x)
  {
    forall f :: Reach(x, c, a, f) <==> Reach(x, c1, a, f) || Reach(x, c2, a, f)
  }

  lemma ExploredSplit(x: Subject, c: Call, c1: Call, c2: Call, a: St, v0: seq<St>, v1: seq<St>, v2: seq<St>, full: bool)
    requires ValidSubject(x) && SplitReach(x, c, c1, c2, a)
    requires Explored(x, c1, a, v0, v1, true) && Explored(x, c2, a, v1, v2, full)
    ensures Explored(x, c, a, v0, v2, full)
  {
    assert v2[|v0|..] == v1[|v0|..] + v2[|v1|..];
  }

  lemma ReachSeqEnd(x: Subject, q: Branch, i: nat, k: Kont, a: St)
    requires ValidSubject(x) && ValidSt(x, a) && i >= |q.v|
    ensures SameReach(x, RunSeq(q, i, k), a, RunK(k), a)
  {
    assert MatchSeq(x, q, i, a, a);
  }

  lemma ReachSeqStep(x: Subject, q: Branch, i: nat, k: Kont, a: St)
    requires ValidSubject(x) && ValidSt(x, a) && i < |q.v|
    ensures SameReach(x, RunSeq(q, i, k), a, RunNode(q.v[i], KSeq(q, i + 1, k)), a)
  {
    var c, k' := RunSeq(q, i, k), KSeq(q, i + 1, k);
    forall f
      ensures Reach(x, c, a, f) <==> Reach(x, RunNode(q.v[i], k'), a, f)
    {
      if Reach(x, c, a, f) {
        var m :| MatchSeq(x, q, i, a, m) && ReachK(x, k, m, f);
        assert MatchSeq(x, q, i, a, m);
        var m0 :| MatchNode(x, q.v[i], a, m0) && MatchSeq(x, q, i + 1, m0, m);
        assert ReachK(x, k', m0, f);
      }
      if Reach(x, RunNode(q.v[i], k'), a, f) {
        var m0 :| MatchNode(x, q.v[i], a, m0) && ReachK(x, k', m0, f);
        assert ReachK(x, k', m0, f);
        var m :| MatchSeq(x, q, i + 1, m0, m) && ReachK(x, k, m, f);
        assert MatchSeq(x, q, i, a, m);
      }
    }
  }

  lemma ReachGroup(x: Subject, n: Node, k: Kont, a: St)
    requires ValidSubject(x) && ValidSt(x, a) && WfNode(n) && n.Group?
    ensures SameReach(x, RunNode(n, k), a, RunSeq(n.sub, 0, KGrp(n.idx, k)), Open(a, n.idx))
  {
    var c, k', a' := RunNode(n, k), KGrp(n.idx, k), Open(a, n.idx);
    forall f
      ensures Reach(x, c, a, f) <==> Reach(x, RunSeq(n.sub, 0, k'), a', f)
    {
      if Reach(x, c, a, f) {
        var m :| MatchNode(x, n, a, m) && ReachK(x, k, m, f);
        var m0 :| MatchSeq(x, n.sub, 0, a', m0) && m == Close(m0, n.idx);
        assert ReachK(x, k', m0, f);
      }
      if Reach(x, RunSeq(n.sub, 0, k'), a', f) {
        var m0 :| MatchSeq(x, n.sub, 0, a', m0) && ReachK(x, k', m0, f);
        assert MatchNode(x, n, a, Close(m0, n.idx));
      }
    }
  }

  /** The alternatives are tried one after the other. */
  lemma ReachAlt(x: Subject, alts: seq<Branch>, j: nat, k: Kont, a: St)
    requires ValidSubject(x) && ValidSt(x, a) && j < |alts|
    ensures SplitReach(x, RunNode(Alt(alts[..j + 1]), k), RunNode(Alt(alts[..j]), k), RunSeq(alts[j], 0, k), a)
  {
    var all, some := Alt(alts[..j + 1]), Alt(alts[..j]);
    forall m
      ensures MatchNode(x, all, a, m) <==> MatchNode(x, some, a, m) || MatchSeq(x, alts[j], 0, a, m)
    {
      MatchAltStep(x, alts, j, a, m);
    }
  }

  lemma MatchAltStep(x: Subject, alts: seq<Branch>, j: nat, a: St, b: St)
    requires ValidSubject(x) && j < |alts|
    ensures MatchNode(x, Alt(alts[..j + 1]), a, b) <==>
              MatchNode(x, Alt(alts[..j]), a, b) || MatchSeq(x, alts[j], 0, a, b)
  {
    var all, some := alts[..j + 1], alts[..j];
    if MatchNode(x, Alt(all), a, b) {
      var i :| 0 <= i < |all| && MatchSeq(x, all[i], 0, a, b);
      assert i < j ==> some[i] == all[i];
    }
    if MatchNode(x, Alt(some), a, b) {
      var i :| 0 <= i < |some| && MatchSeq(x, some[i], 0, a, b);
      assert all[i] == some[i];
    }
    if MatchSeq(x, alts[j], 0, a, b) {
      assert all[j] == alts[j];
    }
  }

  lemma ReachAltPart(x: Subject, alts: seq<Branch>, j: nat, k: Kont, a: St)
    requires ValidSubject(x) && j <= |alts|
    ensures forall f | Reach(x, RunNode(Alt(alts[..j]), k), a, f) :: Reach(x, RunNode(Alt(alts), k), a, f)
  {
    forall m | MatchNode(x, Alt(alts[..j]), a, m)
      ensures MatchNode(x, Alt(alts), a, m)
    {
      var i :| 0 <= i < j && MatchSeq(x, alts[..j][i], 0, a, m);
      assert MatchSeq(x, alts[i], 0, a, m);
    }
  }

  lemma ReachRepNode(x: Subject, n: Node, k: Kont, a: St)
    requires ValidSubject(x) && ValidSt(x, a) && n.Rep?
    ensures SameReach(x, RunNode(n, k), a, RunRep(n.sub, 0, n.min, n.max, k), a)
  {
    forall m | MatchRep(x, n.sub, 0, n.min, n.max, a, m)
      ensures MatchNode(x, n, a, m)
    {
      MatchRepValid(x, n.sub, 0, n.min, n.max, a, m);
    }
  }

  /** A repetition either stops or matches its body and goes on as `KRep` says. */
  lemma ReachRepStep(x: Subject, sub: Branch, done: nat, min: nat, max: int, k: Kont, a: St, f: St)
    requires ValidSubject(x) && ValidSt(x, a)
    ensures Reach(x, RunRep(sub, done, min, max, k), a, f) <==>
              || (done >= min && Reach(x, RunK(k), a, f))
              || ((max < 0 || done < max) && Reach(x, RunSeq(sub, 0, KRep(sub, done, a.pos, min, max, k)), a, f))
  {
    var k' := KRep(sub, done, a.pos, min, max, k);
    if Reach(x, RunRep(sub, done, min, max, k), a, f) {
      var b :| MatchRep(x, sub, done, min, max, a, b) && ReachK(x, k, b, f);
      RepUnroll(x, sub, done, min, max, a, b);
      if !(done >= min && a == b) {
        var m :| MatchSeq(x, sub, 0, a, m) && RepAfter(x, sub, done, min, max, a.pos, m, b);
        assert ReachK(x, k', m, f);
      }
    }
    if done >= min && Reach(x, RunK(k), a, f) {
      RepUnroll(x, sub, done, min, max, a, a);
    }
    if (max < 0 || done < max) && Reach(x, RunSeq(sub, 0, k'), a, f) {
      var m :| MatchSeq(x, sub, 0, a, m) && ReachK(x, k', m, f);
      var b :| RepAfter(x, sub, done, min, max, a.pos, m, b) && ReachK(x, k, b, f);
      RepUnroll(x, sub, done, min, max, a, b);
    }
  }

  /** The visits of a repetition: those of stopping here, then those of another round. */
  lemma ExploredRep(x: Subject, sub: Branch, done: nat, min: nat, max: int, k: Kont, a: St,
                    v0: seq<St>, v1: seq<St>, v2: seq<St>, full: bool)
    requires ValidSubject(x) && ValidSt(x, a)
    requires if done >= min then Explored(x, RunK(k), a, v0, v1, full || v1 != v2) else v0 == v1
    requires if v1 == v2 && (!full || (max >= 0 && done >= max)) then true
             else (max < 0 || done < max)
                  && Explored(x, RunSeq(sub, 0, KRep(sub, done, a.pos, min, max, k)), a, v1, v2, full)
    ensures Explored(x, RunRep(sub, done, min, max, k), a, v0, v2, full)
  {
    forall f { ReachRepStep(x, sub, done, min, max, k, a, f); }
    assert v2[|v0|..] == v1[|v0|..] + v2[|v1|..];
  }

  /** The continuation of a round: an empty round ends the repetition. */
  lemma ReachKRep(x: Subject, k: Kont, a: St, f: St)
    requires ValidSubject(x) && ValidSt(x, a) && k.KRep?
    ensures a.pos == k.prev ==> (Reach(x, RunK(k), a, f) <==> k.done + 1 >= k.min && Reach(x, RunK(k.k), a, f))
    ensures a.pos != k.prev ==>
              (Reach(x, RunK(k), a, f) <==> Reach(x, RunRep(k.sub, k.done + 1, k.min, k.max, k.k), a, f))
  {
    if a.pos == k.prev && k.done + 1 >= k.min && Reach(x, RunK(k.k), a, f) {
      assert RepAfter(x, k.sub, k.done, k.min, k.max, k.prev, a, a);
    }
    if a.pos != k.prev {
      if Reach(x, RunK(k), a, f) {
        var m :| RepAfter(x, k.sub, k.done, k.min, k.max, k.prev, a, m) && ReachK(x, k.k, m, f);
        assert MatchRep(x, k.sub, k.done + 1, k.min, k.max, a, m);
      }
      if Reach(x, RunRep(k.sub, k.done + 1, k.min, k.max, k.k), a, f) {
        var m :| MatchRep(x, k.sub, k.done + 1, k.min, k.max, a, m) && ReachK(x, k.k, m, f);
        assert RepAfter(x, k.sub, k.done, k.min, k.max, k.prev, a, m);
      }
    }
  }

  /** A node without operands has at most one outcome. */
  lemma ReachAtom(x: Subject, n: Node, k: Kont, a: St)
    requires ValidSubject(x) && ValidSt(x, a) && WfNode(n) && !n.Group? && !n.Alt? && !n.Rep?
    ensures AtomEnd(x, n, a) < 0 ==> forall f :: !Reach(x, RunNode(n, k), a, f)
    ensures AtomEnd(x, n, a) >= 0 ==>
              SameReach(x, RunNode(n, k), a, RunK(k), a.(pos := AtomEnd(x, n, a)))
  {
    var e := AtomEnd(x, n, a);
    assert forall m :: MatchNode(x, n, a, m) <==> e >= 0 && m == a.(pos := e);
    if e >= 0 {
      assert MatchNode(x, n, a, a.(pos := e));
    }
  }

  // ----- which of two matches of the same length is preferred -----

  function SpanLen(so: int, eo: int): int {
    if so >= 0 && eo >= so then eo - so else -1
  }

  ghost function LenAt(a: St, i: nat): int
    requires i < |a.gs| && i < |a.ge|
  {
    SpanLen(a.gs[i], a.ge[i])
  }

  ghost predicate HasCaps(a: St) {
    |a.gs| == NGROUPS + 1 && |a.ge| == NGROUPS + 1
  }

  ghost predicate SameAt(a: St, b: St, i: nat)
    requires HasCaps(a) && HasCaps(b) && i <= NGROUPS
  {
    LenAt(a, i) == LenAt(b, i) && (LenAt(a, i) > 0 ==> a.gs[i] == b.gs[i])
  }

  /** Group `i` is longer in `a`, or as long (and not empty) and further left. */
  ghost predicate AboveAt(a: St, b: St, i: nat)
    requires HasCaps(a) && HasCaps(b) && i <= NGROUPS
  {
    LenAt(a, i) > LenAt(b, i) || (LenAt(a, i) == LenAt(b, i) > 0 && a.gs[i] < b.gs[i])
  }

  /** The first group on which the two differ decides. */
  ghost predicate Better(a: St, b: St)
    requires HasCaps(a) && HasCaps(b)
  {
    exists i | 1 <= i <= NGROUPS :: AboveAt(a, b, i) && forall j | 1 <= j < i :: SameAt(a, b, j)
  }

  lemma BetterAtDifference(a: St, b: St, i: nat)
    requires HasCaps(a) && HasCaps(b) && 1 <= i <= NGROUPS
    requires !SameAt(a, b, i) && forall j | 1 <= j < i :: SameAt(a, b, j)
    ensures Better(a, b) <==> AboveAt(a, b, i)
  {
    forall h | 1 <= h <= NGROUPS && h != i
      ensures !(AboveAt(a, b, h) && forall j | 1 <= j < h :: SameAt(a, b, j))
    {
      if h < i {
        assert SameAt(a, b, h);
      } else {
        assert !SameAt(a, b, i);
      }
    }
  }

  // `Better` is a strict weak order.

  lemma BetterIrreflexive(a: St)
    requires HasCaps(a)
    ensures !Better(a, a)
  {
  }

  lemma BetterAsymmetric(a: St, b: St)
    requires HasCaps(a) && HasCaps(b) && Better(a, b)
    ensures !Better(b, a)
  {
    var i :| 1 <= i <= NGROUPS && AboveAt(a, b, i) && forall j | 1 <= j < i :: SameAt(a, b, j);
    forall h | 1 <= h <= NGROUPS
      ensures !(AboveAt(b, a, h) && forall j | 1 <= j < h :: SameAt(b, a, j))
    {
      if h < i {
        assert SameAt(a, b, h);
      } else {
        assert !SameAt(b, a, i);
      }
    }
  }

  /** If `a` beats `c`, any `b` is beaten by `a` or beats `c`. */
  lemma BetterSplits(a: St, b: St, c: St)
    requires HasCaps(a) && HasCaps(b) && HasCaps(c) && Better(a, c)
    ensures Better(a, b) || Better(b, c)
  {
    var i :| 1 <= i <= NGROUPS && AboveAt(a, c, i) && forall j | 1 <= j < i :: SameAt(a, c, j);
    if j :| 1 <= j <= i && !SameAt(a, b, j) && forall l | 1 <= l < j :: SameAt(a, b, l) {
      assert AboveAt(a, b, j) || AboveAt(b, a, j);
      if !AboveAt(a, b, j) {
        assert AboveAt(b, c, j) by { assert j < i ==> SameAt(a, c, j); }
        assert forall l | 1 <= l < j :: SameAt(b, c, l) by {
          forall l | 1 <= l < j ensures SameAt(b, c, l) { assert SameAt(a, b, l) && SameAt(a, c, l); }
        }
      }
    } else {
      FirstDifference(a, b, i);
      assert forall l | 1 <= l < i :: SameAt(b, c, l) by {
        forall l | 1 <= l < i ensures SameAt(b, c, l) { assert SameAt(a, b, l) && SameAt(a, c, l); }
      }
      assert SameAt(a, b, i);
      assert AboveAt(b, c, i);
    }
  }

  lemma {:induction false} FirstDifference(a: St, b: St, i: nat)
    requires HasCaps(a) && HasCaps(b) && i <= NGROUPS
    requires !exists j | 1 <= j <= i :: !SameAt(a, b, j) && forall l | 1 <= l < j :: SameAt(a, b, l)
    ensures forall j | 1 <= j <= i :: SameAt(a, b, j)
    decreases i
  {
    if i > 0 {
      FirstDifference(a, b, i - 1);
    }
  }

  /** A later visit replaces the best one when it is longer or, at equal length, better. */
  ghost predicate Replaces(a: St, b: St)
    requires HasCaps(a) && HasCaps(b)
  {
    a.pos > b.pos || (a.pos == b.pos && Better(a, b))
  }

  ghost predicate AllCaps(v: seq<St>) {
    forall i | 0 <= i < |v| :: HasCaps(v[i])
  }

  ghost function Best(v: seq<St>): (b: St)
    requires v != [] && AllCaps(v)
    ensures HasCaps(b) && b in v
  {
    var last := v[|v| - 1];
    if |v| == 1 then last
    else
      var b := Best(v[..|v| - 1]);
      if Replaces(last, b) then last else b
  }

  /** One more visit. */
  lemma BestNext(v: seq<St>, a: St)
    requires AllCaps(v) && HasCaps(a)
    ensures AllCaps(v + [a])
    ensures Best(v + [a]) == if v == [] || Replaces(a, Best(v)) then a else Best(v)
  {
    assert (v + [a])[..|v|] == v;
  }

  /** The visit kept is beaten by no other. */
  lemma {:induction false} BestUnbeaten(v: seq<St>)
    requires v != [] && AllCaps(v)
    ensures forall i | 0 <= i < |v| :: !Replaces(v[i], Best(v))
  {
    var last := v[|v| - 1];
    if |v| == 1 {
      BetterIrreflexive(last);
    } else {
      var v' := v[..|v| - 1];
      var b := Best(v');
      BestUnbeaten(v');
      forall i | 0 <= i < |v|
        ensures !Replaces(v[i], Best(v))
      {
        if i == |v| - 1 {
          BetterIrreflexive(last);
        } else {
          assert v[i] == v'[i];
          if Replaces(last, b) && Replaces(v[i], last) {
            assert v[i].pos == last.pos == b.pos;
            BetterSplits(v[i], b, last);
            BetterAsymmetric(last, b);
            assert false;
          }
        }
      }
    }
  }

  // ----- the matcher -----

  /** The matcher's context for one start position: the capture arrays, the step counter
      and the best match so far.  `visits` records the states given to the top. */
  class Matcher {
    const x: Subject
    const gs: array<int>
    const ge: array<int>
    var steps: nat
    var bestEnd: int
    const bestGs: array<int>
    const bestGe: array<int>
    ghost var visits: seq<St>

    ghost predicate Valid()
      reads this, gs, ge, bestGs, bestGe
    {
      && ValidSubject(x)
      && gs != ge && gs != bestGs && gs != bestGe && ge != bestGs && ge != bestGe && bestGs != bestGe
      && bestGs.Length == NGROUPS + 1 && bestGe.Length == NGROUPS + 1
      && ValidCaps(x, gs[..]) && ValidCaps(x, ge[..])
      && AllCaps(visits)
      && (if visits == [] then bestEnd == -1
          else Best(visits) == St(Best(visits).pos, bestGs[..], bestGe[..]) && bestEnd == Best(visits).pos)
    }

    /** The current state, with the cursor at `pos`. */
    ghost function At(pos: nat): St
      reads gs, ge
    {
      St(pos, gs[..], ge[..])
    }

    constructor (x: Subject)
      requires ValidSubject(x)
      ensures Valid() && this.x == x && visits == [] && steps == 0
      ensures fresh(gs) && fresh(ge) && fresh(bestGs) && fresh(bestGe)
      ensures forall i | 0 <= i <= NGROUPS :: gs[i] == -1 && ge[i] == -1
    {
      this.x := x;
      gs := new int[NGROUPS + 1](_ => -1);
      ge := new int[NGROUPS + 1](_ => -1);
      bestGs := new int[NGROUPS + 1](_ => -1);
      bestGe := new int[NGROUPS + 1](_ => -1);
      steps := 0;
      bestEnd := -1;
      visits := [];
    }

    /** better_subgroups: compare the current captures with the best ones. */
    method BetterSubgroups(pos: nat) returns (r: bool)
      requires Valid() && visits != []
      ensures r <==> Better(At(pos), Best(visits))
    {
      ghost var a, b := At(pos), Best(visits);
      var i := 1;
      while i <= NGROUPS
        invariant 1 <= i <= NGROUPS + 1
        invariant forall j | 1 <= j < i :: SameAt(a, b, j)
      {
        var aLen, bLen := SpanLen(gs[i], ge[i]), SpanLen(bestGs[i], bestGe[i]);
        assert aLen == LenAt(a, i) && bLen == LenAt(b, i);
        if !SameAt(a, b, i) {
          BetterAtDifference(a, b, i);
        }
        if aLen != bLen {
          return aLen > bLen;
        }
        if aLen > 0 && gs[i] != bestGs[i] {
          return gs[i] < bestGs[i];
        }
        i := i + 1;
      }
      forall j | 1 <= j <= NGROUPS
        ensures !AboveAt(a, b, j)
      {
        assert SameAt(a, b, j);
      }
      return false;
    }

    /** top_fn: keep the longest end. */
    method Top(pos: nat)
      requires Valid() && pos <= x.len
      modifies this, bestGs, bestGe
      ensures Valid() && steps == old(steps)
      ensures visits == old(visits) + [At(pos)]
    {
      hide Best, Better, AllCaps;
      BestNext(visits, At(pos));
      var better := pos > bestEnd;
      if pos == bestEnd && bestEnd >= 0 {
        better := BetterSubgroups(pos);
      }
      if better {
        bestEnd := pos;
        KeepCaptures();
      }
      visits := visits + [At(pos)];
    }

    method KeepCaptures()
      requires bestGs.Length == bestGe.Length == gs.Length == ge.Length == NGROUPS + 1
      requires gs != bestGs && gs != bestGe && ge != bestGs && ge != bestGe && bestGs != bestGe
      modifies bestGs, bestGe
      ensures bestGs[..] == gs[..] && bestGe[..] == ge[..]
    {
      forall i | 0 <= i <= NGROUPS { bestGs[i] := gs[i]; }
      forall i | 0 <= i <= NGROUPS { bestGe[i] := ge[i]; }
    }

    /** What every function of the matcher promises: it visits only states its call can
        reach; if it returns false it has visited all of them and put the captures back.
        It returns true exactly when the nodes it would have to visit take the step
        counter past its limit. */
    twostate predicate Searched(c: Call, pos: nat, r: bool, cost: nat)
      requires old(Valid())
      reads this, gs, ge, bestGs, bestGe
    {
      && Valid()
      && Explored(x, c, old(At(pos)), old(visits), visits, !r)
      && (!r ==> gs[..] == old(gs[..]) && ge[..] == old(ge[..]) && steps == old(steps) + cost)
      && (r <==> old(steps) + cost > STEP_LIMIT + 1)
    }

    /** Call continuation `k`. */
    method Continue(k: Kont, pos: nat) returns (r: bool)
      requires Valid() && pos <= x.len && steps <= STEP_LIMIT + 1 && WfKont(k)
      modifies this, gs, ge, bestGs, bestGe
      ensures Searched(RunK(k), pos, r, old(Cost(x, RunK(k), At(pos))))
      decreases x.len - pos, Measure(RunK(k), pos)
    {
      match k
      case KTop =>
        Top(pos);
        assert visits[|old(visits)|..] == [old(At(pos))];
        return false;
      case KSeq(q, next, k') =>
        r := MSeq(q, next, pos, k');
      case KGrp(idx, k') =>
        r := GroupEnd(idx, k', pos);
      case KRep(_, _, _, _, _, _) =>
        r := RoundEnd(k, pos);
    }

    /** kgrp_fn. */
    method GroupEnd(idx: nat, k: Kont, pos: nat) returns (r: bool)
      requires Valid() && pos <= x.len && steps <= STEP_LIMIT + 1 && 1 <= idx <= NGROUPS && WfKont(k)
      modifies this, gs, ge, bestGs, bestGe
      ensures Searched(RunK(KGrp(idx, k)), pos, r, old(Cost(x, RunK(KGrp(idx, k)), At(pos))))
      decreases x.len - pos, Measure(RunK(KGrp(idx, k)), pos), 0
    {
      var oldEnd := ge[idx];
      ge[idx] := pos;
      assert At(pos) == Close(old(At(pos)), idx);
      r := Continue(k, pos);
      if !r {
        ge[idx] := oldEnd;
        assert ge[..] == old(ge[..]);
      }
    }

    /** krep_fn. */
    method RoundEnd(k: Kont, pos: nat) returns (r: bool)
      requires Valid() && pos <= x.len && steps <= STEP_LIMIT + 1 && k.KRep? && WfKont(k)
      modifies this, gs, ge, bestGs, bestGe
      ensures Searched(RunK(k), pos, r, old(Cost(x, RunK(k), At(pos))))
      decreases x.len - pos, Measure(RunK(k), pos), 0
    {
      ghost var a := At(pos);
      forall f { ReachKRep(x, k, a, f); }
      if pos != k.prev {
        r := MRep(k.sub, k.done + 1, k.min, k.max, k.k, pos);
      } else if k.done + 1 >= k.min {
        r := Continue(k.k, pos);
      } else {
        r := false;
      }
    }

    /** m_rep. */
    method MRep(sub: Branch, done: nat, min: nat, max: int, k: Kont, pos: nat) returns (r: bool)
      requires Valid() && pos <= x.len && steps <= STEP_LIMIT + 1 && WfBranch(sub) && WfKont(k)
      modifies this, gs, ge, bestGs, bestGe
      ensures Searched(RunRep(sub, done, min, max, k), pos, r, old(Cost(x, RunRep(sub, done, min, max, k), At(pos))))
      decreases x.len - pos, Measure(RunRep(sub, done, min, max, k), pos)
    {
      ghost var a, v0 := At(pos), visits;
      r := false;
      if done >= min {
        r := Continue(k, pos);
      }
      ghost var v1 := visits;
      if !r && (max < 0 || done < max) {
        r := MSeq(sub, 0, pos, KRep(sub, done, pos, min, max, k));
      }
      ExploredRep(x, sub, done, min, max, k, a, v0, v1, visits, !r);
    }

    /** m_seq. */
    method MSeq(q: Branch, i: nat, pos: nat, k: Kont) returns (r: bool)
      requires Valid() && pos <= x.len && steps <= STEP_LIMIT + 1 && i <= |q.v| && WfBranch(q) && WfKont(k)
      modifies this, gs, ge, bestGs, bestGe
      ensures Searched(RunSeq(q, i, k), pos, r, old(Cost(x, RunSeq(q, i, k), At(pos))))
      decreases x.len - pos, Measure(RunSeq(q, i, k), pos)
    {
      ghost var a := At(pos);
      if i >= |q.v| {
        ReachSeqEnd(x, q, i, k, a);
        r := Continue(k, pos);
      } else {
        ReachSeqStep(x, q, i, k, a);
        r := MNode(q.v[i], pos, KSeq(q, i + 1, k));
      }
    }

    /** m_node. */
    method MNode(n: Node, pos: nat, k: Kont) returns (r: bool)
      requires Valid() && pos <= x.len && steps <= STEP_LIMIT + 1 && WfNode(n) && WfKont(k)
      modifies this, gs, ge, bestGs, bestGe
      ensures Searched(RunNode(n, k), pos, r, old(Cost(x, RunNode(n, k), At(pos))))
      decreases x.len - pos, Measure(RunNode(n, k), pos)
    {
      hide Explored, Cost, Best;
      steps := steps + 1;
      if steps - 1 > STEP_LIMIT {
        ExploredNothing(x, RunNode(n, k), At(pos), visits);
        return true;
      }
      match n
      case Group(_, _) => r := MGroup(n, pos, k);
      case Alt(_) => r := MAlt(n, pos, k);
      case Rep(_, _, _) => r := MRepeat(n, pos, k);
      case _ => r := MAtom(n, pos, k);
    }

    method MRepeat(n: Node, pos: nat, k: Kont) returns (r: bool)
      requires Valid() && pos <= x.len && steps <= STEP_LIMIT + 1 && n.Rep? && WfNode(n) && WfKont(k)
      modifies this, gs, ge, bestGs, bestGe
      ensures Searched(RunNode(n, k), pos, r, old(Cost(x, RunNode(n, k), At(pos))) - 1)
      decreases x.len - pos, Measure(RunNode(n, k), pos), 0
    {
      ReachRepNode(x, n, k, At(pos));
      r := MRep(n.sub, 0, n.min, n.max, k, pos);
    }

    method MAtom(n: Node, pos: nat, k: Kont) returns (r: bool)
      requires Valid() && pos <= x.len && steps <= STEP_LIMIT + 1 && WfNode(n) && WfKont(k)
      requires !n.Group? && !n.Alt? && !n.Rep?
      modifies this, gs, ge, bestGs, bestGe
      ensures Searched(RunNode(n, k), pos, r, old(Cost(x, RunNode(n, k), At(pos))) - 1)
      decreases x.len - pos, Measure(RunNode(n, k), pos), 0
    {
      ReachAtom(x, n, k, At(pos));
      var next := AtomStep(n, pos);
      r := false;
      if next >= 0 {
        r := Continue(k, next);
      }
    }

    method MGroup(n: Node, pos: nat, k: Kont) returns (r: bool)
      requires Valid() && pos <= x.len && steps <= STEP_LIMIT + 1 && n.Group? && WfNode(n) && WfKont(k)
      modifies this, gs, ge, bestGs, bestGe
      ensures Searched(RunNode(n, k), pos, r, old(Cost(x, RunNode(n, k), At(pos))) - 1)
      decreases x.len - pos, Measure(RunNode(n, k), pos), 0
    {
      ghost var a := At(pos);
      ReachGroup(x, n, k, a);
      var oldStart, oldEnd := gs[n.idx], ge[n.idx];
      gs[n.idx] := pos;
      assert At(pos) == Open(a, n.idx);
      r := MSeq(n.sub, 0, pos, KGrp(n.idx, k));
      if !r {
        gs[n.idx], ge[n.idx] := oldStart, oldEnd;
        assert gs[..] == old(gs[..]) && ge[..] == old(ge[..]);
      }
    }

    method MAlt(n: Node, pos: nat, k: Kont) returns (r: bool)
      requires Valid() && pos <= x.len && steps <= STEP_LIMIT + 1 && n.Alt? && WfNode(n) && WfKont(k)
      modifies this, gs, ge, bestGs, bestGe
      ensures Searched(RunNode(n, k), pos, r, old(Cost(x, RunNode(n, k), At(pos))) - 1)
      decreases x.len - pos, Measure(RunNode(n, k), pos), 0
    {
      var alts := n.alts;
      ghost var a := At(pos);
      assert Cost(x, RunNode(n, k), a) == 1 + CostAlts(x, alts, 0, k, a);
      var j := 0;
      ghost var tried := RunNode(Alt([]), k);
      while j < |alts|
        invariant j <= |alts|
        invariant Valid() && At(pos) == a && steps <= STEP_LIMIT + 1
        invariant steps + CostAlts(x, alts, j, k, a) == old(steps) + CostAlts(x, alts, 0, k, a)
        invariant tried == RunNode(Alt(alts[..j]), k)
        invariant Explored(x, tried, a, old(visits), visits, true)
      {
        ghost var mid := visits;
        ReachAlt(x, alts, j, k, a);
        AltWeighsLess(alts, 0, j);
        r := MSeq(alts[j], 0, pos, k);
        ghost var tried' := RunNode(Alt(alts[..j + 1]), k);
        ExploredSplit(x, tried', tried, RunSeq(alts[j], 0, k), a, old(visits), mid, visits, !r);
        if r {
          ReachAltPart(x, alts, j + 1, k, a);
          return;
        }
        j, tried := j + 1, tried';
      }
      assert alts[..j] == alts;
      return false;
    }

    /** The cases of m_node that call nothing but the continuation: where it is called, or -1. */
    method AtomStep(n: Node, pos: nat) returns (next: int)
      requires Valid() && pos <= x.len && WfNode(n) && !n.Group? && !n.Alt? && !n.Rep?
      ensures next == AtomEnd(x, n, At(pos))
    {
      next := -1;
      if n.Bol? {
        if (pos == 0 && !x.notbol) || (x.newline && pos > 0 && x.s[pos - 1] == NEWLINE) { next := pos; }
      } else if n.Eol? {
        if (pos == x.len && !x.noteol) || (x.newline && pos < x.len && x.s[pos] == NEWLINE) { next := pos; }
      } else if n.Backref? {
        var gl := BackrefLength(n.idx, pos);
        if gl >= 0 { next := pos + gl; }
      } else if pos < x.len {
        var hit := CharHit(n, x.s[pos]);
        if hit { next := pos + 1; }
      }
    }

    function CharEq(a: Byte, b: Byte): (r: bool)
      ensures r <==> SameChar(x, a, b)
    {
      if a == b then true else if !x.icase then false else ToLower(a) == ToLower(b)
    }

    method CharHit(n: Node, c: Byte) returns (hit: bool)
      requires n.Char? || n.Any? || n.Class?
      ensures hit <==> Accepts(x, n, c)
    {
      match n
      case Char(ch) =>
        hit := CharEq(c, ch);
      case Any =>
        hit := !(x.newline && c == NEWLINE);
      case Class(bits, neg) =>
        hit := c in bits;
        if x.icase {
          hit := hit || ToLower(c) in bits || ToUpper(c) in bits;
        }
        if neg {
          if x.newline && c == NEWLINE { return false; }
          hit := !hit;
        }
    }

    /** The length of the text a back-reference repeats here, or -1. */
    method BackrefLength(idx: nat, pos: nat) returns (gl: int)
      requires Valid() && pos <= x.len && idx <= NGROUPS
      ensures -1 <= gl && (gl >= 0 <==> Repeats(x, At(pos), idx))
      ensures gl >= 0 ==> gl == ge[idx] - gs[idx] && pos + gl <= x.len
    {
      var lo, hi := gs[idx], ge[idx];
      if lo < 0 || hi < 0 || hi < lo { return -1; }
      gl := hi - lo;
      if pos + gl > x.len { return -1; }
      ghost var u, v := x.s[lo..hi], x.s[pos..pos + gl];
      var i := 0;
      while i < gl
        invariant 0 <= i <= gl
        invariant forall j | 0 <= j < i :: SameChar(x, u[j], v[j])
      {
        if !CharEq(x.s[lo + i], x.s[pos + i]) {
          assert !SameChar(x, u[i], v[i]);
          return -1;
        }
        i := i + 1;
      }
    }
  }
}
