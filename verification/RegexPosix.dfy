/** What a tree without back-references means in a textbook: the substrings it matches.

    `Spans` knows nothing of captures, rounds that must advance or search order: a
    repetition is any admissible number of consecutive matches of its body, empty ones
    included (section 9.3.6 of the base definitions of POSIX.1-2008).
 */
module RegexPosix {
  import opened RegexTree

  ghost predicate Spans(x: Subject, n: Node, i: nat, j: nat)
    requires ValidSubject(x)
    decreases n, 0
  {
    && i <= x.len && j <= x.len
    && match n
       case Bol => AtBol(x, i) && i == j
       case Eol => AtEol(x, i) && i == j
       case Group(_, sub) => SpansSeq(x, sub, 0, i, j)
       case Backref(_) => false
       case Alt(alts) => exists a | 0 <= a < |alts| :: SpansSeq(x, alts[a], 0, i, j)
       case Rep(min, max, sub) =>
         exists c: nat :: SpansTimes(x, sub, c, i, j) && min <= c && (max < 0 || c <= max)
       case _ => i < x.len && Accepts(x, n, x.s[i]) && j == i + 1
  }

  ghost predicate SpansSeq(x: Subject, q: Branch, p: nat, i: nat, j: nat)
    requires ValidSubject(x)
    decreases q, 1, |q.v| - p
  {
    && i <= x.len && j <= x.len
    && if p >= |q.v| then i == j
       else exists m: nat :: Spans(x, q.v[p], i, m) && SpansSeq(x, q, p + 1, m, j)
  }

  /** `c` matches of `q` in a row. */
  ghost predicate SpansTimes(x: Subject, q: Branch, c: nat, i: nat, j: nat)
    requires ValidSubject(x)
    decreases q, 2, c
  {
    && i <= x.len && j <= x.len
    && if c == 0 then i == j
       else exists m: nat :: SpansSeq(x, q, 0, i, m) && SpansTimes(x, q, c - 1, m, j)
  }

  ghost predicate NoBackref(n: Node)
    decreases n, 0
  {
    match n
    case Group(_, sub) => NoBackrefSeq(sub)
    case Backref(_) => false
    case Alt(alts) => forall a | 0 <= a < |alts| :: NoBackrefSeq(alts[a])
    case Rep(_, _, sub) => NoBackrefSeq(sub)
    case _ => true
  }

  ghost predicate NoBackrefSeq(q: Branch)
    decreases q, 1
  {
    forall p | 0 <= p < |q.v| :: NoBackref(q.v[p])
  }

  /** `q` matches the empty string nowhere in the subject. */
  ghost predicate NeverEmpty(x: Subject, q: Branch)
    requires ValidSubject(x)
  {
    forall i: nat :: !SpansSeq(x, q, 0, i, i)
  }

  /** The repetitions on which the matcher's refusal of further rounds after an empty one
      does no harm: a lower bound of 0 or 1, or a body that never matches empty. */
  ghost predicate RepHarmless(x: Subject, min: nat, max: int, q: Branch)
    requires ValidSubject(x)
  {
    min <= 1 || 0 <= max < min || NeverEmpty(x, q)
  }

  ghost predicate Harmless(x: Subject, n: Node)
    requires ValidSubject(x)
    decreases n, 0
  {
    match n
    case Group(_, sub) => HarmlessSeq(x, sub)
    case Alt(alts) => forall a | 0 <= a < |alts| :: HarmlessSeq(x, alts[a])
    case Rep(min, max, sub) => RepHarmless(x, min, max, sub) && HarmlessSeq(x, sub)
    case _ => true
  }

  ghost predicate HarmlessSeq(x: Subject, q: Branch)
    requires ValidSubject(x)
    decreases q, 1
  {
    forall p | 0 <= p < |q.v| :: Harmless(x, q.v[p])
  }

  // ----- every match is a span -----

  lemma {:induction false} MatchSpans(x: Subject, n: Node, a: St, b: St)
    requires ValidSubject(x) && NoBackref(n) && MatchNode(x, n, a, b)
    ensures Spans(x, n, a.pos, b.pos)
    decreases n, 0
  {
    match n
    case Group(idx, sub) =>
      var m :| MatchSeq(x, sub, 0, Open(a, idx), m) && b == Close(m, idx);
      MatchSpansSeq(x, sub, 0, Open(a, idx), m);
    case Alt(alts) =>
      var j :| 0 <= j < |alts| && MatchSeq(x, alts[j], 0, a, b);
      MatchSpansSeq(x, alts[j], 0, a, b);
    case Rep(min, max, sub) =>
      var t: seq<St> :| Rounds(x, sub, t) && t[0] == a && t[|t| - 1] == b && CountOk(0, min, max, |t| - 1);
      RoundsSpan(x, sub, t);
    case _ =>
  }

  lemma {:induction false} MatchSpansSeq(x: Subject, q: Branch, i: nat, a: St, b: St)
    requires ValidSubject(x) && NoBackrefSeq(q) && MatchSeq(x, q, i, a, b)
    ensures SpansSeq(x, q, i, a.pos, b.pos)
    decreases q, 1, |q.v| - i
  {
    if i < |q.v| {
      var m :| MatchNode(x, q.v[i], a, m) && MatchSeq(x, q, i + 1, m, b);
      MatchSpans(x, q.v[i], a, m);
      MatchSpansSeq(x, q, i + 1, m, b);
    }
  }

  lemma {:induction false} RoundsSpan(x: Subject, q: Branch, t: seq<St>)
    requires ValidSubject(x) && NoBackrefSeq(q) && Rounds(x, q, t)
    ensures SpansTimes(x, q, |t| - 1, t[0].pos, t[|t| - 1].pos)
    decreases q, 2, |t|
  {
    if |t| > 1 {
      RoundsTail(x, q, t);
      MatchSpansSeq(x, q, 0, t[0], t[1]);
      RoundsSpan(x, q, t[1..]);
    }
  }

  // ----- every span of a harmless tree is matched -----

  lemma {:induction false} SpansMatch(x: Subject, n: Node, a: St, j: nat) returns (b: St)
    requires ValidSubject(x) && ValidSt(x, a) && WfNode(n) && Harmless(x, n) && Spans(x, n, a.pos, j)
    ensures MatchNode(x, n, a, b) && b.pos == j
    decreases n, 0
  {
    match n
    case Group(idx, sub) =>
      var m := SpansMatchSeq(x, sub, 0, Open(a, idx), j);
      b := Close(m, idx);
    case Alt(alts) =>
      var i :| 0 <= i < |alts| && SpansSeq(x, alts[i], 0, a.pos, j);
      b := SpansMatchSeq(x, alts[i], 0, a, j);
    case Rep(min, max, sub) =>
      var c: nat :| SpansTimes(x, sub, c, a.pos, j) && min <= c && (max < 0 || c <= max);
      b := TimesMatch(x, sub, c, 0, min, max, a, j);
      assert MatchRep(x, sub, 0, min, max, a, b);
      MatchRepValid(x, sub, 0, min, max, a, b);
    case _ =>
      b := a.(pos := j);
  }

  lemma {:induction false} SpansMatchSeq(x: Subject, q: Branch, i: nat, a: St, j: nat) returns (b: St)
    requires ValidSubject(x) && ValidSt(x, a) && WfBranch(q) && HarmlessSeq(x, q) && SpansSeq(x, q, i, a.pos, j)
    ensures MatchSeq(x, q, i, a, b) && b.pos == j
    decreases q, 1, |q.v| - i
  {
    if i >= |q.v| {
      b := a;
    } else {
      var h: nat :| Spans(x, q.v[i], a.pos, h) && SpansSeq(x, q, i + 1, h, j);
      var m := SpansMatch(x, q.v[i], a, h);
      b := SpansMatchSeq(x, q, i + 1, m, j);
    }
  }

  /** `c` more rounds, empty ones dropped: one is kept only if no other round is left to
      reach a lower bound of 1. */
  lemma {:induction false} TimesMatch(x: Subject, q: Branch, c: nat, done: nat, min: nat, max: int, a: St, j: nat)
    returns (b: St)
    requires ValidSubject(x) && ValidSt(x, a) && WfBranch(q) && HarmlessSeq(x, q) && RepHarmless(x, min, max, q)
    requires SpansTimes(x, q, c, a.pos, j) && min <= done + c && (max < 0 || done + c <= max)
    ensures MatchRep(x, q, done, min, max, a, b) && b.pos == j
    decreases q, 2, c
  {
    if c == 0 {
      b := a;
    } else {
      var h: nat :| SpansSeq(x, q, 0, a.pos, h) && SpansTimes(x, q, c - 1, h, j);
      if h == a.pos && (done >= min || c > 1) {
        b := TimesMatch(x, q, c - 1, done, min, max, a, j);
      } else {
        var m := SpansMatchSeq(x, q, 0, a, h);
        b := m;
        if h != a.pos {
          b := TimesMatch(x, q, c - 1, done + 1, min, max, m, j);
        }
        assert RepAfter(x, q, done, min, max, a.pos, m, b);
      }
    }
    RepUnroll(x, q, done, min, max, a, b);
  }

  // ----- exactly which repetitions lose matches -----

  /** The matcher can take this node wherever the textbook can. */
  ghost predicate Complete(x: Subject, n: Node)
    requires ValidSubject(x)
  {
    forall a: St, j: nat | ValidSt(x, a) && Spans(x, n, a.pos, j) :: MatchesTo(x, n, a, j)
  }

  ghost predicate MatchesTo(x: Subject, n: Node, a: St, j: nat)
    requires ValidSubject(x)
  {
    exists b :: MatchNode(x, n, a, b) && b.pos == j
  }

  /** Over a body it handles itself, a repetition is handled completely if and only if its
      lower bound is at most 1 (or unreachable) or its body never matches empty. */
  lemma RepExact(x: Subject, min: nat, max: int, q: Branch)
    requires ValidSubject(x) && WfBranch(q) && NoBackrefSeq(q) && HarmlessSeq(x, q)
    ensures Complete(x, Rep(min, max, q)) <==> RepHarmless(x, min, max, q)
  {
    var n := Rep(min, max, q);
    if RepHarmless(x, min, max, q) {
      forall a: St, j: nat | ValidSt(x, a) && Spans(x, n, a.pos, j)
        ensures MatchesTo(x, n, a, j)
      {
        var b := SpansMatch(x, n, a, j);
      }
    } else {
      var i: nat :| SpansSeq(x, q, 0, i, i);
      var a := St(i, seq(NGROUPS + 1, _ => -1), seq(NGROUPS + 1, _ => -1));
      EmptyTimes(x, q, min, i);
      assert Spans(x, n, i, i);
      EmptyRoundsRefused(x, min, max, q, a);
      assert !MatchesTo(x, n, a, i);
    }
  }

  lemma {:induction false} EmptyTimes(x: Subject, q: Branch, c: nat, i: nat)
    requires ValidSubject(x) && SpansSeq(x, q, 0, i, i)
    ensures SpansTimes(x, q, c, i, i)
  {
    if c > 0 {
      EmptyTimes(x, q, c - 1, i);
    }
  }

  /** Two or more required rounds cannot all be empty. */
  lemma EmptyRoundsRefused(x: Subject, min: nat, max: int, q: Branch, a: St)
    requires ValidSubject(x) && min >= 2
    ensures !MatchesTo(x, Rep(min, max, q), a, a.pos)
  {
    forall b | MatchNode(x, Rep(min, max, q), a, b)
      ensures b.pos != a.pos
    {
      var t: seq<St> :| Rounds(x, q, t) && t[0] == a && t[|t| - 1] == b && CountOk(0, min, max, |t| - 1);
      RoundsTail(x, q, t);
      RoundsForward(x, q, t[1..]);
    }
  }

  /** `(a*){2}` is such a repetition: it should match the empty string and does not. */
  lemma TwoEmptyRoundsMissed(x: Subject)
    requires ValidSubject(x) && x.s == []
    ensures var n := Rep(2, 2, Branch([Group(1, Branch([Rep(0, -1, Branch([Char('a' as int)]))]))]));
            Spans(x, n, 0, 0) && forall a: St :: !MatchesTo(x, n, a, 0)
  {
    var star := Branch([Rep(0, -1, Branch([Char('a' as int)]))]);
    var body := Branch([Group(1, star)]);
    assert SpansTimes(x, Branch([Char('a' as int)]), 0, 0, 0);
    assert Spans(x, star.v[0], 0, 0) && SpansSeq(x, star, 1, 0, 0);
    assert SpansSeq(x, star, 0, 0, 0);
    assert Spans(x, body.v[0], 0, 0) && SpansSeq(x, body, 1, 0, 0);
    EmptyTimes(x, body, 2, 0);
    forall a: St
      ensures !MatchesTo(x, Rep(2, 2, body), a, 0)
    {
      if a.pos == 0 {
        EmptyRoundsRefused(x, 2, 2, body, a);
      }
    }
  }

  // ----- a check on the tree alone -----

  /** Every match of the node consumes a character. */
  predicate Consumes(n: Node)
    decreases n, 0
  {
    match n
    case Char(_) => true
    case Any => true
    case Class(_, _) => true
    case Bol => false
    case Eol => false
    case Backref(_) => false
    case Group(_, sub) => ConsumesSeq(sub)
    case Alt(alts) => forall a | 0 <= a < |alts| :: ConsumesSeq(alts[a])
    case Rep(min, _, sub) => min >= 1 && ConsumesSeq(sub)
  }

  predicate ConsumesSeq(q: Branch)
    decreases q, 1
  {
    exists p | 0 <= p < |q.v| :: Consumes(q.v[p])
  }

  lemma {:induction false} ConsumesAdvances(x: Subject, n: Node, i: nat, j: nat)
    requires ValidSubject(x) && Spans(x, n, i, j)
    ensures i <= j && (Consumes(n) ==> i < j)
    decreases n, 0
  {
    match n
    case Group(_, sub) =>
      ConsumesAdvancesSeq(x, sub, 0, i, j);
      assert ConsumesSeq(sub) ==> i < j;
    case Alt(alts) =>
      var a :| 0 <= a < |alts| && SpansSeq(x, alts[a], 0, i, j);
      ConsumesAdvancesSeq(x, alts[a], 0, i, j);
      assert ConsumesSeq(alts[a]) ==> i < j;
    case Rep(min, max, sub) =>
      var c: nat :| SpansTimes(x, sub, c, i, j) && min <= c && (max < 0 || c <= max);
      ConsumesAdvancesTimes(x, sub, c, i, j);
    case _ =>
  }

  lemma {:induction false} ConsumesAdvancesSeq(x: Subject, q: Branch, p: nat, i: nat, j: nat)
    requires ValidSubject(x) && SpansSeq(x, q, p, i, j)
    ensures i <= j && ((exists h | p <= h < |q.v| :: Consumes(q.v[h])) ==> i < j)
    decreases q, 1, |q.v| - p
  {
    if p < |q.v| {
      var m: nat :| Spans(x, q.v[p], i, m) && SpansSeq(x, q, p + 1, m, j);
      ConsumesAdvances(x, q.v[p], i, m);
      ConsumesAdvancesSeq(x, q, p + 1, m, j);
    }
  }

  lemma {:induction false} ConsumesAdvancesTimes(x: Subject, q: Branch, c: nat, i: nat, j: nat)
    requires ValidSubject(x) && SpansTimes(x, q, c, i, j)
    ensures i <= j && (c > 0 && ConsumesSeq(q) ==> i < j)
    decreases q, 2, c
  {
    if c > 0 {
      var m: nat :| SpansSeq(x, q, 0, i, m) && SpansTimes(x, q, c - 1, m, j);
      ConsumesAdvancesSeq(x, q, 0, i, m);
      assert ConsumesSeq(q) ==> i < m;
      ConsumesAdvancesTimes(x, q, c - 1, m, j);
    }
  }

  /** Every repetition with a lower bound of 2 or more has a body that consumes. */
  predicate Sturdy(n: Node)
    decreases n, 0
  {
    match n
    case Group(_, sub) => SturdySeq(sub)
    case Alt(alts) => forall a | 0 <= a < |alts| :: SturdySeq(alts[a])
    case Rep(min, _, sub) => (min <= 1 || ConsumesSeq(sub)) && SturdySeq(sub)
    case _ => true
  }

  predicate SturdySeq(q: Branch)
    decreases q, 1
  {
    forall p | 0 <= p < |q.v| :: Sturdy(q.v[p])
  }

  lemma {:induction false} SturdyIsHarmless(x: Subject, n: Node)
    requires ValidSubject(x) && Sturdy(n)
    ensures Harmless(x, n)
    decreases n, 0
  {
    match n
    case Group(_, sub) =>
      SturdyIsHarmlessSeq(x, sub);
    case Alt(alts) =>
      forall a | 0 <= a < |alts| { SturdyIsHarmlessSeq(x, alts[a]); }
    case Rep(min, max, sub) =>
      SturdyIsHarmlessSeq(x, sub);
      forall i: nat | ConsumesSeq(sub) && SpansSeq(x, sub, 0, i, i)
        ensures false
      {
        ConsumesAdvancesSeq(x, sub, 0, i, i);
      }
    case _ =>
  }

  lemma {:induction false} SturdyIsHarmlessSeq(x: Subject, q: Branch)
    requires ValidSubject(x) && SturdySeq(q)
    ensures HarmlessSeq(x, q)
    decreases q, 1
  {
    forall p | 0 <= p < |q.v| { SturdyIsHarmless(x, q.v[p]); }
  }
}
