/** regexec: the leftmost-longest match and its captures. */
module RegexExec {
  import opened Common
  import opened RegexTree
  import opened RegexPosix
  import opened RegexMatcher

  const REG_NOMATCH: int := 1

  ghost function Unset(): (g: seq<int>)
    ensures |g| == NGROUPS + 1
  {
    seq(NGROUPS + 1, _ => -1)
  }

  /** The state a search from `start` begins in. */
  ghost function Fresh(start: nat): St {
    St(start, Unset(), Unset())
  }

  /** `m` is the end state of some match of the program at `start`. */
  ghost predicate MatchAt(x: Subject, top: Branch, start: nat, m: St)
    requires ValidSubject(x)
  {
    MatchSeq(x, top, 0, Fresh(start), m)
  }

  /** The nodes an unlimited search from `start` would visit. */
  ghost function SearchCost(x: Subject, top: Branch, start: nat): nat
    requires ValidSubject(x) && start <= x.len && WfBranch(top)
  {
    Cost(x, RunSeq(top, 0, KTop), Fresh(start))
  }

  /** The searches from `lo` up to `hi` all stay within the step limit. */
  ghost predicate WithinLimit(x: Subject, top: Branch, lo: nat, hi: nat)
    requires ValidSubject(x) && hi <= x.len && WfBranch(top)
  {
    forall i: nat | lo <= i <= hi :: SearchCost(x, top, i) <= 4_000_001
  }

  /** `m` is a longest match at `start`, and no match of that length has better captures. */
  ghost predicate BestAt(x: Subject, top: Branch, start: nat, m: St)
    requires ValidSubject(x)
  {
    MatchAt(x, top, start, m) && forall f | MatchAt(x, top, start, f) :: HasCaps(f) && HasCaps(m) && !Replaces(f, m)
  }

  datatype Found = NoMatch | Match(start: nat, end: nat, gs: seq<int>, ge: seq<int>)

  /** One search: all that one start position has to offer. */
  method SearchFrom(x: Subject, top: Branch, start: nat) returns (r: Found)
    requires ValidSubject(x) && WfBranch(top) && start <= x.len
    ensures r.Match? ==> r.start == start && MatchAt(x, top, start, St(r.end, r.gs, r.ge))
    ensures SearchCost(x, top, start) <= 4_000_001 ==>
              && (r.NoMatch? ==> forall m :: !MatchAt(x, top, start, m))
              && (r.Match? ==> BestAt(x, top, start, St(r.end, r.gs, r.ge)))
  {
    var rc := new Matcher(x);
    assert rc.At(start) == Fresh(start);
    var cut := rc.MSeq(top, 0, start, KTop);
    assert rc.visits[0..] == rc.visits;
    forall f ensures Reach(x, RunSeq(top, 0, KTop), Fresh(start), f) <==> MatchAt(x, top, start, f) {}
    if rc.bestEnd < 0 {
      return NoMatch;
    }
    BestUnbeaten(rc.visits);
    return Match(start, rc.bestEnd, rc.bestGs[..], rc.bestGe[..]);
  }

  /** What a search over all start positions from `from` on may report: a match is always
      genuine; it is the leftmost and best one, and "no match" means there is none, as long
      as no search up to there runs into the step limit. */
  ghost predicate Reported(x: Subject, top: Branch, from: nat, r: Found)
    requires ValidSubject(x) && WfBranch(top) && from <= x.len
  {
    match r
    case NoMatch =>
      WithinLimit(x, top, from, x.len) ==> forall i: nat, m: St | from <= i <= x.len :: !MatchAt(x, top, i, m)
    case Match(start, end, gs, ge) =>
      && from <= start <= x.len
      && MatchAt(x, top, start, St(end, gs, ge))
      && (WithinLimit(x, top, from, start) ==>
            && BestAt(x, top, start, St(end, gs, ge))
            && forall i: nat, m: St | from <= i < start :: !MatchAt(x, top, i, m))
  }

  /** The loop over start positions. */
  method FindMatch(x: Subject, top: Branch, from: nat) returns (r: Found)
    requires ValidSubject(x) && WfBranch(top) && from <= x.len
    ensures Reported(x, top, from, r)
  {
    var start := from;
    while start <= x.len
      invariant from <= start <= x.len + 1
      invariant forall i: nat, m: St | from <= i < start && SearchCost(x, top, i) <= 4_000_001 ::
                  !MatchAt(x, top, i, m)
    {
      r := SearchFrom(x, top, start);
      if r.Match? {
        return;
      }
      start := start + 1;
    }
    return NoMatch;
  }

  /** The search for a pattern of characters visits a node for each one compared, no more than the pattern
      has: it stays within the limit for every such pattern that fits. */
  lemma {:induction false} LiteralCost(x: Subject, q: Branch, i: nat, a: St)
    requires ValidSubject(x) && ValidSt(x, a) && WfBranch(q) && i <= |q.v| && forall j | 0 <= j < |q.v| :: q.v[j].Char?
    ensures Cost(x, RunSeq(q, i, KTop), a) <= |q.v| - i
    ensures i < |q.v| ==> Cost(x, RunSeq(q, i, KTop), a) >= 1
    ensures i + 1 < |q.v| && a.pos < x.len && Accepts(x, q.v[i], x.s[a.pos]) ==>
              Cost(x, RunSeq(q, i, KTop), a) == 1 + Cost(x, RunSeq(q, i + 1, KTop), a.(pos := a.pos + 1))
    decreases |q.v| - i
  {
    if i < |q.v| {
      var n, k := q.v[i], KSeq(q, i + 1, KTop);
      assert WfNode(n);
      var e := AtomEnd(x, n, a);
      if e >= 0 {
        LiteralCost(x, q, i + 1, a.(pos := e));
      }
      assert Cost(x, RunNode(n, k), a) == 1 + if e < 0 then 0 else Cost(x, RunK(k), a.(pos := e));
    }
  }

  datatype Offsets = Offsets(so: int, eo: int)

  /** The position of the first zero byte. */
  function Strlen(s: seq<Byte>): (n: nat)
    requires 0 in s
    ensures n < |s| && s[n] == 0 && forall i | 0 <= i < n :: s[i] != 0
  {
    if s[0] == 0 then 0 else 1 + Strlen(s[1..])
  }

  /** regexec on the memory `s` from `string` on, which holds a zero byte.  With REG_STARTEND the
      range searched comes in through `pmatch[0]` and may go past that byte. */
  method Regexec(top: Branch, ngroup: nat, s: seq<Byte>, icase: bool, newline: bool, nmatch: nat,
                 pmatch: array?<Offsets>, notbol: bool, noteol: bool, startend: bool)
    returns (rc: int, ghost r: Found)
    requires WfBranch(top) && ngroup < NGROUPS
    requires 0 in s && (pmatch != null ==> nmatch <= pmatch.Length)
    requires startend && pmatch != null && nmatch > 0 ==> pmatch[0].eo <= |s|
    modifies if pmatch == null then {} else {pmatch}
    ensures rc == if r.Match? then 0 else REG_NOMATCH
    ensures old(RangeOf(s, nmatch, pmatch, startend)).so < 0
            || old(RangeOf(s, nmatch, pmatch, startend)).eo < old(RangeOf(s, nmatch, pmatch, startend)).so
            ==> r.NoMatch?
    ensures var o := old(RangeOf(s, nmatch, pmatch, startend));
            0 <= o.so <= o.eo ==> Reported(Subject(s, o.eo, icase, newline, notbol, noteol), top, o.so, r)
    ensures pmatch != null && (r.NoMatch? || nmatch == 0) ==> pmatch[..] == old(pmatch[..])
    ensures pmatch != null && r.Match? && nmatch > 0 ==>
              && pmatch[0] == Offsets(r.start, r.end)
              && (forall i | 1 <= i < nmatch ::
                    pmatch[i] == if i <= ngroup then Offsets(r.gs[i], r.ge[i]) else Offsets(-1, -1))
              && pmatch[nmatch..] == old(pmatch[nmatch..])
  {
    var from, len := 0, Strlen(s);
    r := NoMatch;
    if startend && pmatch != null && nmatch > 0 {
      from, len := pmatch[0].so, pmatch[0].eo;
      if from < 0 || len < from {
        return REG_NOMATCH, NoMatch;
      }
    }
    var x := Subject(s, len, icase, newline, notbol, noteol);
    var found := FindMatch(x, top, from);
    r := found;
    if found.NoMatch? {
      return REG_NOMATCH, NoMatch;
    }
    assert HasCaps(St(found.end, found.gs, found.ge));
    if nmatch > 0 && pmatch != null {
      pmatch[0] := Offsets(found.start, found.end);
      var i := 1;
      while i < nmatch
        invariant 1 <= i <= nmatch
        invariant pmatch[0] == Offsets(found.start, found.end)
        invariant forall j | 1 <= j < i ::
                    pmatch[j] == if j <= ngroup then Offsets(found.gs[j], found.ge[j]) else Offsets(-1, -1)
        invariant pmatch[nmatch..] == old(pmatch[nmatch..])
      {
        pmatch[i] := if i <= ngroup then Offsets(found.gs[i], found.ge[i]) else Offsets(-1, -1);
        i := i + 1;
      }
    }
    return 0, found;
  }

  /** The part of the buffer to search. */
  ghost function RangeOf(s: seq<Byte>, nmatch: nat, pmatch: array?<Offsets>, startend: bool): Offsets
    requires 0 in s && (pmatch != null ==> nmatch <= pmatch.Length)
    reads if pmatch == null then {} else {pmatch}
  {
    if startend && pmatch != null && nmatch > 0 then pmatch[0] else Offsets(0, Strlen(s))
  }

  // ----- the reported captures -----

  /** A match leaves each group alone or sets it to a span between its own two ends. */
  ghost predicate SpanOrSame(a: St, b: St, i: nat)
    requires HasCaps(a) && HasCaps(b) && i <= NGROUPS
  {
    || (b.gs[i] == a.gs[i] && b.ge[i] == a.ge[i])
    || a.pos <= b.gs[i] <= b.ge[i] <= b.pos
  }

  lemma {:induction false} CapturesInside(x: Subject, n: Node, a: St, b: St, i: nat)
    requires ValidSubject(x) && MatchNode(x, n, a, b) && i <= NGROUPS
    ensures a.pos <= b.pos && SpanOrSame(a, b, i)
    decreases n, 0
  {
    match n
    case Group(idx, sub) =>
      var m :| MatchSeq(x, sub, 0, Open(a, idx), m) && b == Close(m, idx);
      CapturesInsideSeq(x, sub, 0, Open(a, idx), m, i);
    case Alt(alts) =>
      var j :| 0 <= j < |alts| && MatchSeq(x, alts[j], 0, a, b);
      CapturesInsideSeq(x, alts[j], 0, a, b, i);
    case Rep(min, max, sub) =>
      var t: seq<St> :| Rounds(x, sub, t) && t[0] == a && t[|t| - 1] == b && CountOk(0, min, max, |t| - 1);
      CapturesInsideRounds(x, sub, t, i);
    case _ =>
  }

  lemma {:induction false} CapturesInsideSeq(x: Subject, q: Branch, p: nat, a: St, b: St, i: nat)
    requires ValidSubject(x) && MatchSeq(x, q, p, a, b) && i <= NGROUPS
    ensures a.pos <= b.pos && SpanOrSame(a, b, i)
    decreases q, 1, |q.v| - p
  {
    if p < |q.v| {
      var m :| MatchNode(x, q.v[p], a, m) && MatchSeq(x, q, p + 1, m, b);
      CapturesInside(x, q.v[p], a, m, i);
      CapturesInsideSeq(x, q, p + 1, m, b, i);
    }
  }

  lemma {:induction false} CapturesInsideRounds(x: Subject, q: Branch, t: seq<St>, i: nat)
    requires ValidSubject(x) && Rounds(x, q, t) && i <= NGROUPS
    ensures ValidSt(x, t[|t| - 1])
    ensures t[0].pos <= t[|t| - 1].pos && SpanOrSame(t[0], t[|t| - 1], i)
    decreases q, 2, |t|
  {
    if |t| > 1 {
      RoundsTail(x, q, t);
      CapturesInsideSeq(x, q, 0, t[0], t[1], i);
      CapturesInsideRounds(x, q, t[1..], i);
    }
  }

  /** Every group of every match is unset or a span inside the whole match. */
  lemma MatchCaptures(x: Subject, top: Branch, start: nat, m: St, i: nat)
    requires ValidSubject(x) && MatchAt(x, top, start, m) && i <= NGROUPS
    ensures start <= m.pos <= x.len
    ensures (m.gs[i] == -1 && m.ge[i] == -1) || start <= m.gs[i] <= m.ge[i] <= m.pos
  {
    CapturesInsideSeq(x, top, 0, Fresh(start), m, i);
  }

  // ----- leftmost-longest in the textbook's terms -----

  /** Over a tree without back-references whose repetitions are harmless, the program
      matches exactly the substrings it should. */
  lemma MatchAtIsSpan(x: Subject, top: Branch, i: nat, j: nat)
    requires ValidSubject(x) && WfBranch(top) && NoBackrefSeq(top) && HarmlessSeq(x, top)
    ensures SpansSeq(x, top, 0, i, j) <==> exists m :: MatchAt(x, top, i, m) && m.pos == j
  {
    if SpansSeq(x, top, 0, i, j) {
      var m := SpansMatchSeq(x, top, 0, Fresh(i), j);
      assert MatchAt(x, top, i, m);
    }
    forall m | MatchAt(x, top, i, m)
      ensures SpansSeq(x, top, 0, i, m.pos)
    {
      MatchSpansSeq(x, top, 0, Fresh(i), m);
    }
  }

  /** `start` is the first position at which the tree matches anything and `end` the last
      end of its matches there. */
  ghost predicate LeftmostLongest(x: Subject, top: Branch, from: nat, start: nat, end: nat)
    requires ValidSubject(x)
  {
    && from <= start <= end
    && SpansSeq(x, top, 0, start, end)
    && (forall i: nat, j: nat | from <= i < start :: !SpansSeq(x, top, 0, i, j))
    && (forall j: nat | SpansSeq(x, top, 0, start, j) :: j <= end)
  }

  ghost predicate NoSpan(x: Subject, top: Branch, from: nat)
    requires ValidSubject(x)
  {
    forall i: nat, j: nat | from <= i :: !SpansSeq(x, top, 0, i, j)
  }

  /** What regexec reports is the leftmost-longest match, and "no match" means there is none, as
      long as the searches it makes stay within the limit. */
  lemma ReportedIsLeftmostLongest(x: Subject, top: Branch, from: nat, r: Found)
    requires ValidSubject(x) && WfBranch(top) && from <= x.len && Reported(x, top, from, r)
    requires NoBackrefSeq(top) && HarmlessSeq(x, top)
    requires WithinLimit(x, top, from, if r.Match? then r.start else x.len)
    ensures r.Match? <==> !NoSpan(x, top, from)
    ensures r.Match? ==> LeftmostLongest(x, top, from, r.start, r.end)
  {
    forall i: nat, j: nat { MatchAtIsSpan(x, top, i, j); }
    if r.Match? {
      MatchCaptures(x, top, r.start, St(r.end, r.gs, r.ge), 0);
      assert SpansSeq(x, top, 0, r.start, r.end);
    }
  }

  /** A reported match is a genuine one whether or not the step limit was reached. */
  lemma ReportedIsGenuine(x: Subject, top: Branch, from: nat, r: Found, i: nat)
    requires ValidSubject(x) && WfBranch(top) && from <= x.len && Reported(x, top, from, r) && r.Match?
    requires i <= NGROUPS
    ensures from <= r.start <= r.end <= x.len && |r.gs| == |r.ge| == NGROUPS + 1
    ensures NoBackrefSeq(top) ==> SpansSeq(x, top, 0, r.start, r.end)
    ensures (r.gs[i] == -1 && r.ge[i] == -1) || r.start <= r.gs[i] <= r.ge[i] <= r.end
  {
    var m := St(r.end, r.gs, r.ge);
    MatchCaptures(x, top, r.start, m, i);
    if NoBackrefSeq(top) {
      MatchSpansSeq(x, top, 0, Fresh(r.start), m);
    }
  }
}
