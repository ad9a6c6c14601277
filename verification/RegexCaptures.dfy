/** What the reported captures are, on the offsets: which of several matches is reported, and what each
    group holds. */
module RegexCaptures {
  import opened Common
  import opened RegexTree
  import opened RegexPosix
  import opened RegexMatcher
  import opened RegexExec

  // ----- which match is reported -----

  /** Group `i` has the same offsets in both, or is empty in both. */
  ghost predicate SameSpan(a: St, b: St, i: nat)
    requires HasCaps(a) && HasCaps(b) && i <= NGROUPS
  {
    || (a.gs[i] == b.gs[i] && a.ge[i] == b.ge[i])
    || (0 <= a.gs[i] == a.ge[i] && 0 <= b.gs[i] == b.ge[i])
  }

  /** Among all matches at a start the one reported is as long as any, and where another one of its length
      differs, the first group in which it does is set in the one reported and is longer, or as long and
      further left, or not set in the other. */
  lemma FirstDifferenceDecides(x: Subject, top: Branch, start: nat, m: St, f: St, i: nat)
    requires ValidSubject(x) && BestAt(x, top, start, m) && MatchAt(x, top, start, f) && 1 <= i <= NGROUPS
    requires HasCaps(m) && HasCaps(f)
    requires (forall j | 1 <= j < i :: SameSpan(m, f, j)) && !SameSpan(m, f, i)
    ensures f.pos <= m.pos
    ensures f.pos == m.pos ==>
              && 0 <= m.gs[i] <= m.ge[i]
              && (|| f.gs[i] < 0
                  || m.ge[i] - m.gs[i] > f.ge[i] - f.gs[i]
                  || (m.ge[i] - m.gs[i] == f.ge[i] - f.gs[i] && m.gs[i] < f.gs[i]))
  {
    forall j | 1 <= j < i
      ensures SameAt(f, m, j)
    {
      assert SameSpan(m, f, j);
      MatchCaptures(x, top, start, m, j);
      MatchCaptures(x, top, start, f, j);
    }
    MatchCaptures(x, top, start, m, i);
    MatchCaptures(x, top, start, f, i);
    BetterAtDifference(f, m, i);
    assert !Replaces(f, m);
  }

  // ----- what a group holds -----

  /** A group `i` with body `sub` occurs in the tree. */
  ghost predicate GroupIn(n: Node, i: nat, sub: Branch)
    decreases n, 0
  {
    match n
    case Group(k, q) => (k == i && q == sub) || GroupInSeq(q, i, sub)
    case Alt(alts) => exists j | 0 <= j < |alts| :: GroupInSeq(alts[j], i, sub)
    case Rep(_, _, q) => GroupInSeq(q, i, sub)
    case _ => false
  }

  ghost predicate GroupInSeq(q: Branch, i: nat, sub: Branch)
    decreases q, 1
  {
    exists p | 0 <= p < |q.v| :: GroupIn(q.v[p], i, sub)
  }

  /** No group lies inside a group of its own number, as the parser numbers them. */
  ghost predicate Numbered(n: Node)
    decreases n, 0
  {
    match n
    case Group(k, q) => (forall sub :: !GroupInSeq(q, k, sub)) && NumberedSeq(q)
    case Alt(alts) => forall j | 0 <= j < |alts| :: NumberedSeq(alts[j])
    case Rep(_, _, q) => NumberedSeq(q)
    case _ => true
  }

  ghost predicate NumberedSeq(q: Branch)
    decreases q, 1
  {
    forall p | 0 <= p < |q.v| :: Numbered(q.v[p])
  }

  /** The body `sub` has matched from `lo` to `hi`. */
  ghost predicate HasMatched(x: Subject, sub: Branch, lo: int, hi: int)
    requires ValidSubject(x)
  {
    exists c: St, d: St :: MatchSeq(x, sub, 0, c, d) && c.pos == lo && d.pos == hi
  }

  ghost predicate IsCapture(x: Subject, n: Node, i: nat, lo: int, hi: int)
    requires ValidSubject(x)
  {
    exists sub :: GroupIn(n, i, sub) && HasMatched(x, sub, lo, hi)
  }

  ghost predicate IsCaptureSeq(x: Subject, q: Branch, i: nat, lo: int, hi: int)
    requires ValidSubject(x)
  {
    exists sub :: GroupInSeq(q, i, sub) && HasMatched(x, sub, lo, hi)
  }

  ghost predicate Untouched(a: St, b: St, i: nat)
    requires HasCaps(a) && HasCaps(b) && i <= NGROUPS
  {
    b.gs[i] == a.gs[i] && b.ge[i] == a.ge[i]
  }

  lemma InSeq(x: Subject, q: Branch, p: nat, i: nat, lo: int, hi: int)
    requires ValidSubject(x) && p < |q.v| && IsCapture(x, q.v[p], i, lo, hi)
    ensures IsCaptureSeq(x, q, i, lo, hi)
  {
    hide HasMatched, GroupIn;
    var sub :| GroupIn(q.v[p], i, sub) && HasMatched(x, sub, lo, hi);
    assert GroupInSeq(q, i, sub);
  }

  lemma {:induction false} NodeCaptures(x: Subject, n: Node, a: St, b: St, i: nat)
    requires ValidSubject(x) && MatchNode(x, n, a, b) && Numbered(n) && i <= NGROUPS
    ensures Untouched(a, b, i) || IsCapture(x, n, i, b.gs[i], b.ge[i])
    decreases n, 0
  {
    hide HasMatched;
    match n
    case Group(k, q) =>
      var m :| MatchSeq(x, q, 0, Open(a, k), m) && b == Close(m, k);
      SeqCaptures(x, q, 0, Open(a, k), m, i);
      if k == i {
        assert !IsCaptureSeq(x, q, i, m.gs[i], m.ge[i]);
        GroupHasMatched(x, q, Open(a, k), m);
        assert GroupIn(n, i, q);
      } else if !Untouched(Open(a, k), m, i) {
        var sub :| GroupInSeq(q, i, sub) && HasMatched(x, sub, m.gs[i], m.ge[i]);
        assert GroupIn(n, i, sub);
      }
    case Alt(alts) =>
      var j :| 0 <= j < |alts| && MatchSeq(x, alts[j], 0, a, b);
      SeqCaptures(x, alts[j], 0, a, b, i);
      if !Untouched(a, b, i) {
        var sub :| GroupInSeq(alts[j], i, sub) && HasMatched(x, sub, b.gs[i], b.ge[i]);
        assert GroupIn(n, i, sub);
      }
    case Rep(min, max, q) =>
      var t: seq<St> :| Rounds(x, q, t) && t[0] == a && t[|t| - 1] == b && CountOk(0, min, max, |t| - 1);
      RoundsCapture(x, q, t, i);
      if !Untouched(a, b, i) {
        var sub :| GroupInSeq(q, i, sub) && HasMatched(x, sub, b.gs[i], b.ge[i]);
        assert GroupIn(n, i, sub);
      }
    case _ =>
  }

  lemma GroupHasMatched(x: Subject, q: Branch, c: St, d: St)
    requires ValidSubject(x) && MatchSeq(x, q, 0, c, d)
    ensures HasMatched(x, q, c.pos, d.pos)
  {
  }

  lemma {:induction false} SeqCaptures(x: Subject, q: Branch, p: nat, a: St, b: St, i: nat)
    requires ValidSubject(x) && MatchSeq(x, q, p, a, b) && NumberedSeq(q) && i <= NGROUPS
    ensures Untouched(a, b, i) || IsCaptureSeq(x, q, i, b.gs[i], b.ge[i])
    decreases q, 1, |q.v| - p
  {
    hide IsCapture, IsCaptureSeq;
    if p < |q.v| {
      var m :| MatchNode(x, q.v[p], a, m) && MatchSeq(x, q, p + 1, m, b);
      NodeCaptures(x, q.v[p], a, m, i);
      SeqCaptures(x, q, p + 1, m, b, i);
      if !Untouched(a, m, i) {
        InSeq(x, q, p, i, m.gs[i], m.ge[i]);
      }
    }
  }

  lemma {:induction false} RoundsCapture(x: Subject, q: Branch, t: seq<St>, i: nat)
    requires ValidSubject(x) && Rounds(x, q, t) && NumberedSeq(q) && i <= NGROUPS
    ensures var a, b := t[0], t[|t| - 1];
            HasCaps(a) && HasCaps(b) && (Untouched(a, b, i) || IsCaptureSeq(x, q, i, b.gs[i], b.ge[i]))
    decreases q, 2, |t|
  {
    hide IsCaptureSeq;
    if |t| > 1 {
      var t' := t[..|t| - 1];
      assert Rounds(x, q, t');
      RoundsCapture(x, q, t', i);
      SeqCaptures(x, q, 0, t[|t| - 2], t[|t| - 1], i);
    }
  }

  /** Every group of a match is unset, or holds a span that the body of a group with its number has
      matched; without back-references, a substring of that body's textbook language. */
  lemma GroupsHoldTheirText(x: Subject, top: Branch, start: nat, m: St, i: nat)
    requires ValidSubject(x) && MatchAt(x, top, start, m) && NumberedSeq(top) && i <= NGROUPS
    ensures (m.gs[i] == -1 && m.ge[i] == -1) || IsCaptureSeq(x, top, i, m.gs[i], m.ge[i])
    ensures NoBackrefSeq(top) && m.gs[i] >= 0 ==>
              exists sub :: GroupInSeq(top, i, sub) && 0 <= m.ge[i] && SpansSeq(x, sub, 0, m.gs[i], m.ge[i])
  {
    SeqCaptures(x, top, 0, Fresh(start), m, i);
    if NoBackrefSeq(top) && m.gs[i] >= 0 {
      var sub :| GroupInSeq(top, i, sub) && HasMatched(x, sub, m.gs[i], m.ge[i]);
      var c: St, d: St :| MatchSeq(x, sub, 0, c, d) && c.pos == m.gs[i] && d.pos == m.ge[i];
      BodyHasNoBackref(top, i, sub);
      MatchSpansSeq(x, sub, 0, c, d);
    }
  }

  lemma {:induction false} BodyHasNoBackref(q: Branch, i: nat, sub: Branch)
    requires NoBackrefSeq(q) && GroupInSeq(q, i, sub)
    ensures NoBackrefSeq(sub)
    decreases q, 1
  {
    var p :| 0 <= p < |q.v| && GroupIn(q.v[p], i, sub);
    match q.v[p]
    case Group(k, r) =>
      if r != sub { BodyHasNoBackref(r, i, sub); }
    case Alt(alts) =>
      var j :| 0 <= j < |alts| && GroupInSeq(alts[j], i, sub);
      BodyHasNoBackref(alts[j], i, sub);
    case Rep(_, _, r) =>
      BodyHasNoBackref(r, i, sub);
  }

  // ----- characters, anchors and back-references on the bytes of the subject -----

  predicate IsLetter(c: Byte) {
    65 <= c <= 90 || 97 <= c <= 122
  }

  /** The same byte or, ignoring case, the other case of a letter. */
  ghost predicate Alike(x: Subject, c: Byte, d: Byte) {
    c == d || (x.icase && IsLetter(c) && IsLetter(d) && (c - d == 32 || d - c == 32))
  }

  lemma AlikeIs(x: Subject, c: Byte, d: Byte)
    ensures SameChar(x, c, d) <==> Alike(x, c, d)
  {
  }

  /** A character node takes one byte: its own, any one but a newline where newlines are special, or one in
      the set or, negated, outside it. */
  lemma OneByte(x: Subject, n: Node, i: nat, j: nat)
    requires ValidSubject(x)
    ensures n.Char? ==> (Spans(x, n, i, j) <==> i < x.len && j == i + 1 && Alike(x, x.s[i], n.ch))
    ensures n.Any? ==> (Spans(x, n, i, j) <==> i < x.len && j == i + 1 && !(x.newline && x.s[i] == 10))
    ensures n.Class? && !n.neg ==>
              (Spans(x, n, i, j) <==> i < x.len && j == i + 1 && exists d :: d in n.bits && Alike(x, x.s[i], d))
    ensures n.Class? && n.neg ==>
              (Spans(x, n, i, j) <==>
               && i < x.len && j == i + 1 && (forall d | d in n.bits :: !Alike(x, x.s[i], d))
               && !(x.newline && x.s[i] == 10))
  {
    forall c, d
      ensures SameChar(x, c, d) <==> Alike(x, c, d)
    {
      AlikeIs(x, c, d);
    }
  }

  /** An anchor takes nothing, at the ends of the subject unless they are declared not to be line ends, and
      where newlines are special next to one. */
  lemma Anchors(x: Subject, i: nat, j: nat)
    requires ValidSubject(x) && i <= x.len
    ensures Spans(x, Bol, i, j) <==>
              j == i && ((i == 0 && !x.notbol) || (x.newline && i > 0 && x.s[i - 1] == 10))
    ensures Spans(x, Eol, i, j) <==>
              j == i && ((i == x.len && !x.noteol) || (x.newline && i < x.len && x.s[i] == 10))
  {
  }

  ghost predicate AlikeText(x: Subject, u: seq<Byte>, v: seq<Byte>) {
    |u| == |v| && forall i | 0 <= i < |u| :: Alike(x, u[i], v[i])
  }

  lemma SameTextIs(x: Subject, u: seq<Byte>, v: seq<Byte>)
    ensures SameText(x, u, v) <==> AlikeText(x, u, v)
    ensures AlikeText(x, u, v) && !x.icase ==> u == v
  {
    forall i | 0 <= i < |u| && |u| == |v|
      ensures SameChar(x, u[i], v[i]) <==> Alike(x, u[i], v[i])
    {
      AlikeIs(x, u[i], v[i]);
    }
  }

  /** A back-reference takes a text like that of its group and leaves the captures; without case folding
      it is the same text. */
  lemma BackrefRepeats(x: Subject, k: nat, a: St, b: St)
    requires ValidSubject(x) && ValidSt(x, a) && ValidSt(x, b) && k <= NGROUPS && a.pos <= b.pos
    ensures MatchNode(x, Backref(k), a, b) <==>
              && 0 <= a.gs[k] <= a.ge[k] && b.gs == a.gs && b.ge == a.ge
              && AlikeText(x, x.s[a.gs[k]..a.ge[k]], x.s[a.pos..b.pos])
    ensures MatchNode(x, Backref(k), a, b) && !x.icase ==>
              0 <= a.gs[k] <= a.ge[k] && x.s[a.pos..b.pos] == x.s[a.gs[k]..a.ge[k]]
  {
    hide SameText, AlikeText;
    if 0 <= a.gs[k] <= a.ge[k] {
      SameTextIs(x, x.s[a.gs[k]..a.ge[k]], x.s[a.pos..b.pos]);
      SameLengths(x, x.s[a.gs[k]..a.ge[k]], x.s[a.pos..b.pos]);
    }
  }

  lemma SameLengths(x: Subject, u: seq<Byte>, v: seq<Byte>)
    ensures AlikeText(x, u, v) ==> |u| == |v|
  {
  }
}
