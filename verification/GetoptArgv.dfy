/** Moving option elements in front of operands: the block rotation inside argv. */
module GetoptArgv {

  /** The blocks [b, m) and [m, t) of `s` exchanged, each in its own order. */
  function Rotated<T>(s: seq<T>, b: nat, m: nat, t: nat): (r: seq<T>)
    requires b <= m <= t <= |s|
    ensures |r| == |s|
  {
    s[..b] + s[m..t] + s[b..m] + s[t..]
  }

  /** Two blocks of the same length swapped element by element. */
  function Swapped<T>(s: seq<T>, i: nat, j: nat, len: nat): (r: seq<T>)
    requires i + len <= j && j + len <= |s|
    ensures |r| == |s|
  {
    s[..i] + s[j..j + len] + s[i + len..j] + s[i..i + len] + s[j + len..]
  }

  lemma SwappedStep<T>(s: seq<T>, i: nat, j: nat, k: nat)
    requires i + k < j && j + k < |s|
    ensures var r := Swapped(s, i, j, k);
            && r[i + k] == s[i + k] && r[j + k] == s[j + k]
            && Swapped(s, i, j, k + 1) == r[i + k := s[j + k]][j + k := s[i + k]]
  {
    var r := Swapped(s, i, j, k);
    SwappedAt(s, i, j, k, i + k);
    SwappedAt(s, i, j, k, j + k);
    var u, v := Swapped(s, i, j, k + 1), r[i + k := s[j + k]][j + k := s[i + k]];
    forall x | 0 <= x < |s|
      ensures u[x] == v[x]
    {
      SwappedAt(s, i, j, k, x);
      SwappedAt(s, i, j, k + 1, x);
    }
  }

  lemma SwappedAt<T>(s: seq<T>, i: nat, j: nat, len: nat, x: nat)
    requires i + len <= j && j + len <= |s| && x < |s|
    ensures Swapped(s, i, j, len)[x] ==
            if i <= x < i + len then s[j + (x - i)] else if j <= x < j + len then s[i + (x - j)] else s[x]
  {
  }

  method SwapBlocks<T>(a: array<T>, i: nat, j: nat, len: nat)
    requires i + len <= j && j + len <= a.Length
    modifies a
    ensures a[..] == Swapped(old(a[..]), i, j, len)
  {
    ghost var s := a[..];
    var k := 0;
    SwappedNone(s, i, j);
    hide Swapped;
    while k < len
      invariant 0 <= k <= len
      invariant a[..] == Swapped(s, i, j, k)
    {
      SwappedStep(s, i, j, k);
      ghost var r := a[..];
      assert a[i + k] == r[i + k] && a[j + k] == r[j + k];
      SwapOne(a, i + k, j + k);
      k := k + 1;
    }
  }

  method SwapOne<T>(a: array<T>, i: nat, j: nat)
    requires i < a.Length && j < a.Length
    modifies a
    ensures a[..] == old(a[..])[i := old(a[j])][j := old(a[i])]
  {
    a[i], a[j] := a[j], a[i];
  }

  lemma SwappedNone<T>(s: seq<T>, i: nat, j: nat)
    requires i <= j <= |s|
    ensures Swapped(s, i, j, 0) == s
  {
  }

  /** Where the element at `x` of the rotation comes from. */
  function Source(b: nat, m: nat, t: nat, x: nat): nat
    requires b <= m <= t
  {
    if b <= x < b + (t - m) then x + (m - b) else if b + (t - m) <= x < t then x - (t - m) else x
  }

  lemma RotatedAt<T>(s: seq<T>, b: nat, m: nat, t: nat, x: nat)
    requires b <= m <= t <= |s| && x < |s|
    ensures Source(b, m, t, x) < |s| && Rotated(s, b, m, t)[x] == s[Source(b, m, t, x)]
  {
  }

  /** The longer block on the right: its end takes the place of the left block. */
  lemma RotateLeftFirst<T>(s: seq<T>, b: nat, m: nat, t: nat)
    requires b <= m <= t <= |s| && t - m > m - b
    ensures var len := m - b;
            Rotated(Swapped(s, b, t - len, len), b, m, t - len) == Rotated(s, b, m, t)
  {
    hide Rotated, Swapped;
    var len := m - b;
    var s' := Swapped(s, b, t - len, len);
    forall x | 0 <= x < |s|
      ensures Rotated(s', b, m, t - len)[x] == Rotated(s, b, m, t)[x]
    {
      RotatedAt(s, b, m, t, x);
      RotatedAt(s', b, m, t - len, x);
      SwappedAt(s, b, t - len, len, Source(b, m, t - len, x));
    }
  }

  /** The shorter block on the right: it takes the place of the beginning of the left one. */
  lemma RotateRightFirst<T>(s: seq<T>, b: nat, m: nat, t: nat)
    requires b <= m <= t <= |s| && t - m <= m - b
    ensures var len := t - m;
            Rotated(Swapped(s, b, m, len), b + len, m, t) == Rotated(s, b, m, t)
  {
    hide Rotated, Swapped;
    var len := t - m;
    var s' := Swapped(s, b, m, len);
    forall x | 0 <= x < |s|
      ensures Rotated(s', b + len, m, t)[x] == Rotated(s, b, m, t)[x]
    {
      RotatedAt(s, b, m, t, x);
      RotatedAt(s', b + len, m, t, x);
      SwappedAt(s, b, m, len, Source(b + len, m, t, x));
    }
  }

  /** exchange: rotate in place, always swapping the shorter block into position. */
  method Exchange<T>(a: array<T>, first: nat, last: nat, optind: nat)
    requires first <= last <= optind <= a.Length
    modifies a
    ensures a[..] == Rotated(old(a[..]), first, last, optind)
  {
    hide Rotated, Swapped;
    var bottom, top := first, optind;
    while top > last && last > bottom
      invariant first <= bottom <= last <= top <= optind
      invariant Rotated(a[..], bottom, last, top) == Rotated(old(a[..]), first, last, optind)
      decreases top - bottom
    {
      ghost var s := a[..];
      if top - last > last - bottom {
        var len := last - bottom;
        SwapBlocks(a, bottom, top - len, len);
        RotateLeftFirst(s, bottom, last, top);
        top := top - len;
      } else {
        var len := top - last;
        SwapBlocks(a, bottom, last, len);
        RotateRightFirst(s, bottom, last, top);
        bottom := bottom + len;
      }
    }
    RotatedTrivially(a[..], bottom, last, top);
  }

  lemma RotatedTrivially<T>(s: seq<T>, b: nat, m: nat, t: nat)
    requires b <= m <= t <= |s| && (b == m || m == t)
    ensures Rotated(s, b, m, t) == s
  {
  }

  // ----- the state of argv while it is scanned -----

  /** The elements of `orig` behind the program name whose mark is `b`, in order.  A mark
      is true for an option element, an option's argument or `--`, false for an operand. */
  function Select<T>(orig: seq<T>, marks: seq<bool>, b: bool): (r: seq<T>)
    requires 1 + |marks| <= |orig|
    decreases |marks|
  {
    if marks == [] then []
    else
      var n := |marks| - 1;
      Select(orig, marks[..n], b) + if marks[n] == b then [orig[1 + n]] else []
  }

  lemma SelectNext<T>(orig: seq<T>, marks: seq<bool>, m: bool, b: bool)
    requires 1 + |marks| < |orig|
    ensures Select(orig, marks + [m], b) ==
            Select(orig, marks, b) + if m == b then [orig[1 + |marks|]] else []
  {
    assert (marks + [m])[..|marks|] == marks;
  }

  /** After the elements behind `marks` have been scanned: options already moved to the
      front, then the operands [first, last), then options seen since, then the rest. */
  ghost predicate Partitioned<T>(av: seq<T>, orig: seq<T>, marks: seq<bool>, first: nat, last: nat) {
    var i := 1 + |marks|;
    && |av| == |orig| && i <= |orig| && 1 <= first <= last <= i
    && av[0] == orig[0]
    && av[1..first] + av[last..i] == Select(orig, marks, true)
    && av[first..last] == Select(orig, marks, false)
    && av[i..] == orig[i..]
  }

  lemma PartitionedBounds<T>(av: seq<T>, orig: seq<T>, marks: seq<bool>, first: nat, last: nat)
    requires Partitioned(av, orig, marks, first, last)
    ensures |av| == |orig| && 1 <= first <= last <= 1 + |marks| <= |orig|
    ensures forall j | 1 + |marks| <= j < |orig| :: av[j] == orig[j]
  {
    var i := 1 + |marks|;
    forall j | i <= j < |orig|
      ensures av[j] == orig[j]
    {
      assert av[i..][j - i] == orig[i..][j - i];
    }
  }

  lemma PartitionedStart<T>(orig: seq<T>)
    requires orig != []
    ensures Partitioned(orig, orig, [], 1, 1)
  {
  }

  lemma PartitionedExchange<T>(av: seq<T>, orig: seq<T>, marks: seq<bool>, first: nat, last: nat)
    requires Partitioned(av, orig, marks, first, last)
    ensures var i := 1 + |marks|;
            Partitioned(Rotated(av, first, last, i), orig, marks, first + (i - last), i)
  {
    var i := 1 + |marks|;
    var r := Rotated(av, first, last, i);
    var f := first + (i - last);
    assert r[1..f] == av[1..first] + av[last..i];
    assert r[f..i] == av[first..last];
    assert r[i..] == av[i..];
    assert r[i..i] == [];
  }

  lemma PartitionedOption<T>(av: seq<T>, orig: seq<T>, marks: seq<bool>, first: nat, last: nat)
    requires Partitioned(av, orig, marks, first, last) && 1 + |marks| < |orig|
    ensures Partitioned(av, orig, marks + [true], first, last)
  {
    var i := 1 + |marks|;
    SelectNext(orig, marks, true, true);
    SelectNext(orig, marks, true, false);
    assert av[last..i + 1] == av[last..i] + [av[i]];
    assert av[i] == av[i..][0] == orig[i];
    assert av[i + 1..] == av[i..][1..] == orig[i..][1..];
  }

  lemma PartitionedOperand<T>(av: seq<T>, orig: seq<T>, marks: seq<bool>, first: nat)
    requires Partitioned(av, orig, marks, first, 1 + |marks|) && 1 + |marks| < |orig|
    ensures Partitioned(av, orig, marks + [false], first, 2 + |marks|)
  {
    var i := 1 + |marks|;
    SelectNext(orig, marks, false, true);
    SelectNext(orig, marks, false, false);
    assert av[first..i + 1] == av[first..i] + [av[i]];
    assert av[i] == av[i..][0] == orig[i];
    assert av[i + 1..] == av[i..][1..] == orig[i..][1..];
    assert av[i..i] == [] && av[i + 1..i + 1] == [];
  }

  lemma PartitionedNoOperands<T>(av: seq<T>, orig: seq<T>, marks: seq<bool>, first: nat)
    requires Partitioned(av, orig, marks, first, first)
    ensures Partitioned(av, orig, marks, 1 + |marks|, 1 + |marks|)
  {
    var i := 1 + |marks|;
    assert av[1..first] + av[first..i] == av[1..i];
    assert av[i..i] == [] && av[first..first] == [];
  }

  /** The stable partition: options with their arguments first, operands last. */
  ghost function Partition<T>(orig: seq<T>, marks: seq<bool>): seq<T>
    requires 1 + |marks| == |orig|
  {
    orig[..1] + Select(orig, marks, true) + Select(orig, marks, false)
  }

  lemma PartitionedDone<T>(av: seq<T>, orig: seq<T>, marks: seq<bool>, first: nat)
    requires Partitioned(av, orig, marks, first, |orig|) && 1 + |marks| == |orig|
    ensures av == Partition(orig, marks) && first == 1 + |Select(orig, marks, true)|
  {
    assert av[|orig|..|orig|] == [];
    assert av == av[..1] + av[1..first] + av[first..|orig|];
    assert av[..1] == orig[..1];
  }

  /** Nothing is lost, invented or duplicated. */
  lemma {:induction false} SelectMultiset<T>(orig: seq<T>, marks: seq<bool>)
    requires 1 + |marks| <= |orig|
    ensures multiset(Select(orig, marks, true)) + multiset(Select(orig, marks, false)) ==
            multiset(orig[1..1 + |marks|])
    decreases |marks|
  {
    hide Select;
    if marks == [] {
      MultisetStart(orig);
    } else {
      var init := marks[..|marks| - 1];
      assert 1 + |init| == |marks|;
      SelectMultiset(orig, init);
      MultisetStep(orig, marks, init);
    }
  }

  lemma MultisetStart<T>(orig: seq<T>)
    requires orig != []
    ensures multiset(Select(orig, [], true)) + multiset(Select(orig, [], false)) == multiset(orig[1..1])
  {
    assert orig[1..1] == [];
  }

  lemma {:induction false} MultisetStep<T>(orig: seq<T>, marks: seq<bool>, init: seq<bool>)
    requires marks != [] && 1 + |marks| <= |orig| && init == marks[..|marks| - 1]
    requires multiset(Select(orig, init, true)) + multiset(Select(orig, init, false)) == multiset(orig[1..1 + |init|])
    ensures multiset(Select(orig, marks, true)) + multiset(Select(orig, marks, false)) ==
            multiset(orig[1..1 + |marks|])
  {
    var n := |marks| - 1;
    var a, b := Select(orig, init, true), Select(orig, init, false);
    var y := orig[1 + n];
    assert orig[1..1 + |marks|] == orig[1..1 + n] + [y];
    if marks[n] {
      assert Select(orig, marks, true) == a + [y] && Select(orig, marks, false) == b;
      JoinOne(a, b, orig[1..1 + n], y);
    } else {
      assert Select(orig, marks, true) == a && Select(orig, marks, false) == b + [y];
      JoinOne(b, a, orig[1..1 + n], y);
    }
  }

  lemma JoinOne<T>(a: seq<T>, b: seq<T>, all: seq<T>, y: T)
    requires multiset(a) + multiset(b) == multiset(all) || multiset(b) + multiset(a) == multiset(all)
    ensures multiset(a + [y]) + multiset(b) == multiset(all + [y])
    ensures multiset(b) + multiset(a + [y]) == multiset(all + [y])
  {
  }
}
