/** How the chain lies in memory: every block is preceded by a header whose words hold
    a magic number, the payload size, the free flag and the address of the next header. */
module HeapMemory {
  import opened HeapChain

  const BLOCK_MAGIC: int := 0xA110CA7E
  const MMAP_MAGIC: int := 0xA110CA7F

  /** One cell for each address: a header word is the cell at its address, and a payload is the cells
      of its bytes. */
  type Memory = map<int, int>

  function Rd(m: Memory, a: int): int {
    if a in m then m[a] else 0
  }

  ghost predicate Header(m: Memory, b: Block, next: nat) {
    && Rd(m, b.addr) == BLOCK_MAGIC
    && Rd(m, b.addr + 4) == b.size
    && Rd(m, b.addr + 8) == (if b.free then 1 else 0)
    && Rd(m, b.addr + 12) == next
  }

  ghost function NextOf(c: Chain, i: nat, after: nat): nat
    requires i < |c|
  {
    if i + 1 < |c| then c[i + 1].addr else after
  }

  ghost function First(c: Chain, after: nat): nat {
    if c == [] then after else c[0].addr
  }

  /** Memory holds the headers of `c`, linked in order, the last one to `after`. */
  ghost predicate Encodes(m: Memory, c: Chain, after: nat) {
    forall i {:trigger NextOf(c, i, after)} | 0 <= i < |c| :: Header(m, c[i], NextOf(c, i, after))
  }

  ghost predicate SameOn(m: Memory, m': Memory, lo: int, hi: int) {
    forall a | lo <= a < hi :: Rd(m', a) == Rd(m, a)
  }

  /** The contents of the payloads of `live` have not changed. */
  ghost predicate Kept(m: Memory, m': Memory, live: set<Block>) {
    forall b | b in live :: SameOn(m, m', b.Payload(), b.End())
  }

  /** `n` cells at `dst` now hold what was at `src`. */
  ghost predicate Copied(m: Memory, m': Memory, src: int, dst: int, n: nat) {
    forall k | dst <= k < dst + n :: Rd(m', k) == Rd(m, k - dst + src)
  }

  lemma EncodesJoin(m: Memory, a: Chain, b: Chain, after: nat)
    ensures Encodes(m, a + b, after) <==> Encodes(m, a, First(b, after)) && Encodes(m, b, after)
  {
    var c := a + b;
    forall i | 0 <= i < |a|
      ensures c[i] == a[i] && NextOf(c, i, after) == NextOf(a, i, First(b, after))
    {
    }
    forall i | 0 <= i < |b|
      ensures c[|a| + i] == b[i] && NextOf(c, |a| + i, after) == NextOf(b, i, after)
    {
    }
    if Encodes(m, a, First(b, after)) && Encodes(m, b, after) {
      forall i | 0 <= i < |c|
        ensures Header(m, c[i], NextOf(c, i, after))
      {
        if i >= |a| {
          assert Header(m, b[i - |a|], NextOf(b, i - |a|, after));
        }
      }
    }
    if Encodes(m, c, after) {
      forall i | 0 <= i < |b|
        ensures Header(m, b[i], NextOf(b, i, after))
      {
        assert Header(m, c[|a| + i], NextOf(c, |a| + i, after));
      }
    }
  }

  lemma OneEncodes(m: Memory, b: Block, next: nat)
    requires Header(m, b, next)
    ensures Encodes(m, [b], next)
  {
    assert Header(m, b, NextOf([b], 0, next));
  }

  lemma EncodesFrame(m: Memory, m': Memory, c: Chain, lo: nat, hi: nat, after: nat)
    requires Encodes(m, c, after) && Tiles(c, lo, hi) && SameOn(m, m', lo, hi)
    ensures Encodes(m', c, after)
  {
    forall i | 0 <= i < |c|
      ensures Header(m', c[i], NextOf(c, i, after))
    {
      TilesCut(c, lo, hi, i);
      assert Header(m, c[i], NextOf(c, i, after));
    }
  }

  /** Pointing the last header elsewhere. */
  lemma EncodesRelink(m: Memory, c: Chain, lo: nat, hi: nat, after: nat, after': nat)
    requires Encodes(m, c, after) && Tiles(c, lo, hi) && c != []
    ensures Encodes(m[c[|c| - 1].addr + 12 := after'], c, after')
  {
    var last := |c| - 1;
    var m' := m[c[last].addr + 12 := after'];
    forall i | 0 <= i < |c|
      ensures Header(m', c[i], NextOf(c, i, after'))
    {
      assert Header(m, c[i], NextOf(c, i, after));
      if i < last {
        TilesOrdered(c, lo, hi, i, last);
      }
    }
  }

  lemma EncodesCut(m: Memory, c: Chain, i: nat, after: nat)
    requires Encodes(m, c, after) && i <= |c|
    ensures Encodes(m, c[..i], First(c[i..], after)) && Encodes(m, c[i..], after)
  {
    assert c == c[..i] + c[i..];
    EncodesJoin(m, c[..i], c[i..], after);
  }

  /** Rewriting the headers inside the bytes of blocks `i` to `j - 1`. */
  lemma EncodesSplice(m: Memory, m': Memory, c: Chain, lo: nat, hi: nat, i: nat, j: nat, mid: Chain)
    requires Encodes(m, c, 0) && Tiles(c, lo, hi) && i < j <= |c|
    requires mid != [] && mid[0].addr == c[i].addr
    requires SameOn(m, m', lo, c[i].addr) && SameOn(m, m', c[j - 1].End(), hi)
    requires Encodes(m', mid, NextOf(c, j - 1, 0))
    ensures Encodes(m', Splice(c, i, j, mid), 0)
  {
    var pre, post := c[..i], c[j..];
    assert Encodes(m', pre, mid[0].addr) by {
      TilesCut(c, lo, hi, i);
      EncodesCut(m, c, i, 0);
      EncodesFrame(m, m', pre, lo, c[i].addr, c[i].addr);
    }
    assert Encodes(m', post, 0) by {
      TilesCut(c, lo, hi, j - 1);
      EncodesCut(m, c, j, 0);
      EncodesFrame(m, m', post, c[j - 1].End(), hi, 0);
    }
    EncodesJoin(m', mid, post, 0);
    EncodesJoin(m', pre, mid + post, 0);
    assert Splice(c, i, j, mid) == pre + (mid + post);
  }

  /** Writes confined to the bytes of a block that is not in use disturb no payload in use. */
  lemma KeptOutside(m: Memory, m': Memory, c: Chain, lo: nat, hi: nat, i: nat)
    requires Tiles(c, lo, hi) && i < |c|
    requires SameOn(m, m', lo, c[i].addr) && SameOn(m, m', c[i].End(), hi)
    ensures Kept(m, m', Live(c) - {c[i]})
  {
    forall b | b in Live(c) && b != c[i]
      ensures SameOn(m, m', b.Payload(), b.End())
    {
      var j :| 0 <= j < |c| && c[j] == b;
      TilesCut(c, lo, hi, j);
      LiveDisjoint(c, lo, hi, b, c[i]);
    }
  }

  /** Writes to a header disturb no payload at all. */
  lemma KeptHeader(m: Memory, m': Memory, c: Chain, lo: nat, hi: nat, i: nat)
    requires Tiles(c, lo, hi) && i < |c|
    requires forall a | a < c[i].addr || a >= c[i].Payload() :: Rd(m', a) == Rd(m, a)
    ensures Kept(m, m', Live(c))
  {
    forall b | b in Live(c)
      ensures SameOn(m, m', b.Payload(), b.End())
    {
      if b != c[i] {
        LiveDisjoint(c, lo, hi, b, c[i]);
      }
    }
  }

  lemma KeptBelow(m: Memory, m': Memory, c: Chain, lo: nat, hi: nat)
    requires Tiles(c, lo, hi) && SameOn(m, m', lo, hi)
    ensures Kept(m, m', Live(c))
  {
    forall b | b in Live(c)
      ensures SameOn(m, m', b.Payload(), b.End())
    {
      var j :| 0 <= j < |c| && c[j] == b;
      TilesCut(c, lo, hi, j);
    }
  }

  lemma KeptLess(m: Memory, m': Memory, live: set<Block>, some: set<Block>)
    requires Kept(m, m', live) && some <= live
    ensures Kept(m, m', some)
  {
  }

  lemma KeptTwice(m: Memory, m': Memory, m'': Memory, live: set<Block>)
    requires Kept(m, m', live) && Kept(m', m'', live)
    ensures Kept(m, m'', live)
  {
    forall b | b in live
      ensures SameOn(m, m'', b.Payload(), b.End())
    {
      assert SameOn(m, m', b.Payload(), b.End()) && SameOn(m', m'', b.Payload(), b.End());
    }
  }

  /** The headers that taking `n` bytes of a block has to leave. */
  lemma EncodesTake(m: Memory, b: Block, n: nat, next: nat)
    requires n <= b.size
    requires var rest := b.addr + HEADER + n;
             if Splits(b.size, n) then
               Header(m, Block(b.addr, n, false), rest) && Header(m, Block(rest, b.size - n - HEADER, true), next)
             else Header(m, b.(free := false), next)
    ensures Encodes(m, Take(b, n), next)
  {
  }

  /** The headers that carving an aligned block has to leave. */
  lemma EncodesCarve(m: Memory, b: Block, need: nat, align: nat, next: nat)
    requires Carvable(b, need, align)
    requires var p := AlignedPayload(b, align);
             var rest := p + need;
             && rest + HEADER <= b.End()
             && Header(m, Block(p - HEADER, need, false), rest)
             && Header(m, Block(rest, b.End() - rest - HEADER, true), next)
             && (p == b.Payload()
                 || (p - HEADER >= b.Payload()
                     && Header(m, Block(b.addr, p - b.Payload() - HEADER, true), p - HEADER)))
    ensures var p := AlignedPayload(b, align);
            (p == b.Payload() || p - HEADER >= b.Payload()) && Encodes(m, Carve(b, need, align), next)
  {
    CarveFits(b, need, align);
    var p := AlignedPayload(b, align);
    var lead, main := LeadOf(b, p), [Block(p - HEADER, need, false)];
    var rest := [Block(p + need, b.End() - (p + need) - HEADER, true)];
    assert Encodes(m, rest, next);
    assert Encodes(m, main, rest[0].addr);
    assert Encodes(m, lead, p - HEADER);
    EncodesJoin(m, lead, main, rest[0].addr);
    EncodesJoin(m, lead + main, rest, next);
    assert Carve(b, need, align) == lead + main + rest;
  }
}
