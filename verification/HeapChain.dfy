/** The heap as a value: the chain of blocks that tiles the brk arena, and what each
    allocator operation makes of it. */
module HeapChain {
  import opened Alignment

  /** sizeof(struct block_header) on i386. */
  const HEADER: nat := 24
  const GROWTH: nat := 4096
  const WORD_RANGE: nat := 0x1_0000_0000

  datatype Block = Block(addr: nat, size: nat, free: bool) {
    function Payload(): nat { addr + HEADER }
    function End(): nat { addr + HEADER + size }
  }

  type Chain = seq<Block>

  /** The blocks of `c` cover the bytes from `lo` to `hi`, in order, with no gap. */
  ghost predicate Tiles(c: Chain, lo: nat, hi: nat)
    decreases |c|
  {
    if c == [] then lo == hi
    else c[0].addr == lo && c[0].size % 8 == 0 && Tiles(c[1..], c[0].End(), hi)
  }

  ghost predicate NoFreeNeighbours(c: Chain) {
    forall i | 0 <= i < |c| - 1 :: !(c[i].free && c[i + 1].free)
  }

  ghost function TotalBytes(c: Chain): nat {
    if c == [] then 0 else HEADER + c[0].size + TotalBytes(c[1..])
  }

  /** The blocks in use. */
  ghost function Live(c: Chain): set<Block> {
    set b | b in c && !b.free
  }

  // ----- tiling -----

  lemma {:induction false} TilesJoin(a: Chain, b: Chain, lo: nat, mid: nat, hi: nat)
    requires Tiles(a, lo, mid) && Tiles(b, mid, hi)
    ensures Tiles(a + b, lo, hi)
    decreases |a|
  {
    if a == [] {
      assert a + b == b;
    } else {
      TilesJoin(a[1..], b, a[0].End(), mid, hi);
      assert (a + b)[1..] == a[1..] + b;
    }
  }

  /** Cutting the chain before block `i`. */
  lemma {:induction false} TilesCut(c: Chain, lo: nat, hi: nat, i: nat)
    requires Tiles(c, lo, hi) && i < |c|
    ensures Tiles(c[..i], lo, c[i].addr) && Tiles(c[i..], c[i].addr, hi) && Tiles(c[i + 1..], c[i].End(), hi)
    ensures lo <= c[i].addr && c[i].End() <= hi && c[i].size % 8 == 0
    decreases i
  {
    TilesGrow(c, lo, hi);
    if i > 0 {
      TilesCut(c[1..], c[0].End(), hi, i - 1);
      assert c[1..][i - 1] == c[i] && c[1..][..i - 1] == c[..i][1..];
      assert c[1..][i - 1..] == c[i..] && c[1..][i..] == c[i + 1..];
    } else {
      TilesGrow(c[1..], c[0].End(), hi);
      assert c[0..] == c;
    }
  }

  lemma {:induction false} TilesGrow(c: Chain, lo: nat, hi: nat)
    requires Tiles(c, lo, hi)
    ensures lo <= hi && (c != [] ==> lo + HEADER <= hi)
    decreases |c|
  {
    if c != [] {
      TilesGrow(c[1..], c[0].End(), hi);
    }
  }

  /** Blocks follow each other: no two overlap. */
  lemma TilesOrdered(c: Chain, lo: nat, hi: nat, i: nat, j: nat)
    requires Tiles(c, lo, hi) && i < j < |c|
    ensures c[i].End() <= c[j].addr
  {
    TilesCut(c, lo, hi, i);
    assert c[i + 1..][j - i - 1] == c[j];
    TilesCut(c[i + 1..], c[i].End(), hi, j - i - 1);
  }

  lemma {:induction false} TilesAligned(c: Chain, lo: nat, hi: nat)
    requires Tiles(c, lo, hi) && lo % 8 == 0
    ensures hi % 8 == 0
    ensures forall i | 0 <= i < |c| :: c[i].addr % 8 == 0 && c[i].size % 8 == 0
    decreases |c|
  {
    if c != [] {
      TilesAligned(c[1..], c[0].End(), hi);
      forall i | 0 <= i < |c| ensures c[i].addr % 8 == 0 && c[i].size % 8 == 0 {
        assert i > 0 ==> c[i] == c[1..][i - 1];
      }
    }
  }

  /** Headers and payloads add up to what brk has grown by. */
  lemma {:induction false} TilesTotal(c: Chain, lo: nat, hi: nat)
    requires Tiles(c, lo, hi)
    ensures lo + TotalBytes(c) == hi
    decreases |c|
  {
    if c != [] {
      TilesTotal(c[1..], c[0].End(), hi);
    }
  }

  /** The payloads of two different blocks in use share no byte, and neither meets a header. */
  lemma LiveDisjoint(c: Chain, lo: nat, hi: nat, a: Block, b: Block)
    requires Tiles(c, lo, hi) && a in c && b in c && a != b
    ensures a.End() <= b.addr || b.End() <= a.addr
  {
    var i :| 0 <= i < |c| && c[i] == a;
    var j :| 0 <= j < |c| && c[j] == b;
    if i < j {
      TilesOrdered(c, lo, hi, i, j);
    } else {
      TilesOrdered(c, lo, hi, j, i);
    }
  }

  /** Replacing the blocks from `i` up to `j` by others that cover the same bytes. */
  ghost function Splice(c: Chain, i: nat, j: nat, mid: Chain): Chain
    requires i <= j <= |c|
  {
    c[..i] + mid + c[j..]
  }

  lemma TilesSplice(c: Chain, lo: nat, hi: nat, i: nat, mid: Chain)
    requires Tiles(c, lo, hi) && i < |c| && Tiles(mid, c[i].addr, c[i].End())
    ensures Tiles(Splice(c, i, i + 1, mid), lo, hi)
  {
    TilesCut(c, lo, hi, i);
    TilesJoin(c[..i], mid, lo, c[i].addr, c[i].End());
    TilesJoin(c[..i] + mid, c[i + 1..], lo, c[i].End(), hi);
  }

  // ----- malloc -----

  /** Index of the first free block of at least `n` bytes, or |c|. */
  function FirstFit(c: Chain, n: nat): (i: nat)
    ensures i <= |c|
    ensures i < |c| ==> c[i].free && c[i].size >= n
    ensures forall j | 0 <= j < i :: !(c[j].free && c[j].size >= n)
    decreases |c|
  {
    if c == [] then 0
    else if c[0].free && c[0].size >= n then 0
    else 1 + FirstFit(c[1..], n)
  }

  /** Is the rest of a block of `size` bytes worth a header once `n` bytes are taken? */
  predicate Splits(size: nat, n: nat) {
    size > n + HEADER + 16
  }

  /** A block of which `n` bytes are taken, with what is left over. */
  function Take(b: Block, n: nat): (mid: Chain)
    requires n <= b.size
  {
    if Splits(b.size, n)
    then [Block(b.addr, n, false), Block(b.addr + HEADER + n, b.size - n - HEADER, true)]
    else [b.(free := false)]
  }

  lemma TakeTiles(b: Block, n: nat)
    requires n <= b.size && n % 8 == 0 && b.size % 8 == 0
    ensures Tiles(Take(b, n), b.addr, b.End())
    ensures Take(b, n)[0].size >= n && !Take(b, n)[0].free && Take(b, n)[0].addr == b.addr
    ensures Live(Take(b, n)) == {Take(b, n)[0]}
  {
    var mid := Take(b, n);
    if Splits(b.size, n) {
      assert mid[1..] == [mid[1]];
      assert mid[1..][1..] == [];
    }
  }

  /** The arena after brk has grown to serve `n` bytes: one new block, split if possible. */
  function Grown(brk: nat, n: nat): (mid: Chain) {
    Take(Block(brk, (if HEADER + n < GROWTH then GROWTH else HEADER + n) - HEADER, true), n)
  }

  // ----- free -----

  /** Every run of neighbouring free blocks merged into one. */
  function Coalesce(c: Chain): Chain
    decreases |c|
  {
    if |c| < 2 then c
    else if c[0].free && c[1].free then
      Coalesce([Merged(c[0], c[1])] + c[2..])
    else [c[0]] + Coalesce(c[1..])
  }

  function Merged(a: Block, b: Block): Block {
    Block(a.addr, a.size + HEADER + b.size, true)
  }

  lemma {:induction false} CoalesceTiles(c: Chain, lo: nat, hi: nat)
    requires Tiles(c, lo, hi)
    ensures Tiles(Coalesce(c), lo, hi)
    decreases |c|
  {
    if |c| >= 2 {
      if c[0].free && c[1].free {
        var c' := [Merged(c[0], c[1])] + c[2..];
        assert c'[1..] == c[1..][1..];
        CoalesceTiles(c', lo, hi);
      } else {
        CoalesceTiles(c[1..], c[0].End(), hi);
        assert ([c[0]] + Coalesce(c[1..]))[1..] == Coalesce(c[1..]);
      }
    }
  }

  lemma {:induction false} CoalesceNoFreeNeighbours(c: Chain)
    ensures NoFreeNeighbours(Coalesce(c))
    ensures c != [] ==> Coalesce(c) != [] && Coalesce(c)[0].free == c[0].free
    decreases |c|
  {
    if |c| >= 2 {
      if c[0].free && c[1].free {
        CoalesceNoFreeNeighbours([Merged(c[0], c[1])] + c[2..]);
      } else {
        CoalesceNoFreeNeighbours(c[1..]);
      }
    }
  }

  lemma {:induction false} CoalesceLive(c: Chain)
    ensures Live(Coalesce(c)) == Live(c)
    decreases |c|
  {
    if |c| >= 2 {
      if c[0].free && c[1].free {
        var c' := [Merged(c[0], c[1])] + c[2..];
        CoalesceLive(c');
        LiveJoin(c[..2], c[2..]);
        LiveJoin([c'[0]], c[2..]);
        assert c[..2] + c[2..] == c;
      } else {
        CoalesceLive(c[1..]);
        LiveJoin([c[0]], c[1..]);
        LiveJoin([c[0]], Coalesce(c[1..]));
        assert [c[0]] + c[1..] == c;
      }
    }
  }

  /** Merging blocks `i` and `i + 1`. */
  ghost function MergeAt(c: Chain, i: nat): Chain
    requires i + 1 < |c|
  {
    Splice(c, i, i + 2, [Merged(c[i], c[i + 1])])
  }

  lemma MultiplesOf8(x: nat, y: nat)
    requires x % 8 == 0 && y % 8 == 0
    ensures (x + HEADER + y) % 8 == 0
  {
  }

  lemma {:induction false} TilesAdjacent(c: Chain, lo: nat, hi: nat, i: nat)
    requires Tiles(c, lo, hi) && i + 1 < |c|
    ensures c[i].End() == c[i + 1].addr
  {
    TilesCut(c, lo, hi, i);
    assert c[i + 1..][0] == c[i + 1];
  }

  lemma {:induction false} MergeAtTiles(c: Chain, lo: nat, hi: nat, i: nat)
    requires Tiles(c, lo, hi) && i + 1 < |c|
    ensures Tiles(MergeAt(c, i), lo, hi)
  {
    hide Tiles;
    var b := Merged(c[i], c[i + 1]);
    var mid := [b];
    TilesAdjacent(c, lo, hi, i);
    TilesCut(c, lo, hi, i);
    TilesCut(c, lo, hi, i + 1);
    MultiplesOf8(c[i].size, c[i + 1].size);
    assert c[i + 1 + 1..] == c[i + 2..];
    TilesOne(b);
    TilesJoin(c[..i], mid, lo, c[i].addr, c[i + 1].End());
    TilesJoin(c[..i] + mid, c[i + 2..], lo, c[i + 1].End(), hi);
  }

  lemma MergeAtLive(c: Chain, i: nat)
    requires i + 1 < |c| && c[i].free && c[i + 1].free
    ensures Live(MergeAt(c, i)) == Live(c)
  {
    var mid := [Merged(c[i], c[i + 1])];
    LiveJoin(c[..i] + mid, c[i + 2..]);
    LiveJoin(c[..i], mid);
    assert c == c[..i] + c[i..i + 2] + c[i + 2..];
    LiveJoin(c[..i] + c[i..i + 2], c[i + 2..]);
    LiveJoin(c[..i], c[i..i + 2]);
  }

  /** One step of the merging pass, with the blocks before `i` already settled. */
  lemma CoalesceStep(c: Chain, i: nat)
    requires i < |c|
    ensures c[..i] + Coalesce(c[i..]) ==
            if i + 1 < |c| && c[i].free && c[i + 1].free
            then MergeAt(c, i)[..i] + Coalesce(MergeAt(c, i)[i..])
            else c[..i + 1] + Coalesce(c[i + 1..])
  {
    var d := c[i..];
    if i + 1 < |c| && c[i].free && c[i + 1].free {
      assert MergeAt(c, i)[i..] == [Merged(c[i], c[i + 1])] + c[i + 2..];
      assert d[2..] == c[i + 2..];
    } else {
      assert d[1..] == c[i + 1..];
      assert c[..i + 1] == c[..i] + [c[i]];
      assert Coalesce(d) == [c[i]] + Coalesce(c[i + 1..]);
    }
  }

  lemma LiveJoin(a: Chain, b: Chain)
    ensures Live(a + b) == Live(a) + Live(b)
  {
  }

  lemma LiveSplice(c: Chain, i: nat, mid: Chain)
    requires i < |c|
    ensures Live(Splice(c, i, i + 1, mid)) == Live(c[..i]) + Live(mid) + Live(c[i + 1..])
    ensures Live(c) == Live(c[..i]) + Live([c[i]]) + Live(c[i + 1..])
  {
    LiveJoin(c[..i] + mid, c[i + 1..]);
    LiveJoin(c[..i], mid);
    assert c == c[..i] + [c[i]] + c[i + 1..];
    LiveJoin(c[..i] + [c[i]], c[i + 1..]);
    LiveJoin(c[..i], [c[i]]);
  }

  /** A block that is given back leaves the others in use. */
  lemma FreedLive(c: Chain, lo: nat, hi: nat, i: nat)
    requires Tiles(c, lo, hi) && i < |c| && !c[i].free
    ensures Live(c[i := c[i].(free := true)]) == Live(c) - {c[i]}
  {
    var c' := c[i := c[i].(free := true)];
    forall b | b in Live(c')
      ensures b in Live(c) && b != c[i]
    {
      var j :| 0 <= j < |c'| && c'[j] == b;
      if j < i {
        TilesOrdered(c, lo, hi, j, i);
      } else if i < j {
        TilesOrdered(c, lo, hi, i, j);
      }
    }
    forall b | b in Live(c) && b != c[i]
      ensures b in Live(c')
    {
      var j :| 0 <= j < |c| && c[j] == b;
      assert c'[j] == b;
    }
  }

  /** A block that starts where the arena ended is new. */
  lemma NewIsNotLive(c: Chain, lo: nat, hi: nat, b: Block)
    requires Tiles(c, lo, hi) && b.addr == hi
    ensures b !in c
  {
    if b in c {
      var j :| 0 <= j < |c| && c[j] == b;
      TilesCut(c, lo, hi, j);
      assert false;
    }
  }

  // ----- aligned allocation -----

  /** Bytes malloc_aligned looks for: room for the payload wherever it ends up. */
  function Want(need: nat, align: nat): nat {
    need + 2 * align + 2 * HEADER + 8
  }

  /** Where the aligned payload goes: a gap too small for a header is stepped over. */
  function AlignedPayload(b: Block, align: nat): nat
    requires align > 0
  {
    var p := AlignUp(b.Payload(), align);
    if p != b.Payload() && p - b.addr < 2 * HEADER then p + align else p
  }

  ghost predicate Carvable(b: Block, need: nat, align: nat) {
    && align >= 16 && align % 8 == 0 && need % 8 == 0
    && b.addr % 8 == 0 && b.size % 8 == 0
    && b.size >= Want(need, align)
  }

  /** The `want` bytes always suffice: the payload is aligned, a leading fragment has room
      for its header, and so much is left behind the payload that the case of a tail too
      small for a block never arises. */
  lemma CarveFits(b: Block, need: nat, align: nat)
    requires Carvable(b, need, align)
    ensures var p := AlignedPayload(b, align);
            && p % align == 0 && p % 8 == 0
            && (p == b.Payload() || p - HEADER >= b.Payload())
            && p + need + 2 * HEADER + 16 <= b.End()
  {
    hide AlignUp;
    AlignUpBounds(b.Payload(), align);
    var p := AlignUp(b.Payload(), align);
    NextMultiple(p, align);
  }

  lemma NextMultiple(p: nat, align: nat)
    requires align > 0 && align % 8 == 0 && p % align == 0
    ensures (p + align) % align == 0 && p % 8 == 0 && (p + align) % 8 == 0
  {
    NextMod(p, align);
    ModOfMod(p, align, 8);
    ModOfMod(p + align, align, 8);
  }

  /** Leading fragment, aligned block and tail. */
  function Carve(b: Block, need: nat, align: nat): (mid: Chain)
    requires align > 0
    requires var p := AlignedPayload(b, align);
             (p == b.Payload() || p - HEADER >= b.Payload()) && p + need + HEADER <= b.End()
  {
    var p := AlignedPayload(b, align);
    var tail := b.End() - (p + need);
    var used := if tail < HEADER + 8 then need + tail else need;
    (if p == b.Payload() then [] else [Block(b.addr, p - b.Payload() - HEADER, true)])
    + [Block(p - HEADER, used, false)]
    + (if tail < HEADER + 8 then [] else [Block(p + used, tail - HEADER, true)])
  }

  ghost function LeadOf(b: Block, p: nat): Chain
    requires p == b.Payload() || p - HEADER >= b.Payload()
  {
    if p == b.Payload() then [] else [Block(b.addr, p - b.Payload() - HEADER, true)]
  }

  lemma CarveTiles(b: Block, need: nat, align: nat)
    requires Carvable(b, need, align)
    ensures var p := AlignedPayload(b, align);
            && (p == b.Payload() || p - HEADER >= b.Payload()) && p + need + HEADER <= b.End()
            && Tiles(Carve(b, need, align), b.addr, b.End())
            && Live(Carve(b, need, align)) == {Block(p - HEADER, need, false)}
  {
    CarveFits(b, need, align);
    var p := AlignedPayload(b, align);
    CarvedTiles(b, need, p);
    assert Carve(b, need, align)
        == LeadOf(b, p) + [Block(p - HEADER, need, false)] + [Block(p + need, b.End() - (p + need) - HEADER, true)];
  }

  lemma TilesOne(b: Block)
    requires b.size % 8 == 0
    ensures Tiles([b], b.addr, b.End()) && Live([b]) == if b.free then {} else {b}
  {
    assert [b][1..] == [];
  }

  lemma CarvedSizes(b: Block, need: nat, p: nat)
    requires b.size % 8 == 0 && b.addr % 8 == 0 && need % 8 == 0 && p % 8 == 0
    ensures (p - b.Payload() - HEADER) % 8 == 0 && (b.End() - (p + need) - HEADER) % 8 == 0
  {
  }

  lemma {:induction false} LeadTiles(b: Block, p: nat)
    requires (p - b.Payload() - HEADER) % 8 == 0 && (p == b.Payload() || p - HEADER >= b.Payload())
    ensures Tiles(LeadOf(b, p), b.addr, p - HEADER) && Live(LeadOf(b, p)) == {}
  {
    if p != b.Payload() {
      TilesOne(Block(b.addr, p - b.Payload() - HEADER, true));
    }
  }

  lemma {:induction false} CarvedTiles(b: Block, need: nat, p: nat)
    requires b.size % 8 == 0 && b.addr % 8 == 0 && need % 8 == 0 && p % 8 == 0
    requires (p == b.Payload() || p - HEADER >= b.Payload()) && p + need + HEADER <= b.End()
    ensures var c := LeadOf(b, p) + [Block(p - HEADER, need, false)]
                     + [Block(p + need, b.End() - (p + need) - HEADER, true)];
            Tiles(c, b.addr, b.End()) && Live(c) == {Block(p - HEADER, need, false)}
  {
    hide Tiles, Live, LeadOf;
    var lead, m := LeadOf(b, p), Block(p - HEADER, need, false);
    var r := Block(p + need, b.End() - (p + need) - HEADER, true);
    CarvedSizes(b, need, p);
    LeadTiles(b, p);
    TilesOne(m);
    TilesOne(r);
    TilesJoin(lead, [m], b.addr, p - HEADER, p + need);
    TilesJoin(lead + [m], [r], b.addr, p + need, b.End());
    LiveJoin(lead + [m], [r]);
    LiveJoin(lead, [m]);
  }

  // ----- the operations on the whole arena -----

  datatype Arena = Arena(base: nat, brk: nat, chain: Chain)

  ghost predicate WfArena(h: Arena) {
    h.base % 8 == 0 && h.base >= GROWTH && h.brk < WORD_RANGE && Tiles(h.chain, h.base, h.brk)
  }

  /** Bytes asked of the kernel to serve a block of `n`. */
  function Request(n: nat): nat {
    if HEADER + n < GROWTH then GROWTH else HEADER + n
  }

  /** request_space: new blocks at the end of the arena, if the kernel moves brk that far. */
  function Grow(h: Arena, n: nat, limit: nat): (r: (Arena, bool)) {
    if h.brk + Request(n) > limit then (h, false)
    else (Arena(h.base, h.brk + Request(n), h.chain + Grown(h.brk, n)), true)
  }

  /** malloc of `n` bytes (a multiple of 8): the new arena and the payload address or 0. */
  function Malloc(h: Arena, n: nat, limit: nat): (r: (Arena, nat)) {
    var i := FirstFit(h.chain, n);
    if i < |h.chain| then
      (h.(chain := h.chain[..i] + Take(h.chain[i], n) + h.chain[i + 1..]), h.chain[i].Payload())
    else
      var (h', ok) := Grow(h, n, limit);
      (h', if ok then h.brk + HEADER else 0)
  }

  /** malloc_aligned; the block to carve is the first that fits or a new one. */
  function MallocAligned(h: Arena, need: nat, align: nat, limit: nat): (r: (Arena, nat))
    requires WfArena(h) && align >= 16 && align % 8 == 0 && need % 8 == 0
  {
    var i := FirstFit(h.chain, Want(need, align));
    var (h', ok) := if i < |h.chain| then (h, true) else Grow(h, Want(need, align), limit);
    if !ok then (h, 0)
    else
      assert i < |h'.chain| && Carvable(h'.chain[i], need, align) by { CarvableBlock(h, need, align, limit); }
      CarveTiles(h'.chain[i], need, align);
      (h'.(chain := h'.chain[..i] + Carve(h'.chain[i], need, align) + h'.chain[i + 1..]),
       AlignedPayload(h'.chain[i], align))
  }

  /** free of the block at index `i`. */
  function Free(h: Arena, i: nat): Arena
    requires i < |h.chain|
  {
    h.(chain := Coalesce(h.chain[i := h.chain[i].(free := true)]))
  }

  lemma GrowWf(h: Arena, n: nat, limit: nat)
    requires WfArena(h) && n % 8 == 0 && limit < WORD_RANGE
    ensures WfArena(Grow(h, n, limit).0)
    ensures var b := Grown(h.brk, n)[0];
            b.addr == h.brk && !b.free && b.size >= n && b.size % 8 == 0
            && (Grow(h, n, limit).1 ==> Live(Grow(h, n, limit).0.chain) == Live(h.chain) + {b})
  {
    var b := Block(h.brk, Request(n) - HEADER, true);
    TakeTiles(b, n);
    TilesJoin(h.chain, Grown(h.brk, n), h.base, h.brk, h.brk + Request(n));
    LiveJoin(h.chain, Grown(h.brk, n));
  }

  lemma CarvableBlock(h: Arena, need: nat, align: nat, limit: nat)
    requires WfArena(h) && align >= 16 && align % 8 == 0 && need % 8 == 0
    ensures var i := FirstFit(h.chain, Want(need, align));
            var (h', ok) := if i < |h.chain| then (h, true) else Grow(h, Want(need, align), limit);
            ok ==> i < |h'.chain| && Carvable(h'.chain[i], need, align)
  {
    var w := Want(need, align);
    var i := FirstFit(h.chain, w);
    TilesAligned(h.chain, h.base, h.brk);
    hide Tiles, Take;
    WantMod8(need, align);
    if i == |h.chain| {
      TakeTiles(Block(h.brk, Request(w) - HEADER, true), w);
      FirstOfTaken(Block(h.brk, Request(w) - HEADER, true), w);
    }
  }

  lemma WantMod8(need: nat, align: nat)
    requires align % 8 == 0 && need % 8 == 0
    ensures Want(need, align) % 8 == 0 && (Request(Want(need, align)) - HEADER) % 8 == 0
  {
  }

  lemma FirstOfTaken(b: Block, n: nat)
    requires n <= b.size && n % 8 == 0 && b.size % 8 == 0
    ensures |Take(b, n)| > 0 && Take(b, n)[0].size % 8 == 0
  {
  }

  // ----- what the operations do to the blocks in use -----

  ghost predicate IsNewBlock(c: Chain, c': Chain, b: Block) {
    !b.free && b !in Live(c) && Live(c') == Live(c) + {b}
  }

  /** The arena is tiled as before, and `p` is 0 with nothing changed or the payload of the
      one block that has come into use, of at least `n` bytes. */
  ghost predicate Served(h: Arena, h': Arena, p: nat, n: nat) {
    && WfArena(h') && h'.base == h.base && h.brk <= h'.brk
    && (if p == 0 then h' == h
        else exists b :: IsNewBlock(h.chain, h'.chain, b) && b.Payload() == p && b.size >= n)
  }

  /** malloc serves every request it does not refuse. */
  lemma MallocSound(h: Arena, n: nat, limit: nat)
    requires WfArena(h) && n % 8 == 0 && limit < WORD_RANGE
    ensures Served(h, Malloc(h, n, limit).0, Malloc(h, n, limit).1, n)
  {
    var i := FirstFit(h.chain, n);
    if i < |h.chain| {
      TakeServes(h, n, i);
    } else {
      TilesGrow(h.chain, h.base, h.brk);
      GrowWf(h, n, limit);
      var b := Grown(h.brk, n)[0];
      NewIsNotLive(h.chain, h.base, h.brk, b);
      if Grow(h, n, limit).1 {
        assert IsNewBlock(h.chain, Grow(h, n, limit).0.chain, b);
      }
    }
  }

  /** No free block has `n` bytes, and brk cannot be moved by a page, or by `n` bytes and a header if that
      is more. */
  ghost predicate NoRoom(h: Arena, n: nat, limit: nat) {
    && (forall i | 0 <= i < |h.chain| :: !(h.chain[i].free && h.chain[i].size >= n))
    && h.brk + (if n + 24 < 4096 then 4096 else n + 24) > limit
  }

  /** malloc refuses exactly the requests for which there is no room. */
  lemma MallocRefusesIff(h: Arena, n: nat, limit: nat)
    ensures Malloc(h, n, limit).1 == 0 <==> NoRoom(h, n, limit)
  {
  }

  /** So does malloc_aligned, which asks for its alignment twice over and for two headers more. */
  lemma MallocAlignedRefusesIff(h: Arena, need: nat, align: nat, limit: nat)
    requires WfArena(h) && align >= 16 && align % 8 == 0 && need % 8 == 0
    ensures MallocAligned(h, need, align, limit).1 == 0 <==> NoRoom(h, need + 2 * align + 56, limit)
  {
    hide Tiles, Carve;
    var w := Want(need, align);
    var i := FirstFit(h.chain, w);
    CarvableBlock(h, need, align, limit);
    var (g, ok) := if i < |h.chain| then (h, true) else Grow(h, w, limit);
    if ok {
      CarveFits(g.chain[i], need, align);
      hide AlignedPayload;
    }
  }

  /** The size of a block of `size` bytes once `n` are taken: exactly `n` if the rest is worth a block. */
  ghost function TakenSize(size: nat, n: nat): nat {
    if size > n + 40 then n else size
  }

  /** malloc takes the first free block that fits, in the order of addresses, and cuts off what is left
      over if that is more than 40 bytes; only without such a block it moves brk, by no more than it
      has to. */
  lemma MallocPlaces(h: Arena, n: nat, limit: nat, i: nat)
    requires i <= |h.chain| && forall j | 0 <= j < i :: !(h.chain[j].free && h.chain[j].size >= n)
    ensures var (h', p), request := Malloc(h, n, limit), if n + 24 < 4096 then 4096 else n + 24;
            && (i < |h.chain| && h.chain[i].free && h.chain[i].size >= n ==>
                  && p == h.chain[i].addr + 24 && h'.brk == h.brk && i < |h'.chain|
                  && h'.chain[i] == Block(h.chain[i].addr, TakenSize(h.chain[i].size, n), false)
                  && |h'.chain| == |h.chain| + (if h.chain[i].size > n + 40 then 1 else 0))
            && (i == |h.chain| && h.brk + request <= limit ==>
                  && p == h.brk + 24 && h'.brk == h.brk + request && i < |h'.chain|
                  && h'.chain[i] == Block(h.brk, TakenSize(request - 24, n), false)
                  && |h'.chain| == |h.chain| + (if request - 24 > n + 40 then 2 else 1))
  {
    if i < |h.chain| && h.chain[i].free && h.chain[i].size >= n {
      assert FirstFit(h.chain, n) == i;
    }
    if i == |h.chain| {
      assert FirstFit(h.chain, n) == i;
    }
  }

  lemma TakeServes(h: Arena, n: nat, i: nat)
    requires WfArena(h) && n % 8 == 0 && i < |h.chain| && h.chain[i].free && h.chain[i].size >= n
    ensures Served(h, h.(chain := Splice(h.chain, i, i + 1, Take(h.chain[i], n))), h.chain[i].Payload(), n)
  {
    hide Tiles, Live, Take;
    var b := h.chain[i];
    var mid := Take(b, n);
    TilesCut(h.chain, h.base, h.brk, i);
    TakeTiles(b, n);
    TilesSplice(h.chain, h.base, h.brk, i, mid);
    LiveSplice(h.chain, i, mid);
    assert Live([b]) == {} by { FreeIsNotLive(b); }
    FreeAddressUnused(h.chain, h.base, h.brk, i, mid[0]);
    assert IsNewBlock(h.chain, Splice(h.chain, i, i + 1, mid), mid[0]);
  }

  lemma FreeIsNotLive(b: Block)
    requires b.free
    ensures Live([b]) == {}
  {
  }

  /** No block in use lies inside a free one. */
  lemma FreeAddressUnused(c: Chain, lo: nat, hi: nat, i: nat, b: Block)
    requires Tiles(c, lo, hi) && i < |c| && c[i].free && c[i].addr <= b.addr < c[i].End()
    ensures b !in Live(c)
  {
    if b in Live(c) {
      LiveDisjoint(c, lo, hi, b, c[i]);
      assert false;
    }
  }

  /** malloc does not break up the property free establishes. */
  lemma MallocNoFreeNeighbours(h: Arena, n: nat, limit: nat)
    requires NoFreeNeighbours(h.chain)
    ensures NoFreeNeighbours(Malloc(h, n, limit).0.chain)
  {
    var h' := Malloc(h, n, limit).0;
    var i := FirstFit(h.chain, n);
    if i < |h.chain| {
      var mid := Take(h.chain[i], n);
      forall j | 0 <= j < |h'.chain| - 1
        ensures !(h'.chain[j].free && h'.chain[j + 1].free)
      {
        if j >= i + |mid| {
          assert h'.chain[j] == h.chain[j + 1 - |mid|] && h'.chain[j + 1] == h.chain[j + 2 - |mid|];
        }
      }
    }
  }

  /** free takes exactly its block out of use and leaves no two free neighbours. */
  lemma FreeSound(h: Arena, i: nat)
    requires WfArena(h) && i < |h.chain| && !h.chain[i].free
    ensures var h' := Free(h, i);
            && WfArena(h') && h'.brk == h.brk && h'.base == h.base
            && Live(h'.chain) == Live(h.chain) - {h.chain[i]}
            && NoFreeNeighbours(h'.chain)
  {
    var b := h.chain[i].(free := true);
    var c := h.chain[i := b];
    assert c == Splice(h.chain, i, i + 1, [b]);
    TilesCut(h.chain, h.base, h.brk, i);
    TilesSplice(h.chain, h.base, h.brk, i, [b]);
    FreedLive(h.chain, h.base, h.brk, i);
    CoalesceTiles(c, h.base, h.brk);
    CoalesceLive(c);
    CoalesceNoFreeNeighbours(c);
  }

  /** Behind the new block there is at most a free one. */
  lemma GrownRest(brk: nat, n: nat)
    ensures Grown(brk, n) != [] && Grown(brk, n)[0].addr == brk && Live(Grown(brk, n)[1..]) == {}
  {
  }

  /** The blocks around the one that malloc_aligned carves are the ones in use before. */
  lemma AroundCarved(h: Arena, g: Arena, i: nat, w: nat, a: Block)
    requires WfArena(h) && WfArena(g) && i == FirstFit(h.chain, w) && w % 8 == 0
    requires if i < |h.chain| then g == h
             else g == Arena(h.base, h.brk + Request(w), h.chain + Grown(h.brk, w))
    requires i < |g.chain| && g.chain[i].addr <= a.addr < g.chain[i].End()
    ensures Live(g.chain[..i]) + Live(g.chain[i + 1..]) == Live(h.chain) && a !in Live(h.chain)
  {
    hide Tiles;
    if i < |h.chain| {
      LiveSplice(h.chain, i, []);
      FreeAddressUnused(h.chain, h.base, h.brk, i, a);
    } else {
      GrownRest(h.brk, w);
      assert g.chain[..i] == h.chain && g.chain[i + 1..] == Grown(h.brk, w)[1..];
      if a in h.chain {
        var j :| 0 <= j < |h.chain| && h.chain[j] == a;
        TilesCut(h.chain, h.base, h.brk, j);
        assert false;
      }
    }
  }

  /** malloc_aligned serves every request it does not refuse, at an aligned address. */
  lemma MallocAlignedSound(h: Arena, need: nat, align: nat, limit: nat)
    requires WfArena(h) && align >= 16 && align % 8 == 0 && need % 8 == 0 && limit < WORD_RANGE
    ensures Served(h, MallocAligned(h, need, align, limit).0, MallocAligned(h, need, align, limit).1, need)
    ensures MallocAligned(h, need, align, limit).1 % align == 0
  {
    var w := Want(need, align);
    var i := FirstFit(h.chain, w);
    CarvableBlock(h, need, align, limit);
    GrowWf(h, w, limit);
    var (g, ok) := if i < |h.chain| then (h, true) else Grow(h, w, limit);
    if ok {
      CarveFits(g.chain[i], need, align);
      CarveTiles(g.chain[i], need, align);
      CarveServes(h, g, need, align, i, w);
    }
  }

  lemma CarveServes(h: Arena, g: Arena, need: nat, align: nat, i: nat, w: nat)
    requires WfArena(h) && WfArena(g) && i == FirstFit(h.chain, w) && w % 8 == 0
    requires if i < |h.chain| then g == h
             else g == Arena(h.base, h.brk + Request(w), h.chain + Grown(h.brk, w))
    requires i < |g.chain| && Carvable(g.chain[i], need, align)
    ensures var p := AlignedPayload(g.chain[i], align);
            && (p == g.chain[i].Payload() || p - HEADER >= g.chain[i].Payload())
            && p + need + HEADER <= g.chain[i].End()
            && Served(h, g.(chain := Splice(g.chain, i, i + 1, Carve(g.chain[i], need, align))), p, need)
  {
    hide Tiles, Live, Carve, Carvable;
    var b := g.chain[i];
    CarveFits(b, need, align);
    CarveTiles(b, need, align);
    var mid := Carve(b, need, align);
    var a := Block(AlignedPayload(b, align) - HEADER, need, false);
    TilesCut(g.chain, g.base, g.brk, i);
    TilesSplice(g.chain, g.base, g.brk, i, mid);
    LiveSplice(g.chain, i, mid);
    AroundCarved(h, g, i, w, a);
    assert IsNewBlock(h.chain, Splice(g.chain, i, i + 1, mid), a);
  }

  // ----- every sequence of operations -----

  /** A client call.  A free or realloc names the block it is given by its index. */
  datatype Op =
    | DoMalloc(n: nat)
    | DoFree(i: nat)
    | DoRealloc(i: nat, n: nat)
    | DoAligned(need: nat, align: nat)

  /** Calls a client may make: sizes as rounded by the entry points, blocks in use. */
  ghost predicate Allowed(h: Arena, op: Op) {
    match op
    case DoMalloc(n) => n % 8 == 0
    case DoFree(i) => i < |h.chain| && !h.chain[i].free
    case DoRealloc(i, n) => n % 8 == 0 && i < |h.chain| && !h.chain[i].free
    case DoAligned(need, align) => need % 8 == 0 && align >= 16 && align % 8 == 0
  }

  /** A block that is too small is replaced by a new one, if there is room for that. */
  ghost predicate ReallocStep(h: Arena, i: nat, n: nat, limit: nat, h': Arena)
    requires i < |h.chain|
  {
    var (g, p) := Malloc(h, n, limit);
    if h.chain[i].size >= n || p == 0 then h' == h
    else exists j :: 0 <= j < |g.chain| && g.chain[j] == h.chain[i] && h' == Free(g, j)
  }

  ghost predicate Step(h: Arena, op: Op, limit: nat, h': Arena)
    requires WfArena(h) && Allowed(h, op)
  {
    match op
    case DoMalloc(n) => h' == Malloc(h, n, limit).0
    case DoFree(i) => h' == Free(h, i)
    case DoRealloc(i, n) => ReallocStep(h, i, n, limit, h')
    case DoAligned(need, align) => h' == MallocAligned(h, need, align, limit).0
  }

  /** What one call may do to the blocks in use: nothing but take its own out and bring one in. */
  lemma StepSound(h: Arena, op: Op, limit: nat, h': Arena)
    requires WfArena(h) && Allowed(h, op) && limit < WORD_RANGE && Step(h, op, limit, h')
    ensures WfArena(h') && h'.base == h.base && h.brk <= h'.brk
    ensures op.DoFree? || (op.DoRealloc? && h' != h) ==> NoFreeNeighbours(h'.chain)
    ensures var mine := if op.DoFree? || op.DoRealloc? then {h.chain[op.i]} else {};
            Live(h.chain) - mine <= Live(h'.chain) && |Live(h'.chain) - Live(h.chain)| <= 1
  {
    hide Tiles, Live, Malloc, MallocAligned, Free, NoFreeNeighbours, ReallocStep;
    match op
    case DoMalloc(n) =>
      MallocSound(h, n, limit);
      AtMostOneNew(h, h', Malloc(h, n, limit).1, n);
    case DoFree(i) =>
      FreeSound(h, i);
      assert Live(h'.chain) - Live(h.chain) == {};
    case DoAligned(need, align) =>
      MallocAlignedSound(h, need, align, limit);
      AtMostOneNew(h, h', MallocAligned(h, need, align, limit).1, need);
    case DoRealloc(i, n) =>
      ReallocSound(h, i, n, limit, h');
  }

  lemma ReallocSound(h: Arena, i: nat, n: nat, limit: nat, h': Arena)
    requires WfArena(h) && i < |h.chain| && !h.chain[i].free && n % 8 == 0 && limit < WORD_RANGE
    requires ReallocStep(h, i, n, limit, h')
    ensures WfArena(h') && h'.base == h.base && h.brk <= h'.brk && (h' != h ==> NoFreeNeighbours(h'.chain))
    ensures Live(h.chain) - {h.chain[i]} <= Live(h'.chain) && |Live(h'.chain) - Live(h.chain)| <= 1
  {
    hide Tiles, Live, Malloc, Free, NoFreeNeighbours;
    var (g, p) := Malloc(h, n, limit);
    MallocSound(h, n, limit);
    AtMostOneNew(h, g, p, n);
    if h' == h {
      assert Live(h'.chain) - Live(h.chain) == {};
    } else {
      var j :| 0 <= j < |g.chain| && g.chain[j] == h.chain[i] && h' == Free(g, j);
      FreeSound(g, j);
      assert g.chain[j] in Live(h.chain) by { InUseIsLive(h.chain, i); }
      assert Live(h'.chain) - Live(h.chain) == Live(g.chain) - Live(h.chain);
    }
  }

  lemma InUseIsLive(c: Chain, i: nat)
    requires i < |c| && !c[i].free
    ensures c[i] in Live(c)
  {
  }

  lemma AtMostOneNew(h: Arena, h': Arena, p: nat, n: nat)
    requires WfArena(h) && Served(h, h', p, n)
    ensures Live(h.chain) <= Live(h'.chain) && |Live(h'.chain) - Live(h.chain)| <= 1 && h.brk <= h'.brk
  {
  }

  /** `hs` are the arenas before, between and after the calls `ops`, starting empty. */
  ghost predicate IsRun(hs: seq<Arena>, ops: seq<Op>, limit: nat) {
    && |hs| == |ops| + 1
    && hs[0].base % 8 == 0 && GROWTH <= hs[0].base == hs[0].brk < WORD_RANGE && hs[0].chain == []
    && forall k | 0 <= k < |ops| :: WfArena(hs[k]) ==> Allowed(hs[k], ops[k]) && Step(hs[k], ops[k], limit, hs[k + 1])
  }

  lemma {:induction false} RunWf(hs: seq<Arena>, ops: seq<Op>, limit: nat, k: nat)
    requires IsRun(hs, ops, limit) && limit < WORD_RANGE && k < |hs|
    ensures WfArena(hs[k]) && hs[k].base == hs[0].base
  {
    if k > 0 {
      RunWf(hs, ops, limit, k - 1);
      assert Step(hs[k - 1], ops[k - 1], limit, hs[k]);
      StepSound(hs[k - 1], ops[k - 1], limit, hs[k]);
    }
  }

  /** After any run the chain tiles the arena, every size and payload is a multiple of 8,
      headers and payloads add up to the growth of brk, and blocks in use do not overlap. */
  lemma RunSound(hs: seq<Arena>, ops: seq<Op>, limit: nat, k: nat)
    requires IsRun(hs, ops, limit) && limit < WORD_RANGE && k < |hs|
    ensures Tiles(hs[k].chain, hs[0].base, hs[k].brk)
    ensures hs[0].base + TotalBytes(hs[k].chain) == hs[k].brk
    ensures forall i | 0 <= i < |hs[k].chain| :: hs[k].chain[i].Payload() % 8 == 0 && hs[k].chain[i].size % 8 == 0
    ensures forall b, d | b in Live(hs[k].chain) && d in Live(hs[k].chain) && b != d ::
              b.End() <= d.addr || d.End() <= b.addr
  {
    hide Tiles, Live, IsRun;
    RunWf(hs, ops, limit, k);
    forall b, d | b in Live(hs[k].chain) && d in Live(hs[k].chain) && b != d
      ensures b.End() <= d.addr || d.End() <= b.addr
    {
      LiveIsIn(hs[k].chain, b);
      LiveIsIn(hs[k].chain, d);
      LiveDisjoint(hs[k].chain, hs[k].base, hs[k].brk, b, d);
    }
    TilesTotal(hs[k].chain, hs[k].base, hs[k].brk);
    TilesAligned(hs[k].chain, hs[k].base, hs[k].brk);
  }

  lemma LiveIsIn(c: Chain, b: Block)
    requires b in Live(c)
    ensures b in c
  {
  }

  /** A block in use stays in use, where it is and as large as it is, until a call names it. */
  lemma {:induction false} RunKeepsLive(hs: seq<Arena>, ops: seq<Op>, limit: nat, j: nat, k: nat, b: Block)
    requires IsRun(hs, ops, limit) && limit < WORD_RANGE && j <= k < |hs| && b in Live(hs[j].chain)
    requires forall l | j <= l < k :: !Names(hs[l], ops[l], b)
    ensures b in Live(hs[k].chain)
    decreases k - j
  {
    if j < k {
      RunWf(hs, ops, limit, j);
      assert Step(hs[j], ops[j], limit, hs[j + 1]);
      StepSound(hs[j], ops[j], limit, hs[j + 1]);
      assert !Names(hs[j], ops[j], b);
      RunKeepsLive(hs, ops, limit, j + 1, k, b);
    }
  }

  ghost predicate Names(h: Arena, op: Op, b: Block) {
    (op.DoFree? || op.DoRealloc?) && op.i < |h.chain| && h.chain[op.i] == b
  }
}
