/** malloc, free, realloc and aligned allocation (src/stdlib.c) over the memory the
    headers live in. */
module Heap {
  import opened Alignment
  import opened HeapChain
  import opened HeapMemory

  /** Unsigned addition in 32 bits. */
  function Add32(x: nat, y: nat): nat {
    (x + y) % 0x1_0000_0000
  }

  /** ALIGN8 on 32-bit operands. */
  function Align8(size: nat): nat
    requires size < WORD_RANGE
  {
    Add32(size, 7) / 8 * 8
  }

  /** The largest request whose rounded size and header do not wrap around 32 bits. */
  const MAX_REQUEST: nat := 0xffff_ffe0

  /** Payload bytes reserved for a request; an empty one still gets a block. */
  function Need(size: nat): nat
    requires size < WORD_RANGE
  {
    Align8(if size == 0 then 1 else size)
  }

  lemma NeedFits(size: nat)
    requires size < WORD_RANGE
    ensures Need(size) % 8 == 0 && Need(size) < WORD_RANGE
    ensures size <= MAX_REQUEST ==> size <= Need(size) && 0 < Need(size) <= MAX_REQUEST
    ensures size <= MAX_REQUEST ==> Need(size) == 8 || Need(size) < size + 8
  {
  }

  /** What request_space asks of the kernel for a block of `n`, in 32 bits. */
  function Request32(n: nat): nat {
    var total := Add32(HEADER, n);
    if total < GROWTH then GROWTH else total
  }

  /** The 32-bit sums of malloc and request_space are the true ones, and the memory asked for
      holds the request, exactly up to MAX_REQUEST. */
  lemma RequestExact(size: nat)
    requires size < WORD_RANGE
    ensures size <= MAX_REQUEST <==> size <= Need(size) && Add32(HEADER, Need(size)) == HEADER + Need(size)
    ensures size <= MAX_REQUEST <==> HEADER + size <= Request32(Need(size))
    ensures size <= MAX_REQUEST ==> Request32(Need(size)) == Request(Need(size))
  {
    NeedFits(size);
  }

  /** One byte more is rounded to 0xffffffe8: a page is asked for, the block is split, and the
      header of the remainder falls on the header of the block itself. */
  lemma RequestWraps(block: nat)
    requires block + HEADER < WORD_RANGE
    ensures Need(0xffff_ffe1) == 0xffff_ffe8 > MAX_REQUEST
    ensures Request32(0xffff_ffe8) == GROWTH && GROWTH - HEADER > Add32(0xffff_ffe8, HEADER + 16)
    ensures Add32(block + HEADER, 0xffff_ffe8) == block
  {
  }

  class Heap {
    var mem: Memory
    var brk: nat
    var freeList: nat
    const base: nat
    const limit: nat              // as far as the kernel moves brk
    ghost var chain: Chain

    ghost function State(): Arena
      reads this
    {
      Arena(base, brk, chain)
    }

    ghost predicate Valid()
      reads this
    {
      && WfArena(State()) && limit < WORD_RANGE
      && freeList == First(chain, 0)
      && Encodes(mem, chain, 0)
    }

    constructor (base: nat, limit: nat)
      requires base % 8 == 0 && GROWTH <= base < WORD_RANGE && limit < WORD_RANGE
      ensures Valid() && State() == Arena(base, base, []) && this.limit == limit
    {
      this.base, this.limit := base, limit;
      mem, brk, freeList, chain := map[], base, 0, [];
    }

    /** Header fields of block `i`, as the list-walking loops read them. */
    lemma HeaderFields(i: nat)
      requires Valid() && i < |chain|
      ensures Rd(mem, chain[i].addr) == BLOCK_MAGIC
      ensures Rd(mem, chain[i].addr + 4) == chain[i].size
      ensures Rd(mem, chain[i].addr + 8) == (if chain[i].free then 1 else 0)
      ensures Rd(mem, chain[i].addr + 12) == NextOf(chain, i, 0)
      ensures base <= chain[i].addr && chain[i].End() <= brk
      ensures i + 1 < |chain| ==> NextOf(chain, i, 0) > 0
    {
      assert Header(mem, chain[i], NextOf(chain, i, 0));
      TilesCut(chain, base, brk, i);
      if i + 1 < |chain| {
        TilesCut(chain, base, brk, i + 1);
      }
    }

    /** find_free_block, and the same walk in malloc_aligned. */
    method FindFreeBlock(size: nat) returns (cur: nat)
      requires Valid()
      ensures var i := FirstFit(chain, size);
              if i < |chain| then cur == chain[i].addr && cur > 0 else cur == 0
    {
      cur := freeList;
      ghost var i := 0;
      while cur != 0
        invariant i <= |chain|
        invariant cur == First(chain[i..], 0) && (i < |chain| ==> cur > 0)
        invariant FirstFit(chain, size) == i + FirstFit(chain[i..], size)
        decreases |chain| - i
      {
        HeaderFields(i);
        assert chain[i..][1..] == chain[i + 1..];
        if Rd(mem, cur + 8) != 0 && Rd(mem, cur + 4) >= size {
          return;
        }
        cur := Rd(mem, cur + 12);
        i := i + 1;
      }
    }

    /** The four header words of a block outside the MMAP case. */
    method WriteHeader(a: nat, size: nat, isFree: nat, next: nat)
      requires isFree <= 1
      modifies this`mem
      ensures Header(mem, Block(a, size, isFree == 1), next)
      ensures forall p | p < a || p >= a + HEADER :: Rd(mem, p) == Rd(old(mem), p)
    {
      mem := mem[a := BLOCK_MAGIC];
      mem := mem[a + 4 := size];
      mem := mem[a + 8 := isFree];
      mem := mem[a + 12 := next];
    }

    /** Cut what is left over after `n` bytes off a block, if it is worth a header.  A request
        above MAX_REQUEST, for which a page was asked, puts that header on top of the block. */
    method SplitOff(block: nat, size: nat, n: nat, next: nat, ghost f: bool)
      requires Header(mem, Block(block, size, f), next) && GROWTH <= block && block + HEADER + size < WORD_RANGE
      requires n <= size || (n % 8 == 0 && MAX_REQUEST < n < WORD_RANGE && size == GROWTH - HEADER)
      modifies this`mem
      ensures var rest := block + HEADER + n;
              n <= size ==>
                if Splits(size, n) then
                  Header(mem, Block(block, n, f), rest) && Header(mem, Block(rest, size - n - HEADER, true), next)
                else Header(mem, Block(block, size, f), next)
      ensures n > size ==> Rd(mem, block + 4) == n && (n == 0xffff_ffe8 ==> Rd(mem, block + 12) == block)
      ensures forall p | p < block || p >= block + HEADER + size :: Rd(mem, p) == Rd(old(mem), p)
    {
      SplitSums(block, size, n);
      hide Add32;
      if size > Add32(n, HEADER + 16) {
        WriteRemainder(block, Add32(block + HEADER, n), (size - n - HEADER) % 0x1_0000_0000, n, next);
      }
    }

    /** The two sums of a split: true ones, or, above MAX_REQUEST, a remainder on top of the block. */
    static lemma SplitSums(block: nat, size: nat, n: nat)
      requires GROWTH <= block && block + HEADER + size < WORD_RANGE
      requires n <= size || (n % 8 == 0 && MAX_REQUEST < n < WORD_RANGE && size == GROWTH - HEADER)
      ensures n <= size ==> Add32(n, HEADER + 16) == n + HEADER + 16 && Add32(block + HEADER, n) == block + HEADER + n
      ensures n <= size && Splits(size, n) ==> (size - n - HEADER) % 0x1_0000_0000 == size - n - HEADER
      ensures n > size ==> size > Add32(n, HEADER + 16) && Add32(block + HEADER, n) == block + (n - 0xffff_ffe8)
    {
    }

    method WriteRemainder(block: nat, remainder: nat, rest: nat, n: nat, next: nat)
      requires block <= remainder
      modifies this`mem
      ensures Rd(mem, block + 4) == n && Rd(mem, block + 12) == remainder
      ensures remainder >= block + HEADER ==>
                && Header(mem, Block(remainder, rest, true), next)
                && Rd(mem, block) == Rd(old(mem), block) && Rd(mem, block + 8) == Rd(old(mem), block + 8)
      ensures forall p | p < block || p >= remainder + HEADER :: Rd(mem, p) == Rd(old(mem), p)
    {
      WriteHeader(remainder, rest, 1, next);
      mem := mem[block + 4 := n];
      mem := mem[block + 12 := remainder];
    }

    /** request_space.  Above MAX_REQUEST the sums wrap: a page is taken for a block whose header
        promises `size` bytes, and the chain is no longer one. */
    method RequestSpace(size: nat) returns (block: nat)
      requires Valid() && size % 8 == 0 && size < WORD_RANGE
      modifies this
      ensures Kept(old(mem), mem, Live(old(chain)))
      ensures size <= MAX_REQUEST ==> Valid() && State() == old(Grow(State(), size, limit).0)
      ensures size <= MAX_REQUEST ==> block == if old(Grow(State(), size, limit).1) then old(brk) else 0
      ensures size > MAX_REQUEST ==> Wrapped(old(State()), old(mem), size, block)
    {
      hide Tiles, Encodes, Live, Kept, Take;
      TilesGrow(chain, base, brk);
      KeptBelow(mem, mem, chain, base, brk);
      var request := Add32(HEADER, size);
      if request < GROWTH {
        request := GROWTH;
      }
      if brk + request > limit {
        return 0;
      }
      block := brk;
      LayHeaders(block, request, size);
      EncodesFrame(old(mem), mem, chain, base, block, 0);
      KeptBelow(old(mem), mem, chain, base, block);
      ghost var m := mem;
      LinkLast(block);
      KeptTwice(old(mem), m, mem, Live(chain));
      if size <= MAX_REQUEST {
        ghost var b := Block(block, request - HEADER, true);
        TakeTiles(b, size);
        Appended(m, Take(b, size), block + request);
        chain := chain + Take(b, size);
      }
      brk := brk + request;
    }

    /** The header of a new block of `request` bytes in all, split when `size` leaves enough. */
    method LayHeaders(block: nat, request: nat, size: nat)
      requires GROWTH <= block && block + request < WORD_RANGE && request == Request32(size)
      requires size % 8 == 0 && size < WORD_RANGE
      modifies this`mem
      ensures forall p | p < block :: Rd(mem, p) == Rd(old(mem), p)
      ensures size <= MAX_REQUEST ==>
                size + HEADER <= request && Encodes(mem, Take(Block(block, request - HEADER, true), size), 0)
      ensures size > MAX_REQUEST ==>
                Rd(mem, block + 4) == size && (size == 0xffff_ffe8 ==> Rd(mem, block + 12) == block)
    {
      WriteHeader(block, request - HEADER, 0, 0);
      SplitOff(block, request - HEADER, size, 0, false);
      if size <= MAX_REQUEST {
        EncodesTake(mem, Block(block, request - HEADER, true), size, 0);
      }
    }

    /** What a request above MAX_REQUEST leaves: nothing where the kernel refuses a page, else a
        page whose block claims `size` bytes; at 0xffffffe8 its next block is itself. */
    ghost predicate Wrapped(h: Arena, m: Memory, size: nat, block: nat)
      reads this
    {
      if h.brk + GROWTH > limit then block == 0 && State() == h && mem == m
      else
        && block == h.brk && brk == h.brk + GROWTH && Rd(mem, block + 4) == size
        && (size == 0xffff_ffe8 ==> Rd(mem, block + 12) == block)
    }

    /** The end of request_space: walk to the last block and link the new one in. */
    method LinkLast(block: nat)
      requires Valid() && block == brk
      modifies this`mem, this`freeList
      ensures freeList == First(chain, block)
      ensures mem == if chain == [] then old(mem) else old(mem)[chain[|chain| - 1].addr + 12 := block]
      ensures Kept(old(mem), mem, Live(chain))
      ensures forall a | a >= block :: Rd(mem, a) == Rd(old(mem), a)
    {
      hide Tiles, Encodes;
      FirstNonzero();
      if freeList == 0 {
        freeList := block;
      } else {
        var last := freeList;
        ghost var i := 0;
        while Rd(mem, last + 12) != 0
          invariant i < |chain| && last == chain[i].addr
          invariant mem == old(mem) && freeList == old(freeList) && Valid()
          decreases |chain| - i
        {
          HeaderFields(i);
          last := Rd(mem, last + 12);
          i := i + 1;
        }
        HeaderFields(i);
        assert i == |chain| - 1 && last + HEADER <= block;
        mem := mem[last + 12 := block];
        KeptHeader(old(mem), mem, chain, base, block, i);
      }
    }

    /** Once linked, old and new blocks are one chain. */
    lemma Appended(m: Memory, mid: Chain, end: nat)
      requires WfArena(State()) && Encodes(m, chain, 0) && Encodes(m, mid, 0)
      requires mid != [] && Tiles(mid, brk, end) && end < WORD_RANGE
      requires mem == if chain == [] then m else m[chain[|chain| - 1].addr + 12 := brk]
      ensures Tiles(chain + mid, base, end) && Encodes(mem, chain + mid, 0)
      ensures First(chain + mid, 0) == First(chain, brk)
    {
      assert mid[0].addr == brk;
      TilesJoin(chain, mid, base, brk, end);
      if chain == [] {
        assert chain + mid == mid;
      } else {
        var i := |chain| - 1;
        TilesCut(chain, base, brk, i);
        hide Tiles, Encodes;
        EncodesRelink(m, chain, base, brk, 0, brk);
        EncodesFrame(m, mem, mid, brk, end, 0);
        EncodesJoin(mem, chain, mid, 0);
      }
    }

    lemma FirstNonzero()
      requires Valid()
      ensures freeList == 0 <==> chain == []
    {
      if chain != [] {
        HeaderFields(0);
      }
    }

    /** malloc.  A request above MAX_REQUEST is served as what its size wraps to. */
    method Malloc(size: nat) returns (p: nat)
      requires Valid() && size < WORD_RANGE
      modifies this
      ensures Need(size) <= MAX_REQUEST ==>
                && Valid() && State() == old(HeapChain.Malloc(State(), Need(size), limit).0)
                && p == old(HeapChain.Malloc(State(), Need(size), limit).1)
      ensures Need(size) > MAX_REQUEST ==>
                (p == 0 || p > HEADER) && Wrapped(old(State()), old(mem), Need(size), if p == 0 then 0 else p - HEADER)
      ensures Kept(old(mem), mem, Live(old(chain)))
    {
      var aligned := Need(size);
      NeedFits(size);
      TilesGrow(chain, base, brk);
      if aligned > MAX_REQUEST { NoBlockThatLarge(aligned); }
      var block := FindFreeBlock(aligned);
      if block != 0 {
        TakeBlock(block, aligned, FirstFit(chain, aligned));
        return block + HEADER;
      }
      block := RequestSpace(aligned);
      if block == 0 {
        return 0;
      }
      return block + HEADER;
    }

    lemma NoBlockThatLarge(n: nat)
      requires Valid() && n > MAX_REQUEST
      ensures FirstFit(chain, n) == |chain|
    {
      var i := FirstFit(chain, n);
      if i < |chain| {
        HeaderFields(i);
        assert false;
      }
    }

    /** The part of malloc that takes `n` bytes of a free block. */
    method TakeBlock(block: nat, n: nat, ghost i: nat)
      requires Valid() && i < |chain| && block == chain[i].addr && chain[i].free && chain[i].size >= n && n % 8 == 0
      modifies this
      ensures Valid() && State() == old(State().(chain := Splice(chain, i, i + 1, Take(chain[i], n))))
      ensures Kept(old(mem), mem, Live(old(chain)))
    {
      HeaderFields(i);
      TilesAligned(chain, base, brk);
      ghost var b, mid := chain[i], Take(chain[i], n);
      SplitOff(block, Rd(mem, block + 4), n, Rd(mem, block + 12), true);
      ghost var m := mem;
      mem := mem[block + 8 := 0];
      assert forall a | a != block + 8 :: Rd(mem, a) == Rd(m, a);
      EncodesTake(mem, b, n, NextOf(chain, i, 0));
      TakeTiles(b, n);
      TilesSplice(chain, base, brk, i, mid);
      EncodesSplice(old(mem), mem, chain, base, brk, i, i + 1, mid);
      KeptOutside(old(mem), mem, chain, base, brk, i);
      chain := Splice(chain, i, i + 1, mid);
    }

    /** Is `p` the payload of block `i`, and is that block in use? */
    ghost predicate InUse(p: nat, i: nat)
      reads this
    {
      i < |chain| && !chain[i].free && p == chain[i].Payload()
    }

    /** A pointer in front of which there is no header. */
    ghost predicate Foreign(p: nat)
      reads this
    {
      p >= HEADER && Rd(mem, p - HEADER) != BLOCK_MAGIC && Rd(mem, p - HEADER) != MMAP_MAGIC
    }

    /** free of a block in use; a null pointer and one without a header are ignored. */
    method Free(ptr: nat, ghost i: nat)
      requires Valid() && (ptr == 0 || InUse(ptr, i) || Foreign(ptr))
      modifies this
      ensures Valid()
      ensures old(InUse(ptr, i)) ==> State() == old(HeapChain.Free(State(), i))
      ensures old(InUse(ptr, i)) ==> Kept(old(mem), mem, Live(old(chain)) - {old(chain[i])})
      ensures !old(InUse(ptr, i)) ==> State() == old(State()) && mem == old(mem)
    {
      if ptr == 0 {
        return;
      }
      var block := ptr - HEADER;
      if InUse(ptr, i) { HeaderFields(i); }
      if Rd(mem, block) != BLOCK_MAGIC {
        return;
      }
      MarkFree(block, i);
      CoalesceAll();
    }

    method MarkFree(block: nat, ghost i: nat)
      requires Valid() && i < |chain| && block == chain[i].addr && !chain[i].free
      modifies this
      ensures Valid() && State() == old(State().(chain := chain[i := chain[i].(free := true)]))
      ensures Live(chain) == Live(old(chain)) - {old(chain[i])}
      ensures Kept(old(mem), mem, Live(old(chain)))
    {
      HeaderFields(i);
      TilesAligned(chain, base, brk);
      ghost var b := chain[i].(free := true);
      mem := mem[block + 8 := 1];
      assert Header(mem, b, NextOf([b], 0, NextOf(chain, i, 0)));
      EncodesSplice(old(mem), mem, chain, base, brk, i, i + 1, [b]);
      TilesSplice(chain, base, brk, i, [b]);
      KeptHeader(old(mem), mem, chain, base, brk, i);
      FreedLive(chain, base, brk, i);
      assert Splice(chain, i, i + 1, [b]) == chain[i := b];
      chain := chain[i := b];
    }

    /** The loop of free: one pass merges every run of free neighbours. */
    method CoalesceAll()
      requires Valid()
      modifies this
      ensures Valid() && State() == old(State().(chain := Coalesce(chain)))
      ensures Kept(old(mem), mem, Live(old(chain)))
    {
      var cur := freeList;
      ghost var i := 0;
      assert chain[..0] + Coalesce(chain[0..]) == Coalesce(chain);
      KeptBelow(mem, mem, chain, base, brk);
      assert Coalesce([]) == [];
      hide Tiles, Encodes, Live, Kept, Coalesce, MergeAt;
      while cur != 0
        invariant i <= |chain| && Valid() && brk == old(brk)
        invariant cur == First(chain[i..], 0) && (i < |chain| ==> cur > 0)
        invariant old(Coalesce(chain)) == chain[..i] + Coalesce(chain[i..])
        invariant Live(chain) == Live(old(chain)) && Kept(old(mem), mem, Live(old(chain)))
        decreases |chain| - i, |chain|
      {
        label Round:
        HeaderFields(i);
        CoalesceStep(chain, i);
        var next := Rd(mem, cur + 12);
        if i + 1 < |chain| {
          HeaderFields(i + 1);
        }
        if Rd(mem, cur + 8) != 0 && next != 0 && Rd(mem, next + 8) != 0 {
          MergeAtLive(chain, i);
          ghost var m := mem;
          MergeNext(cur, next, i);
          KeptTwice(old(mem), m, mem, Live(old(chain)));
          MergedFirst(old@Round(chain), i);
        } else {
          cur := next;
          i := i + 1;
        }
      }
      assert chain[..i] + Coalesce(chain[i..]) == chain;
    }

    /** The merged block starts where the first did. */
    static lemma MergedFirst(c: Chain, i: nat)
      requires i + 1 < |c|
      ensures MergeAt(c, i) != [] && i < |MergeAt(c, i)| && First(MergeAt(c, i)[i..], 0) == c[i].addr
      ensures |MergeAt(c, i)| == |c| - 1
    {
    }

    /** Absorb the next block. */
    method MergeNext(cur: nat, next: nat, ghost i: nat)
      requires Valid() && i + 1 < |chain| && cur == chain[i].addr && next == chain[i + 1].addr
      requires chain[i].free && chain[i + 1].free
      modifies this
      ensures Valid() && State() == old(State().(chain := MergeAt(chain, i)))
      ensures Kept(old(mem), mem, Live(old(chain)))
    {
      hide Tiles, Encodes, Live, Kept;
      HeaderFields(i);
      HeaderFields(i + 1);
      mem := mem[cur + 4 := Rd(mem, cur + 4) + HEADER + Rd(mem, next + 4)];
      mem := mem[cur + 12 := Rd(mem, next + 12)];
      ghost var b := Merged(chain[i], chain[i + 1]);
      TilesOrdered(chain, base, brk, i, i + 1);
      OneEncodes(mem, b, NextOf(chain, i + 1, 0));
      EncodesSplice(old(mem), mem, chain, base, brk, i, i + 2, [b]);
      MergeAtTiles(chain, base, brk, i);
      KeptHeader(old(mem), mem, chain, base, brk, i);
      chain := MergeAt(chain, i);
    }

    /** malloc_aligned, for the alignments served from the arena. */
    method MallocAligned(size: nat, align: nat) returns (p: nat)
      requires Valid() && size <= MAX_REQUEST
      requires 16 <= align <= 0x10_0000 && align % 8 == 0 && Want(Need(size), align) <= MAX_REQUEST
      modifies this
      ensures Valid() && Need(size) % 8 == 0
      ensures State() == old(HeapChain.MallocAligned(State(), Need(size), align, limit).0)
      ensures p == old(HeapChain.MallocAligned(State(), Need(size), align, limit).1)
      ensures Kept(old(mem), mem, Live(old(chain)))
    {
      hide Tiles, Encodes, Live, Kept, Carve, Carvable, Grow, FirstFit, AlignedPayload, AlignUp, Align8;
      NeedFits(size);
      WantMod8(Need(size), align);
      var need := Need(size);
      CarvableBlock(State(), need, align, limit);
      ghost var i := FirstFit(chain, Want(need, align));
      var block := FindOrGrow(Want(need, align));
      if block == 0 {
        return 0;
      }
      ghost var m, others := mem, Live(chain) - {chain[i]};
      p := CarveBlock(block, need, align, i);
      KeptLess(m, mem, others, Live(old(chain)));
      KeptTwice(old(mem), m, mem, Live(old(chain)));
    }

    /** The first free block of `want` bytes, or a new one. */
    method FindOrGrow(want: nat) returns (block: nat)
      requires Valid() && want % 8 == 0 && want <= MAX_REQUEST
      modifies this
      ensures Valid() && Kept(old(mem), mem, Live(old(chain)))
      ensures var i := FirstFit(old(chain), want);
              var (g, ok) := if i < |old(chain)| then (old(State()), true) else Grow(old(State()), want, limit);
              && State() == g
              && (if ok then i < |chain| && block == chain[i].addr && block > 0
                             && Live(old(chain)) <= Live(chain) - {chain[i]}
                  else block == 0 && State() == old(State()))
    {
      hide Tiles, Encodes, Live, Kept;
      TilesGrow(chain, base, brk);
      KeptBelow(mem, mem, chain, base, brk);
      ghost var i := FirstFit(chain, want);
      block := FindFreeBlock(want);
      if block == 0 {
        GrowWf(State(), want, limit);
        block := RequestSpace(want);
        if block == 0 {
          return;
        }
      }
      StillLive(old(State()), State(), i, want);
    }

    /** The block to carve, found or new, is none of those in use. */
    static lemma StillLive(h: Arena, g: Arena, i: nat, want: nat)
      requires WfArena(h) && i == FirstFit(h.chain, want)
      requires if i < |h.chain| then g == h
               else g == Arena(h.base, h.brk + Request(want), h.chain + Grown(h.brk, want))
      ensures i < |g.chain| && Live(h.chain) <= Live(g.chain) - {g.chain[i]}
    {
      if i == |h.chain| {
        NewIsNotLive(h.chain, h.base, h.brk, Grown(h.brk, want)[0]);
      }
    }

    /** Turn one block into a leading fragment, the aligned block and a tail. */
    method CarveBlock(block: nat, need: nat, align: nat, ghost i: nat) returns (p: nat)
      requires Valid() && i < |chain| && block == chain[i].addr && Carvable(chain[i], need, align)
      modifies this
      ensures p == old(AlignedPayload(chain[i], align))
      ensures Valid() && (p == old(chain[i].Payload()) || p - HEADER >= old(chain[i].Payload()))
      ensures p + need + HEADER <= old(chain[i].End())
      ensures State() == old(State()).(chain := Splice(old(chain), i, i + 1, Carve(old(chain[i]), need, align)))
      ensures Kept(old(mem), mem, Live(old(chain)) - {old(chain[i])})
    {
      hide Tiles, Encodes, Live, Kept;
      ghost var b := chain[i];
      HeaderFields(i);
      CarveFits(b, need, align);
      CarveTiles(b, need, align);
      var bend := block + HEADER + Rd(mem, block + 4);
      var astart := block + HEADER;
      p := AlignUp(astart, align);
      if p != astart && p - block < 2 * HEADER {
        p := p + align;
      }
      WriteCarve(block, p, need, bend, Rd(mem, block + 12), b.free);
      EncodesCarve(mem, b, need, align, NextOf(chain, i, 0));
      EncodesSplice(old(mem), mem, chain, base, brk, i, i + 1, Carve(b, need, align));
      TilesSplice(chain, base, brk, i, Carve(b, need, align));
      KeptOutside(old(mem), mem, chain, base, brk, i);
      chain := Splice(chain, i, i + 1, Carve(b, need, align));
    }

    /** The header writes of the carve; a runt tail is absorbed. */
    method WriteCarve(block: nat, p: nat, need: nat, bend: nat, next: nat, ghost f: bool)
      requires (p == block + HEADER || p - HEADER >= block + HEADER) && p + need <= bend
      requires Header(mem, Block(block, bend - block - HEADER, f), next)
      modifies this`mem
      ensures var tail := bend - (p + need);
              if tail < HEADER + 8 then Header(mem, Block(p - HEADER, need + tail, false), next)
              else Header(mem, Block(p - HEADER, need, false), p + need)
                   && Header(mem, Block(p + need, tail - HEADER, true), next)
      ensures p != block + HEADER ==> Header(mem, Block(block, p - block - 2 * HEADER, true), p - HEADER)
      ensures forall a | a < block || a >= bend :: Rd(mem, a) == Rd(old(mem), a)
    {
      var used, tail := need, bend - (p + need);
      if tail < HEADER + 8 {
        used, tail := used + tail, 0;
      }
      var aligned := WriteLead(block, p);
      ghost var m0 := mem;
      if tail != 0 {
        WriteHeader(p + used, tail - HEADER, 1, next);
      }
      ghost var m := mem;
      mem := mem[aligned + 4 := used];
      mem := mem[aligned + 8 := 0];
      mem := mem[aligned + 12 := if tail != 0 then p + used else next];
      assert forall a | a < aligned || a >= p :: Rd(mem, a) == Rd(m, a);
    }

    /** The original block becomes the leading fragment, unless it is aligned already. */
    method WriteLead(block: nat, p: nat) returns (aligned: nat)
      requires p == block + HEADER || p - HEADER >= block + HEADER
      requires Rd(mem, block) == BLOCK_MAGIC
      modifies this`mem
      ensures aligned == p - HEADER && Rd(mem, aligned) == BLOCK_MAGIC
      ensures p != block + HEADER ==> Header(mem, Block(block, p - block - 2 * HEADER, true), aligned)
      ensures forall a | a < block || a >= p :: Rd(mem, a) == Rd(old(mem), a)
    {
      var lead := p - (block + HEADER);
      aligned := block;
      if lead != 0 {
        aligned := p - HEADER;
        mem := mem[aligned := BLOCK_MAGIC];
        mem := mem[block + 4 := lead - HEADER];
        mem := mem[block + 8 := 1];
        mem := mem[block + 12 := aligned];
      }
    }

    /** realloc of a null pointer or of a block in use; a pointer without a header gives 0. */
    method Realloc(ptr: nat, size: nat, ghost i: nat) returns (q: nat)
      requires Valid() && size <= MAX_REQUEST && (ptr == 0 || InUse(ptr, i) || Foreign(ptr))
      modifies this
      ensures Valid()
      ensures ptr == 0 ==> State() == old(HeapChain.Malloc(State(), Need(size), limit).0)
                           && q == old(HeapChain.Malloc(State(), Need(size), limit).1)
      ensures old(InUse(ptr, i)) && size == 0 ==> State() == old(HeapChain.Free(State(), i)) && q == 0
      ensures old(InUse(ptr, i)) && 0 < size <= old(chain)[i].size ==>
                State() == old(State()) && mem == old(mem) && q == ptr
      ensures old(InUse(ptr, i)) && size > old(chain)[i].size ==>
                && q == old(HeapChain.Malloc(State(), Need(size), limit).1)
                && ReallocStep(old(State()), i, Need(size), limit, State())
                && (q != 0 ==> Copied(old(mem), mem, ptr, q, old(chain)[i].size))
      ensures ptr != 0 && !old(InUse(ptr, i)) ==> State() == old(State()) && mem == old(mem) && q == 0
      ensures Kept(old(mem), mem, if old(InUse(ptr, i)) && (q != 0 || size == 0) then Live(old(chain)) - {old(chain[i])}
                                  else Live(old(chain)))
    {
      if ptr == 0 {
        q := Malloc(size);
        return;
      }
      if size == 0 {
        Free(ptr, i);
        return 0;
      }
      if InUse(ptr, i) { HeaderFields(i); }
      NeedFits(size);
      var block := ptr - HEADER;
      q := 0;
      if Rd(mem, block) != BLOCK_MAGIC {
        return;
      }
      var oldSize := Rd(mem, block + 4);
      if oldSize >= size {
        return ptr;
      }
      q := Move(ptr, oldSize, size, i);
    }

    /** The part of realloc that moves a block. */
    method Move(ptr: nat, oldSize: nat, size: nat, ghost i: nat) returns (q: nat)
      requires Valid() && size <= MAX_REQUEST && InUse(ptr, i) && oldSize == chain[i].size < size
      modifies this
      ensures Valid()
      ensures q == old(HeapChain.Malloc(State(), Need(size), limit).1)
      ensures ReallocStep(old(State()), i, Need(size), limit, State())
      ensures q == 0 ==> Kept(old(mem), mem, Live(old(chain)))
      ensures q != 0 ==>
                Copied(old(mem), mem, ptr, q, oldSize) && Kept(old(mem), mem, Live(old(chain)) - {old(chain[i])})
    {
      ghost var b := chain[i];
      NeedFits(size);
      MallocSound(State(), Need(size), limit);
      q := Malloc(size);
      if q == 0 {
        return;
      }
      ghost var new' :| IsNewBlock(old(chain), chain, new') && new'.Payload() == q && new'.size >= Need(size);
      assert b in Live(chain);
      ghost var j :| 0 <= j < |chain| && chain[j] == b;
      ghost var l :| 0 <= l < |chain| && chain[l] == new';
      ghost var m := mem;
      LiveDisjoint(chain, base, brk, b, new');
      CopyInto(q, ptr, oldSize, l);
      assert Copied(m, mem, ptr, q, oldSize);
      ghost var m' := mem;
      FreeSound(State(), j);
      Free(ptr, j);
      assert SameOn(m', mem, new'.Payload(), new'.End());
    }

    /** memcpy into the payload of block `l`. */
    method CopyInto(dst: nat, src: nat, n: nat, ghost l: nat)
      requires Valid() && l < |chain| && dst == chain[l].Payload() && n <= chain[l].size
      requires src + n <= chain[l].addr || chain[l].End() <= src
      modifies this`mem
      ensures Valid() && Copied(old(mem), mem, src, dst, n)
      ensures Kept(old(mem), mem, Live(chain) - {chain[l]})
    {
      var k := 0;
      while k < n
        invariant 0 <= k <= n
        invariant Copied(old(mem), mem, src, dst, k)
        invariant forall a | a < dst || a >= dst + k :: Rd(mem, a) == Rd(old(mem), a)
      {
        ghost var m := mem;
        assert Rd(m, src + k) == Rd(old(mem), src + k);
        mem := mem[dst + k := Rd(mem, src + k)];
        assert forall a | a != dst + k :: Rd(mem, a) == Rd(m, a);
        k := k + 1;
      }
      ghost var b := chain[l];
      assert Header(old(mem), b, NextOf(chain, l, 0));
      assert Header(mem, b, NextOf([b], 0, NextOf(chain, l, 0)));
      EncodesSplice(old(mem), mem, chain, base, brk, l, l + 1, [b]);
      assert Splice(chain, l, l + 1, [b]) == chain;
      KeptOutside(old(mem), mem, chain, base, brk, l);
    }
  }
}
