/** Runs of a client on the memory of the heap: calls of the allocator, and between them stores
    into the payloads the client holds. */
module HeapRun {
  import opened HeapChain
  import opened HeapMemory
  import opened Heap

  datatype Op =
    | DoMalloc(size: nat)
    | DoAligned(size: nat, align: nat)
    | DoFree(ptr: nat)
    | DoRealloc(ptr: nat, size: nat)
    | DoStore(a: nat, v: int)

  /** The arena, its memory, and what owners have last stored where. */
  datatype World = World(h: Arena, m: Memory, stored: map<int, int>)

  /** Block `b` is in use and `ptr` is its payload. */
  ghost predicate UsedAt(h: Arena, ptr: nat, b: Block) {
    b in Live(h.chain) && b.Payload() == ptr
  }

  ghost predicate Used(h: Arena, ptr: nat) {
    exists b :: UsedAt(h, ptr, b)
  }

  ghost predicate Inside(b: Block, a: int) {
    b.Payload() <= a < b.End()
  }

  ghost predicate Owned(h: Arena, a: int) {
    exists b :: b in Live(h.chain) && Inside(b, a)
  }

  /** What a client may do: sizes that do not wrap, pointers it holds, stores into its blocks. */
  ghost predicate Allowed(h: Arena, op: Op) {
    match op
    case DoMalloc(size) => size <= MAX_REQUEST
    case DoAligned(size, align) =>
      size <= MAX_REQUEST && 16 <= align <= 0x10_0000 && align % 8 == 0 && Want(Need(size), align) <= MAX_REQUEST
    case DoFree(ptr) => ptr == 0 || Used(h, ptr)
    case DoRealloc(ptr, size) => size <= MAX_REQUEST && (ptr == 0 || Used(h, ptr))
    case DoStore(a, _) => Owned(h, a)
  }

  /** What a call does to arena and memory, and what it returns. */
  ghost predicate Call(limit: nat, h: Arena, m: Memory, op: Op, p: nat, h': Arena, m': Memory)
    requires WfArena(h) && Allowed(h, op)
  {
    match op
    case DoMalloc(size) =>
      Served(h, h', p, Need(size)) && (p == 0 <==> NoRoom(h, Need(size), limit)) && Kept(m, m', Live(h.chain))
    case DoAligned(size, align) =>
      && Served(h, h', p, Need(size)) && p % align == 0 && Kept(m, m', Live(h.chain))
      && (p == 0 <==> NoRoom(h, Need(size) + 2 * align + 56, limit))
    case DoFree(ptr) => if ptr == 0 then h' == h && m' == m else exists b :: Freed(h, m, ptr, b, h', m')
    case DoRealloc(ptr, size) =>
      if ptr == 0 then
        Served(h, h', p, Need(size)) && (p == 0 <==> NoRoom(h, Need(size), limit)) && Kept(m, m', Live(h.chain))
      else if size == 0 then p == 0 && exists b :: Freed(h, m, ptr, b, h', m')
      else exists b :: Resized(limit, h, m, ptr, b, size, p, h', m')
    case DoStore(a, v) => h' == h && m' == m[a := v]
  }

  ghost predicate Freed(h: Arena, m: Memory, ptr: nat, b: Block, h': Arena, m': Memory) {
    && UsedAt(h, ptr, b) && WfArena(h') && NoFreeNeighbours(h'.chain)
    && Live(h'.chain) == Live(h.chain) - {b} && Kept(m, m', Live(h'.chain))
  }

  /** A block large enough stays, without room for a new one nothing changes, and else the block moves
      with what it holds. */
  ghost predicate Resized(limit: nat, h: Arena, m: Memory, ptr: nat, b: Block, size: nat, p: nat, h': Arena, m': Memory)
    requires size <= MAX_REQUEST
  {
    && UsedAt(h, ptr, b)
    && (if size <= b.size then p == ptr && h' == h && m' == m
        else if NoRoom(h, Need(size), limit) then p == 0 && h' == h && Kept(m, m', Live(h.chain))
        else p != 0 && exists d :: Moved(h, m, ptr, b, size, p, d, h', m'))
  }

  ghost predicate Moved(h: Arena, m: Memory, ptr: nat, b: Block, size: nat, p: nat, d: Block, h': Arena, m': Memory) {
    && WfArena(h') && d !in Live(h.chain) && UsedAt(h', p, d) && d.size >= size
    && Live(h'.chain) == Live(h.chain) - {b} + {d}
    && Kept(m, m', Live(h.chain) - {b}) && Copied(m, m', ptr, p, b.size)
  }

  // ----- the heap does this -----

  /** One call on the heap, or one store by the client. */
  method Perform(heap: Heap, op: Op) returns (p: nat)
    requires heap.Valid() && Allowed(heap.State(), op)
    modifies heap
    ensures heap.Valid()
    ensures Call(heap.limit, old(heap.State()), old(heap.mem), op, p, heap.State(), heap.mem)
  {
    hide Tiles, Encodes, Live, Kept, NoRoom, NoFreeNeighbours, HeapChain.Malloc, HeapChain.MallocAligned,
         HeapChain.Free, ReallocStep, Copied;
    p := 0;
    match op
    case DoMalloc(size) =>
      NeedFits(size);
      MallocSound(heap.State(), Need(size), heap.limit);
      MallocRefusesIff(heap.State(), Need(size), heap.limit);
      p := heap.Malloc(size);
    case DoAligned(size, align) =>
      NeedFits(size);
      MallocAlignedSound(heap.State(), Need(size), align, heap.limit);
      MallocAlignedRefusesIff(heap.State(), Need(size), align, heap.limit);
      p := heap.MallocAligned(size, align);
    case DoFree(ptr) =>
      PerformFree(heap, ptr);
    case DoRealloc(ptr, size) =>
      p := PerformRealloc(heap, ptr, size);
    case DoStore(a, v) =>
      StoreKeepsHeaders(heap.mem, heap.State(), a, v);
      heap.mem := heap.mem[a := v];
  }

  method PerformFree(heap: Heap, ptr: nat)
    requires heap.Valid() && (ptr == 0 || Used(heap.State(), ptr))
    modifies heap
    ensures heap.Valid()
    ensures ptr == 0 ==> heap.State() == old(heap.State()) && heap.mem == old(heap.mem)
    ensures ptr != 0 ==> exists b :: Freed(old(heap.State()), old(heap.mem), ptr, b, heap.State(), heap.mem)
  {
    hide Tiles, Encodes, Kept, NoFreeNeighbours, HeapChain.Free;
    ghost var i := 0;
    if ptr != 0 {
      ghost var b :| UsedAt(heap.State(), ptr, b);
      i :| 0 <= i < |heap.chain| && heap.chain[i] == b;
      FreeSound(heap.State(), i);
    }
    heap.Free(ptr, i);
    if ptr != 0 {
      assert Freed(old(heap.State()), old(heap.mem), ptr, old(heap.chain)[i], heap.State(), heap.mem);
    }
  }

  method PerformRealloc(heap: Heap, ptr: nat, size: nat) returns (p: nat)
    requires heap.Valid() && size <= MAX_REQUEST && (ptr == 0 || Used(heap.State(), ptr))
    modifies heap
    ensures heap.Valid()
    ensures Call(heap.limit, old(heap.State()), old(heap.mem), Op.DoRealloc(ptr, size), p, heap.State(), heap.mem)
  {
    hide Tiles, Encodes, Kept, Copied, NoRoom, NoFreeNeighbours, HeapChain.Free, HeapChain.Malloc;
    NeedFits(size);
    MallocSound(heap.State(), Need(size), heap.limit);
    MallocRefusesIff(heap.State(), Need(size), heap.limit);
    ghost var i := 0;
    if ptr != 0 {
      ghost var b :| UsedAt(heap.State(), ptr, b);
      i :| 0 <= i < |heap.chain| && heap.chain[i] == b;
      if size == 0 { FreeSound(heap.State(), i); }
    }
    p := heap.Realloc(ptr, size, i);
    if ptr != 0 {
      ghost var b := old(heap.chain)[i];
      if size == 0 {
        assert Freed(old(heap.State()), old(heap.mem), ptr, b, heap.State(), heap.mem);
      } else {
        if size > b.size && p != 0 {
          MovedBlock(old(heap.State()), old(heap.mem), i, size, heap.limit, p, heap.State(), heap.mem);
        }
        assert Resized(heap.limit, old(heap.State()), old(heap.mem), ptr, b, size, p, heap.State(), heap.mem);
      }
    }
  }

  lemma MovedBlock(h: Arena, m: Memory, i: nat, size: nat, limit: nat, p: nat, h': Arena, m': Memory)
    requires WfArena(h) && i < |h.chain| && !h.chain[i].free && limit < WORD_RANGE
    requires h.chain[i].size < size <= MAX_REQUEST && p != 0 && p == HeapChain.Malloc(h, Need(size), limit).1
    requires ReallocStep(h, i, Need(size), limit, h')
    requires Kept(m, m', Live(h.chain) - {h.chain[i]}) && Copied(m, m', h.chain[i].Payload(), p, h.chain[i].size)
    ensures exists d :: Moved(h, m, h.chain[i].Payload(), h.chain[i], size, p, d, h', m')
  {
    hide Tiles, Kept, Copied, NoFreeNeighbours, HeapChain.Free, HeapChain.Malloc;
    NeedFits(size);
    var b := h.chain[i];
    var (g, _) := HeapChain.Malloc(h, Need(size), limit);
    MallocSound(h, Need(size), limit);
    var d :| IsNewBlock(h.chain, g.chain, d) && d.Payload() == p && d.size >= Need(size);
    var j :| 0 <= j < |g.chain| && g.chain[j] == b && h' == HeapChain.Free(g, j);
    FreeSound(g, j);
    assert b in Live(h.chain);
    assert Live(h'.chain) == Live(h.chain) - {b} + {d};
    assert Moved(h, m, b.Payload(), b, size, p, d, h', m');
  }

  lemma SameChain(c: Chain, l: nat)
    requires l < |c|
    ensures Splice(c, l, l + 1, [c[l]]) == c
  {
  }

  lemma StoreKeepsHeaders(m: Memory, h: Arena, a: nat, v: int)
    requires WfArena(h) && Encodes(m, h.chain, 0) && Owned(h, a)
    ensures Encodes(m[a := v], h.chain, 0)
  {
    var b :| b in Live(h.chain) && Inside(b, a);
    var l :| 0 <= l < |h.chain| && h.chain[l] == b;
    var m' := m[a := v];
    assert Header(m, b, NextOf(h.chain, l, 0));
    hide Tiles, Live, Encodes;
    SameChain(h.chain, l);
    OneEncodes(m', b, NextOf(h.chain, l, 0));
    EncodesSplice(m, m', h.chain, h.base, h.brk, l, l + 1, [b]);
  }

  // ----- what owners have stored -----

  ghost function Without(stored: map<int, int>, lo: nat, n: nat): map<int, int> {
    map a | a in stored && !(lo <= a < lo + n) :: stored[a]
  }

  /** Stores are remembered, forgotten when the block goes, and move with the block. */
  ghost function Remember(h: Arena, op: Op, p: nat, stored: map<int, int>): map<int, int>
    requires Allowed(h, op)
  {
    match op
    case DoStore(a, v) => stored[a := v]
    case DoFree(ptr) =>
      if ptr == 0 then stored else (var b :| UsedAt(h, ptr, b); Without(stored, ptr, b.size))
    case DoRealloc(ptr, size) =>
      if ptr == 0 then stored
      else
        (var b :| UsedAt(h, ptr, b);
         if size == 0 then Without(stored, ptr, b.size)
         else if size <= b.size || p == 0 then stored
         else Without(stored, ptr, b.size) + Shifted(stored, ptr, p, b.size))
    case _ => stored
  }

  ghost function Origin(a: int, from: nat, to: nat): int {
    a - to + from
  }

  ghost function Shifted(stored: map<int, int>, from: nat, to: nat, n: nat): map<int, int> {
    map a | to <= a < to + n && Origin(a, from, to) in stored :: stored[Origin(a, from, to)]
  }

  /** Every cell an owner has stored to lies in a block in use and holds what was stored. */
  ghost predicate Inv(w: World) {
    WfArena(w.h) && forall a | a in w.stored :: Owned(w.h, a) && Rd(w.m, a) == w.stored[a]
  }

  lemma OnePointer(h: Arena, b: Block, d: Block, ptr: nat)
    requires WfArena(h) && UsedAt(h, ptr, b) && UsedAt(h, ptr, d)
    ensures b == d
  {
    if b != d { LiveDisjoint(h.chain, h.base, h.brk, b, d); }
  }

  /** Where all the blocks in use but `gone` stay in use and keep their bytes, so do the cells
      stored outside `gone`. */
  lemma CellsStay(h: Arena, m: Memory, h': Arena, m': Memory, gone: set<Block>, stored: map<int, int>,
                  kept: map<int, int>)
    requires Inv(World(h, m, stored)) && WfArena(h')
    requires Live(h.chain) - gone <= Live(h'.chain) && Kept(m, m', Live(h.chain) - gone)
    requires forall a | a in kept :: a in stored && kept[a] == stored[a] && forall b | b in gone :: !Inside(b, a)
    ensures Inv(World(h', m', kept))
  {
    hide Tiles, Live;
    forall a | a in kept
      ensures Owned(h', a) && Rd(m', a) == kept[a]
    {
      var b :| b in Live(h.chain) && Inside(b, a);
      assert b in Live(h.chain) - gone;
      assert b in Live(h'.chain) && Inside(b, a);
      assert SameOn(m, m', b.Payload(), b.End());
    }
  }

  ghost predicate Next(limit: nat, w: World, op: Op, p: nat, w': World) {
    WfArena(w.h) ==>
      && Allowed(w.h, op) && Call(limit, w.h, w.m, op, p, w'.h, w'.m)
      && w'.stored == Remember(w.h, op, p, w.stored)
  }

  lemma FreeKeeps(w: World, ptr: nat, b: Block, c: Block, w': World)
    requires Inv(w) && UsedAt(w.h, ptr, b) && Freed(w.h, w.m, ptr, c, w'.h, w'.m)
    requires w'.stored == Without(w.stored, ptr, b.size)
    ensures Inv(w')
  {
    hide Tiles, Live, Kept;
    OnePointer(w.h, b, c, ptr);
    CellsStay(w.h, w.m, w'.h, w'.m, {b}, w.stored, w'.stored);
  }

  /** The cells that moved. */
  lemma CellsMove(w: World, ptr: nat, b: Block, p: nat, d: Block, h': Arena, m': Memory)
    requires Inv(w) && WfArena(h') && UsedAt(h', p, d) && b.size <= d.size && Copied(w.m, m', ptr, p, b.size)
    ensures Inv(World(h', m', Shifted(w.stored, ptr, p, b.size)))
  {
    hide Tiles, Live;
    var move := Shifted(w.stored, ptr, p, b.size);
    forall a | a in move
      ensures Owned(h', a) && Rd(m', a) == move[a]
    {
      assert Inside(d, a);
      assert Rd(m', a) == Rd(w.m, Origin(a, ptr, p));
    }
  }

  lemma MoveKeeps(w: World, ptr: nat, b: Block, size: nat, p: nat, d: Block, w': World)
    requires Inv(w) && UsedAt(w.h, ptr, b) && b.size < size && Moved(w.h, w.m, ptr, b, size, p, d, w'.h, w'.m)
    requires w'.stored == Without(w.stored, ptr, b.size) + Shifted(w.stored, ptr, p, b.size)
    ensures Inv(w')
  {
    assert Live(w.h.chain) - {b} <= Live(w'.h.chain);
    hide Tiles, Live, Kept, Copied, Shifted;
    CellsStay(w.h, w.m, w'.h, w'.m, {b}, w.stored, Without(w.stored, ptr, b.size));
    CellsMove(w, ptr, b, p, d, w'.h, w'.m);
  }

  lemma StepKeeps(limit: nat, w: World, op: Op, p: nat, w': World)
    requires Inv(w) && Next(limit, w, op, p, w')
    ensures Inv(w')
  {
    hide Tiles, Live, Kept, Without, Shifted;
    var L := Live(w.h.chain);
    match op
    case DoStore(a, v) =>
    case DoFree(ptr) =>
      if ptr != 0 {
        var b :| UsedAt(w.h, ptr, b) && w'.stored == Without(w.stored, ptr, b.size);
        var c :| Freed(w.h, w.m, ptr, c, w'.h, w'.m);
        FreeKeeps(w, ptr, b, c, w');
      }
    case DoRealloc(ptr, size) =>
      if ptr == 0 {
        ServedKeeps(w, w'.h, w'.m, p, Need(size));
      } else {
        ReallocKeeps(limit, w, ptr, size, p, w');
      }
    case DoMalloc(size) =>
      ServedKeeps(w, w'.h, w'.m, p, Need(size));
    case DoAligned(size, align) =>
      ServedKeeps(w, w'.h, w'.m, p, Need(size));
  }

  lemma ServedKeeps(w: World, h': Arena, m': Memory, p: nat, n: nat)
    requires Inv(w) && Served(w.h, h', p, n) && Kept(w.m, m', Live(w.h.chain))
    ensures Inv(World(h', m', w.stored))
  {
    hide Tiles, Live, Kept;
    assert Live(w.h.chain) - {} == Live(w.h.chain);
    CellsStay(w.h, w.m, h', m', {}, w.stored, w.stored);
  }

  lemma ReallocKeeps(limit: nat, w: World, ptr: nat, size: nat, p: nat, w': World)
    requires Inv(w) && ptr != 0 && Next(limit, w, Op.DoRealloc(ptr, size), p, w')
    ensures Inv(w')
  {
    hide Tiles, Live, Kept, Copied, Without, Shifted;
    var b :| && UsedAt(w.h, ptr, b)
             && w'.stored == (if size == 0 then Without(w.stored, ptr, b.size)
                              else if size <= b.size || p == 0 then w.stored
                              else Without(w.stored, ptr, b.size) + Shifted(w.stored, ptr, p, b.size));
    if size == 0 {
      var c :| Freed(w.h, w.m, ptr, c, w'.h, w'.m);
      FreeKeeps(w, ptr, b, c, w');
    } else {
      var c :| Resized(limit, w.h, w.m, ptr, c, size, p, w'.h, w'.m);
      OnePointer(w.h, b, c, ptr);
      if size > b.size {
        if p == 0 {
          assert Live(w.h.chain) - {} == Live(w.h.chain);
          CellsStay(w.h, w.m, w'.h, w'.m, {}, w.stored, w.stored);
        } else {
          var d :| Moved(w.h, w.m, ptr, b, size, p, d, w'.h, w'.m);
          MoveKeeps(w, ptr, b, size, p, d, w');
        }
      }
    }
  }

  /** `ws` are the worlds before, between and after the operations, from the empty heap on. */
  ghost predicate IsRun(ws: seq<World>, ops: seq<Op>, ps: seq<nat>, limit: nat) {
    && |ws| == |ops| + 1 == |ps| + 1
    && WfArena(ws[0].h) && ws[0].h.chain == [] && ws[0].stored == map[]
    && forall k | 0 <= k < |ops| :: Next(limit, ws[k], ops[k], ps[k], ws[k + 1])
  }

  /** In every state of every run each block in use holds what its owner last stored into it:
      through every other call, and through moves of the block itself. */
  lemma {:induction false} OwnersFindWhatTheyStored(ws: seq<World>, ops: seq<Op>, ps: seq<nat>, limit: nat, k: nat)
    requires IsRun(ws, ops, ps, limit) && k < |ws|
    ensures Inv(ws[k])
  {
    if k > 0 {
      OwnersFindWhatTheyStored(ws, ops, ps, limit, k - 1);
      hide Inv;
      assert Next(limit, ws[k - 1], ops[k - 1], ps[k - 1], ws[k]);
      StepKeeps(limit, ws[k - 1], ops[k - 1], ps[k - 1], ws[k]);
    }
  }
}
