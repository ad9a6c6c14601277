/** The life of a process with static TLS: modules come and go, threads start, and every thread
    stores into its own variables. */
module TlsRun {
  import opened Common
  import opened Alignment
  import opened TlsLayout
  import opened TlsStatic

  datatype Event =
    | Open(image: seq<Byte>, memsz: nat, align: nat)
    | Close(off: nat)
    | Start(p: nat)
    | Put(k: nat, m: Module, u: nat, v: Byte)

  /** A byte of a variable: thread, module id, offset in the module. */
  type Variable = (nat, nat, nat)

  /** The layout and the blocks, the id that was next when each block was made, and what the
      threads have last stored where. */
  datatype World = World(l: Layout, blocks: seq<Block>, born: seq<nat>, stored: map<Variable, Byte>)

  /** A thread stores into a live module; a module's file is not larger than its slice. */
  ghost predicate Allowed(l: Layout, bs: seq<Block>, e: Event) {
    match e
    case Open(image, memsz, _) => |image| <= memsz
    case Put(k, m, u, _) => k < |bs| && m in l.mods && u < m.memsz
    case _ => true
  }

  ghost predicate Sized(l: Layout, bs: seq<Block>) {
    forall k | 0 <= k < |bs| :: bs[k].total == |bs[k].bytes| == l.total
  }

  /** What an event does to layout and blocks. */
  ghost predicate Happens(l: Layout, bs: seq<Block>, e: Event, l': Layout, bs': seq<Block>)
    requires WfLayout(l) && Sized(l, bs) && Allowed(l, bs, e)
  {
    match e
    case Open(image, memsz, align) =>
      var (want, off) := Add(l, image, memsz, align);
      l' == want && if off < 0 then bs' == bs
                    else AllPatched(bs, off, Fresh(Module(l.nextId, off, image, memsz, align)), bs')
    case Close(off) => l' == Drop(l, off) && bs' == bs
    case Start(p) => l' == l && if l.total == 0 || p == 0 then bs' == bs else exists tp :: NewBlock(l, bs, tp, bs')
    case Put(k, m, u, v) =>
      && l' == l && m.off + u < l.total
      && bs' == bs[k := Stored(bs[k], m.off + u, v)]
  }

  // ----- the runtime does this -----

  lemma LiveInside(l: Layout, m: Module)
    requires WfLayout(l) && m in l.mods
    ensures m.End() <= l.total && 1 <= m.id < l.nextId && |m.image| <= m.memsz
    ensures m.End() <= l.used || l.spare <= m.off
  {
    hide AlignedAt;
    var i :| 0 <= i < |l.mods| && l.mods[i] == m;
    assert Placed(l, l.mods[i]);
  }

  method Perform(t: Tls, e: Event)
    requires t.Valid() && Allowed(t.State(), t.blocks, e)
    modifies t
    ensures t.Valid()
    ensures Happens(old(t.State()), old(t.blocks), e, t.State(), t.blocks)
  {
    hide WfLayout, Add, Drop, AllPatched, Fresh, NewBlock;
    match e
    case Open(image, memsz, align) =>
      var off := t.ModuleAdd(image, memsz, align);
    case Close(off) =>
      t.ModuleDrop(off);
    case Start(p) =>
      var tp := t.BlockNew(p);
    case Put(k, m, u, v) =>
      LiveInside(t.State(), m);
      t.Store(k, m.off + u, v);
  }

  // ----- what the threads find in their variables -----

  ghost function Births(l: Layout, bs: seq<Block>, born: seq<nat>, bs': seq<Block>): seq<nat> {
    if |bs'| > |bs| then born + [l.nextId] else born
  }

  ghost function Record(stored: map<Variable, Byte>, e: Event): map<Variable, Byte> {
    if e.Put? then stored[(e.k, e.m.id, e.u) := e.v] else stored
  }

  ghost predicate Next(w: World, e: Event, w': World) {
    WfLayout(w.l) && Sized(w.l, w.blocks) ==>
      && Allowed(w.l, w.blocks, e) && Happens(w.l, w.blocks, e, w'.l, w'.blocks)
      && w'.born == Births(w.l, w.blocks, w.born, w'.blocks) && w'.stored == Record(w.stored, e)
  }

  /** Before its thread stores to it a variable holds its initial value, unless its module came
      after its thread and the thread is not among the registered ones: then it holds zero. */
  ghost function Initial(k: nat, born: nat, m: Module, u: nat): Byte {
    if k < MAX_BLOCKS || m.id < born then FreshByte(m, u) else 0
  }

  ghost function Value(w: World, k: nat, m: Module, u: nat): Byte
    requires k < |w.born|
  {
    if (k, m.id, u) in w.stored then w.stored[(k, m.id, u)] else Initial(k, w.born[k], m, u)
  }

  ghost predicate HasValue(w: World, k: nat, b: seq<Byte>, m: Module, u: nat)
    requires k < |w.born|
  {
    m.off + u < |b| && b[m.off + u] == Value(w, k, m, u)
  }

  /** Block `b` of thread `k` holds every variable's value, and zeros where no module has been. */
  ghost predicate Agrees(w: World, k: nat, b: seq<Byte>)
    requires k < |w.born|
  {
    && |b| == w.l.total
    && (forall m, u: nat | m in w.l.mods && u < m.memsz :: HasValue(w, k, b, m, u))
    && (forall a | w.l.used <= a < w.l.spare && a < |b| :: b[a] == 0)
  }

  ghost predicate Inv(w: World) {
    && WfLayout(w.l) && w.l.nextId >= 1 && Sized(w.l, w.blocks) && |w.born| == |w.blocks|
    && (forall k | 0 <= k < |w.blocks| :: Agrees(w, k, w.blocks[k].bytes) && w.born[k] <= w.l.nextId)
    && (forall v: Variable | v in w.stored :: v.0 < |w.blocks| && v.1 < w.l.nextId)
  }

  /** Two modules with one id are one module. */
  lemma OneId(l: Layout, m: Module, n: Module)
    requires WfLayout(l) && m in l.mods && n in l.mods && m.id == n.id
    ensures m == n
  {
    hide Placed;
    var i :| 0 <= i < |l.mods| && l.mods[i] == m;
    var j :| 0 <= j < |l.mods| && l.mods[j] == n;
  }

  /** Two live bytes at one offset are one byte. */
  lemma OnePlace(l: Layout, m: Module, u: nat, n: Module, v: nat)
    requires WfLayout(l) && m in l.mods && n in l.mods && u < m.memsz && v < n.memsz && m.off + u == n.off + v
    ensures m == n && u == v
  {
    hide Placed;
    var i :| 0 <= i < |l.mods| && l.mods[i] == m;
    var j :| 0 <= j < |l.mods| && l.mods[j] == n;
  }

  // ----- one event -----

  lemma PutKeeps(w: World, e: Event, w': World)
    requires Inv(w) && e.Put? && Next(w, e, w')
    ensures Inv(w')
  {
    hide WfLayout, Initial;
    LiveInside(w.l, e.m);
    forall k | 0 <= k < |w'.blocks|
      ensures Agrees(w', k, w'.blocks[k].bytes)
    {
      var b, b' := w.blocks[k].bytes, w'.blocks[k].bytes;
      assert Agrees(w, k, b);
      forall m, u: nat | m in w'.l.mods && u < m.memsz
        ensures HasValue(w', k, b', m, u)
      {
        assert HasValue(w, k, b, m, u);
        if k == e.k {
          if m.off + u == e.m.off + e.u { OnePlace(w.l, m, u, e.m, e.u); }
          if m.id == e.m.id { OneId(w.l, m, e.m); }
        }
      }
    }
  }

  lemma CloseKeeps(w: World, e: Event, w': World)
    requires Inv(w) && e.Close? && Next(w, e, w')
    ensures Inv(w')
  {
    hide WfLayout, Initial, FindOff, Remove;
    DropWf(w.l, e.off);
    forall k | 0 <= k < |w'.blocks|
      ensures Agrees(w', k, w'.blocks[k].bytes)
    {
      SameValues(w, w', k, w.blocks[k].bytes);
    }
  }

  /** A block that agrees still does with fewer modules. */
  lemma SameValues(w: World, w': World, k: nat, b: seq<Byte>)
    requires k < |w.born| && k < |w'.born| && w'.born[k] == w.born[k] && w'.stored == w.stored && Agrees(w, k, b)
    requires w'.l.total == w.l.total && w'.l.used == w.l.used && w'.l.spare == w.l.spare
    requires forall m | m in w'.l.mods :: m in w.l.mods
    ensures Agrees(w', k, b)
  {
    forall m, u: nat | m in w'.l.mods && u < m.memsz
      ensures HasValue(w', k, b, m, u)
    {
      assert HasValue(w, k, b, m, u);
    }
  }

  lemma StartKeeps(w: World, e: Event, w': World)
    requires Inv(w) && e.Start? && Next(w, e, w')
    ensures Inv(w')
  {
    hide WfLayout, Initial;
    if |w'.blocks| > |w.blocks| {
      var n := |w.blocks|;
      var tp :| NewBlock(w.l, w.blocks, tp, w'.blocks);
      hide Built;
      forall k | 0 <= k < n
        ensures Agrees(w', k, w'.blocks[k].bytes) && w'.blocks[k] == w.blocks[k]
      {
        assert w'.blocks[..n][k] == w'.blocks[k];
        SameValues(w, w', k, w.blocks[k].bytes);
      }
      NewBlockAgrees(w, w', w'.blocks[n].bytes);
    }
  }

  lemma NewBlockAgrees(w: World, w': World, b: seq<Byte>)
    requires Inv(w) && Built(w.l, b) && w'.l == w.l && w'.stored == w.stored && w'.born == w.born + [w.l.nextId]
    ensures Agrees(w', |w.born|, b)
  {
    hide WfLayout, Fresh;
    var k := |w.born|;
    forall m, u: nat | m in w.l.mods && u < m.memsz
      ensures HasValue(w', k, b, m, u)
    {
      LiveInside(w.l, m);
      SliceIsFresh(b, m);
      assert b[m.off + u] == FreshByte(m, u);
    }
    forall a | w.l.used <= a < w.l.spare && a < |b|
      ensures b[a] == 0
    {
      forall m | m in w.l.mods
        ensures !(m.off <= a < m.End())
      {
        LiveInside(w.l, m);
      }
    }
  }

  /** A new slice begins where the room handed out before ends, or behind, and ends where that
      handed out now ends. */
  lemma AddUsed(l: Layout, image: seq<Byte>, memsz: nat, align: nat)
    requires Add(l, image, memsz, align).1 >= 0
    ensures var (l', off) := Add(l, image, memsz, align); l.used <= off && l'.used == off + memsz
  {
    hide EffAlign, AlignUp;
    AlignUpBounds(l.used, EffAlign(align));
  }

  /** A byte after an add: that of the new slice in a registered block, or the one before. */
  lemma PatchedAt(bs: seq<Block>, n: Module, bs': seq<Block>, k: nat, a: nat)
    requires |n.image| <= n.memsz && AllPatched(bs, n.off, Fresh(n), bs') && k < |bs| && a < |bs[k].bytes|
    ensures |bs'[k].bytes| == |bs[k].bytes|
    ensures bs'[k].bytes[a]
         == if k < MAX_BLOCKS && n.off <= a < n.End() then FreshByte(n, a - n.off) else bs[k].bytes[a]
  {
    if k < MAX_BLOCKS {
      FreshLength(n);
      OverwriteAt(bs[k].bytes, n.off, Fresh(n), a);
    }
  }

  /** `n` is new in `w'`, in room that was not handed out in `w`. */
  ghost predicate Opened(w: World, n: Module, w': World) {
    && |n.image| <= n.memsz && n.id == w.l.nextId && w.l.used <= n.off && n.End() <= w.l.spare <= w.l.total
    && w'.l == w.l.(used := n.End(), nextId := w.l.nextId + 1, mods := w.l.mods + [n])
    && AllPatched(w.blocks, n.off, Fresh(n), w'.blocks) && w'.born == w.born && w'.stored == w.stored
  }

  /** No byte of another live module lies in the new slice. */
  lemma OtherOutside(w: World, n: Module, m: Module, u: nat)
    requires WfLayout(w.l) && m in w.l.mods && u < m.memsz && w.l.used <= n.off && n.End() <= w.l.spare
    ensures !(n.off <= m.off + u < n.End())
  {
    hide WfLayout;
    LiveInside(w.l, m);
  }

  lemma NewValue(w: World, n: Module, w': World, k: nat, u: nat)
    requires Inv(w) && Opened(w, n, w') && k < |w.blocks| && u < n.memsz
    ensures HasValue(w', k, w'.blocks[k].bytes, n, u)
  {
    hide WfLayout, AllPatched, Fresh;
    assert Agrees(w, k, w.blocks[k].bytes);
    PatchedAt(w.blocks, n, w'.blocks, k, n.off + u);
    assert (k, n.id, u) !in w.stored;
  }

  lemma OldValue(w: World, n: Module, w': World, k: nat, m: Module, u: nat)
    requires Inv(w) && Opened(w, n, w') && k < |w.blocks| && m in w.l.mods && u < m.memsz
    ensures HasValue(w', k, w'.blocks[k].bytes, m, u)
  {
    hide WfLayout, AllPatched, Fresh, Initial;
    assert Agrees(w, k, w.blocks[k].bytes);
    assert HasValue(w, k, w.blocks[k].bytes, m, u);
    OtherOutside(w, n, m, u);
    PatchedAt(w.blocks, n, w'.blocks, k, m.off + u);
  }

  lemma OpenAgrees(w: World, n: Module, w': World, k: nat)
    requires Inv(w) && Opened(w, n, w') && k < |w.blocks|
    ensures |w'.blocks| == |w.blocks| && w'.blocks[k].total == w.blocks[k].total && Agrees(w', k, w'.blocks[k].bytes)
  {
    assert Agrees(w, k, w.blocks[k].bytes);
    hide WfLayout, Fresh, HasValue, Overwrite;
    var b' := w'.blocks[k].bytes;
    forall m, u: nat | m in w'.l.mods && u < m.memsz
      ensures HasValue(w', k, b', m, u)
    {
      if m == n { NewValue(w, n, w', k, u); } else { OldValue(w, n, w', k, m, u); }
    }
    forall a | w'.l.used <= a < w'.l.spare && a < |b'|
      ensures b'[a] == 0
    {
      PatchedAt(w.blocks, n, w'.blocks, k, a);
    }
  }

  lemma OpenKeeps(w: World, e: Event, w': World)
    requires Inv(w) && e.Open? && Next(w, e, w')
    ensures Inv(w')
  {
    var (l', off) := Add(w.l, e.image, e.memsz, e.align);
    AddWf(w.l, e.image, e.memsz, e.align);
    if off >= 0 {
      AddUsed(w.l, e.image, e.memsz, e.align);
      var n := Module(w.l.nextId, off, e.image, e.memsz, e.align);
      assert w.l.spare <= w.l.total;
      hide WfLayout, Add, Fresh, Agrees;
      assert |w'.blocks| == |w.blocks|;
      assert Opened(w, n, w');
      hide AllPatched;
      forall k | 0 <= k < |w'.blocks|
        ensures w'.blocks[k].total == |w'.blocks[k].bytes| == l'.total && Agrees(w', k, w'.blocks[k].bytes)
      {
        OpenAgrees(w, n, w', k);
      }
    }
  }

  // ----- whole lives -----

  lemma StepKeeps(w: World, e: Event, w': World)
    requires Inv(w) && Next(w, e, w')
    ensures Inv(w')
  {
    hide Inv, Next;
    match e
    case Open(_, _, _) => OpenKeeps(w, e, w');
    case Close(_) => CloseKeeps(w, e, w');
    case Start(_) => StartKeeps(w, e, w');
    case Put(_, _, _, _) => PutKeeps(w, e, w');
  }

  /** From the layout that the loader publishes, before the first block. */
  ghost predicate IsLife(ws: seq<World>, es: seq<Event>) {
    && |ws| == |es| + 1
    && WfLayout(ws[0].l) && ws[0].l.nextId >= 1
    && ws[0].blocks == [] && ws[0].born == [] && ws[0].stored == map[]
    && forall i | 0 <= i < |es| :: Next(ws[i], es[i], ws[i + 1])
  }

  lemma {:induction false} LifeInv(ws: seq<World>, es: seq<Event>, i: nat)
    requires IsLife(ws, es) && i < |ws|
    ensures Inv(ws[i])
  {
    if i > 0 {
      LifeInv(ws, es, i - 1);
      hide Inv;
      assert Next(ws[i - 1], es[i - 1], ws[i]);
      StepKeeps(ws[i - 1], es[i - 1], ws[i]);
    }
  }

  /** In every state of every process each byte of each thread's variables holds what that thread
      last stored there, whatever other threads store and whatever modules come and go, and its
      initial value before. */
  lemma ThreadsFindWhatTheyStored(ws: seq<World>, es: seq<Event>, i: nat, k: nat, m: Module, u: nat)
    requires IsLife(ws, es) && i < |ws| && k < |ws[i].blocks| && m in ws[i].l.mods && u < m.memsz
    ensures var w, b := ws[i], ws[i].blocks[k].bytes;
            && m.off + u < |b| && k < |w.born|
            && ((k, m.id, u) in w.stored ==> b[m.off + u] == w.stored[(k, m.id, u)])
            && ((k, m.id, u) !in w.stored ==>
                  (b[m.off + u] == FreshByte(m, u) <==> k < MAX_BLOCKS || m.id < w.born[k] || FreshByte(m, u) == 0))
  {
    LifeInv(ws, es, i);
    var w := ws[i];
    hide WfLayout;
    assert Agrees(w, k, w.blocks[k].bytes);
    assert HasValue(w, k, w.blocks[k].bytes, m, u);
  }

  // ----- the 129th thread -----

  /** `n` threads and the loader's reserve of 1024 bytes, with no module yet. */
  ghost function Crowd(n: nat): World {
    World(Layout(1024, 1024, 0, 1, []), seq(n, _ => Block(1024, Zeros(1024), 1040)), seq(n, _ => 1), map[])
  }

  ghost function Late(): Module {
    Module(1, 0, [1], 1, 4)
  }

  /** The same after a module of one byte, with initial value 1, was opened. */
  ghost function CrowdWithModule(n: nat): World {
    World(Layout(1024, 1024, 1, 2, [Late()]),
          seq(n, k =>
                Block(1024, if k < MAX_BLOCKS then Overwrite(Zeros(1024), 0, Fresh(Late())) else Zeros(1024), 1040)),
          seq(n, _ => 1), map[])
  }

  lemma CrowdGrows(n: nat)
    ensures Next(Crowd(n), Start(16), Crowd(n + 1))
  {
    var w, w' := Crowd(n), Crowd(n + 1);
    assert Built(w.l, Zeros(1024));
    assert w'.blocks[..n] == w.blocks && w'.born == w.born + [1];
    assert NewBlock(w.l, w.blocks, 1040, w'.blocks);
  }

  lemma CrowdOpens(n: nat)
    ensures Next(Crowd(n), Open([1], 1, 4), CrowdWithModule(n))
  {
    hide Overwrite, Zeros;
    var w, w' := Crowd(n), CrowdWithModule(n);
    assert EffAlign(4) == 4 by { assert IsPowerOfTwo(2); }
    assert AlignUp(0, 4) == 0;
    assert Take(w.l, 1, 4) == (w.l.(used := 1), 0);
    assert w.l.mods + [Late()] == [Late()];
    assert Add(w.l, [1], 1, 4) == (w'.l, 0);
    FreshLength(Late());
    assert AllPatched(w.blocks, 0, Fresh(Late()), w'.blocks);
  }

  /** A process in which the last of 129 threads does not find the initial value of a module
      opened after it started, while the one before it does. */
  lemma ThreadBeyondTheTable() returns (ws: seq<World>, es: seq<Event>)
    ensures IsLife(ws, es) && |ws| == 131 && Late() in ws[130].l.mods && |ws[130].blocks| == 129
    ensures var bs := ws[130].blocks;
            && |bs[127].bytes| == |bs[128].bytes| == 1024
            && bs[127].bytes[0] == 1 == FreshByte(Late(), 0) && bs[128].bytes[0] == 0
  {
    hide Next, Overwrite, Zeros;
    ws := seq(131, i requires 0 <= i => if i < 130 then Crowd(i) else CrowdWithModule(129));
    es := seq(130, i => if i < 129 then Start(16) else Open([1], 1, 4));
    forall i | 0 <= i < 130
      ensures Next(ws[i], es[i], ws[i + 1])
    {
      if i < 129 { CrowdGrows(i); } else { CrowdOpens(129); }
    }
    var w := CrowdWithModule(129);
    assert ws[130] == w && w.l.mods[0] == Late() && |w.blocks| == 129;
    FreshLength(Late());
    OverwriteAt(Zeros(1024), 0, Fresh(Late()), 0);
  }
}
