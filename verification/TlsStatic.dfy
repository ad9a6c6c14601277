/** The static TLS runtime (include/tls_layout.h, src/tls_static.c): the layout changed in
    place, and the thread blocks built from it and patched by it. */
module TlsStatic {
  import opened Common
  import opened Alignment
  import opened TlsLayout

  const MAX_BLOCKS: nat := 128

  /** One thread's block and, behind its end, the first word of the thread control block. */
  datatype Block = Block(total: nat, bytes: seq<Byte>, self: nat)

  function Zeros(n: nat): (z: seq<Byte>)
    ensures |z| == n && forall i | 0 <= i < n :: z[i] == 0
  {
    seq(n, _ => 0)
  }

  /** What a module's slice holds before its thread writes to it. */
  function Fresh(m: Module): seq<Byte>
    requires |m.image| <= m.memsz
  {
    m.image + Zeros(m.memsz - |m.image|)
  }

  function Overwrite(b: seq<Byte>, at: nat, data: seq<Byte>): (r: seq<Byte>)
    requires at + |data| <= |b|
    ensures |r| == |b|
    ensures r[at..at + |data|] == data
    ensures r[..at] == b[..at] && r[at + |data|..] == b[at + |data|..]
  {
    b[..at] + data + b[at + |data|..]
  }

  /** A new block: every module of the layout fresh, everything else zero. */
  ghost predicate Built(l: Layout, b: seq<Byte>) {
    && |b| == l.total
    && (forall m | m in l.mods :: |m.image| <= m.memsz && m.End() <= |b| && b[m.off..m.End()] == Fresh(m))
    && (forall a | 0 <= a < |b| && (forall m | m in l.mods :: !(m.off <= a < m.End())) :: b[a] == 0)
  }

  /** Every live module's slice holds its image followed by zeros. */
  ghost predicate Holds(l: Layout, b: seq<Byte>) {
    forall m | m in l.mods :: |m.image| <= m.memsz && m.End() <= |b| && b[m.off..m.End()] == Fresh(m)
  }

  class Tls {
    var total: nat
    var spare: nat
    var spareUsed: nat
    var nextId: nat
    var mods: seq<Module>
    var blocks: seq<Block>     // of all threads, in order of creation; the first 128 are registered

    function State(): Layout
      reads this
    {
      Layout(total, spare, spareUsed, nextId, mods)
    }

    ghost predicate Valid()
      reads this
    {
      && WfLayout(State()) && nextId >= 1
      && (forall k | 0 <= k < |blocks| :: blocks[k].total == |blocks[k].bytes| == total)
    }

    /** No thread has stored to its variables: every registered block holds every live module as
        its image and zeros. */
    ghost predicate Pristine()
      reads this
    {
      forall k | 0 <= k < |blocks| && k < MAX_BLOCKS :: Holds(State(), blocks[k].bytes)
    }

    /** cact_tls_plan_inline on a table of `nmods` entries. */
    method PlanInline(table: seq<Module>, nmods: nat) returns (r: nat)
      requires nmods <= |table|
      modifies this
      ensures State() == Plan(table[..if nmods < MAX_MODULES then nmods else MAX_MODULES]) && r == total
      ensures blocks == old(blocks)
    {
      var n := if nmods < MAX_MODULES then nmods else MAX_MODULES;
      mods := table[..n];
      total := AssignOffsets();
      ghost var placed := mods;
      var i := 0;
      while i < n
        invariant 0 <= i <= n == |mods| && total == Top(placed) && blocks == old(blocks)
        invariant forall j | 0 <= j < i :: mods[j] == placed[j].(id := j + 1)
        invariant forall j | i <= j < n :: mods[j] == placed[j]
      {
        mods := mods[i := mods[i].(id := i + 1)];
        i := i + 1;
      }
      assert mods == Numbered(placed);
      nextId := n + 1;
      spare, spareUsed := 0, 0;
      r := total;
    }

    /** The offsets, from the last module up to the program's own, which ends at the top. */
    method AssignOffsets() returns (off: nat)
      modifies this`mods
      ensures mods == PlanFrom(old(mods), 0) && off == Top(mods)
    {
      hide AlignUp, EffAlign;
      ghost var given, n := mods, |mods|;
      off := 0;
      var i := |mods|;
      while i > 1
        invariant 0 <= i <= n && (n > 0 ==> i >= 1)
        invariant mods == given[..i] + PlanFrom(given, i) && off == Top(PlanFrom(given, i))
      {
        i := i - 1;
        off := AlignUp(off, EffAlign(mods[i].align));
        mods := mods[i := mods[i].(off := off)];
        off := off + mods[i].memsz;
        assert mods == given[..i] + PlanFrom(given, i);
      }
      if |mods| > 0 {
        off := AlignUp(off, EffAlign(mods[0].align));
        mods := mods[0 := mods[0].(off := off)];
        off := off + mods[0].memsz;
        assert mods == PlanFrom(given, 0);
      }
    }

    /** cact_tls_reserve, once, after the plan. */
    method ReserveSpare(bytes: nat) returns (r: nat)
      requires Valid() && spare == 0 && spareUsed == 0 && blocks == []
      modifies this
      ensures Valid() && State() == old(Reserve(State(), bytes)) && r == total && blocks == []
    {
      ReserveWf(State(), bytes);
      if bytes == 0 {
        return total;
      }
      var d := RoundUp64(bytes);
      var i := 0;
      while i < |mods|
        invariant 0 <= i <= |mods| == |old(mods)| && blocks == []
        invariant total == old(total) && nextId == old(nextId)
        invariant forall j | 0 <= j < i :: mods[j] == Shift(old(mods)[j], d)
        invariant forall j | i <= j < |mods| :: mods[j] == old(mods)[j]
      {
        mods := mods[i := mods[i].(off := mods[i].off + d)];
        i := i + 1;
      }
      spare := d;
      spareUsed := 0;
      total := total + d;
      assert mods == old(Reserve(State(), bytes)).mods;
      return total;
    }

    /** cact_tls_take. */
    method TakeSpare(memsz: nat, align: nat) returns (r: int)
      modifies this`spareUsed
      ensures (State(), r) == old(Take(State(), memsz, align))
    {
      var off := AlignUp(spareUsed, EffAlign(align));
      if off > spare || memsz > spare - off {
        return -1;
      }
      spareUsed := off + memsz;
      return off;
    }

    /** cact_tls_alloc: the memory `p` that malloc returned, or 0, moved up to a multiple of 16. */
    static method Alloc(p: nat) returns (base: nat)
      ensures base % 16 == 0 && (p == 0 <==> base == 0) && (p > 0 ==> p <= base < p + 16)
    {
      if p == 0 {
        return 0;
      }
      base := AlignUp(p, 16);
      AlignUpBounds(p, 16);
    }

    /** cact_tls_block_new: fill a block from the layout and register it.  `p` is the memory
        obtained for it, or 0; the result is the thread pointer, or 0. */
    method BlockNew(p: nat) returns (tp: nat)
      requires Valid()
      modifies this`blocks
      ensures Valid() && (old(Pristine()) ==> Pristine())
      ensures tp == 0 <==> total == 0 || p == 0
      ensures tp == 0 ==> blocks == old(blocks)
      ensures tp != 0 ==> (tp - total) % 16 == 0 && p <= tp - total < p + 16
      ensures tp != 0 ==> NewBlock(State(), old(blocks), tp, blocks)
    {
      if total == 0 {
        return 0;
      }
      var base := Alloc(p);
      if base == 0 {
        return 0;
      }
      var bytes := Fill();
      tp := base + total;
      blocks := blocks + [Block(total, bytes, tp)];
    }

    /** A thread stores into its own block. */
    method Store(k: nat, at: nat, v: Byte)
      requires Valid() && k < |blocks| && at < total
      modifies this`blocks
      ensures Valid() && blocks == old(blocks)[k := Stored(old(blocks)[k], at, v)]
    {
      blocks := blocks[k := Stored(blocks[k], at, v)];
    }

    /** cact_tls_fill. */
    method Fill() returns (bytes: seq<Byte>)
      requires Valid()
      ensures Built(State(), bytes)
    {
      bytes := Zeros(total);
      var i := 0;
      while i < |mods|
        invariant 0 <= i <= |mods| && |bytes| == total
        invariant Built(State().(mods := mods[..i]), bytes)
      {
        bytes := CopyImage(bytes, i);
        i := i + 1;
      }
      assert mods[..i] == mods;
    }

    /** One module's image into a block that already holds those before it. */
    method CopyImage(bytes: seq<Byte>, i: nat) returns (r: seq<Byte>)
      requires WfLayout(State()) && i < |mods| && Built(State().(mods := mods[..i]), bytes)
      ensures Built(State().(mods := mods[..i + 1]), r)
    {
      assert |bytes| == total;
      hide Built, Overwrite, WfLayout;
      var m := mods[i];
      SliceInside(State(), i);
      r := bytes;
      if |m.image| > 0 {
        r := Overwrite(r, m.off, m.image);
      }
      CopyKeepsBuilt(State(), i, bytes, r);
    }

    /** cact_tls_module_add: a slice of the spare room, and the image into the blocks of the
        threads that already run, as far as those are registered. */
    method ModuleAdd(image: seq<Byte>, memsz: nat, align: nat) returns (off: int)
      requires Valid() && |image| <= memsz
      modifies this
      ensures Valid() && (old(Pristine()) ==> Pristine())
      ensures (State(), off) == old(Add(State(), image, memsz, align))
      ensures off < 0 ==> blocks == old(blocks)
      ensures off >= 0 ==>
                && mods[|mods| - 1] == Module(old(nextId), off, image, memsz, align) && off + memsz <= total
                && AllPatched(old(blocks), off, Fresh(mods[|mods| - 1]), blocks)
    {
      hide WfLayout, Holds, Overwrite, Zeros, Add;
      ghost var l := State();
      off := AddToTable(image, memsz, align);
      if off < 0 {
        return;
      }
      PatchBlocks(off, image, memsz);
      assert Fresh(mods[|mods| - 1]) == image + Zeros(memsz - |image|);
      if old(Pristine()) {
        AddKeepsAll(l, State(), old(blocks), blocks);
      }
    }

    /** The new module in the table, if it has room and there is spare room for its slice. */
    method AddToTable(image: seq<Byte>, memsz: nat, align: nat) returns (off: int)
      requires WfLayout(State()) && nextId >= 1 && |image| <= memsz
      modifies this`mods, this`spareUsed, this`nextId
      ensures (State(), off) == old(Add(State(), image, memsz, align)) && WfLayout(State()) && nextId >= 1
      ensures off < 0 ==> State() == old(State())
      ensures off >= 0 ==> mods == old(mods) + [Module(old(nextId), off, image, memsz, align)] && off + memsz <= total
    {
      assert spare <= total;
      hide WfLayout, AlignUp, EffAlign;
      AddWf(State(), image, memsz, align);
      if |mods| >= MAX_MODULES {
        return -1;
      }
      off := TakeSpare(memsz, align);
      if off < 0 {
        return -1;
      }
      mods := mods + [Module(nextId, off, image, memsz, align)];
      nextId := nextId + 1;
    }

    /** The image and its zeros into the slice at `off` of every registered block. */
    method PatchBlocks(off: nat, image: seq<Byte>, memsz: nat)
      requires |image| <= memsz && off + memsz <= total
      requires forall k | 0 <= k < |blocks| :: blocks[k].total == |blocks[k].bytes| == total
      modifies this`blocks
      ensures AllPatched(old(blocks), off, image + Zeros(memsz - |image|), blocks)
    {
      hide Overwrite, Zeros;
      ghost var data := image + Zeros(memsz - |image|);
      var i := 0;
      while i < |blocks| && i < MAX_BLOCKS
        invariant 0 <= i <= |blocks| == |old(blocks)| && i <= MAX_BLOCKS
        invariant forall k | 0 <= k < i :: blocks[k] == Patched(old(blocks)[k], off, data)
        invariant forall k | i <= k < |blocks| :: blocks[k] == old(blocks)[k]
      {
        if blocks[i].total == total {
          blocks := blocks[i := PatchOne(blocks[i], off, image, memsz)];
        }
        i := i + 1;
      }
    }

    /** cact_tls_module_drop: forget the first non-empty module at this offset. */
    method ModuleDrop(off: nat)
      requires Valid()
      modifies this`mods
      ensures Valid() && (old(Pristine()) ==> Pristine()) && State() == old(Drop(State(), off))
    {
      hide WfLayout, Holds, FindOff, Remove;
      DropWf(State(), off);
      forall k | Pristine() && 0 <= k < |blocks| && k < MAX_BLOCKS
        ensures Holds(Drop(State(), off), blocks[k].bytes)
      {
        FewerStillHold(State(), Drop(State(), off), blocks[k].bytes);
      }
      var i := FindByOff(off);
      if i < |mods| {
        ShiftDown(i);
      }
    }

    method FindByOff(off: nat) returns (i: nat)
      ensures i == FindOff(mods, off)
    {
      i := 0;
      while i < |mods|
        invariant 0 <= i <= |mods|
        invariant FindOff(mods, off) == i + FindOff(mods[i..], off)
      {
        if mods[i].off == off && mods[i].memsz > 0 {
          return;
        }
        assert mods[i..][1..] == mods[i + 1..];
        i := i + 1;
      }
    }

    /** Move the entries behind `i` down by one and shorten the table. */
    method ShiftDown(i: nat)
      requires i < |mods|
      modifies this`mods
      ensures mods == Remove(old(mods), i)
    {
      var j := i + 1;
      while j < |mods|
        invariant i + 1 <= j <= |mods| == |old(mods)|
        invariant mods[..j - 1] == old(mods)[..i] + old(mods)[i + 1..j]
        invariant mods[j..] == old(mods)[j..]
      {
        assert old(mods)[i + 1..j + 1] == old(mods)[i + 1..j] + [old(mods)[j]];
        assert mods[j] == old(mods)[j];
        mods := mods[j - 1 := mods[j]];
        j := j + 1;
      }
      mods := mods[..|mods| - 1];
    }

    /** cact_tls_addr. */
    method TlsAddr(id: nat, offset: int, tp: int) returns (a: int)
      ensures a == Resolve(State(), id, offset, tp)
    {
      var i := 0;
      while i < |mods|
        invariant 0 <= i <= |mods|
        invariant FindId(mods, id) == i + FindId(mods[i..], id)
      {
        if mods[i].id == id {
          return (tp + mods[i].off + offset - total) % 0x1_0000_0000;
        }
        assert mods[i..][1..] == mods[i + 1..];
        i := i + 1;
      }
      return 0;
    }
  }

  function Stored(b: Block, at: nat, v: Byte): Block
    requires at < |b.bytes|
  {
    b.(bytes := b.bytes[at := v])
  }

  /** One more block, which holds its own address and every module fresh. */
  ghost predicate NewBlock(l: Layout, bs: seq<Block>, tp: nat, bs': seq<Block>) {
    && |bs'| == |bs| + 1 && bs'[..|bs|] == bs
    && bs'[|bs|].total == l.total && bs'[|bs|].self == tp && Built(l, bs'[|bs|].bytes)
  }

  /** The data laid over every registered block, and the others as they were. */
  ghost predicate AllPatched(bs: seq<Block>, off: nat, data: seq<Byte>, bs': seq<Block>) {
    && |bs'| == |bs|
    && (forall k | 0 <= k < |bs| && k < MAX_BLOCKS ::
          off + |data| <= |bs[k].bytes| && bs'[k] == Patched(bs[k], off, data))
    && (forall k | MAX_BLOCKS <= k < |bs| :: bs'[k] == bs[k])
  }

  function Patched(b: Block, off: nat, data: seq<Byte>): Block
    requires off + |data| <= |b.bytes|
  {
    b.(bytes := Overwrite(b.bytes, off, data))
  }

  /** memcpy of the image and memset of the rest. */
  function PatchOne(b: Block, off: nat, image: seq<Byte>, memsz: nat): (r: Block)
    requires |image| <= memsz && off + memsz <= |b.bytes|
    ensures r == Patched(b, off, image + Zeros(memsz - |image|))
  {
    TwoWrites(b.bytes, off, image, Zeros(memsz - |image|));
    var c := Overwrite(b.bytes, off, image);
    b.(bytes := if memsz > |image| then Overwrite(c, off + |image|, Zeros(memsz - |image|)) else c)
  }

  /** A module added to a block that holds all others: it holds them and the new one. */
  lemma AddKeepsContents(l: Layout, l': Layout, b: seq<Byte>)
    requires WfLayout(l') && l'.mods != [] && l'.mods[..|l'.mods| - 1] == l.mods
    requires l'.total == l.total == |b| && Holds(l, b)
    ensures var m := l'.mods[|l'.mods| - 1];
            |m.image| <= m.memsz && m.End() <= |b| && Holds(l', Overwrite(b, m.off, Fresh(m)))
  {
    var n := |l'.mods| - 1;
    var m := l'.mods[n];
    assert Placed(l', m);
    forall o | o in l'.mods
      ensures |o.image| <= o.memsz && o.End() <= |b| && Overwrite(b, m.off, Fresh(m))[o.off..o.End()] == Fresh(o)
    {
      var j :| 0 <= j < |l'.mods| && l'.mods[j] == o;
      if j < n {
        assert l.mods[j] == o && o != m;
        OthersUntouched(l', m, o, b);
      }
    }
  }

  lemma FewerStillHold(l: Layout, l': Layout, b: seq<Byte>)
    requires Holds(l, b) && forall m | m in l'.mods :: m in l.mods
    ensures Holds(l', b)
  {
  }

  lemma SliceInside(l: Layout, i: nat)
    requires WfLayout(l) && i < |l.mods|
    ensures |l.mods[i].image| <= l.mods[i].memsz && l.mods[i].End() <= l.total
    ensures forall j | 0 <= j < |l.mods| && j != i :: Disjoint(l.mods[i], l.mods[j])
  {
    assert Placed(l, l.mods[i]);
    hide Placed;
    forall j | 0 <= j < |l.mods| && j != i
      ensures Disjoint(l.mods[i], l.mods[j])
    {
      assert Disjoint(l.mods[i], l.mods[j]) || Disjoint(l.mods[j], l.mods[i]);
    }
  }

  lemma OverwriteAt(b: seq<Byte>, at: nat, data: seq<Byte>, a: nat)
    requires at + |data| <= |b| && a < |b|
    ensures Overwrite(b, at, data)[a] == if at <= a < at + |data| then data[a - at] else b[a]
  {
  }

  /** Byte `k` of a fresh slice. */
  function FreshByte(m: Module, k: nat): Byte {
    if k < |m.image| then m.image[k] else 0
  }

  /** A slice is fresh when every byte of it is. */
  lemma SliceIsFresh(b: seq<Byte>, m: Module)
    requires |m.image| <= m.memsz && m.End() <= |b|
    ensures b[m.off..m.End()] == Fresh(m) <==> forall k | 0 <= k < m.memsz :: b[m.off + k] == FreshByte(m, k)
  {
    var s, t := b[m.off..m.End()], Fresh(m);
    forall k | 0 <= k < m.memsz
      ensures s[k] == b[m.off + k] && t[k] == FreshByte(m, k)
    {
    }
    if s == t {
      forall k | 0 <= k < m.memsz
        ensures b[m.off + k] == FreshByte(m, k)
      {
        assert s[k] == t[k];
      }
    }
    if forall k | 0 <= k < m.memsz :: b[m.off + k] == FreshByte(m, k) {
      forall k | 0 <= k < m.memsz
        ensures s[k] == t[k]
      {
        assert b[m.off + k] == FreshByte(m, k);
      }
      assert s == t;
    }
  }

  /** What copying a module's image does to each byte. */
  ghost predicate CopiedImage(b: seq<Byte>, m: Module, r: seq<Byte>) {
    |r| == |b| && forall a | 0 <= a < |b| :: r[a] == if m.off <= a < m.off + |m.image| then m.image[a - m.off] else b[a]
  }

  lemma CopyIs(b: seq<Byte>, m: Module, r: seq<Byte>)
    requires m.off + |m.image| <= |b| && r == if |m.image| > 0 then Overwrite(b, m.off, m.image) else b
    ensures CopiedImage(b, m, r)
  {
    hide Overwrite;
    forall a | 0 <= a < |b|
      ensures r[a] == if m.off <= a < m.off + |m.image| then m.image[a - m.off] else b[a]
    {
      if |m.image| > 0 { OverwriteAt(b, m.off, m.image, a); }
    }
  }

  /** The slice of module `i` is zero as long as only those before it are there. */
  lemma StillZero(l: Layout, i: nat, b: seq<Byte>, a: nat)
    requires WfLayout(l) && i < |l.mods| && Built(l.(mods := l.mods[..i]), b) && l.mods[i].off <= a < l.mods[i].End()
    ensures a < |b| && b[a] == 0
  {
    SliceInside(l, i);
    hide WfLayout, Fresh;
    forall n | n in l.mods[..i]
      ensures !(n.off <= a < n.End())
    {
      var j :| 0 <= j < i && l.mods[j] == n;
      assert Disjoint(l.mods[i], l.mods[j]);
    }
  }

  /** The slices of modules 0 to `i` after the copy. */
  lemma CopyMakesFresh(l: Layout, i: nat, b: seq<Byte>, r: seq<Byte>, j: nat)
    requires WfLayout(l) && j <= i < |l.mods| && Built(l.(mods := l.mods[..i]), b) && CopiedImage(b, l.mods[i], r)
    ensures var n := l.mods[j]; |n.image| <= n.memsz && n.End() <= |r| && r[n.off..n.End()] == Fresh(n)
  {
    var m, n := l.mods[i], l.mods[j];
    SliceInside(l, i);
    SliceInside(l, j);
    if j < i {
      assert n in l.mods[..i];
      assert Disjoint(m, n);
      SliceIsFresh(b, n);
    }
    forall k | 0 <= k < n.memsz
      ensures r[n.off + k] == FreshByte(n, k)
    {
      if j == i {
        StillZero(l, i, b, n.off + k);
      } else {
        assert b[n.off + k] == FreshByte(n, k);
      }
    }
    SliceIsFresh(r, n);
  }

  /** The image of module `i` copied into a block that holds the modules before it. */
  lemma CopyKeepsBuilt(l: Layout, i: nat, b: seq<Byte>, r: seq<Byte>)
    requires WfLayout(l) && i < |l.mods| && Built(l.(mods := l.mods[..i]), b)
    requires var m := l.mods[i];
             m.off + |m.image| <= |b| && r == if |m.image| > 0 then Overwrite(b, m.off, m.image) else b
    ensures Built(l.(mods := l.mods[..i + 1]), r)
  {
    var m := l.mods[i];
    CopyIs(b, m, r);
    SliceInside(l, i);
    hide Overwrite, WfLayout, Fresh;
    forall n | n in l.mods[..i + 1]
      ensures |n.image| <= n.memsz && n.End() <= |r| && r[n.off..n.End()] == Fresh(n)
    {
      var j :| 0 <= j <= i && l.mods[j] == n;
      CopyMakesFresh(l, i, b, r, j);
    }
    assert m in l.mods[..i + 1] && forall n | n in l.mods[..i] :: n in l.mods[..i + 1];
    forall a | 0 <= a < |r| && (forall n | n in l.mods[..i + 1] :: !(n.off <= a < n.End()))
      ensures r[a] == 0
    {
      assert !(m.off <= a < m.End());
    }
  }

  lemma AddKeepsAll(l: Layout, l': Layout, bs: seq<Block>, bs': seq<Block>)
    requires WfLayout(l') && l'.mods != [] && l'.mods[..|l'.mods| - 1] == l.mods && l'.total == l.total && |bs| == |bs'|
    requires forall k | 0 <= k < |bs| && k < MAX_BLOCKS :: |bs[k].bytes| == l.total && Holds(l, bs[k].bytes)
    requires var m := l'.mods[|l'.mods| - 1];
             && |m.image| <= m.memsz && m.End() <= l.total
             && forall k | 0 <= k < |bs| && k < MAX_BLOCKS :: bs'[k] == Patched(bs[k], m.off, Fresh(m))
    ensures forall k | 0 <= k < |bs| && k < MAX_BLOCKS :: Holds(l', bs'[k].bytes)
  {
    hide WfLayout, Holds, Overwrite, Fresh;
    forall k | 0 <= k < |bs| && k < MAX_BLOCKS
      ensures Holds(l', bs'[k].bytes)
    {
      AddKeepsContents(l, l', bs[k].bytes);
    }
  }

  lemma TwoWrites(b: seq<Byte>, at: nat, u: seq<Byte>, v: seq<Byte>)
    requires at + |u| + |v| <= |b|
    ensures Overwrite(Overwrite(b, at, u), at + |u|, v) == Overwrite(b, at, u + v)
  {
  }

  /** An add touches no byte of another live module's slice in any block. */
  lemma OthersUntouched(l: Layout, m: Module, n: Module, b: seq<Byte>)
    requires WfLayout(l) && m in l.mods && n in l.mods && m != n && |b| == l.total
    ensures |m.image| <= m.memsz && m.End() <= |b| && n.End() <= |b|
    ensures Overwrite(b, m.off, Fresh(m))[n.off..n.End()] == b[n.off..n.End()]
    ensures Overwrite(b, m.off, Fresh(m))[m.off..m.End()] == Fresh(m)
  {
    var i :| 0 <= i < |l.mods| && l.mods[i] == m;
    var j :| 0 <= j < |l.mods| && l.mods[j] == n;
    SliceInside(l, i);
    SliceInside(l, j);
    assert Disjoint(m, n);
    FreshLength(m);
    hide WfLayout, Overwrite, Fresh;
    var r := Overwrite(b, m.off, Fresh(m));
    forall a | n.off <= a < n.End()
      ensures r[a] == b[a]
    {
      OverwriteAt(b, m.off, Fresh(m), a);
    }
    SameSlice(b, r, n.off, n.End());
  }

  lemma FreshLength(m: Module)
    requires |m.image| <= m.memsz
    ensures |Fresh(m)| == m.memsz
  {
  }

  lemma SameSlice(b: seq<Byte>, r: seq<Byte>, lo: nat, hi: nat)
    requires |r| == |b| && lo <= hi <= |b| && forall a | lo <= a < hi :: r[a] == b[a]
    ensures r[lo..hi] == b[lo..hi]
  {
  }
}
