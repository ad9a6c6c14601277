/** The static TLS layout as a value (include/tls_layout.h): where each module's slice
    lies in a thread's block, over the whole life of a process. */
module TlsLayout {
  import opened Common
  import opened Alignment

  const MAX_MODULES: nat := 8

  /** A module's slice: `image` is its initialised part (filesz bytes at vaddr). */
  datatype Module = Module(id: nat, off: nat, image: seq<Byte>, memsz: nat, align: nat) {
    function End(): nat { off + memsz }
  }

  datatype Layout = Layout(total: nat, spare: nat, used: nat, nextId: nat, mods: seq<Module>)

  /** The alignment applied: anything but a power of two of at least 4 counts as 4. */
  function EffAlign(a: nat): (r: nat)
    ensures r >= 4 && IsPowerOfTwo(r)
  {
    if a < 4 || !IsPowerOfTwo(a) then 4 else a
  }

  /** `off` has the alignment a module asks for: that itself if it is a power of two of at least 4, and
      4 in any case. */
  ghost predicate Meets(off: nat, align: nat) {
    off % 4 == 0 && (align >= 4 && IsPowerOfTwo(align) ==> off % align == 0)
  }

  lemma MeetsIff(off: nat, align: nat)
    ensures Meets(off, align) <==> off % EffAlign(align) == 0
  {
    var a := EffAlign(align);
    if off % a == 0 {
      assert IsPowerOfTwo(4) by { assert IsPowerOfTwo(2); }
      PowersDivide(4, a);
      ModOfMod(off, a, 4);
    }
  }

  ghost predicate Disjoint(a: Module, b: Module) {
    a.End() <= b.off || b.End() <= a.off
  }

  ghost function Ids(l: Layout): set<nat> {
    set m | m in l.mods :: m.id
  }

  /** What every reachable layout satisfies: slices lie inside the block and apart from each
      other, each either above the spare room or in the part of it handed out, and aligned from
      the start of its area; ids are distinct and below the next one. */
  ghost predicate WfLayout(l: Layout) {
    && |l.mods| <= MAX_MODULES
    && l.used <= l.spare <= l.total && l.spare % 64 == 0
    && (forall i | 0 <= i < |l.mods| :: Placed(l, l.mods[i]))
    && (forall i, j | 0 <= i < j < |l.mods| :: Disjoint(l.mods[i], l.mods[j]) && l.mods[i].id != l.mods[j].id)
  }

  ghost predicate AlignedAt(off: nat, align: nat) {
    off % EffAlign(align) == 0
  }

  ghost predicate Placed(l: Layout, m: Module) {
    && m.End() <= l.total && (m.End() <= l.used || l.spare <= m.off)
    && |m.image| <= m.memsz
    && 1 <= m.id < l.nextId
    && AlignedAt(if l.spare <= m.off then m.off - l.spare else m.off, m.align)
    && (m.id == 1 && m.memsz > 0 && l.spare <= m.off ==> m.End() == l.total)
  }

  // ----- planning -----

  /** The offsets of modules `i` and up, the last module lowest. */
  function PlanFrom(mods: seq<Module>, i: nat): (r: seq<Module>)
    ensures |r| == if i <= |mods| then |mods| - i else 0
    decreases |mods| - i
  {
    if i >= |mods| then []
    else
      var rest := PlanFrom(mods, i + 1);
      [mods[i].(off := AlignUp(Top(rest), EffAlign(mods[i].align)))] + rest
  }

  /** The end of the highest slice. */
  function Top(r: seq<Module>): nat {
    if r == [] then 0 else r[0].End()
  }

  function Numbered(r: seq<Module>): seq<Module> {
    seq(|r|, i requires 0 <= i < |r| => r[i].(id := i + 1))
  }

  /** cact_tls_plan_inline on the first modules of the table. */
  function Plan(mods: seq<Module>): Layout {
    var r := PlanFrom(mods, 0);
    Layout(Top(r), 0, 0, |mods| + 1, Numbered(r))
  }

  /** The slices of `r`: aligned, below the top, the later the lower, otherwise unchanged. */
  ghost predicate PlannedFrom(mods: seq<Module>, i: nat, r: seq<Module>)
    requires i + |r| == |mods|
  {
    && (forall j | 0 <= j < |r| :: r[j].off % EffAlign(r[j].align) == 0)
    && (forall j | 0 <= j < |r| :: r[j].End() <= Top(r))
    && (forall j | 0 <= j < |r| :: r[j] == mods[i + j].(off := r[j].off))
    && (forall j, k | 0 <= j < k < |r| :: r[k].End() <= r[j].off)
  }

  lemma {:induction false} PlanPlaces(mods: seq<Module>, i: nat)
    requires i <= |mods|
    ensures PlannedFrom(mods, i, PlanFrom(mods, i))
    decreases |mods| - i
  {
    if i < |mods| {
      PlanPlaces(mods, i + 1);
      var rest := PlanFrom(mods, i + 1);
      hide AlignUp, EffAlign;
      AlignUpBounds(Top(rest), EffAlign(mods[i].align));
      var r := PlanFrom(mods, i);
      forall j | 1 <= j < |r|
        ensures r[j] == rest[j - 1] && r[j].End() <= Top(rest)
      {
      }
      forall j, k | 0 <= j < k < |r|
        ensures r[k].End() <= r[j].off
      {
        assert r[k] == rest[k - 1] && (j > 0 ==> r[j] == rest[j - 1]);
      }
    }
  }

  /** The plan is well-formed and the program's own module ends exactly at the thread
      pointer, which the linker's displacements rely on. */
  lemma PlanWf(mods: seq<Module>)
    requires |mods| <= MAX_MODULES && forall i | 0 <= i < |mods| :: |mods[i].image| <= mods[i].memsz
    ensures WfLayout(Plan(mods))
    ensures mods != [] ==> Plan(mods).mods[0].End() == Plan(mods).total
  {
    PlanPlaces(mods, 0);
    hide EffAlign;
    var l := Plan(mods);
    forall i | 0 <= i < |l.mods|
      ensures Placed(l, l.mods[i])
    {
      var r := PlanFrom(mods, 0);
      assert l.mods[i] == r[i].(id := i + 1) && r[i] == mods[0 + i].(off := r[i].off);
    }
  }

  /** The first place from `lo` on that has the alignment. */
  ghost predicate FirstPlace(lo: nat, align: nat, off: nat) {
    lo <= off && Meets(off, align) && forall o: nat | lo <= o < off :: !Meets(o, align)
  }

  lemma AlignUpIsFirst(lo: nat, align: nat)
    ensures FirstPlace(lo, align, AlignUp(lo, EffAlign(align)))
  {
    var a := EffAlign(align);
    var off := AlignUp(lo, a);
    AlignUpBounds(lo, a);
    MeetsIff(off, align);
    hide EffAlign, AlignUp, Meets;
    forall o: nat | lo <= o < off
      ensures !Meets(o, align)
    {
      MeetsIff(o, align);
      if o % a == 0 { NoMultipleBetween(o, off, a); }
    }
  }

  lemma NoMultipleBetween(o: nat, off: nat, a: nat)
    requires a > 0 && o % a == 0 && off % a == 0 && o < off
    ensures off >= o + a
  {
    var q, r := o / a, off / a;
    assert o == q * a && off == r * a;
    if r <= q { MulLess(r, q, a); } else { MulLess(q + 1, r, a); }
  }

  lemma MulLess(x: int, y: int, a: int)
    requires x <= y && a > 0
    ensures x * a <= y * a
  {
  }

  /** Nothing is wasted: the last module is at 0, and each other one at the first place with its
      alignment behind the module after it; the block ends with the program's own. */
  lemma {:induction false} PlanIsTight(mods: seq<Module>, i: nat)
    requires i < |mods|
    ensures var l := Plan(mods);
            && |l.mods| == |mods| && l.mods[i] == mods[i].(off := l.mods[i].off, id := i + 1)
            && FirstPlace(if i == |mods| - 1 then 0 else l.mods[i + 1].End(), mods[i].align, l.mods[i].off)
            && l.total == l.mods[0].End()
  {
    hide AlignUp, EffAlign, FirstPlace;
    PlanPlaces(mods, 0);
    PlanTail(mods, 0, i);
    var r := PlanFrom(mods, i);
    AlignUpIsFirst(Top(PlanFrom(mods, i + 1)), mods[i].align);
    if i + 1 < |mods| { PlanTail(mods, 0, i + 1); }
    assert PlanFrom(mods, 0)[0] == PlanFrom(mods, 0)[0..][0];
  }

  lemma {:induction false} PlanTail(mods: seq<Module>, j: nat, i: nat)
    requires j <= i < |mods|
    ensures PlanFrom(mods, j)[i - j..] == PlanFrom(mods, i)
    ensures PlanFrom(mods, i)[0] == PlanFrom(mods, j)[i - j]
    decreases i - j
  {
    hide AlignUp, EffAlign, Top;
    if j < i {
      PlanTail(mods, j + 1, i);
      var r, rest := PlanFrom(mods, j), PlanFrom(mods, j + 1);
      assert r == [r[0]] + rest;
      hide PlanFrom;
      assert r[i - j..] == rest[i - j - 1..];
    }
  }

  // ----- the spare room -----

  function RoundUp64(bytes: nat): (r: nat)
    ensures bytes <= r < bytes + 64 && r % 64 == 0
  {
    (bytes + 63) / 64 * 64
  }

  function Shift(m: Module, d: nat): Module {
    m.(off := m.off + d)
  }

  /** cact_tls_reserve on a layout that has not reserved anything yet. */
  function Reserve(l: Layout, bytes: nat): Layout {
    if bytes == 0 then l
    else
      var d := RoundUp64(bytes);
      Layout(l.total + d, d, 0, l.nextId, seq(|l.mods|, i requires 0 <= i < |l.mods| => Shift(l.mods[i], d)))
  }

  lemma ReserveWf(l: Layout, bytes: nat)
    requires WfLayout(l) && l.spare == 0
    ensures WfLayout(Reserve(l, bytes))
    ensures |Reserve(l, bytes).mods| == |l.mods| && Reserve(l, bytes).nextId == l.nextId
    ensures bytes <= Reserve(l, bytes).spare < bytes + 64
    ensures Reserve(l, bytes).total == l.total + Reserve(l, bytes).spare && Reserve(l, bytes).used == l.used
    ensures forall i | 0 <= i < |l.mods| ::
              Reserve(l, bytes).total - Reserve(l, bytes).mods[i].off == l.total - l.mods[i].off
  {
    hide AlignedAt, RoundUp64;
    var d := RoundUp64(bytes);
    if bytes > 0 {
      var l' := Reserve(l, bytes);
      forall i | 0 <= i < |l.mods|
        ensures Placed(l', l'.mods[i])
      {
        assert Placed(l, l.mods[i]);
      }
    }
  }

  /** Moving everything up by the spare room keeps an alignment of up to 64 bytes; a larger
      one is kept exactly when it divides the amount reserved. */
  lemma ReserveKeepsAlignment(off: nat, a: nat, d: nat)
    requires a > 0 && off % a == 0 && d % 64 == 0
    ensures (off + d) % a == 0 <==> d % a == 0
    ensures IsPowerOfTwo(a) && a <= 64 ==> d % a == 0
  {
    AlignedSum(off, a, d);
    if IsPowerOfTwo(a) && a <= 64 {
      PowersUpTo1024();
      PowersDivide(a, 64);
      ModOfMod(d, 64, a);
    }
  }

  lemma AlignedSum(off: nat, a: nat, d: nat)
    requires a > 0 && off % a == 0
    ensures (off + d) % a == 0 <==> d % a == 0
  {
    var k, q, r := off / a, d / a, d % a;
    assert off == k * a && d == q * a + r;
    assert off + d == (k + q) * a + r;
    DivUnique(off + d, a, k + q, r);
  }

  lemma PowersUpTo1024()
    ensures IsPowerOfTwo(16) && IsPowerOfTwo(32) && IsPowerOfTwo(64) && IsPowerOfTwo(128) && IsPowerOfTwo(1024)
  {
    assert IsPowerOfTwo(2) && IsPowerOfTwo(4) && IsPowerOfTwo(8) && IsPowerOfTwo(16) && IsPowerOfTwo(32);
    assert IsPowerOfTwo(64) && IsPowerOfTwo(128) && IsPowerOfTwo(256) && IsPowerOfTwo(512);
  }

  /** In every reachable layout: the offset of a module added later has the alignment asked for, and
      that of a planned one has it if and only if the amount reserved has it. */
  lemma AlignedIff(l: Layout, m: Module)
    requires WfLayout(l) && m in l.mods
    ensures m.off < l.spare ==> Meets(m.off, m.align)
    ensures m.off >= l.spare ==> (Meets(m.off, m.align) <==> Meets(l.spare, m.align))
  {
    var i :| 0 <= i < |l.mods| && l.mods[i] == m;
    assert Placed(l, l.mods[i]);
    MeetsIff(m.off, m.align);
    MeetsIff(l.spare, m.align);
    hide EffAlign, Meets;
    if m.off >= l.spare {
      ReserveKeepsAlignment(m.off - l.spare, EffAlign(m.align), l.spare);
    }
  }

  lemma MeetsPowers(align: nat)
    requires IsPowerOfTwo(align) ==> align <= 1024
    ensures Meets(1024, align)
  {
    if align >= 4 && IsPowerOfTwo(align) {
      PowersUpTo1024();
      PowersDivide(align, 1024);
    }
  }

  /** With the 1024 bytes that the loader reserves every offset has its alignment, up to 1024. */
  lemma AlignedUpTo1024(l: Layout, m: Module)
    requires WfLayout(l) && m in l.mods && l.spare == 1024 && (IsPowerOfTwo(m.align) ==> m.align <= 1024)
    ensures Meets(m.off, m.align)
  {
    hide WfLayout, Meets, IsPowerOfTwo;
    AlignedIff(l, m);
    MeetsPowers(m.align);
  }

  lemma MeetsSum(off: nat, align: nat, d: nat)
    requires Meets(off, align)
    ensures Meets(off + d, align) <==> Meets(d, align)
  {
    AlignedSum(off, 4, d);
    if align >= 4 && IsPowerOfTwo(align) { AlignedSum(off, align, d); }
  }

  /** The address of a slice in a block at `base`, which is a multiple of 16: it has the alignment
      asked for if that is at most 16, and otherwise if and only if the start of its area has it. */
  lemma AddressAlignedIff(l: Layout, m: Module, base: nat)
    requires WfLayout(l) && m in l.mods && base % 16 == 0
    ensures var area := if l.spare <= m.off then base + l.spare else base;
            Meets(base + m.off, m.align) <==> Meets(area, m.align)
    ensures m.align <= 16 ==> Meets(base + m.off, m.align)
  {
    var i :| 0 <= i < |l.mods| && l.mods[i] == m;
    assert Placed(l, l.mods[i]) && l.spare % 64 == 0;
    var inner := if l.spare <= m.off then m.off - l.spare else m.off;
    var area := base + m.off - inner;
    hide EffAlign, WfLayout, IsPowerOfTwo;
    MeetsIff(inner, m.align);
    MeetsSum(inner, m.align, area);
    BothMultiplesOf16(base, l.spare);
    if m.align <= 16 {
      MeetsIn16(area, m.align);
    }
  }

  lemma MeetsIn16(area: nat, align: nat)
    requires area % 16 == 0 && align <= 16
    ensures Meets(area, align)
  {
    ModOfMod(area, 16, 4);
    if align >= 4 && IsPowerOfTwo(align) {
      PowersUpTo1024();
      PowersDivide(align, 16);
      ModOfMod(area, 16, align);
    }
  }

  lemma BothMultiplesOf16(base: nat, spare: nat)
    requires base % 16 == 0 && spare % 64 == 0
    ensures (base + spare) % 16 == 0
  {
  }

  /** With the loader's reserve an address has its alignment, up to 1024, if and only if the block
      has it. */
  lemma AddressAlignedUpTo1024(l: Layout, m: Module, base: nat)
    requires WfLayout(l) && m in l.mods && l.spare == 1024 && (IsPowerOfTwo(m.align) ==> m.align <= 1024)
    ensures Meets(base + m.off, m.align) <==> Meets(base, m.align)
  {
    hide WfLayout, Meets, IsPowerOfTwo;
    AlignedUpTo1024(l, m);
    MeetsSum(m.off, m.align, base);
  }

  /** A module aligned to 32 with the loader's reserve, in a block at 16. */
  lemma {:induction false} AddressMisaligned(m: Module)
    requires m.align == 32
    ensures var l := Reserve(Plan([m]), 1024); l.mods == [m.(id := 1, off := 1024)] && !Meets(16 + l.mods[0].off, 32)
  {
    PowersUpTo1024();
    hide PlanFrom, IsPowerOfTwo;
    PlanOfOne(m);
    var l := Plan([m]);
    assert l.mods == [m.(id := 1, off := 0)];
    ReserveOne(l, l.mods[0], 1024);
  }

  /** A module aligned to 128, below which 64 bytes are reserved, loses its alignment. */
  lemma {:induction false} AlignmentLost(m: Module)
    requires m.align == 128
    ensures Reserve(Plan([m]), 64).mods == [m.(id := 1, off := 64)] && !Meets(64, 128)
  {
    PowersUpTo1024();
    hide PlanFrom, IsPowerOfTwo;
    PlanOfOne(m);
    var l := Plan([m]);
    assert l.mods == [m.(id := 1, off := 0)];
    ReserveOne(l, l.mods[0], 64);
  }

  lemma {:induction false} ReserveOne(l: Layout, m: Module, d: nat)
    requires l.mods == [m] && (d == 64 || d == 1024)
    ensures Reserve(l, d).mods == [m.(off := m.off + d)]
  {
    assert RoundUp64(d) == d;
  }

  lemma {:induction false} PlanOfOne(m: Module)
    ensures PlanFrom([m], 0) == [m.(off := 0)]
  {
    hide EffAlign;
    AlignUpBounds(0, EffAlign(m.align));
    var a := EffAlign(m.align);
    var q := AlignUp(0, a) / a;
    assert AlignUp(0, a) == 0 by { DivUnique(0 + (a - 1), a, 0, a - 1); }
    assert PlanFrom([m], 1) == [];
  }

  /** cact_tls_take: an offset in the spare room, or -1. */
  function Take(l: Layout, memsz: nat, align: nat): (r: (Layout, int)) {
    var off: int := AlignUp(l.used, EffAlign(align));
    if off > l.spare || memsz > l.spare - off then (l, -1)
    else (l.(used := off + memsz), off)
  }

  // ----- modules that come and go -----

  /** cact_tls_module_add on the layout. */
  function Add(l: Layout, image: seq<Byte>, memsz: nat, align: nat): (r: (Layout, int)) {
    if |l.mods| >= MAX_MODULES then (l, -1)
    else
      var (l', off) := Take(l, memsz, align);
      if off < 0 then (l, -1)
      else (l'.(mods := l'.mods + [Module(l.nextId, off, image, memsz, align)], nextId := l.nextId + 1), off)
  }

  /** Index of the first non-empty module at block offset `off`, or |mods|. */
  function FindOff(mods: seq<Module>, off: nat): (i: nat)
    ensures i <= |mods|
    ensures i < |mods| ==> mods[i].off == off && mods[i].memsz > 0
    ensures forall j | 0 <= j < i :: !(mods[j].off == off && mods[j].memsz > 0)
    decreases |mods|
  {
    if mods == [] then 0
    else if mods[0].off == off && mods[0].memsz > 0 then 0
    else 1 + FindOff(mods[1..], off)
  }

  function Remove(mods: seq<Module>, i: nat): seq<Module>
    requires i < |mods|
  {
    mods[..i] + mods[i + 1..]
  }

  /** cact_tls_module_drop. */
  function Drop(l: Layout, off: nat): Layout {
    var i := FindOff(l.mods, off);
    if i == |l.mods| then l else l.(mods := Remove(l.mods, i))
  }

  lemma AddWf(l: Layout, image: seq<Byte>, memsz: nat, align: nat)
    requires WfLayout(l) && |image| <= memsz && l.nextId >= 1
    ensures var (l', off) := Add(l, image, memsz, align);
            && WfLayout(l') && l'.total == l.total && l'.spare == l.spare
            && (off < 0 ==> l' == l)
            && (off >= 0 ==> l.used <= off && l'.mods == l.mods + [Module(l.nextId, off, image, memsz, align)]
                             && l'.nextId == l.nextId + 1 && off + memsz <= l.spare)
  {
    AlignUpBounds(l.used, EffAlign(align));
    assert AlignedAt(0, align) && AlignedAt(AlignUp(l.used, EffAlign(align)), align);
    hide AlignedAt, AlignUp, EffAlign;
    var (l', off) := Add(l, image, memsz, align);
    if off >= 0 {
      var m := Module(l.nextId, off, image, memsz, align);
      forall i | 0 <= i < |l.mods|
        ensures Placed(l', l.mods[i]) && Disjoint(l.mods[i], m)
      {
        assert Placed(l, l.mods[i]);
      }
    }
  }

  /** An add is refused if and only if the table is full or no place in the room left has the alignment
      and the size; otherwise it gets the first such place. */
  lemma AddRefusesIff(l: Layout, image: seq<Byte>, memsz: nat, align: nat)
    ensures var (l', off) := Add(l, image, memsz, align);
            && (off < 0 <==> |l.mods| >= 8 || forall o: nat | l.used <= o && Meets(o, align) :: o + memsz > l.spare)
            && (off >= 0 ==> FirstPlace(l.used, align, off) && off + memsz <= l.spare && l'.used == off + memsz)
  {
    AlignUpIsFirst(l.used, align);
    hide AlignUp, EffAlign, Meets;
    var first := AlignUp(l.used, EffAlign(align));
    assert forall o: nat | l.used <= o && Meets(o, align) :: o >= first;
  }

  lemma DropWf(l: Layout, off: nat)
    requires WfLayout(l)
    ensures WfLayout(Drop(l, off)) && Drop(l, off).total == l.total && Drop(l, off).nextId == l.nextId
    ensures forall m | m in l.mods :: m in Drop(l, off).mods || (m.off == off && m.memsz > 0)
    ensures forall m | m in Drop(l, off).mods :: m in l.mods && !(m.off == off && m.memsz > 0)
  {
    var i := FindOff(l.mods, off);
    if i < |l.mods| {
      hide FindOff;
      RemoveKeepsWf(l, i);
      RemoveIs(l.mods, i);
      forall m | m in Drop(l, off).mods
        ensures m in l.mods && !(m.off == off && m.memsz > 0)
      {
        var j :| 0 <= j < |l.mods| && j != i && l.mods[j] == m;
        NotTwiceAt(l, i, j);
      }
    }
  }

  /** Two slices at one offset cannot both be non-empty. */
  lemma NotTwiceAt(l: Layout, i: nat, j: nat)
    requires WfLayout(l) && i < |l.mods| && j < |l.mods| && i != j
    ensures !(l.mods[i].off == l.mods[j].off && l.mods[i].memsz > 0 && l.mods[j].memsz > 0)
  {
    hide Placed;
    assert Disjoint(l.mods[i], l.mods[j]) || Disjoint(l.mods[j], l.mods[i]);
  }

  /** The entries left over are those at the other positions, in order. */
  lemma RemoveIs(mods: seq<Module>, i: nat)
    requires i < |mods|
    ensures forall j | 0 <= j < |mods| - 1 :: Remove(mods, i)[j] == mods[if j < i then j else j + 1]
    ensures forall m :: m in Remove(mods, i) <==> exists j :: 0 <= j < |mods| && j != i && mods[j] == m
  {
    var r := Remove(mods, i);
    forall m
      ensures m in r <==> exists j :: 0 <= j < |mods| && j != i && mods[j] == m
    {
      if m in r {
        var k :| 0 <= k < |r| && r[k] == m;
        assert mods[if k < i then k else k + 1] == m;
      }
      if j :| 0 <= j < |mods| && j != i && mods[j] == m {
        assert r[if j < i then j else j - 1] == m;
      }
    }
  }

  lemma RemoveKeepsWf(l: Layout, i: nat)
    requires WfLayout(l) && i < |l.mods|
    ensures WfLayout(l.(mods := Remove(l.mods, i)))
  {
    var l' := l.(mods := Remove(l.mods, i));
    RemoveIs(l.mods, i);
    forall j | 0 <= j < |l'.mods|
      ensures Placed(l', l'.mods[j])
    {
      assert Placed(l, l.mods[if j < i then j else j + 1]);
    }
    hide Placed;
  }

  // ----- every history of adds and drops -----

  datatype Op = DoAdd(image: seq<Byte>, memsz: nat, align: nat) | DoDrop(off: nat)

  function Apply(l: Layout, op: Op): Layout {
    match op
    case DoAdd(image, memsz, align) => Add(l, image, memsz, align).0
    case DoDrop(off) => Drop(l, off)
  }

  function ApplyAll(l: Layout, ops: seq<Op>): Layout
    decreases |ops|
  {
    if ops == [] then l else ApplyAll(Apply(l, ops[0]), ops[1..])
  }

  ghost predicate GoodOps(ops: seq<Op>) {
    forall i | 0 <= i < |ops| :: ops[i].DoAdd? ==> |ops[i].image| <= ops[i].memsz
  }

  /** In every reachable layout slices are disjoint, inside the block and aligned, ids are
      distinct, the block has kept its size, and a planned program module still ends at
      the thread pointer. */
  lemma {:induction false} HistoryWf(l: Layout, ops: seq<Op>)
    requires WfLayout(l) && l.nextId >= 1 && GoodOps(ops)
    ensures var l' := ApplyAll(l, ops);
            WfLayout(l') && l'.total == l.total && l'.spare == l.spare && l.nextId <= l'.nextId
    decreases |ops|
  {
    if ops != [] {
      var op := ops[0];
      if op.DoAdd? {
        AddWf(l, op.image, op.memsz, op.align);
      } else {
        DropWf(l, op.off);
      }
      assert forall i | 0 <= i < |ops[1..]| :: ops[1..][i] == ops[i + 1];
      HistoryWf(Apply(l, op), ops[1..]);
    }
  }

  /** From the published plan on. */
  lemma ProcessWf(mods: seq<Module>, bytes: nat, ops: seq<Op>)
    requires |mods| <= MAX_MODULES && GoodOps(ops)
    requires forall i | 0 <= i < |mods| :: |mods[i].image| <= mods[i].memsz
    ensures WfLayout(ApplyAll(Reserve(Plan(mods), bytes), ops))
    ensures ApplyAll(Reserve(Plan(mods), bytes), ops).total == Reserve(Plan(mods), bytes).total
    ensures var l := ApplyAll(Reserve(Plan(mods), bytes), ops);
            forall m | m in l.mods && m.id == 1 && m.memsz > 0 && l.spare <= m.off :: m.End() == l.total
  {
    PlanWf(mods);
    ReserveWf(Plan(mods), bytes);
    HistoryWf(Reserve(Plan(mods), bytes), ops);
    var l := ApplyAll(Reserve(Plan(mods), bytes), ops);
    forall m | m in l.mods
      ensures Placed(l, m)
    {
      var i :| 0 <= i < |l.mods| && l.mods[i] == m;
    }
  }

  /** An id that is not in use is gone for good: ids are never handed out twice. */
  lemma {:induction false} RetiredIdStaysRetired(l: Layout, ops: seq<Op>, id: nat)
    requires id < l.nextId && id !in Ids(l)
    ensures id !in Ids(ApplyAll(l, ops))
    decreases |ops|
  {
    if ops != [] {
      var l' := Apply(l, ops[0]);
      assert id !in Ids(l') && id < l'.nextId by {
        if ops[0].DoDrop? {
          var i := FindOff(l.mods, ops[0].off);
          assert forall m | m in l'.mods :: m in l.mods;
        } else {
          assert forall m | m in l'.mods :: m in l.mods || m.id == l.nextId;
        }
      }
      RetiredIdStaysRetired(l', ops[1..], id);
    }
  }

  /** A module keeps its slice until it is dropped by its offset. */
  lemma {:induction false} ModuleStaysPut(l: Layout, ops: seq<Op>, m: Module)
    requires WfLayout(l) && l.nextId >= 1 && GoodOps(ops) && m in l.mods
    requires forall i | 0 <= i < |ops| :: ops[i] != DoDrop(m.off)
    ensures m in ApplyAll(l, ops).mods
    decreases |ops|
  {
    if ops != [] {
      var op := ops[0];
      if op.DoAdd? {
        AddWf(l, op.image, op.memsz, op.align);
      } else {
        DropWf(l, op.off);
      }
      assert forall i | 0 <= i < |ops[1..]| :: ops[1..][i] == ops[i + 1];
      ModuleStaysPut(Apply(l, op), ops[1..], m);
    }
  }

  // ----- the two ways to reach a variable -----

  /** The word R_386_TLS_TPOFF stores: block offset plus symbol value plus addend, relative
      to the thread pointer. */
  function TpoffWord(total: nat, off: nat, s: nat, a: int): int {
    (off + s + a - total) % 0x1_0000_0000
  }

  /** The words of a general-dynamic access: the module id and the offset inside it. */
  function DtpoffWord(s: nat, a: int): int {
    (s + a) % 0x1_0000_0000
  }

  function DtpmodWord(id: nat, a: int): int {
    (id + a) % 0x1_0000_0000
  }

  /** Index of the first module with this id, or |mods|. */
  function FindId(mods: seq<Module>, id: nat): (i: nat)
    ensures i <= |mods|
    ensures i < |mods| ==> mods[i].id == id
    ensures forall j | 0 <= j < i :: mods[j].id != id
    decreases |mods|
  {
    if mods == [] then 0 else if mods[0].id == id then 0 else 1 + FindId(mods[1..], id)
  }

  /** cact_tls_addr: the address of `offset` in the module with this id, or 0. */
  function Resolve(l: Layout, id: nat, offset: int, tp: int): int {
    var i := FindId(l.mods, id);
    if i < |l.mods| then (tp + l.mods[i].off + offset - l.total) % 0x1_0000_0000 else 0
  }

  /** For every live module a general-dynamic access and a static one reach the same address; the
      word for the module names it if and only if its addend is a multiple of 2^32. */
  lemma AccessModelsAgree(l: Layout, m: Module, b: int, s: nat, a: int, tp: int)
    requires WfLayout(l) && m in l.mods && l.nextId <= 0x1_0000_0000
    ensures DtpmodWord(m.id, b) == m.id <==> b % 0x1_0000_0000 == 0
    ensures b % 0x1_0000_0000 == 0 ==>
              Resolve(l, DtpmodWord(m.id, b), DtpoffWord(s, a), tp)
                == (tp + TpoffWord(l.total, m.off, s, a)) % 0x1_0000_0000
  {
    hide AlignedAt;
    var k :| 0 <= k < |l.mods| && l.mods[k] == m;
    assert FindId(l.mods, m.id) == k;
    assert m.id < 0x1_0000_0000 by { assert Placed(l, l.mods[k]); }
    hide WfLayout, FindId;
    AddendIsNeutral(m.id, b);
    ModTwice(tp + m.off - l.total, s + a);
    ModTwice(tp, m.off + s + a - l.total);
  }

  lemma ModTwice(x: int, y: int)
    ensures (x + y % 0x1_0000_0000) % 0x1_0000_0000 == (x + y) % 0x1_0000_0000
  {
  }

  lemma AddendIsNeutral(id: nat, b: int)
    requires id < 0x1_0000_0000
    ensures (id + b) % 0x1_0000_0000 == id <==> b % 0x1_0000_0000 == 0
  {
  }

  /** In the block at `base`, whose end is the thread pointer, byte `u` of a module is at its offset plus
      `u`. */
  lemma ResolvesToItsSlice(l: Layout, m: Module, u: nat, base: nat)
    requires WfLayout(l) && m in l.mods && base + m.off + u < 0x1_0000_0000
    ensures Resolve(l, m.id, u, base + l.total) == base + m.off + u
  {
    hide Placed;
    var i :| 0 <= i < |l.mods| && l.mods[i] == m;
    assert FindId(l.mods, m.id) == i;
  }

  /** The slices of two live modules resolve to different addresses in one thread's block. */
  lemma NoSharedAddress(l: Layout, m: Module, n: Module, u: nat, v: nat, tp: int)
    requires WfLayout(l) && m in l.mods && n in l.mods && m != n && u < m.memsz && v < n.memsz
    requires l.total < 0x1_0000_0000
    ensures Resolve(l, m.id, u, tp) != Resolve(l, n.id, v, tp)
  {
    hide AlignedAt;
    var i :| 0 <= i < |l.mods| && l.mods[i] == m;
    var j :| 0 <= j < |l.mods| && l.mods[j] == n;
    assert FindId(l.mods, m.id) == i && FindId(l.mods, n.id) == j;
    assert m.End() <= l.total && n.End() <= l.total by { assert Placed(l, l.mods[i]) && Placed(l, l.mods[j]); }
    assert Disjoint(m, n) || Disjoint(n, m);
    hide WfLayout, FindId;
    StayApart(tp - l.total, m.off + u, n.off + v);
  }

  lemma StayApart(x: int, a: nat, b: nat)
    requires a != b && a < 0x1_0000_0000 && b < 0x1_0000_0000
    ensures (x + a) % 0x1_0000_0000 != (x + b) % 0x1_0000_0000
  {
  }
}
