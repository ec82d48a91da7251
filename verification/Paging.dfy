/** The four-level page tables of the virtual memory manager as a value: the tables form a
    tree in physical frames, and the tree denotes a partial map from virtual to physical
    pages (4-level paging, section 4.5 of the Intel SDM, Volume 3A).

    Page-table words are unsigned 64-bit numbers; w & ~0xFFF is w - w % 4096, the PRESENT bit
    is w % 2 and the HUGE bit is w / 128 % 2. */
module Paging {
  import opened Bytes
  import opened Pages

  const ENTRIES: nat := 512
  const HUGE_SIZE: nat := 0x20_0000
  const LOW_GIB: nat := 0x4000_0000

  // Physical memory seen as frames of 512 words; only table frames are of interest.
  type Frames = map<nat, seq<nat>>

  datatype Vm = Vm(mem: Frames, root: nat, pages: Pages)

  // Where a table hangs in the tree, by the indices that lead to it from the PML4
  datatype Slot = Top | Pdpt(i4: nat) | Pd(i4: nat, i3: nat) | Pt(i4: nat, i3: nat, i2: nat)

  // A virtual page number by its four 9-bit indices
  datatype VPage = VPage(i4: nat, i3: nat, i2: nat, i1: nat)

  predicate Present(w: nat) { w % 2 == 1 }
  predicate Huge(w: nat) { w / 128 % 2 == 1 }

  function PageOf(virt: nat): (v: VPage)
    ensures v.i4 < ENTRIES && v.i3 < ENTRIES && v.i2 < ENTRIES && v.i1 < ENTRIES
  {
    VPage(virt / 0x80_0000_0000 % 512, virt / 0x4000_0000 % 512, virt / 0x20_0000 % 512, virt / 0x1000 % 512)
  }

  // The word at index i of the table in frame f; memory that holds no table reads as 0.
  function Word(m: Frames, f: nat, i: nat): nat {
    if f in m && i < |m[f]| then m[f][i] else 0
  }

  function Child(m: Frames, f: Option<nat>, i: nat, leafLevel: bool): Option<nat> {
    if f.None? then None
    else
      var w := Word(m, f.value, i);
      if !Present(w) || (leafLevel && Huge(w)) then None else Some(w / PAGE_SIZE)
  }

  function PdptAt(m: Frames, root: nat, i4: nat): Option<nat> { Child(m, Some(root), i4, false) }

  function PdAt(m: Frames, root: nat, i4: nat, i3: nat): Option<nat> { Child(m, PdptAt(m, root, i4), i3, false) }

  function PtAt(m: Frames, root: nat, i4: nat, i3: nat, i2: nat): Option<nat> {
    Child(m, PdAt(m, root, i4, i3), i2, true)
  }

  // The frame of the table hanging at a slot, if there is one
  function FrameAt(m: Frames, root: nat, s: Slot): Option<nat> {
    match s
    case Top => Some(root)
    case Pdpt(a) => PdptAt(m, root, a)
    case Pd(a, b) => PdAt(m, root, a, b)
    case Pt(a, b, c) => PtAt(m, root, a, b, c)
  }

  // The physical address of a virtual address, read off the tree
  function Translate(m: Frames, root: nat, virt: nat): Option<nat> {
    var v := PageOf(virt);
    match PdAt(m, root, v.i4, v.i3)
    case None => None
    case Some(pd) =>
      var w := Word(m, pd, v.i2);
      if Huge(w) then Some(w - w % HUGE_SIZE + virt % HUGE_SIZE)
      else match PtAt(m, root, v.i4, v.i3, v.i2)
        case None => None
        case Some(pt) =>
          var e := Word(m, pt, v.i1);
          if Present(e) then Some(PageBase(e) + virt % PAGE_SIZE) else None
  }

  // ----- the tree invariant -----

  // Each table frame holds 512 words, hangs at exactly one slot, and is not free in the page
  // allocator. The two upper levels hold no huge entries.
  ghost predicate Inv(s: Vm) {
    && s.pages.Valid() && 0 !in s.pages.free
    && (forall t :: TableOk(s, t))
    && (forall t, u :: OneParent(s, t, u))
  }

  ghost predicate TableOk(s: Vm, t: Slot) {
    var f := FrameAt(s.mem, s.root, t);
    f.Some? ==>
      && f.value in s.mem && |s.mem[f.value]| == ENTRIES && f.value !in s.pages.free
      && (t.Top? || t.Pdpt? ==> forall i :: 0 <= i < ENTRIES ==> !Huge(s.mem[f.value][i]))
  }

  ghost predicate OneParent(s: Vm, t: Slot, u: Slot) {
    FrameAt(s.mem, s.root, t).Some? && FrameAt(s.mem, s.root, t) == FrameAt(s.mem, s.root, u) ==> t == u
  }

  function ChildSlot(t: Slot, i: nat): Slot
    requires !t.Pt?
  {
    match t
    case Top => Pdpt(i)
    case Pdpt(a) => Pd(a, i)
    case Pd(a, b) => Pt(a, b, i)
  }

  // ----- the operations -----

  function ZeroFrame(): (z: seq<nat>)
    ensures |z| == ENTRIES && forall i :: 0 <= i < ENTRIES ==> z[i] == 0
  {
    seq(ENTRIES, i => 0)
  }

  // page | PRESENT | WRITE, for the table in frame fr
  function TableEntry(fr: nat): (w: nat)
    ensures Present(w) && !Huge(w) && w / PAGE_SIZE == fr
  {
    assert (fr * PAGE_SIZE + 3) / 128 == fr * 32;
    fr * PAGE_SIZE + 3
  }

  function SetWord(m: Frames, f: nat, i: nat, w: nat): Frames {
    if f in m && i < |m[f]| then (var t: seq<nat> := m[f][i := w]; m[f := t]) else m
  }

  // Descend through entry i of the table in frame f, hanging a fresh zeroed table there first
  // if the entry is empty. Nothing is returned when no frame is left.
  function WalkAlloc(s: Vm, f: nat, i: nat): (r: (Vm, Option<nat>))
    requires s.pages.Valid()
    ensures r.0.pages.Valid() && r.0.root == s.root
  {
    if Present(Word(s.mem, f, i)) then (s, Some(Word(s.mem, f, i) / PAGE_SIZE))
    else
      var (pages, a) := Alloc(s.pages, 1);
      if a == 0 then (s.(pages := pages), None)
      else
        var m := SetWord(s.mem[a / PAGE_SIZE := ZeroFrame()], f, i, TableEntry(a / PAGE_SIZE));
        (Vm(m, s.root, pages), Some(Word(m, f, i) / PAGE_SIZE))
  }

  function PageBase(phys: nat): (r: nat)
    ensures r % PAGE_SIZE == 0 && r <= phys < r + PAGE_SIZE
  {
    phys / PAGE_SIZE * PAGE_SIZE
  }

  // phys & ~0xFFF | flags & 0xFFF | PRESENT
  function LeafWord(phys: nat, flags: nat): (w: nat)
    ensures Present(w) && PageBase(w) == PageBase(phys)
  {
    LowFlags(flags % PAGE_SIZE);
    PageAnd(phys / PAGE_SIZE, Flagged(flags % PAGE_SIZE));
    phys / PAGE_SIZE * PAGE_SIZE + Flagged(flags % PAGE_SIZE)
  }

  // fl | PRESENT
  function Flagged(fl: nat): nat { if fl % 2 == 1 then fl else fl + 1 }

  lemma LowFlags(fl: nat)
    requires fl < PAGE_SIZE
    ensures Flagged(fl) % 2 == 1 && Flagged(fl) < PAGE_SIZE
  {
  }

  // A page number and an odd offset, put together
  lemma PageAnd(page: nat, low: nat)
    requires low % 2 == 1 && low < PAGE_SIZE
    ensures (page * PAGE_SIZE + low) / PAGE_SIZE == page && (page * PAGE_SIZE + low) % 2 == 1
  {
    ModUnique(page * PAGE_SIZE + low, PAGE_SIZE, page, low);
  }

  // The low twelve bits of a leaf are those of the flags, with bit 0 set; those of an entry that
  // hangs a table say present and writable.
  lemma LeafBits(phys: nat, flags: nat, fr: nat)
    ensures flags % 2 == 1 ==> LeafWord(phys, flags) % 4096 == flags % 4096
    ensures flags % 2 == 0 ==> LeafWord(phys, flags) % 4096 == flags % 4096 + 1
    ensures LeafWord(phys, flags) / 4096 == phys / 4096
    ensures TableEntry(fr) % 4096 == 3
  {
    var low := flags % PAGE_SIZE;
    SameParity(flags);
    LowFlags(low);
    ModUnique(phys / PAGE_SIZE * PAGE_SIZE + Flagged(low), PAGE_SIZE, phys / PAGE_SIZE, Flagged(low));
    ModUnique(fr * PAGE_SIZE + 3, PAGE_SIZE, fr, 3);
  }

  lemma SameParity(v: nat)
    ensures v % PAGE_SIZE % 2 == v % 2
  {
  }

  function Map(s: Vm, virt: nat, phys: nat, flags: nat): (r: (Vm, bool))
    requires s.pages.Valid()
    ensures r.0.pages.Valid() && r.0.root == s.root
  {
    var v := PageOf(virt);
    var (s1, pdpt) := WalkAlloc(s, s.root, v.i4);
    if pdpt.None? then (s1, false)
    else
      var (s2, pd) := WalkAlloc(s1, pdpt.value, v.i3);
      if pd.None? || Huge(Word(s2.mem, pd.value, v.i2)) then (s2, false)
      else
        var (s3, pt) := WalkAlloc(s2, pd.value, v.i2);
        if pt.None? then (s3, false)
        else (s3.(mem := SetWord(s3.mem, pt.value, v.i1, LeafWord(phys, flags))), true)
  }

  function Unmap(s: Vm, virt: nat): (Vm, bool) {
    var v := PageOf(virt);
    match PdAt(s.mem, s.root, v.i4, v.i3)
    case None => (s, false)
    case Some(pd) =>
      match Child(s.mem, Some(pd), v.i2, true)
      case None => (s, false)
      case Some(pt) => (s.(mem := SetWord(s.mem, pt, v.i1, 0)), true)
  }

  // ----- hanging a table -----

  // m' is m with the zeroed frame fr hung at entry i of the table at slot t.
  ghost predicate Hung(s: Vm, t: Slot, i: nat, fr: nat, m': Frames) {
    && !t.Pt? && i < ENTRIES && fr in s.pages.free
    && FrameAt(s.mem, s.root, t).Some?
    && !Present(Word(s.mem, FrameAt(s.mem, s.root, t).value, i))
    && (t.Pd? ==> !Huge(Word(s.mem, FrameAt(s.mem, s.root, t).value, i)))
    && m' == SetWord(s.mem[fr := ZeroFrame()], FrameAt(s.mem, s.root, t).value, i, TableEntry(fr))
  }

  lemma HungWord(s: Vm, t: Slot, i: nat, fr: nat, m': Frames, u: Slot, j: nat)
    requires Inv(s) && Hung(s, t, i, fr, m') && FrameAt(s.mem, s.root, u).Some?
    ensures var g := FrameAt(s.mem, s.root, u).value;
      Word(m', g, j) == if u == t && j == i then TableEntry(fr) else Word(s.mem, g, j)
  {
    assert TableOk(s, t) && TableOk(s, u) && OneParent(s, t, u);
  }

  // Only the new table's slot changes: it was empty and now holds fr.
  lemma {:induction false} HungFrames(s: Vm, t: Slot, i: nat, fr: nat, m': Frames, u: Slot)
    requires Inv(s) && Hung(s, t, i, fr, m')
    ensures FrameAt(s.mem, s.root, ChildSlot(t, i)) == None
    ensures FrameAt(m', s.root, u) == if u == ChildSlot(t, i) then Some(fr) else FrameAt(s.mem, s.root, u)
    decreases if u.Top? then 0 else if u.Pdpt? then 1 else if u.Pd? then 2 else 3
  {
    assert TableOk(s, t);
    match u
    case Top =>
    case Pdpt(a) => HungChild(s, t, i, fr, m', Top, a);
    case Pd(a, b) => HungFrames(s, t, i, fr, m', Pdpt(a)); HungChild(s, t, i, fr, m', Pdpt(a), b);
    case Pt(a, b, c) => HungFrames(s, t, i, fr, m', Pd(a, b)); HungChild(s, t, i, fr, m', Pd(a, b), c);
  }

  lemma HungChild(s: Vm, t: Slot, i: nat, fr: nat, m': Frames, p: Slot, j: nat)
    requires Inv(s) && Hung(s, t, i, fr, m') && !p.Pt?
    requires FrameAt(m', s.root, p) == if p == ChildSlot(t, i) then Some(fr) else FrameAt(s.mem, s.root, p)
    requires p == ChildSlot(t, i) ==> FrameAt(s.mem, s.root, p) == None
    ensures FrameAt(m', s.root, ChildSlot(p, j)) ==
      if ChildSlot(p, j) == ChildSlot(t, i) then Some(fr) else FrameAt(s.mem, s.root, ChildSlot(p, j))
  {
    assert TableOk(s, t);
    if p == ChildSlot(t, i) {
      assert FrameAt(s.mem, s.root, t).value != fr;
      assert Word(m', fr, j) == 0;
    } else if FrameAt(s.mem, s.root, p).Some? {
      HungWord(s, t, i, fr, m', p, j);
      }
  }

  lemma HungTranslate(s: Vm, t: Slot, i: nat, fr: nat, m': Frames, virt: nat)
    requires Inv(s) && Hung(s, t, i, fr, m')
    ensures Translate(m', s.root, virt) == Translate(s.mem, s.root, virt)
    ensures HugeAt(m', s.root, virt) == HugeAt(s.mem, s.root, virt)
  {
    var v := PageOf(virt);
    var pd, pt := Pd(v.i4, v.i3), Pt(v.i4, v.i3, v.i2);
    HungFrames(s, t, i, fr, m', pd);
    HungFrames(s, t, i, fr, m', pt);
    assert TableOk(s, t);
    assert FrameAt(s.mem, s.root, t).value != fr;
    if FrameAt(s.mem, s.root, pd).Some? { HungWord(s, t, i, fr, m', pd, v.i2); }
    if FrameAt(s.mem, s.root, pt).Some? { HungWord(s, t, i, fr, m', pt, v.i1); }
  }

  // The page lies in a 2 MiB huge mapping.
  ghost predicate HugeAt(m: Frames, root: nat, virt: nat) {
    var v := PageOf(virt);
    var pd := PdAt(m, root, v.i4, v.i3);
    pd.Some? && Huge(Word(m, pd.value, v.i2))
  }

  lemma HungInv(s: Vm, t: Slot, i: nat, fr: nat, m': Frames)
    requires Inv(s) && Hung(s, t, i, fr, m')
    ensures Inv(Vm(m', s.root, s.pages.(free := s.pages.free - {fr})))
  {
    var s' := Vm(m', s.root, s.pages.(free := s.pages.free - {fr}));
    var c := ChildSlot(t, i);
    forall u ensures TableOk(s', u) {
      HungFrames(s, t, i, fr, m', u);
      assert TableOk(s, t) && TableOk(s, u);
      }
    forall u, w ensures OneParent(s', u, w) {
      HungFrames(s, t, i, fr, m', u);
      HungFrames(s, t, i, fr, m', w);
      assert TableOk(s, u) && TableOk(s, w) && OneParent(s, u, w);
    }
  }

  // Two states translate every address alike.
  ghost predicate SameView(s: Vm, s': Vm) {
    forall virt: nat ::
      && Translate(s'.mem, s'.root, virt) == Translate(s.mem, s.root, virt)
      && HugeAt(s'.mem, s'.root, virt) == HugeAt(s.mem, s.root, virt)
  }

  // Descending through an entry keeps the tree and every translation; it fails exactly when
  // the entry is empty and no frame is free.
  lemma WalkAllocOk(s: Vm, t: Slot, i: nat)
    requires Inv(s) && !t.Pt? && i < ENTRIES && FrameAt(s.mem, s.root, t).Some?
    requires t.Pd? ==> !Huge(Word(s.mem, FrameAt(s.mem, s.root, t).value, i))
    ensures var (s', r) := WalkAlloc(s, FrameAt(s.mem, s.root, t).value, i);
      && Inv(s') && SameView(s, s') && s'.pages.total == s.pages.total
      && (forall u :: FrameAt(s'.mem, s.root, u) == if u == ChildSlot(t, i) then r else FrameAt(s.mem, s.root, u))
      && (r.None? <==> FrameAt(s.mem, s.root, ChildSlot(t, i)).None? && s.pages.free == {})
      && |s'.pages.free| == |s.pages.free| - (if FrameAt(s.mem, s.root, ChildSlot(t, i)).None? && r.Some? then 1 else 0)
      && s'.pages.free <= s.pages.free
      && (FrameAt(s.mem, s.root, ChildSlot(t, i)).None? && r.Some? ==> r.value in s.pages.free)
  {
    var f := FrameAt(s.mem, s.root, t).value;
    if !Present(Word(s.mem, f, i)) {
      AllocOne(s.pages);
      var (pages, a) := Alloc(s.pages, 1);
      if a != 0 {
        var fr, m' := a / PAGE_SIZE, WalkAlloc(s, f, i).0.mem;
        assert a == fr * PAGE_SIZE;
        assert Hung(s, t, i, fr, m');
        HungWord(s, t, i, fr, m', t, i);
        HungInv(s, t, i, fr, m');
        forall virt: nat { HungTranslate(s, t, i, fr, m', virt); }
        forall u { HungFrames(s, t, i, fr, m', u); }
      }
    }
  }

  // ----- writing a leaf -----

  // The word at i1 of the page table for v is set to w.
  ghost predicate LeafSet(s: Vm, v: VPage, w: nat, m': Frames) {
    && v.i1 < ENTRIES
    && PtAt(s.mem, s.root, v.i4, v.i3, v.i2).Some?
    && m' == SetWord(s.mem, PtAt(s.mem, s.root, v.i4, v.i3, v.i2).value, v.i1, w)
  }

  lemma LeafWords(s: Vm, v: VPage, w: nat, m': Frames, u: Slot, j: nat)
    requires Inv(s) && LeafSet(s, v, w, m') && FrameAt(s.mem, s.root, u).Some?
    ensures var g := FrameAt(s.mem, s.root, u).value;
      Word(m', g, j) == if u == Pt(v.i4, v.i3, v.i2) && j == v.i1 then w else Word(s.mem, g, j)
  {
    var t := Pt(v.i4, v.i3, v.i2);
    assert TableOk(s, t) && TableOk(s, u) && OneParent(s, t, u);
  }

  lemma LeafFrames(s: Vm, v: VPage, w: nat, m': Frames, u: Slot)
    requires Inv(s) && LeafSet(s, v, w, m')
    ensures FrameAt(m', s.root, u) == FrameAt(s.mem, s.root, u)
  {
    match u
    case Top =>
    case Pdpt(a) => LeafWords(s, v, w, m', Top, a);
    case Pd(a, b) =>
      LeafWords(s, v, w, m', Top, a);
      if PdptAt(s.mem, s.root, a).Some? { LeafWords(s, v, w, m', Pdpt(a), b); }
    case Pt(a, b, c) =>
      LeafWords(s, v, w, m', Top, a);
      if PdptAt(s.mem, s.root, a).Some? { LeafWords(s, v, w, m', Pdpt(a), b); }
      if PdAt(s.mem, s.root, a, b).Some? { LeafWords(s, v, w, m', Pd(a, b), c); }
  }

  lemma LeafInv(s: Vm, v: VPage, w: nat, m': Frames)
    requires Inv(s) && LeafSet(s, v, w, m')
    ensures Inv(s.(mem := m'))
  {
    var s' := s.(mem := m');
    var t := Pt(v.i4, v.i3, v.i2);
    forall u ensures TableOk(s', u) {
      LeafFrames(s, v, w, m', u);
      assert TableOk(s, u) && TableOk(s, t) && OneParent(s, t, u);
    }
    forall u, x ensures OneParent(s', u, x) {
      LeafFrames(s, v, w, m', u);
      LeafFrames(s, v, w, m', x);
      assert OneParent(s, u, x);
    }
  }

  lemma LeafTranslate(s: Vm, v: VPage, w: nat, m': Frames, virt: nat)
    requires Inv(s) && LeafSet(s, v, w, m')
    ensures HugeAt(m', s.root, virt) == HugeAt(s.mem, s.root, virt)
    ensures Translate(m', s.root, virt) ==
      if PageOf(virt) != v then Translate(s.mem, s.root, virt)
      else if Present(w) then Some(PageBase(w) + virt % PAGE_SIZE) else None
  {
    var p := PageOf(virt);
    LeafFrames(s, v, w, m', Pd(p.i4, p.i3));
    LeafFrames(s, v, w, m', Pt(p.i4, p.i3, p.i2));
    if PdAt(s.mem, s.root, p.i4, p.i3).Some? { LeafWords(s, v, w, m', Pd(p.i4, p.i3), p.i2); }
    if PtAt(s.mem, s.root, p.i4, p.i3, p.i2).Some? { LeafWords(s, v, w, m', Pt(p.i4, p.i3, p.i2), p.i1); }
  }

  // ----- what map and unmap promise -----

  // The page translates to the physical page at base (or to nothing) in s'; every other
  // address translates as in s.
  ghost predicate Updated(s: Vm, s': Vm, page: VPage, base: Option<nat>) {
    forall u: nat ::
      && Translate(s'.mem, s'.root, u) ==
           (if PageOf(u) != page then Translate(s.mem, s.root, u)
            else if base.Some? then Some(base.value + u % PAGE_SIZE) else None)
      && HugeAt(s'.mem, s'.root, u) == HugeAt(s.mem, s.root, u)
  }

  // Tables that a mapping of virt would have to hang
  ghost function Missing(s: Vm, virt: nat): nat {
    var v := PageOf(virt);
    (if PdptAt(s.mem, s.root, v.i4).None? then 1 else 0)
    + (if PdAt(s.mem, s.root, v.i4, v.i3).None? then 1 else 0)
    + (if PtAt(s.mem, s.root, v.i4, v.i3, v.i2).None? then 1 else 0)
  }

  // Mapping succeeds exactly when the page is not covered by a huge page and the free frames
  // suffice for the missing tables. On success the page translates to the physical page given
  // and every other page as before; on failure, even halfway, no translation changes.
  lemma MapRefines(s: Vm, virt: nat, phys: nat, flags: nat)
    requires Inv(s)
    ensures var (s', ok) := Map(s, virt, phys, flags);
      && Inv(s') && s'.pages.total == s.pages.total
      && (ok <==> !HugeAt(s.mem, s.root, virt) && Missing(s, virt) <= |s.pages.free|)
      && (!ok ==> SameView(s, s'))
      && (ok ==> Updated(s, s', PageOf(virt), Some(PageBase(phys))))
  {
    var v := PageOf(virt);
    WalkAllocOk(s, Top, v.i4);
    var (s1, pdpt) := WalkAlloc(s, s.root, v.i4);
    if pdpt.Some? {
      assert FrameAt(s1.mem, s1.root, Pdpt(v.i4)) == pdpt;
      WalkAllocOk(s1, Pdpt(v.i4), v.i3);
      var (s2, pd) := WalkAlloc(s1, pdpt.value, v.i3);
      if pd.Some? {
        assert FrameAt(s2.mem, s2.root, Pd(v.i4, v.i3)) == pd;
        assert HugeAt(s2.mem, s2.root, virt) == HugeAt(s1.mem, s1.root, virt) == HugeAt(s.mem, s.root, virt);
        if !Huge(Word(s2.mem, pd.value, v.i2)) {
          MapLeaf(s2, virt, phys, flags);
          assert FrameAt(s1.mem, s1.root, Pt(v.i4, v.i3, v.i2)) == FrameAt(s.mem, s.root, Pt(v.i4, v.i3, v.i2));
          assert FrameAt(s2.mem, s2.root, Pt(v.i4, v.i3, v.i2)) == FrameAt(s1.mem, s1.root, Pt(v.i4, v.i3, v.i2));
        }
      }
    }
  }

  // The last two steps of a mapping, once the page directory is there
  lemma MapLeaf(s: Vm, virt: nat, phys: nat, flags: nat)
    requires Inv(s) && !HugeAt(s.mem, s.root, virt)
    requires PdAt(s.mem, s.root, PageOf(virt).i4, PageOf(virt).i3).Some?
    ensures var v := PageOf(virt);
      var (s3, pt) := WalkAlloc(s, PdAt(s.mem, s.root, v.i4, v.i3).value, v.i2);
      && Inv(s3) && s3.pages.total == s.pages.total
      && (pt.None? <==> PtAt(s.mem, s.root, v.i4, v.i3, v.i2).None? && s.pages.free == {})
      && (pt.None? ==> SameView(s, s3))
      && (pt.Some? ==>
            var s4 := s3.(mem := SetWord(s3.mem, pt.value, v.i1, LeafWord(phys, flags)));
            && Inv(s4) && Updated(s, s4, v, Some(PageBase(phys))))
  {
    var v := PageOf(virt);
    WalkAllocOk(s, Pd(v.i4, v.i3), v.i2);
    var (s3, pt) := WalkAlloc(s, PdAt(s.mem, s.root, v.i4, v.i3).value, v.i2);
    if pt.Some? {
      assert FrameAt(s3.mem, s3.root, Pt(v.i4, v.i3, v.i2)) == pt;
      var w := LeafWord(phys, flags);
      var m' := SetWord(s3.mem, pt.value, v.i1, w);
      LeafInv(s3, v, w, m');
      LeafUpdated(s, s3, v, w, m');
    }
  }

  lemma LeafUpdated(s: Vm, s3: Vm, v: VPage, w: nat, m': Frames)
    requires SameView(s, s3) && Inv(s3) && LeafSet(s3, v, w, m')
    ensures Updated(s, s3.(mem := m'), v, if Present(w) then Some(PageBase(w)) else None)
  {
    forall u: nat { LeafTranslate(s3, v, w, m', u); }
  }

  // Unmapping succeeds exactly when the page table is there; then the page translates to
  // nothing and every other page as before. No frame is taken or returned.
  lemma UnmapRefines(s: Vm, virt: nat)
    requires Inv(s)
    ensures var (s', ok) := Unmap(s, virt);
      && Inv(s') && s'.pages == s.pages && s'.root == s.root
      && (ok <==> PtAt(s.mem, s.root, PageOf(virt).i4, PageOf(virt).i3, PageOf(virt).i2).Some?)
      && (!ok ==> s' == s && (Translate(s.mem, s.root, virt).None? || HugeAt(s.mem, s.root, virt)))
      && (ok ==> Updated(s, s', PageOf(virt), None))
  {
    var v := PageOf(virt);
    var (s', ok) := Unmap(s, virt);
    if ok {
      LeafInv(s, v, 0, s'.mem);
      forall u: nat { LeafTranslate(s, v, 0, s'.mem, u); }
    }
  }

  // Mapping an untranslated page and unmapping it again restores the whole translation.
  lemma UnmapUndoesMap(s: Vm, virt: nat, phys: nat, flags: nat)
    requires Inv(s) && Translate(s.mem, s.root, virt).None?
    requires Map(s, virt, phys, flags).1
    ensures var s1 := Map(s, virt, phys, flags).0;
      Unmap(s1, virt).1 && SameView(s, Unmap(s1, virt).0)
  {
    MapRefines(s, virt, phys, flags);
    var s1 := Map(s, virt, phys, flags).0;
    UnmapRefines(s1, virt);
    forall u: nat ensures PageOf(u) == PageOf(virt) ==> Translate(s.mem, s.root, u).None? {
    }
  }

  // Two addresses lie on one page exactly when they agree on bits 12 to 47.
  lemma SamePage(u: nat, v: nat)
    ensures PageOf(u) == PageOf(v) <==> u / PAGE_SIZE % 0x10_0000_0000 == v / PAGE_SIZE % 0x10_0000_0000
  {
    PageDigits(u);
    PageDigits(v);
    SameDigits(PageOf(u), PageOf(v));
  }

  lemma OneDigit(a: nat, r: nat, b: nat, t: nat)
    requires r < 512 && t < 512
    ensures a * 512 + r == b * 512 + t <==> a == b && r == t
  {
  }

  // Four digits to the base 512 are determined by the number they make up.
  lemma SameDigits(p: VPage, q: VPage)
    requires p.i3 < 512 && p.i2 < 512 && p.i1 < 512 && q.i3 < 512 && q.i2 < 512 && q.i1 < 512
    ensures p == q <==>
      ((p.i4 * 512 + p.i3) * 512 + p.i2) * 512 + p.i1 == ((q.i4 * 512 + q.i3) * 512 + q.i2) * 512 + q.i1
  {
    var (x, y) := (p.i4 * 512 + p.i3, q.i4 * 512 + q.i3);
    OneDigit(p.i4, p.i3, q.i4, q.i3);
    OneDigit(x, p.i2, y, q.i2);
    OneDigit(x * 512 + p.i2, p.i1, y * 512 + q.i2, q.i1);
  }

  // The last digit to the base 512, and those before it
  lemma DigitSplit(x: nat, m: nat)
    requires m > 0
    ensures x % (512 * m) == x / 512 % m * 512 + x % 512
  {
    var y := x / 512;
    DigitSum(x, y, m, y / m, y % m, x % 512);
    ModUnique(x, 512 * m, y / m, y % m * 512 + x % 512);
  }

  lemma DigitSum(x: nat, y: nat, m: nat, d: nat, t: nat, r: nat)
    requires x == 512 * y + r && y == m * d + t && t < m && r < 512
    ensures x == d * (512 * m) + (t * 512 + r) && t * 512 + r < 512 * m
  {
    assert 512 * y == 512 * (m * d) + 512 * t;
  }

  lemma ShiftedPages(u: nat)
    ensures u / PAGE_SIZE / 512 == u / 0x20_0000 && u / 0x20_0000 / 512 == u / 0x4000_0000
    ensures u / 0x4000_0000 / 512 == u / 0x80_0000_0000
  {
  }

  lemma PageDigits(u: nat)
    ensures var p := PageOf(u);
      u / PAGE_SIZE % 0x10_0000_0000 == ((p.i4 * 512 + p.i3) * 512 + p.i2) * 512 + p.i1
  {
    ShiftedPages(u);
    DigitSplit(u / PAGE_SIZE, 0x800_0000);
    DigitSplit(u / 0x20_0000, 0x4_0000);
    DigitSplit(u / 0x4000_0000, 512);
  }

  // ----- boot -----

  // The tables boot.asm leaves: one chain down to a directory of 512 huge identity entries
  function BootFrames(pml4: nat, pdpt: nat, pd: nat): Frames {
    map[pml4 := SetSeq(ZeroFrame(), 0, TableEntry(pdpt)),
        pdpt := SetSeq(ZeroFrame(), 0, TableEntry(pd)),
        pd := seq(ENTRIES, i => i * HUGE_SIZE + 0x83)]
  }

  function SetSeq(z: seq<nat>, i: nat, w: nat): seq<nat>
    requires i < |z|
  {
    z[i := w]
  }

  ghost predicate BootState(s: Vm, pml4: nat, pdpt: nat, pd: nat) {
    && s.mem == BootFrames(pml4, pdpt, pd) && s.root == pml4
    && pml4 != pdpt && pml4 != pd && pdpt != pd
    && s.pages.Valid() && 0 !in s.pages.free
    && pml4 !in s.pages.free && pdpt !in s.pages.free && pd !in s.pages.free
  }

  ghost predicate IdentityLow(s: Vm) {
    forall v: nat :: v < LOW_GIB ==> Translate(s.mem, s.root, v) == Some(v) && HugeAt(s.mem, s.root, v)
  }

  lemma BootSlots(s: Vm, pml4: nat, pdpt: nat, pd: nat, u: Slot)
    requires BootState(s, pml4, pdpt, pd)
    ensures FrameAt(s.mem, s.root, u) ==
      match u
      case Top => Some(pml4)
      case Pdpt(a) => if a == 0 then Some(pdpt) else None
      case Pd(a, b) => if a == 0 && b == 0 then Some(pd) else None
      case Pt(a, b, c) => None
  {
    BootUpper(s, pml4, pdpt, pd);
    match u
    case Top =>
    case Pdpt(a) =>
    case Pd(a, b) =>
    case Pt(a, b, c) =>
      if a == 0 && b == 0 && c < ENTRIES { BootLeaf(pml4, pdpt, pd, c); }
  }

  lemma BootLeaf(pml4: nat, pdpt: nat, pd: nat, c: nat)
    requires pml4 != pd && pdpt != pd && c < ENTRIES
    ensures var w := c * HUGE_SIZE + 0x83;
      Word(BootFrames(pml4, pdpt, pd), pd, c) == w && Huge(w) && w - w % HUGE_SIZE == c * HUGE_SIZE
  {
  }

  lemma BootUpper(s: Vm, pml4: nat, pdpt: nat, pd: nat)
    requires BootState(s, pml4, pdpt, pd)
    ensures forall a: nat :: PdptAt(s.mem, s.root, a) == if a == 0 then Some(pdpt) else None
    ensures forall a: nat, b: nat :: PdAt(s.mem, s.root, a, b) == if a == 0 && b == 0 then Some(pd) else None
  {
  }

  lemma BootInv(s: Vm, pml4: nat, pdpt: nat, pd: nat)
    requires BootState(s, pml4, pdpt, pd)
    ensures Inv(s)
  {
    forall t ensures TableOk(s, t) {
      BootSlots(s, pml4, pdpt, pd, t);
    }
    forall t, u ensures OneParent(s, t, u) {
      BootSlots(s, pml4, pdpt, pd, t);
      BootSlots(s, pml4, pdpt, pd, u);
    }
  }

  lemma BootTranslate(s: Vm, pml4: nat, pdpt: nat, pd: nat, v: nat)
    requires BootState(s, pml4, pdpt, pd) && v < 0x1_0000_0000_0000
    ensures v < LOW_GIB ==> Translate(s.mem, s.root, v) == Some(v) && HugeAt(s.mem, s.root, v)
    ensures LOW_GIB <= v ==> Translate(s.mem, s.root, v) == None
  {
    var p := PageOf(v);
    BootSlots(s, pml4, pdpt, pd, Pd(p.i4, p.i3));
    LowPage(v);
    if v < LOW_GIB {
      BootLeaf(pml4, pdpt, pd, p.i2);
      assert p.i2 == v / HUGE_SIZE;
    }
  }

  // Boot leaves a tree that maps exactly the first GiB (of each 2^48 range), onto itself.
  lemma BootOk(s: Vm, pml4: nat, pdpt: nat, pd: nat)
    requires BootState(s, pml4, pdpt, pd)
    ensures Inv(s) && IdentityLow(s)
    ensures forall v: nat :: LOW_GIB <= v < 0x1_0000_0000_0000 ==> Translate(s.mem, s.root, v) == None
  {
    BootInv(s, pml4, pdpt, pd);
    forall v: nat | v < 0x1_0000_0000_0000 { BootTranslate(s, pml4, pdpt, pd, v); }
  }

  // Only the low 48 bits of an address matter to translation.
  lemma LowBits(v: nat)
    ensures var u := v % 0x1_0000_0000_0000;
      PageOf(u) == PageOf(v) && u % PAGE_SIZE == v % PAGE_SIZE && u % HUGE_SIZE == v % HUGE_SIZE
  {
    var u, k := v % 0x1_0000_0000_0000, v / 0x1_0000_0000_0000;
    DigitShift(u, 0x800_0000 * k, 0x1000, 512);
    DigitShift(u, 0x4_0000 * k, 0x20_0000, 512);
    DigitShift(u, 0x200 * k, 0x4000_0000, 512);
    DigitShift(u, k, 0x80_0000_0000, 512);
    DigitShift(u, 0x10_0000_0000 * k, 1, 0x1000);
    DigitShift(u, 0x800_0000 * k, 1, 0x20_0000);
  }

  // Adding a multiple of d * m changes no digit of weight d in base m.
  lemma DigitShift(u: nat, k: nat, d: nat, m: nat)
    requires d > 0 && m > 0
    ensures (u + d * m * k) / d % m == u / d % m
  {
    var q := u / d;
    DivShift(u, m * k, d);
    assert (u + d * m * k) / d == q + m * k by { assert d * m * k == d * (m * k); }
    ModShift(q, k, m);
  }

  lemma DivShift(u: nat, k: nat, d: nat)
    requires d > 0
    ensures (u + d * k) / d == u / d + k
  {
    assert u == u / d * d + u % d;
    assert (u / d + k) * d == u / d * d + d * k;
    ModUnique(u + d * k, d, u / d + k, u % d);
  }

  lemma ModShift(q: nat, k: nat, m: nat)
    requires m > 0
    ensures (q + m * k) % m == q % m
  {
    assert q == q / m * m + q % m;
    assert (q / m + k) * m == q / m * m + m * k;
    ModUnique(q + m * k, m, q / m + k, q % m);
  }

  lemma LowPage(u: nat)
    requires u < 0x1_0000_0000_0000
    ensures PageOf(u).i4 == 0 && PageOf(u).i3 == 0 <==> u < LOW_GIB
    ensures u < LOW_GIB ==> PageOf(u).i2 * HUGE_SIZE + PageOf(u).i1 * PAGE_SIZE + u % PAGE_SIZE == u
  {
    assert u / 0x20_0000 == u / 0x1000 / 512;
  }
}
