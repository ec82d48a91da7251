/** Which physical frames the memory manager can touch: it uses a frame's physical address as
    a pointer, so it reaches the frame only if the page tables map that address to itself. */
module Reach {
  import opened Bytes
  import opened Pages
  import opened Paging

  ghost predicate InReach(m: Frames, root: nat, f: nat) {
    Translate(m, root, f * PAGE_SIZE) == Some(f * PAGE_SIZE)
  }

  // table_walk_alloc on the table in frame f: the table is read, a new page zeroed, the entry
  // written and read again, each through the tables as they are by then.
  ghost predicate WalkReach(s: Vm, f: nat, i: nat)
    requires s.pages.Valid()
  {
    && InReach(s.mem, s.root, f)
    && (!Present(Word(s.mem, f, i)) ==>
          var fr := Alloc(s.pages, 1).1 / PAGE_SIZE;
          Alloc(s.pages, 1).1 != 0 ==>
            && InReach(s.mem, s.root, fr)
            && InReach(s.mem[fr := ZeroFrame()], s.root, f)
            && InReach(WalkAlloc(s, f, i).0.mem, s.root, f))
  }

  // No access of vmm_map_page misses the frame it is meant for.
  ghost predicate MapReach(s: Vm, virt: nat)
    requires s.pages.Valid()
  {
    var v := PageOf(virt);
    var (s1, pdpt) := WalkAlloc(s, s.root, v.i4);
    WalkReach(s, s.root, v.i4) && (pdpt.Some? ==> DirReach(s1, pdpt.value, v))
  }

  // The part of it below the PML4
  ghost predicate DirReach(s: Vm, pdpt: nat, v: VPage)
    requires s.pages.Valid()
  {
    var (s2, pd) := WalkAlloc(s, pdpt, v.i3);
    WalkReach(s, pdpt, v.i3) && (pd.Some? ==> InReach(s2.mem, s2.root, pd.value) && LeafReach(s2, pd.value, v))
  }

  // The part of it below the page directory
  ghost predicate LeafReach(s: Vm, pd: nat, v: VPage)
    requires s.pages.Valid()
  {
    !Huge(Word(s.mem, pd, v.i2)) ==>
      var (s3, pt) := WalkAlloc(s, pd, v.i2);
      WalkReach(s, pd, v.i2) && (pt.Some? ==> InReach(s3.mem, s3.root, pt.value))
  }

  // The tables on the way to a page
  ghost predicate PathReach(m: Frames, root: nat, virt: nat) {
    var v := PageOf(virt);
    && InReach(m, root, root)
    && FoundReach(m, root, PdptAt(m, root, v.i4)) && FoundReach(m, root, PdAt(m, root, v.i4, v.i3))
    && FoundReach(m, root, PtAt(m, root, v.i4, v.i3, v.i2))
  }

  ghost predicate FoundReach(m: Frames, root: nat, f: Option<nat>) { f.Some? ==> InReach(m, root, f.value) }

  ghost predicate TablesReach(s: Vm) {
    forall t :: FoundReach(s.mem, s.root, FrameAt(s.mem, s.root, t))
  }

  lemma TablesPath(s: Vm, virt: nat)
    requires TablesReach(s)
    ensures PathReach(s.mem, s.root, virt)
  {
    var v := PageOf(virt);
    assert FoundReach(s.mem, s.root, FrameAt(s.mem, s.root, Top));
    assert FoundReach(s.mem, s.root, FrameAt(s.mem, s.root, Pdpt(v.i4)));
    assert FoundReach(s.mem, s.root, FrameAt(s.mem, s.root, Pd(v.i4, v.i3)));
    assert FoundReach(s.mem, s.root, FrameAt(s.mem, s.root, Pt(v.i4, v.i3, v.i2)));
  }

  // ----- zeroing a free frame -----

  lemma ZeroWord(s: Vm, fr: nat, u: Slot, j: nat)
    requires Inv(s) && fr in s.pages.free && FrameAt(s.mem, s.root, u).Some?
    ensures var g := FrameAt(s.mem, s.root, u).value; Word(s.mem[fr := ZeroFrame()], g, j) == Word(s.mem, g, j)
  {
    assert TableOk(s, u);
  }

  lemma ZeroFrames(s: Vm, fr: nat, u: Slot)
    requires Inv(s) && fr in s.pages.free
    ensures FrameAt(s.mem[fr := ZeroFrame()], s.root, u) == FrameAt(s.mem, s.root, u)
  {
    match u
    case Top =>
    case Pdpt(a) => ZeroWord(s, fr, Top, a);
    case Pd(a, b) =>
      ZeroWord(s, fr, Top, a);
      if PdptAt(s.mem, s.root, a).Some? { ZeroWord(s, fr, Pdpt(a), b); }
    case Pt(a, b, c) =>
      ZeroWord(s, fr, Top, a);
      if PdptAt(s.mem, s.root, a).Some? { ZeroWord(s, fr, Pdpt(a), b); }
      if PdAt(s.mem, s.root, a, b).Some? { ZeroWord(s, fr, Pd(a, b), c); }
  }

  lemma ZeroTranslate(s: Vm, fr: nat, virt: nat)
    requires Inv(s) && fr in s.pages.free
    ensures Translate(s.mem[fr := ZeroFrame()], s.root, virt) == Translate(s.mem, s.root, virt)
  {
    var p := PageOf(virt);
    ZeroFrames(s, fr, Pd(p.i4, p.i3));
    ZeroFrames(s, fr, Pt(p.i4, p.i3, p.i2));
    if PdAt(s.mem, s.root, p.i4, p.i3).Some? { ZeroWord(s, fr, Pd(p.i4, p.i3), p.i2); }
    if PtAt(s.mem, s.root, p.i4, p.i3, p.i2).Some? { ZeroWord(s, fr, Pt(p.i4, p.i3, p.i2), p.i1); }
  }

  // ----- the frames a map call takes -----

  // The frames that n allocations of one page take, or fewer if the pages run out
  function Taken(pages: Pages, n: nat): (r: set<nat>)
    requires pages.Valid()
    decreases n
  {
    var (pages', a) := Alloc(pages, 1);
    if n == 0 || a == 0 then {} else {a / PAGE_SIZE} + Taken(pages', n - 1)
  }

  lemma {:induction false} TakenFree(pages: Pages, n: nat)
    requires pages.Valid() && 0 !in pages.free
    ensures Taken(pages, n) <= pages.free
    decreases n
  {
    if n == 0 {
    } else {
      AllocOne(pages);
      TakenFree(Alloc(pages, 1).0, n - 1);
    }
  }

  // All of them are in reach.
  ghost predicate AllIn(s: Vm, n: nat)
    requires s.pages.Valid()
  {
    forall p :: p in Taken(s.pages, n) ==> InReach(s.mem, s.root, p)
  }

  // The tables a map call hangs if the frames suffice: none under a huge page
  ghost function Needed(s: Vm, virt: nat): nat { if HugeAt(s.mem, s.root, virt) then 0 else Missing(s, virt) }

  lemma SameReach(s: Vm, s': Vm, f: nat)
    requires SameView(s, s')
    ensures InReach(s'.mem, s'.root, f) <==> InReach(s.mem, s.root, f)
  {
  }

  // One descent: it is in reach if the table is and so is the frame it takes, if any.
  lemma WalkReachIs(s: Vm, t: Slot, i: nat)
    requires Inv(s) && !t.Pt? && i < ENTRIES && FrameAt(s.mem, s.root, t).Some?
    requires t.Pd? ==> !Huge(Word(s.mem, FrameAt(s.mem, s.root, t).value, i))
    requires InReach(s.mem, s.root, FrameAt(s.mem, s.root, t).value)
    ensures WalkReach(s, FrameAt(s.mem, s.root, t).value, i) <==>
      (FrameAt(s.mem, s.root, ChildSlot(t, i)).None? ==> AllIn(s, 1))
  {
    var f := FrameAt(s.mem, s.root, t).value;
    WalkAllocOk(s, t, i);
    AllocOne(s.pages);
    var a := Alloc(s.pages, 1).1;
    assert Taken(s.pages, 1) == if a == 0 then {} else {a / PAGE_SIZE} + Taken(Alloc(s.pages, 1).0, 0);
    if a != 0 {
      ZeroTranslate(s, a / PAGE_SIZE, f * PAGE_SIZE);
      SameReach(s, WalkAlloc(s, f, i).0, f);
    }
  }

  lemma TablesAfter(s: Vm, t: Slot, i: nat)
    requires Inv(s) && !t.Pt? && i < ENTRIES && FrameAt(s.mem, s.root, t).Some? && TablesReach(s)
    requires t.Pd? ==> !Huge(Word(s.mem, FrameAt(s.mem, s.root, t).value, i))
    ensures var (s', r) := WalkAlloc(s, FrameAt(s.mem, s.root, t).value, i);
      FoundReach(s.mem, s.root, r) ==> TablesReach(s')
  {
    var (s', r) := WalkAlloc(s, FrameAt(s.mem, s.root, t).value, i);
    WalkAllocOk(s, t, i);
    if FoundReach(s.mem, s.root, r) {
      forall u ensures FoundReach(s'.mem, s'.root, FrameAt(s'.mem, s'.root, u)) {
        assert FoundReach(s.mem, s.root, FrameAt(s.mem, s.root, u));
        if FrameAt(s'.mem, s'.root, u).Some? { SameReach(s, s', FrameAt(s'.mem, s'.root, u).value); }
      }
    }
  }

  // The frame taken by a descent and those taken afterwards
  lemma TakenStep(s: Vm, s': Vm, r: Option<nat>, n: nat)
    requires s.pages.Valid() && 0 !in s.pages.free && SameView(s, s') && s'.pages == Alloc(s.pages, 1).0
    requires r == if Alloc(s.pages, 1).1 == 0 then None else Some(Alloc(s.pages, 1).1 / PAGE_SIZE)
    ensures r.None? ==> AllIn(s, n)
    ensures r.Some? ==> s'.pages.Valid() && (AllIn(s, n + 1) <==> InReach(s.mem, s.root, r.value) && AllIn(s', n))
    ensures AllIn(s, 1) <==> FoundReach(s.mem, s.root, r)
  {
    AllocOne(s.pages);
    forall p { SameReach(s, s', p); }
    var a := Alloc(s.pages, 1).1;
    assert Taken(s.pages, n + 1) == if a == 0 then {} else {a / PAGE_SIZE} + Taken(s'.pages, n);
    assert Taken(s.pages, 1) == if a == 0 then {} else {a / PAGE_SIZE} + Taken(s'.pages, 0);
  }

  // One level of a map call: what it takes is in reach, and so is what the levels below take.
  lemma Level(s: Vm, t: Slot, i: nat, n: nat)
    requires Inv(s) && TablesReach(s) && !t.Pt? && i < ENTRIES && FrameAt(s.mem, s.root, t).Some?
    requires t.Pd? ==> !Huge(Word(s.mem, FrameAt(s.mem, s.root, t).value, i))
    ensures var f := FrameAt(s.mem, s.root, t).value;
      var ((s', r), c) := (WalkAlloc(s, f, i), FrameAt(s.mem, s.root, ChildSlot(t, i)));
      && (c.Some? ==> r == c && WalkReach(s, f, i) && TablesReach(s') && s' == s)
      && (c.None? ==>
            && (r.None? ==> WalkReach(s, f, i) && AllIn(s, n + 1))
            && (r.Some? ==> (AllIn(s, n + 1) <==> WalkReach(s, f, i) && AllIn(s', n))
                            && (WalkReach(s, f, i) ==> TablesReach(s'))))
  {
    var f := FrameAt(s.mem, s.root, t).value;
    var (s', r) := WalkAlloc(s, f, i);
    assert FoundReach(s.mem, s.root, FrameAt(s.mem, s.root, t));
    WalkAllocOk(s, t, i);
    WalkReachIs(s, t, i);
    TablesAfter(s, t, i);
    if FrameAt(s.mem, s.root, ChildSlot(t, i)).None? {
      TookOne(s, t, i);
      TakenStep(s, s', r, n);
    } else {
      assert FoundReach(s.mem, s.root, FrameAt(s.mem, s.root, ChildSlot(t, i)));
    }
  }

  lemma TookOne(s: Vm, t: Slot, i: nat)
    requires Inv(s) && !t.Pt? && i < ENTRIES && FrameAt(s.mem, s.root, t).Some?
    requires t.Pd? ==> !Huge(Word(s.mem, FrameAt(s.mem, s.root, t).value, i))
    requires FrameAt(s.mem, s.root, ChildSlot(t, i)).None?
    ensures var (s', r) := WalkAlloc(s, FrameAt(s.mem, s.root, t).value, i);
      && s'.pages == Alloc(s.pages, 1).0
      && r == if Alloc(s.pages, 1).1 == 0 then None else Some(Alloc(s.pages, 1).1 / PAGE_SIZE)
  {
    var f, a := FrameAt(s.mem, s.root, t).value, Alloc(s.pages, 1).1;
    AllocOne(s.pages);
    assert TableOk(s, t);
    if a != 0 {
      var m := s.mem[a / PAGE_SIZE := ZeroFrame()];
      assert Word(SetWord(m, f, i, TableEntry(a / PAGE_SIZE)), f, i) == TableEntry(a / PAGE_SIZE);
    }
  }

  lemma LeafExact(s: Vm, pd: nat, virt: nat)
    requires Inv(s) && TablesReach(s) && PdAt(s.mem, s.root, PageOf(virt).i4, PageOf(virt).i3) == Some(pd)
    ensures var v := PageOf(virt);
      LeafReach(s, pd, v) <==>
      AllIn(s, if HugeAt(s.mem, s.root, virt) || PtAt(s.mem, s.root, v.i4, v.i3, v.i2).Some? then 0 else 1)
  {
    var v := PageOf(virt);
    var t := Pd(v.i4, v.i3);
    if !Huge(Word(s.mem, pd, v.i2)) {
      Level(s, t, v.i2, 0);
      var (s3, pt) := WalkAlloc(s, pd, v.i2);
      WalkAllocOk(s, t, v.i2);
      if pt.Some? && TablesReach(s3) {
        assert FoundReach(s3.mem, s3.root, FrameAt(s3.mem, s3.root, ChildSlot(t, v.i2)));
      }
    }
  }

  lemma DirExact(s: Vm, pdpt: nat, virt: nat)
    requires Inv(s) && TablesReach(s) && PdptAt(s.mem, s.root, PageOf(virt).i4) == Some(pdpt)
    ensures DirReach(s, pdpt, PageOf(virt)) <==> AllIn(s, Needed(s, virt))
  {
    var v := PageOf(virt);
    var t := Pdpt(v.i4);
    Level(s, t, v.i3, 1);
    WalkAllocOk(s, t, v.i3);
    var (s2, pd) := WalkAlloc(s, pdpt, v.i3);
    if pd.Some? && WalkReach(s, pdpt, v.i3) {
      assert FrameAt(s2.mem, s2.root, ChildSlot(t, v.i3)) == pd;
      assert FoundReach(s2.mem, s2.root, FrameAt(s2.mem, s2.root, ChildSlot(t, v.i3)));
      LeafExact(s2, pd.value, virt);
      assert HugeAt(s2.mem, s2.root, virt) == HugeAt(s.mem, s.root, virt);
      assert FrameAt(s2.mem, s2.root, Pt(v.i4, v.i3, v.i2)) == FrameAt(s.mem, s.root, Pt(v.i4, v.i3, v.i2));
    }
  }

  // A map call touches only frames it means to touch exactly if the frames it has to take for
  // missing tables are in reach; a caller can look both up.
  lemma MapReachExact(s: Vm, virt: nat)
    requires Inv(s) && TablesReach(s)
    ensures MapReach(s, virt) <==> AllIn(s, Needed(s, virt))
  {
    var v := PageOf(virt);
    Level(s, Top, v.i4, 2);
    WalkAllocOk(s, Top, v.i4);
    var (s1, pdpt) := WalkAlloc(s, s.root, v.i4);
    if pdpt.Some? && WalkReach(s, s.root, v.i4) {
      assert FrameAt(s1.mem, s1.root, ChildSlot(Top, v.i4)) == pdpt;
      DirExact(s1, pdpt.value, virt);
      assert HugeAt(s1.mem, s1.root, virt) == HugeAt(s.mem, s.root, virt);
      assert FrameAt(s1.mem, s1.root, Pt(v.i4, v.i3, v.i2)) == FrameAt(s.mem, s.root, Pt(v.i4, v.i3, v.i2));
      assert FrameAt(s1.mem, s1.root, Pd(v.i4, v.i3)) == FrameAt(s.mem, s.root, Pd(v.i4, v.i3));
    }
  }

  // ----- frames below 1 GiB -----

  predicate Low(f: nat) { f * PAGE_SIZE < LOW_GIB }

  // All tables, and all frames they could be made in, lie below 1 GiB.
  ghost predicate AllLow(s: Vm) {
    && (forall t :: FrameAt(s.mem, s.root, t).Some? ==> Low(FrameAt(s.mem, s.root, t).value))
    && (forall p :: p in s.pages.free ==> Low(p))
  }

  // As long as the first GiB maps to itself, nothing then is out of reach.
  lemma LowReach(s: Vm, virt: nat)
    requires Inv(s) && IdentityLow(s) && AllLow(s)
    ensures TablesReach(s) && PathReach(s.mem, s.root, virt) && MapReach(s, virt)
  {
    forall t ensures FoundReach(s.mem, s.root, FrameAt(s.mem, s.root, t)) {}
    TablesPath(s, virt);
    MapReachExact(s, virt);
    TakenFree(s.pages, Needed(s, virt));
    assert forall p :: p in Taken(s.pages, Needed(s, virt)) ==> p in s.pages.free && Low(p);
  }

  lemma WalkLow(s: Vm, t: Slot, i: nat)
    requires Inv(s) && !t.Pt? && i < ENTRIES && FrameAt(s.mem, s.root, t).Some? && AllLow(s)
    requires t.Pd? ==> !Huge(Word(s.mem, FrameAt(s.mem, s.root, t).value, i))
    ensures AllLow(WalkAlloc(s, FrameAt(s.mem, s.root, t).value, i).0)
  {
    var (s', r) := WalkAlloc(s, FrameAt(s.mem, s.root, t).value, i);
    WalkAllocOk(s, t, i);
    forall u | FrameAt(s'.mem, s'.root, u).Some? ensures Low(FrameAt(s'.mem, s'.root, u).value) {
      if u == ChildSlot(t, i) { assert FrameAt(s.mem, s.root, u).Some? ==> r == FrameAt(s.mem, s.root, u); }
    }
  }

  lemma MapLow(s: Vm, virt: nat, phys: nat, flags: nat)
    requires Inv(s) && AllLow(s)
    ensures AllLow(Map(s, virt, phys, flags).0)
  {
    var v := PageOf(virt);
    WalkAllocOk(s, Top, v.i4);
    WalkLow(s, Top, v.i4);
    var (s1, pdpt) := WalkAlloc(s, s.root, v.i4);
    if pdpt.Some? {
      assert FrameAt(s1.mem, s1.root, Pdpt(v.i4)) == pdpt;
      WalkAllocOk(s1, Pdpt(v.i4), v.i3);
      WalkLow(s1, Pdpt(v.i4), v.i3);
      var (s2, pd) := WalkAlloc(s1, pdpt.value, v.i3);
      if pd.Some? {
        assert FrameAt(s2.mem, s2.root, Pd(v.i4, v.i3)) == pd;
        if !Huge(Word(s2.mem, pd.value, v.i2)) { MapLeafLow(s2, pd.value, v, LeafWord(phys, flags)); }
      }
    }
  }

  lemma MapLeafLow(s: Vm, pd: nat, v: VPage, w: nat)
    requires Inv(s) && AllLow(s) && PdAt(s.mem, s.root, v.i4, v.i3) == Some(pd) && v.i2 < ENTRIES && v.i1 < ENTRIES
    requires !Huge(Word(s.mem, pd, v.i2))
    ensures var (s3, pt) := WalkAlloc(s, pd, v.i2);
      AllLow(s3) && (pt.Some? ==> AllLow(s3.(mem := SetWord(s3.mem, pt.value, v.i1, w))))
  {
    var t := Pd(v.i4, v.i3);
    WalkAllocOk(s, t, v.i2);
    WalkLow(s, t, v.i2);
    var (s3, pt) := WalkAlloc(s, pd, v.i2);
    if pt.Some? {
      assert FrameAt(s3.mem, s3.root, ChildSlot(t, v.i2)) == pt;
      LeafLow(s3, v, w, SetWord(s3.mem, pt.value, v.i1, w));
    }
  }

  lemma LeafLow(s: Vm, v: VPage, w: nat, m': Frames)
    requires Inv(s) && AllLow(s) && LeafSet(s, v, w, m')
    ensures AllLow(s.(mem := m'))
  {
    forall t | FrameAt(m', s.root, t).Some? ensures Low(FrameAt(m', s.root, t).value) { LeafFrames(s, v, w, m', t); }
  }

  lemma UnmapLow(s: Vm, virt: nat)
    requires Inv(s) && AllLow(s)
    ensures AllLow(Unmap(s, virt).0)
  {
    if Unmap(s, virt).1 { LeafLow(s, PageOf(virt), 0, Unmap(s, virt).0.mem); }
  }

  // ----- frames above -----

  // From the boot tables a map call touches only what it means to exactly if it takes no
  // frame at or above 1 GiB.
  lemma BootReachExact(s: Vm, pml4: nat, pdpt: nat, pd: nat, virt: nat)
    requires BootState(s, pml4, pdpt, pd) && Low(pml4) && Low(pdpt) && Low(pd)
    requires s.pages.total * PAGE_SIZE <= 0x1_0000_0000_0000
    ensures MapReach(s, virt) <==> forall p :: p in Taken(s.pages, Needed(s, virt)) ==> Low(p)
  {
    BootOk(s, pml4, pdpt, pd);
    forall t ensures FoundReach(s.mem, s.root, FrameAt(s.mem, s.root, t)) { BootSlots(s, pml4, pdpt, pd, t); }
    MapReachExact(s, virt);
    TakenFree(s.pages, Needed(s, virt));
    forall p | p in Taken(s.pages, Needed(s, virt)) ensures InReach(s.mem, s.root, p) <==> Low(p) {
      assert p in s.pages.free && p < s.pages.total;
      assert p * PAGE_SIZE < 0x1_0000_0000_0000;
    }
  }

  // With no free frame below 1 GiB a map call that needs a table writes where nothing is mapped.
  lemma NoneLow(s: Vm, pml4: nat, pdpt: nat, pd: nat, virt: nat)
    requires BootState(s, pml4, pdpt, pd) && Low(pml4) && Low(pdpt) && Low(pd)
    requires s.pages.total * PAGE_SIZE <= 0x1_0000_0000_0000 && Needed(s, virt) > 0
    requires s.pages.free != {} && forall p :: p in s.pages.free ==> !Low(p)
    ensures !MapReach(s, virt)
  {
    BootReachExact(s, pml4, pdpt, pd, virt);
    AllocOne(s.pages);
    var p := Alloc(s.pages, 1).1 / PAGE_SIZE;
    assert p in Taken(s.pages, Needed(s, virt)) && !Low(p);
  }

  // The allocator tracks 2 GiB, the boot tables map 1 GiB: a map call that gets the first frame
  // past it reports success, and has written its table where nothing is mapped.
  lemma MapOutOfReach(s: Vm, pml4: nat, pdpt: nat, pd: nat)
    requires BootState(s, pml4, pdpt, pd) && Low(pml4) && Low(pdpt) && Low(pd)
    requires s.pages == Pages(0x4_0003, {0x4_0000, 0x4_0001, 0x4_0002})
    ensures Map(s, LOW_GIB, 0, 0).1 && !MapReach(s, LOW_GIB)
    ensures Translate(s.mem, s.root, 0x4_0000 * PAGE_SIZE) == None
  {
    BootGap(s, pml4, pdpt, pd);
    NoneLow(s, pml4, pdpt, pd, LOW_GIB);
    BootMaps(s, pml4, pdpt, pd, LOW_GIB, 0, 0);
  }

  lemma BootMaps(s: Vm, pml4: nat, pdpt: nat, pd: nat, virt: nat, phys: nat, flags: nat)
    requires BootState(s, pml4, pdpt, pd)
    ensures Map(s, virt, phys, flags).1 <==> !HugeAt(s.mem, s.root, virt) && Missing(s, virt) <= |s.pages.free|
  {
    BootOk(s, pml4, pdpt, pd);
    MapRefines(s, virt, phys, flags);
  }

  lemma BootGap(s: Vm, pml4: nat, pdpt: nat, pd: nat)
    requires BootState(s, pml4, pdpt, pd)
    ensures !HugeAt(s.mem, s.root, LOW_GIB) && Missing(s, LOW_GIB) == 2
    ensures Translate(s.mem, s.root, LOW_GIB) == None
  {
    BootOk(s, pml4, pdpt, pd);
    var v := PageOf(LOW_GIB);
    assert v == VPage(0, 1, 0, 0);
    BootSlots(s, pml4, pdpt, pd, Pdpt(0));
    BootSlots(s, pml4, pdpt, pd, Pd(0, 1));
    BootSlots(s, pml4, pdpt, pd, Pt(0, 1, 0));
  }
}
