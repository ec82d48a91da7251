/** The virtual memory manager: page tables written in place, frames taken from the page
    allocator. Each method computes the operation of the same name in Paging.dfy. */
module Vmm {
  import opened Bytes
  import opened Pages
  import P = Paging
  import R = Reach
  import Pmm

  class Mmu {
    var mem: P.Frames        // physical memory, frame by frame
    const pml4: nat          // the frame CR3 points to
    const pmm: Pmm.Allocator

    constructor (mem: P.Frames, pml4: nat, pmm: Pmm.Allocator)
      ensures this.mem == mem && this.pml4 == pml4 && this.pmm == pmm
    {
      this.mem, this.pml4, this.pmm := mem, pml4, pmm;
    }

    ghost predicate Valid()
      reads this, pmm, pmm.bitmap
    {
      pmm.Valid() && P.Inv(Abs())
    }

    ghost function Abs(): (s: P.Vm)
      requires pmm.Valid()
      reads this, pmm, pmm.bitmap
      ensures s.pages.Valid()
    {
      P.Vm(mem, pml4, pmm.Abs())
    }

    // The frame an access through the address of frame f lands in
    function Through(f: nat): (g: nat)
      requires R.InReach(mem, pml4, f)
      reads this
      ensures g == f
    {
      P.Translate(mem, pml4, f * PAGE_SIZE).value / PAGE_SIZE
    }

    method TableWalkAlloc(table: nat, index: nat) returns (next: Option<nat>)
      requires pmm.Valid() && R.WalkReach(Abs(), table, index)
      modifies this, pmm, pmm.bitmap
      ensures pmm.Valid() && (Abs(), next) == P.WalkAlloc(old(Abs()), table, index)
    {
      if !P.Present(P.Word(mem, Through(table), index)) {
        ghost var s := Abs();
        var page := pmm.AllocPage();
        ghost var pages := pmm.Abs();
        assert (pages, page) == Alloc(s.pages, 1);
        if page == 0 { return None; }
        mem := mem[Through(page / PAGE_SIZE) := P.ZeroFrame()];
        mem := P.SetWord(mem, Through(table), index, P.TableEntry(page / PAGE_SIZE));
        assert pmm.Valid() && pmm.Abs() == pages;
      }
      next := Some(P.Word(mem, Through(table), index) / PAGE_SIZE);
    }

    method MapPage(virt: nat, phys: nat, flags: nat) returns (ok: bool)
      requires Valid() && R.MapReach(Abs(), virt)
      modifies this, pmm, pmm.bitmap
      ensures Valid() && (Abs(), ok) == P.Map(old(Abs()), virt, phys, flags)
      ensures ok <==> !P.HugeAt(old(mem), pml4, virt) && P.Missing(old(Abs()), virt) <= |old(Abs()).pages.free|
      ensures !ok ==> P.SameView(old(Abs()), Abs())
      ensures ok ==> P.Updated(old(Abs()), Abs(), P.PageOf(virt), Some(P.PageBase(phys)))
    {
      P.MapRefines(Abs(), virt, phys, flags);
      ok := MapWalk(virt, phys, flags);
    }

    method MapWalk(virt: nat, phys: nat, flags: nat) returns (ok: bool)
      requires pmm.Valid() && R.MapReach(Abs(), virt)
      modifies this, pmm, pmm.bitmap
      ensures pmm.Valid() && (Abs(), ok) == P.Map(old(Abs()), virt, phys, flags)
    {
      var v := P.PageOf(virt);
      var pdpt := TableWalkAlloc(pml4, v.i4);
      if pdpt.None? { return false; }
      var pd := TableWalkAlloc(pdpt.value, v.i3);
      if pd.None? { return false; }
      if P.Huge(P.Word(mem, Through(pd.value), v.i2)) { return false; }
      var pt := TableWalkAlloc(pd.value, v.i2);
      if pt.None? { return false; }
      mem := P.SetWord(mem, Through(pt.value), v.i1, P.LeafWord(phys, flags));
      ok := true;
    }

    method UnmapPage(virt: nat) returns (ok: bool)
      requires Valid() && R.PathReach(mem, pml4, virt)
      modifies this
      ensures Valid() && (Abs(), ok) == P.Unmap(old(Abs()), virt)
      ensures ok ==> P.Updated(old(Abs()), Abs(), P.PageOf(virt), None)
    {
      P.UnmapRefines(Abs(), virt);
      var v := P.PageOf(virt);
      if !P.Present(P.Word(mem, Through(pml4), v.i4)) { return false; }
      var pdpt := P.Word(mem, Through(pml4), v.i4) / PAGE_SIZE;
      if !P.Present(P.Word(mem, Through(pdpt), v.i3)) { return false; }
      var pd := P.Word(mem, Through(pdpt), v.i3) / PAGE_SIZE;
      if P.Huge(P.Word(mem, Through(pd), v.i2)) { return false; }
      if !P.Present(P.Word(mem, Through(pd), v.i2)) { return false; }
      var pt := P.Word(mem, Through(pd), v.i2) / PAGE_SIZE;
      mem := P.SetWord(mem, Through(pt), v.i1, 0);
      ok := true;
    }

    // 0 stands for an untranslated address, and for one that translates to address 0.
    method Resolve(virt: nat) returns (phys: nat)
      requires R.PathReach(mem, pml4, virt)
      ensures phys == match P.Translate(mem, pml4, virt) case None => 0 case Some(a) => a
      ensures phys == 0 <==> var t := P.Translate(mem, pml4, virt); t.None? || t == Some(0)
    {
      var v := P.PageOf(virt);
      if !P.Present(P.Word(mem, Through(pml4), v.i4)) { return 0; }
      var pdpt := P.Word(mem, Through(pml4), v.i4) / PAGE_SIZE;
      if !P.Present(P.Word(mem, Through(pdpt), v.i3)) { return 0; }
      var pd := P.Word(mem, Through(pdpt), v.i3) / PAGE_SIZE;
      assert P.PdAt(mem, pml4, v.i4, v.i3) == Some(pd);
      if P.Huge(P.Word(mem, Through(pd), v.i2)) {
        var w := P.Word(mem, Through(pd), v.i2);
        return w - w % P.HUGE_SIZE + virt % P.HUGE_SIZE;
      }
      if !P.Present(P.Word(mem, Through(pd), v.i2)) { return 0; }
      var pt := P.Word(mem, Through(pd), v.i2) / PAGE_SIZE;
      assert P.PtAt(mem, pml4, v.i4, v.i3, v.i2) == Some(pt);
      if !P.Present(P.Word(mem, Through(pt), v.i1)) { return 0; }
      phys := P.PageBase(P.Word(mem, Through(pt), v.i1)) + virt % PAGE_SIZE;
    }
  }
}
