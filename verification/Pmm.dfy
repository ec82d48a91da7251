/** The physical memory manager: a packed bitmap of used pages, filled from the Multiboot2
    memory map, with first-fit allocation. */
module Pmm {
  import opened Bytes
  import opened Pages
  import MB = Multiboot

  const LOW_PAGES: nat := 256   // 1 MiB

  // ----- one byte of the bitmap -----

  // 1 << k, tabulated
  function Mask(k: nat): bv8
    requires k < 8
  {
    if k == 0 then 1 else if k == 1 then 2 else if k == 2 then 4 else if k == 3 then 8
    else if k == 4 then 16 else if k == 5 then 32 else if k == 6 then 64 else 128
  }

  lemma MaskIsShift(k: nat)
    requires k < 8
    ensures Mask(k) == (1 as bv8) << k
  {
  }

  predicate Bit(b: bv8, k: nat)
    requires k < 8
  {
    b & Mask(k) != 0
  }

  lemma SetBit(b: bv8, k: nat, j: nat)
    requires k < 8 && j < 8
    ensures Bit(b | Mask(k), j) <==> j == k || Bit(b, j)
  {
  }

  lemma ClearBit(b: bv8, k: nat, j: nat)
    requires k < 8 && j < 8
    ensures Bit(b & !Mask(k), j) <==> j != k && Bit(b, j)
  {
  }

  // A byte is determined by its eight bits.
  lemma BitsDetermineByte(a: bv8, b: bv8)
    requires forall k :: 0 <= k < 8 ==> (Bit(a, k) <==> Bit(b, k))
    ensures a == b
  {
    assert Bit(a, 0) == Bit(b, 0) && Bit(a, 1) == Bit(b, 1) && Bit(a, 2) == Bit(b, 2) && Bit(a, 3) == Bit(b, 3);
    assert Bit(a, 4) == Bit(b, 4) && Bit(a, 5) == Bit(b, 5) && Bit(a, 6) == Bit(b, 6) && Bit(a, 7) == Bit(b, 7);
  }

  // Equal used sets mean byte-for-byte equal bitmaps.
  lemma BitmapDetermined(a: seq<bv8>, b: seq<bv8>)
    requires |a| == |b|
    requires forall p: nat :: p < 8 * |a| ==> (Bit(a[p / 8], p % 8) <==> Bit(b[p / 8], p % 8))
    ensures a == b
  {
    forall i | 0 <= i < |a| ensures a[i] == b[i] {
      forall k | 0 <= k < 8 ensures Bit(a[i], k) <==> Bit(b[i], k) {
        var p := 8 * i + k;
        assert p / 8 == i && p % 8 == k;
      }
      BitsDetermineByte(a[i], b[i]);
    }
  }

  // ----- the boot memory map -----

  function Max(a: nat, b: nat): nat { if a < b then b else a }

  function PagesUp(addr: nat): nat { (addr + PAGE_SIZE - 1) / PAGE_SIZE }

  function EntriesOf(info: seq<byte>, tag: nat): seq<MB.Entry>
    requires MB.MmapOk(info, tag)
  {
    seq(MB.EntryCount(info, tag), i requires 0 <= i < MB.EntryCount(info, tag) => MB.EntryAt(info, tag, i))
  }

  ghost predicate NoWrap(e: MB.Entry) {
    e.addr + e.len + PAGE_SIZE <= U64
  }

  ghost predicate BootInfoOk(info: Option<seq<byte>>) {
    info.Some? ==>
      && 8 <= |info.value| && MB.TagsOk(info.value, 8)
      && (var tag := MB.FindTag(info.value, 8, MB.TAG_MMAP);
          tag.Some? ==>
            && MB.MmapOk(info.value, tag.value)
            && forall i :: 0 <= i < |EntriesOf(info.value, tag.value)| ==> NoWrap(EntriesOf(info.value, tag.value)[i]))
  }

  // The memory map the bootloader passed, if any
  ghost function BootMap(info: Option<seq<byte>>): Option<seq<MB.Entry>>
    requires BootInfoOk(info)
  {
    if info.None? then None
    else match MB.FindTag(info.value, 8, MB.TAG_MMAP)
      case None => None
      case Some(tag) => Some(EntriesOf(info.value, tag))
  }

  // Page p lies wholly inside available memory described by e.
  ghost predicate Inside(e: MB.Entry, p: nat) {
    e.kind == MB.AVAILABLE && e.addr <= p * PAGE_SIZE && (p + 1) * PAGE_SIZE <= e.addr + e.len
  }

  ghost predicate Available(mm: Option<seq<MB.Entry>>, p: nat) {
    match mm
    case None => 256 <= p < 32768   // the fallback: 128 MiB, from 1 MiB up
    case Some(es) => exists i :: 0 <= i < |es| && Inside(es[i], p)
  }

  ghost function HighestPage(es: seq<MB.Entry>): (h: nat)
    ensures forall i :: 0 <= i < |es| ==> PagesUp(es[i].addr + es[i].len) <= h
    ensures h == 0 || exists i :: 0 <= i < |es| && PagesUp(es[i].addr + es[i].len) == h
  {
    if es == [] then 0
    else
      Max(HighestPage(es[..|es| - 1]), PagesUp(es[|es| - 1].addr + es[|es| - 1].len))
  }

  ghost function TrackedPages(mm: Option<seq<MB.Entry>>): (n: nat)
    ensures n <= MAX_PAGES
  {
    match mm
    case None => 32768
    case Some(es) => if HighestPage(es) > MAX_PAGES then MAX_PAGES else HighestPage(es)
  }

  // The first-fit specification is met by at most one run.
  lemma LowestRunIs(s: Pages, p: nat, count: nat)
    requires s.Valid() && count > 0
    requires p + count <= s.total && RunFree(s, p, count)
    requires forall q: nat :: q < p ==> !RunFree(s, q, count)
    ensures FindRun(s, 0, count) == Some(p)
  {
    var r := FindRun(s, 0, count);
    assert r.Some?;
    assert r.value <= p;
  }

  lemma SpanStep(f: set<nat>, p: nat, i: nat)
    ensures (f - Span(p, i)) - {p + i} == f - Span(p, i + 1)
    ensures p + i !in Span(p, i)
  {
  }

  lemma AvailableStep(es: seq<MB.Entry>, i: nat, q: nat)
    requires i < |es|
    ensures Available(Some(es[..i + 1]), q) <==> Available(Some(es[..i]), q) || Inside(es[i], q)
    ensures HighestPage(es[..i + 1]) == Max(HighestPage(es[..i]), PagesUp(es[i].addr + es[i].len))
  {
    var a, b := es[..i], es[..i + 1];
    assert b == a + [es[i]] && b[..|b| - 1] == a;
    if Inside(es[i], q) { assert Inside(b[i], q); }
    if j :| 0 <= j < |a| && Inside(a[j], q) { assert Inside(b[j], q); }
  }

  class Allocator {
    const bitmap: array<bv8>
    var totalPages: nat
    var usedPages: nat
    var highestPage: nat

    constructor ()
      ensures fresh(bitmap) && bitmap.Length == MAX_PAGES / 8
    {
      bitmap := new bv8[MAX_PAGES / 8];
      totalPages, usedPages, highestPage := 0, 0, 0;
    }

    predicate Test(p: nat)
      requires bitmap.Length == MAX_PAGES / 8 && p < MAX_PAGES
      reads bitmap
    {
      Bit(bitmap[p / 8], p % 8)
    }

    ghost function FreeBelow(n: nat): set<nat>
      requires bitmap.Length == MAX_PAGES / 8 && n <= MAX_PAGES
      reads bitmap
    {
      set p: nat | p < n && !Test(p)
    }

    // The counter is exact and no page outside the tracked range is free.
    ghost predicate Valid()
      reads this, bitmap
    {
      && bitmap.Length == MAX_PAGES / 8
      && totalPages <= MAX_PAGES
      && usedPages + |FreeBelow(totalPages)| == totalPages
      && forall p :: totalPages <= p < MAX_PAGES ==> Test(p)
    }

    ghost function Abs(): (s: Pages)
      requires Valid()
      reads this, bitmap
      ensures s.Valid()
    {
      Pages(totalPages, FreeBelow(totalPages))
    }

    method Set(p: nat)
      requires bitmap.Length == MAX_PAGES / 8 && p < MAX_PAGES
      modifies bitmap
      ensures forall q :: 0 <= q < MAX_PAGES ==> (Test(q) <==> q == p || old(Test(q)))
    {
      ghost var b := bitmap[p / 8];
      bitmap[p / 8] := bitmap[p / 8] | Mask(p % 8);
      forall q | 0 <= q < MAX_PAGES ensures Test(q) <==> q == p || old(Test(q)) {
        if q / 8 == p / 8 { SetBit(b, p % 8, q % 8); }
      }
    }

    method Clear(p: nat)
      requires bitmap.Length == MAX_PAGES / 8 && p < MAX_PAGES
      modifies bitmap
      ensures forall q :: 0 <= q < MAX_PAGES ==> (Test(q) <==> q != p && old(Test(q)))
    {
      ghost var b := bitmap[p / 8];
      bitmap[p / 8] := bitmap[p / 8] & !Mask(p % 8);
      forall q | 0 <= q < MAX_PAGES ensures Test(q) <==> q != p && old(Test(q)) {
        if q / 8 == p / 8 { ClearBit(b, p % 8, q % 8); }
      }
    }

    // Take one free page below the limit and count it.
    method Take(p: nat)
      requires Valid() && p in FreeBelow(totalPages)
      modifies this`usedPages, bitmap
      ensures Valid()
      ensures Abs() == old(Abs()).(free := old(Abs()).free - {p})
    {
      Set(p);
      assert FreeBelow(totalPages) == old(FreeBelow(totalPages)) - {p};
      usedPages := usedPages + 1;
    }

    method ReserveRegion(addr: nat, len: nat)
      requires Valid()
      requires addr + len + PAGE_SIZE <= U64
      modifies this`usedPages, bitmap
      ensures Valid() && totalPages == old(totalPages)
      ensures forall p :: p in Abs().free <==>
        p in old(Abs()).free && !(addr / PAGE_SIZE <= p < PagesUp(addr + len))
    {
      var start, end := addr / PAGE_SIZE, PagesUp(addr + len);
      var p := start;
      while p < end && p < MAX_PAGES
        invariant Valid() && start <= p && (p == start || p <= end)
        invariant forall q :: q in Abs().free <==> q in old(Abs()).free && !(start <= q < p)
      {
        if !Test(p) {
          Take(p);
        }
        p := p + 1;
      }
    }

    // Clear the bits start..end, stopping at the last tracked page.
    method ClearRange(start: nat, end: nat)
      requires bitmap.Length == MAX_PAGES / 8
      modifies bitmap
      ensures forall q :: 0 <= q < MAX_PAGES ==> (Test(q) <==> old(Test(q)) && !(start <= q < end))
    {
      var p := start;
      while p < end && p < MAX_PAGES
        invariant start <= p && (p == start || p <= end)
        invariant forall q :: 0 <= q < MAX_PAGES ==> (Test(q) <==> old(Test(q)) && !(start <= q < p))
      {
        Clear(p);
        p := p + 1;
      }
    }

    method FillBitmap()
      requires bitmap.Length == MAX_PAGES / 8
      modifies bitmap
      ensures forall q :: 0 <= q < MAX_PAGES ==> Test(q)
    {
      for i := 0 to bitmap.Length
        invariant forall j :: 0 <= j < i ==> bitmap[j] == 0xFF
      {
        bitmap[i] := 0xFF;
      }
    }

    // Recount the used pages below the limit.
    method CountUsed()
      requires bitmap.Length == MAX_PAGES / 8 && totalPages <= MAX_PAGES
      requires forall p :: totalPages <= p < MAX_PAGES ==> Test(p)
      modifies this`usedPages
      ensures Valid()
    {
      usedPages := 0;
      var p := 0;
      assert FreeBelow(0) == {};
      while p < totalPages
        invariant p <= totalPages
        invariant usedPages + |FreeBelow(p)| == p
      {
        if Test(p) {
          assert FreeBelow(p + 1) == FreeBelow(p);
          usedPages := usedPages + 1;
        } else {
          assert FreeBelow(p + 1) == FreeBelow(p) + {p};
        }
        p := p + 1;
      }
    }

    // One entry of the map: raise the limit and clear the pages wholly inside it, if available.
    method ScanEntry(e: MB.Entry)
      requires bitmap.Length == MAX_PAGES / 8
      modifies this`totalPages, this`highestPage, bitmap
      ensures highestPage == Max(old(highestPage), PagesUp(e.addr + e.len))
      ensures totalPages == Max(old(totalPages), PagesUp(e.addr + e.len))
      ensures forall q: nat :: q < MAX_PAGES ==> (Test(q) <==> old(Test(q)) && !Inside(e, q))
    {
      var endPage := PagesUp(e.addr + e.len);
      if endPage > highestPage { highestPage := endPage; }
      if endPage > totalPages { totalPages := endPage; }
      if e.kind == MB.AVAILABLE {
        var start, end := PagesUp(e.addr), (e.addr + e.len) / PAGE_SIZE;
        ClearRange(start, end);
        assert forall q: nat :: start <= q < end <==> Inside(e, q);
      }
    }

    // Clear the bits of every available entry and find the tracked limit.
    method ScanMap(info: seq<byte>, tag: nat)
      requires bitmap.Length == MAX_PAGES / 8 && MB.MmapOk(info, tag)
      requires forall i :: 0 <= i < |EntriesOf(info, tag)| ==> NoWrap(EntriesOf(info, tag)[i])
      requires forall q :: 0 <= q < MAX_PAGES ==> Test(q)
      requires totalPages == 0 && highestPage == 0
      modifies this`totalPages, this`highestPage, bitmap
      ensures totalPages == highestPage == HighestPage(EntriesOf(info, tag))
      ensures forall q :: 0 <= q < MAX_PAGES ==> (Test(q) <==> !Available(Some(EntriesOf(info, tag)), q))
    {
      ghost var es := EntriesOf(info, tag);
      var entries := MB.EntryCount(info, tag);
      for i := 0 to entries
        invariant totalPages == highestPage == HighestPage(es[..i])
        invariant forall q :: 0 <= q < MAX_PAGES ==> (Test(q) <==> !Available(Some(es[..i]), q))
      {
        var e := MB.EntryAt(info, tag, i);
        assert e == es[i];
        AvailableStep(es, i, 0);
        ScanEntry(e);
        forall q: nat | q < MAX_PAGES ensures Test(q) <==> !Available(Some(es[..i + 1]), q) {
          AvailableStep(es, i, q);
        }
      }
      assert es[..entries] == es;
    }

    // The first half of pmm_init: everything reserved, then the available pages freed.
    method LoadMap(mb2: Option<seq<byte>>)
      requires bitmap.Length == MAX_PAGES / 8
      requires BootInfoOk(mb2)
      modifies this, bitmap
      ensures Valid() && totalPages == TrackedPages(BootMap(mb2))
      ensures forall p: nat :: p in Abs().free <==> p < totalPages && Available(BootMap(mb2), p)
    {
      FillBitmap();
      totalPages, usedPages, highestPage := 0, 0, 0;
      var mmap := MB.Mb2Find(mb2, MB.TAG_MMAP);
      if mmap.None? {
        ClearRange(256, 32768);
        totalPages, highestPage, usedPages := 32768, 32768, 256;
        FallbackCount();
      } else {
        ScanMap(mb2.value, mmap.value);
        if totalPages > MAX_PAGES { totalPages := MAX_PAGES; }
        CountUsed();
      }
    }

    method Init(mb2: Option<seq<byte>>, kernelEnd: nat)
      requires bitmap.Length == MAX_PAGES / 8
      requires BootInfoOk(mb2)
      requires 0x100000 <= kernelEnd && kernelEnd + PAGE_SIZE <= U64
      modifies this, bitmap
      ensures Valid() && totalPages == TrackedPages(BootMap(mb2))
      ensures forall p: nat :: p in Abs().free <==>
        p < totalPages && Available(BootMap(mb2), p) && LOW_PAGES <= p && PagesUp(kernelEnd) <= p
    {
      LoadMap(mb2);
      ReserveRegion(0, 0x100000);
      ReserveRegion(0x100000, kernelEnd - 0x100000);
    }

    ghost method FallbackCount()
      requires bitmap.Length == MAX_PAGES / 8 && totalPages == 32768 && usedPages == 256
      requires forall q :: 0 <= q < MAX_PAGES ==> (Test(q) <==> !(256 <= q < 32768))
      ensures Valid()
    {
      SpanSize(256, 32768 - 256);
      assert FreeBelow(32768) == Span(256, 32768 - 256);
    }

    method AllocPage() returns (addr: nat)
      requires Valid()
      modifies this`usedPages, bitmap
      ensures Valid() && (Abs(), addr) == Alloc(old(Abs()), 1)
    {
      ghost var s := Abs();
      var p := 0;
      while p < totalPages
        invariant p <= totalPages && Valid() && Abs() == s
        invariant forall q: nat :: q < p ==> !RunFree(s, q, 1)
      {
        if !Test(p) {
          LowestRunIs(s, p, 1);
          Take(p);
          assert Span(p, 1) == {p};
          return p * PAGE_SIZE;
        }
        assert p !in s.free;
        p := p + 1;
      }
      NoRun(s, 1, p);
      addr := 0;
    }

    // The sum in the loop's test is a 64-bit word; no turn makes it wrap.
    method AllocPages(count: nat) returns (addr: nat)
      requires Valid() && count < U64
      modifies this`usedPages, bitmap
      ensures Valid() && (Abs(), addr) == Alloc(old(Abs()), count)
    {
      if count == 0 { return 0; }
      if count == 1 {
        addr := AllocPage();
        return;
      }
      ghost var s := Abs();
      var p := 0;
      while (p + count) % U64 <= totalPages
        invariant Valid() && Abs() == s && (p == 0 || p + count <= totalPages + 1)
        invariant forall q: nat :: q < p ==> !RunFree(s, q, count)
      {
        var ok := RunAt(p, count);
        if ok {
          LowestRunIs(s, p, count);
          TakeRun(p, count);
          return p * PAGE_SIZE;
        }
        p := p + 1;
      }
      NoRun(s, count, p);
      addr := 0;
    }

    // The inner loop: are the count pages from p on free?
    method RunAt(p: nat, count: nat) returns (ok: bool)
      requires Valid() && p + count <= totalPages
      ensures ok <==> RunFree(Abs(), p, count)
    {
      ok := true;
      var i := 0;
      while i < count
        invariant i <= count && ok
        invariant forall q :: p <= q < p + i ==> q in Abs().free
      {
        if Test(p + i) {
          assert p + i !in Abs().free;
          return false;
        }
        i := i + 1;
      }
    }

    method TakeRun(p: nat, count: nat)
      requires Valid() && p + count <= totalPages && RunFree(Abs(), p, count)
      modifies this`usedPages, bitmap
      ensures Valid() && Abs() == old(Abs()).(free := old(Abs()).free - Span(p, count))
    {
      ghost var s := Abs();
      var i := 0;
      while i < count
        invariant i <= count && Valid() && totalPages == s.total
        invariant Abs() == s.(free := s.free - Span(p, i))
      {
        SpanStep(s.free, p, i);
        assert p + i in s.free;
        Take(p + i);
        i := i + 1;
      }
    }

    method FreePage(addr: nat)
      requires Valid()
      modifies this`usedPages, bitmap
      ensures Valid() && Abs() == Free(old(Abs()), addr)
    {
      var p := addr / PAGE_SIZE;
      if p >= totalPages { return; }
      if Test(p) {
        Clear(p);
        assert FreeBelow(totalPages) == old(FreeBelow(totalPages)) + {p};
        SizeBelow(FreeBelow(totalPages), totalPages);
        usedPages := usedPages - 1;
      } else {
        assert old(Abs()).free + {p} == old(Abs()).free;
      }
    }

    method FreePages(addr: nat, count: nat)
      requires Valid()
      modifies this`usedPages, bitmap
      ensures Valid() && Abs() == FreeEach(old(Abs()), addr, count)
      ensures TurnsFit(addr, count) ==> Abs() == FreeRun(old(Abs()), addr, count)
    {
      ghost var s := Abs();
      var i := 0;
      while i < count
        invariant i <= count && Valid() && Abs() == FreeEach(s, addr, i)
      {
        assert FreeEach(s, addr, i + 1) == Free(FreeEach(s, addr, i), TurnAddr(addr, i));
        FreePage(TurnAddr(addr, i));
        i := i + 1;
      }
      if TurnsFit(addr, count) { FreeEachIs(s, addr, count); }
    }

    method GetStats() returns (total: nat, used: nat, free: nat)
      requires Valid()
      ensures total == totalPages && used + free == total && free == |Abs().free|
    {
      total, used := totalPages, usedPages;
      free := if totalPages > usedPages then totalPages - usedPages else 0;
    }
  }

  lemma {:induction false} SpanSize(p: nat, n: nat)
    ensures |Span(p, n)| == n
  {
    if n == 0 {
    } else {
      SpanSize(p, n - 1);
    }
  }

  lemma {:induction false} SizeBelow(s: set<nat>, n: nat)
    requires forall p :: p in s ==> p < n
    ensures |s| <= n
  {
    if n == 0 {
    } else {
      SizeBelow(s - {n - 1}, n - 1);
    }
  }

  // Every start below p fails and none at or above p fits: the search fails.
  lemma NoRun(s: Pages, count: nat, p: nat)
    requires s.Valid() && count > 0 && s.total < p + count
    requires forall q: nat :: q < p ==> !RunFree(s, q, count)
    ensures FindRun(s, 0, count) == None
  {
  }

  // ----- what the bootloader wrote is what is read -----

  // A structure built from tags of which the first of kind 6 carries the entries es, each in w
  // bytes: the map read from it is es, entry by entry and no more.
  lemma MapRoundTrip(ts: seq<MB.Tag>, kind: nat, es: seq<MB.Entry>, w: nat, version: nat)
    requires MB.Buildable(ts) && kind == 6 && 24 <= w < U32
    requires forall i :: 0 <= i < |es| ==> MB.EntryOk(es[i]) && NoWrap(es[i])
    requires var k := MB.FirstOfKind(ts, kind); k < |ts| && ts[k].payload == MB.MapPayload(es, w, version)
    ensures BootInfoOk(Some(MB.BootInfo(ts))) && BootMap(Some(MB.BootInfo(ts))) == Some(es)
  {
    var tag := FirstFound(ts, kind, MB.FirstOfKind(ts, kind));
    MapFrom(MB.BootInfo(ts), tag, es, w, version);
  }

  lemma FirstFound(ts: seq<MB.Tag>, kind: nat, k: nat) returns (tag: nat)
    requires MB.Buildable(ts) && kind != MB.TAG_END && k == MB.FirstOfKind(ts, kind) < |ts|
    ensures 8 <= |MB.BootInfo(ts)| && MB.TagsOk(MB.BootInfo(ts), 8)
    ensures MB.FindTag(MB.BootInfo(ts), 8, kind) == Some(tag)
    ensures MB.HasPayload(MB.BootInfo(ts), tag, ts[k].payload)
  {
    MB.FindInBootInfo(ts, kind);
    tag := 8 + MB.OffsetOf(ts, k);
  }

  lemma MapFrom(info: seq<byte>, tag: nat, es: seq<MB.Entry>, w: nat, version: nat)
    requires 8 <= |info| && MB.TagsOk(info, 8) && MB.FindTag(info, 8, MB.TAG_MMAP) == Some(tag) && 24 <= w < U32
    requires forall i :: 0 <= i < |es| ==> MB.EntryOk(es[i]) && NoWrap(es[i])
    requires MB.HasPayload(info, tag, MB.MapPayload(es, w, version))
    ensures BootInfoOk(Some(info)) && BootMap(Some(info)) == Some(es)
  {
    MB.EntriesBack(info, tag, es, w, version);
    assert EntriesOf(info, tag) == es;
  }

  // Without a tag of kind 6 there is no map.
  lemma NoMapRoundTrip(ts: seq<MB.Tag>)
    requires MB.Buildable(ts) && forall i :: 0 <= i < |ts| ==> ts[i].kind != 6
    ensures BootInfoOk(Some(MB.BootInfo(ts))) && BootMap(Some(MB.BootInfo(ts))) == None
  {
    MB.FindInBootInfo(ts, 6);
  }

  predicate Describes(e: MB.Entry, addr: nat) { e.addr <= addr < e.addr + e.len }

  // The entry is available memory, and page p is all in it.
  ghost predicate HoldsPage(e: MB.Entry, p: nat) {
    e.kind == 1 && forall a: nat :: p * 4096 <= a < (p + 1) * 4096 ==> Describes(e, a)
  }

  lemma InsideBytes(e: MB.Entry, p: nat)
    ensures Inside(e, p) <==> HoldsPage(e, p)
  {
    if HoldsPage(e, p) { assert Describes(e, p * 4096) && Describes(e, p * 4096 + 4095); }
  }

  // The pages that pmm_init leaves free, in addresses: those at or above 1 MiB and the end of
  // the kernel, below 2 GiB, all of whose bytes one available entry describes; without a map,
  // those below 128 MiB.
  lemma BootFreeIs(mm: Option<seq<MB.Entry>>, kernelEnd: nat, p: nat)
    ensures (p < TrackedPages(mm) && Available(mm, p) && LOW_PAGES <= p && PagesUp(kernelEnd) <= p) <==>
      && 0x100000 <= p * 4096 && kernelEnd <= p * 4096 && (p + 1) * 4096 <= 0x8000_0000
      && match mm
         case None => (p + 1) * 4096 <= 0x800_0000
         case Some(es) => exists i :: 0 <= i < |es| && HoldsPage(es[i], p)
  {
    if mm.Some? {
      var es := mm.value;
      forall i | 0 <= i < |es| ensures Inside(es[i], p) <==> HoldsPage(es[i], p) {
        InsideBytes(es[i], p);
      }
      if i :| 0 <= i < |es| && Inside(es[i], p) { assert p < PagesUp(es[i].addr + es[i].len) <= HighestPage(es); }
    }
  }

  // The number of pages tracked: the least that covers every entry of the map, at most 2 GiB.
  lemma TrackedIs(es: seq<MB.Entry>, n: nat)
    ensures n < 0x8_0000 ==>
      (TrackedPages(Some(es)) <= n <==> forall i :: 0 <= i < |es| ==> es[i].addr + es[i].len <= n * 4096)
    ensures TrackedPages(Some(es)) <= 0x8_0000 && TrackedPages(None) * 4096 == 0x800_0000
  {
    if n < 0x8_0000 && TrackedPages(Some(es)) <= n {
      forall i | 0 <= i < |es| ensures es[i].addr + es[i].len <= n * 4096 {
        assert PagesUp(es[i].addr + es[i].len) <= HighestPage(es);
      }
    }
  }

  // ----- from boot on -----

  // A kernel page, or one below 1 MiB, is never handed out in any run that starts from the
  // state pmm_init leaves and frees only what it allocated.
  lemma BootRunNeverHandsOutReserved(mm: Option<seq<MB.Entry>>, kernelEnd: nat, s: Pages, ops: seq<Op>, c: Client)
    requires s.Valid()
    requires forall p: nat :: p in s.free <==>
      p < s.total && Available(mm, p) && LOW_PAGES <= p && PagesUp(kernelEnd) <= p
    requires Run(Client(s, {}), ops, c)
    ensures forall p: nat :: p in c.held ==>
      p < s.total && Available(mm, p) && LOW_PAGES <= p && PagesUp(kernelEnd) <= p
    ensures c.pages.free !! c.held && c.pages.free + c.held == s.free
  {
    RunConserves(Client(s, {}), ops, c);
  }
}
