/** Runs from heap_init that leave the heap's blocks in another order than their addresses, and
    what a free makes of it. */
module HeapRuns {
  import opened Bytes
  import opened Pages
  import opened Blocks
  import B = Blocks

  // ----- single calls on heaps given by their blocks -----

  lemma AllocLowest(pages: Pages, p: nat, c: nat)
    requires pages.Valid() && 0 < p && 0 < c && RunFree(pages, p, c) && forall q :: q in pages.free ==> p <= q
    ensures Alloc(pages, c) == (pages.(free := pages.free - Span(p, c)), p * PAGE_SIZE)
  {
    AllocExact(pages, c);
    var a := Alloc(pages, c).1 / PAGE_SIZE;
    assert RunFree(pages, a, c) ==> a in pages.free;
  }

  lemma FitAt(bs: seq<Blk>, n: nat, i: nat)
    requires i < |bs| && Fits(bs[i], n) && forall j :: 0 <= j < i ==> !Fits(bs[j], n)
    ensures FirstFit(bs, n) == i
  {
  }

  // A request that grows the heap by g pages at p and splits them
  lemma Grows(h: Heap, size: nat, n: nat, g: nat, p: nat)
    requires h.pages.Valid() && size > 0 && n == RoundUp(size) && g == GrowthPages(n) && NoFit(h.blocks, n)
    requires 0 < p && 0 < g && RunFree(h.pages, p, g) && forall q :: q in h.pages.free ==> p <= q
    requires n + HDR + HDR + MIN <= g * PAGE_SIZE
    ensures var a := p * PAGE_SIZE;
      Malloc(h, size) == (Heap([Blk(a, n, false), Blk(a + HDR + n, g * PAGE_SIZE - HDR - n - HDR, true)] + h.blocks,
                               h.used + n, h.total + g * PAGE_SIZE, h.allocs + 1,
                               h.pages.(free := h.pages.free - Span(p, g))), a + HDR)
  {
    AllocLowest(h.pages, p, g);
    var h1 := Expand(h, n).0;
    var b := Blk(p * PAGE_SIZE, g * PAGE_SIZE - HDR, true);
    assert h1.blocks == [b] + h.blocks;
    FitAt(h1.blocks, n, 0);
    assert FirstFit(h.blocks, n) == |h.blocks|;
    assert Attempt(h, n, 2) == Attempt(h1, n, 1) == Take(h1, 0, n);
    assert Replace(h1.blocks, 0, 1, Carve(b, n)) == Carve(b, n) + h.blocks;
  }

  // A request that takes the whole of block i
  lemma TakesWhole(h: Heap, size: nat, n: nat, i: nat)
    requires h.pages.Valid() && size > 0 && n == RoundUp(size) && i < |h.blocks|
    requires Fits(h.blocks[i], n) && forall j :: 0 <= j < i ==> !Fits(h.blocks[j], n)
    requires h.blocks[i].size < n + HDR + MIN
    ensures Malloc(h, size) == (h.(blocks := h.blocks[i := h.blocks[i].(free := false)],
                                   used := h.used + h.blocks[i].size, allocs := h.allocs + 1), Payload(h.blocks[i]))
  {
    FitAt(h.blocks, n, i);
    assert Attempt(h, n, 2) == Take(h, i, n);
    assert Replace(h.blocks, i, i + 1, [h.blocks[i].(free := false)]) == h.blocks[i := h.blocks[i].(free := false)];
  }

  // A free of block i, whose neighbours at First and Last become one block with it
  lemma Frees(h: Heap, i: nat)
    requires i < |h.blocks| && !h.blocks[i].free && forall j :: 0 <= j < i ==> h.blocks[j].addr != h.blocks[i].addr
    ensures Listed(h, Payload(h.blocks[i])) && Find(h.blocks, h.blocks[i].addr) == i
    ensures B.Free(h, Payload(h.blocks[i])) ==
      h.(blocks := Replace(h.blocks, First(h.blocks, i), Last(h.blocks, i) + 1, [Joined(h.blocks, i)]),
         used := h.used - h.blocks[i].size)
  {
    CoalesceShape(h.blocks, i);
  }

  // ----- a free across a seam -----

  const ARENA: nat := 0x10_0000
  const LIMIT: nat := 0x100_0000

  // The heap of an arena at 1 MiB, with four free pages at 2 MiB, and five calls on it: the
  // arena is taken, the heap grows, the arena is given back and taken again, the heap grows.
  function Start(): Heap { InitHeap(ARENA, Pages(516, Span(512, 4))) }
  function Taken(): Heap { Malloc(Start(), 524240).0 }
  function Grown1(): Heap { Malloc(Taken(), 4000).0 }
  function Freed(): Heap { B.Free(Grown1(), ARENA + HDR) }
  function Retaken(): Heap { Malloc(Freed(), 528400).0 }
  function Regrown(): Heap { Malloc(Retaken(), 4000).0 }

  lemma RunInv()
    ensures Inv(Start(), LIMIT) && Inv(Taken(), LIMIT) && Inv(Grown1(), LIMIT)
  {
    InitOk(ARENA, Pages(516, Span(512, 4)), LIMIT);
    MallocOk(Start(), 524240, LIMIT);
    MallocOk(Taken(), 4000, LIMIT);
  }

  lemma Sizes()
    ensures RoundUp(524240) == 524240 && RoundUp(528400) == 528400 && RoundUp(4000) == 4000 && GrowthPages(4000) == 2
  {
  }

  lemma StartIs()
    ensures Start() == Heap([Blk(ARENA, 524248, true)], 0, 524288, 0, Pages(516, Span(512, 4)))
  {
    assert [Blk(ARENA, 524248, true)] + [] == [Blk(ARENA, 524248, true)];
  }

  // A heap of one free block, all of which is taken
  lemma TakesOnly(h: Heap, b: Blk, size: nat)
    requires h.pages.Valid() && size > 0 && size == RoundUp(size) && h.blocks == [b] && b.free
    requires size <= b.size < size + HDR + MIN
    ensures Malloc(h, size).0 == h.(blocks := [b.(free := false)], used := h.used + b.size, allocs := h.allocs + 1)
  {
    TakesWhole(h, size, size, 0);
  }

  lemma TakenIs()
    ensures Taken() == Heap([Blk(ARENA, 524248, false)], 524248, 524288, 1, Pages(516, Span(512, 4)))
  {
    StartIs();
    Sizes();
    TakesOnly(Start(), Blk(ARENA, 524248, true), 524240);
  }

  // A heap without a free block grows by the first two of its last free pages.
  lemma GrowsTwo(h: Heap, size: nat, p: nat, c: nat)
    requires h.pages.Valid() && h.pages.free == Span(p, c) && 0 < p && 2 <= c
    requires 0 < size == RoundUp(size) && GrowthPages(size) == 2 && size + HDR + HDR + MIN <= 2 * PAGE_SIZE
    requires NoFit(h.blocks, size)
    ensures var a := p * PAGE_SIZE;
      Malloc(h, size).0 ==
      Heap([Blk(a, size, false), Blk(a + HDR + size, 2 * PAGE_SIZE - HDR - size - HDR, true)] + h.blocks,
           h.used + size, h.total + 2 * PAGE_SIZE, h.allocs + 1, h.pages.(free := Span(p + 2, c - 2)))
  {
    Grows(h, size, size, 2, p);
    SpanLess(p, 2, c);
  }

  lemma SpanLess(p: nat, g: nat, c: nat)
    requires g <= c
    ensures Span(p, c) - Span(p, g) == Span(p + g, c - g)
  {
  }

  lemma Grown1Is()
    ensures Grown1().blocks == [Blk(0x20_0000, 4000, false), Blk(0x20_0FC8, 4112, true), Blk(ARENA, 524248, false)]
    ensures Grown1().pages == Pages(516, Span(514, 2))
  {
    TakenIs();
    Sizes();
    GrowsTwo(Taken(), 4000, 512, 4);
  }

  lemma FreedIs()
    ensures Freed().blocks == [Blk(0x20_0000, 4000, false), Blk(0x20_0FC8, 528400, true)]
    ensures Freed().pages == Pages(516, Span(514, 2))
  {
    Grown1Is();
    FreesThird(Grown1(), Blk(0x20_0000, 4000, false), Blk(0x20_0FC8, 4112, true), Blk(ARENA, 524248, false));
  }

  lemma FreesThird(h: Heap, x: Blk, y: Blk, b: Blk)
    requires h.blocks == [x, y, b] && y.free && !b.free && b.addr != x.addr && b.addr != y.addr
    ensures B.Free(h, Payload(b)).blocks == [x, Blk(y.addr, y.size + HDR + b.size, true)]
    ensures B.Free(h, Payload(b)).pages == h.pages
  {
    Frees(h, 2);
    assert Joined(h.blocks, 2) == Blk(y.addr, y.size + HDR + b.size, true);
    assert Replace(h.blocks, 1, 3, [Joined(h.blocks, 2)]) == [x, Joined(h.blocks, 2)];
  }

  lemma Cat<T>(a: T, b: T, c: T, d: T)
    ensures [a, b] + [c, d] == [a, b, c, d]
  {
  }

  // The second of two blocks, all of which is taken
  lemma TakesSecond(h: Heap, x: Blk, b: Blk, size: nat)
    requires h.pages.Valid() && size > 0 && size == RoundUp(size) && h.blocks == [x, b] && b.free && !x.free
    requires size <= b.size < size + HDR + MIN
    ensures Malloc(h, size).0.blocks == [x, b.(free := false)] && Malloc(h, size).0.pages == h.pages
  {
    TakesWhole(h, size, size, 1);
  }

  lemma RetakenIs()
    ensures Retaken().blocks == [Blk(0x20_0000, 4000, false), Blk(0x20_0FC8, 528400, false)]
    ensures Retaken().pages == Pages(516, Span(514, 2))
  {
    FreedIs();
    Sizes();
    TakesSecond(Freed(), Blk(0x20_0000, 4000, false), Blk(0x20_0FC8, 528400, true), 528400);
  }

  lemma RegrownIs()
    ensures Regrown().blocks == [Blk(0x20_2000, 4000, false), Blk(0x20_2FC8, 4112, true),
                                 Blk(0x20_0000, 4000, false), Blk(0x20_0FC8, 528400, false)]
  {
    RetakenIs();
    Sizes();
    GrowsBefore(Retaken(), 4000, 514, 2, Blk(0x20_0000, 4000, false), Blk(0x20_0FC8, 528400, false));
  }

  // The same before two blocks
  lemma GrowsBefore(h: Heap, size: nat, p: nat, c: nat, x: Blk, y: Blk)
    requires h.pages.Valid() && h.pages.free == Span(p, c) && 0 < p && 2 <= c
    requires 0 < size == RoundUp(size) && GrowthPages(size) == 2 && size + HDR + HDR + MIN <= 2 * PAGE_SIZE
    requires h.blocks == [x, y] && !x.free && !y.free
    ensures var a := p * PAGE_SIZE;
      Malloc(h, size).0.blocks ==
      [Blk(a, size, false), Blk(a + HDR + size, 2 * PAGE_SIZE - HDR - size - HDR, true), x, y]
  {
    var a := p * PAGE_SIZE;
    GrowsTwo(h, size, p, c);
    Cat(Blk(a, size, false), Blk(a + HDR + size, 2 * PAGE_SIZE - HDR - size - HDR, true), x, y);
  }

  // The third of three blocks may not be freed if the second is free and does not touch it.
  lemma SeamAt(h: Heap, x: Blk, y: Blk, b: Blk)
    requires h.blocks == [x, y, b] && y.free && !b.free && End(y) != b.addr && b.addr != x.addr && b.addr != y.addr
    ensures LiveAt(h.blocks, Payload(b)) && !FreeLegal(h, Payload(b))
  {
    Frees(h, 2);
  }

  // Freeing the arena's one block merges it with the end of the region added later. The block
  // that results covers a page that is still free in the page allocator; when the heap takes
  // that page for its next region, two live blocks overlap.
  lemma FreeAcrossRegions()
    ensures Inv(Grown1(), LIMIT) && LiveAt(Grown1().blocks, ARENA + HDR) && !FreeLegal(Grown1(), ARENA + HDR)
    ensures 514 in Freed().pages.free && Covers(Freed().blocks, 514 * PAGE_SIZE)
    ensures exists i, j :: 0 <= i < j < |Regrown().blocks| && !Regrown().blocks[i].free && !Regrown().blocks[j].free
                           && !Apart(Regrown().blocks[i], Regrown().blocks[j])
  {
    RunInv();
    Grown1Is();
    SeamAt(Grown1(), Blk(0x20_0000, 4000, false), Blk(0x20_0FC8, 4112, true), Blk(ARENA, 524248, false));
    FreedIs();
    var bs := Freed().blocks;
    assert bs[1].addr <= 514 * PAGE_SIZE < End(bs[1]);
    RegrownIs();
    var r := Regrown().blocks;
    assert !r[0].free && !r[3].free && !Apart(r[0], r[3]);
  }

  // ----- neighbours in the other order -----

  // Growing for a request that is then given back leaves the region as one free block.
  lemma RegionAdded(h: Heap, size: nat, g: nat, p: nat)
    requires h.pages.Valid() && 0 < size == RoundUp(size) && g == GrowthPages(size) && NoFit(h.blocks, size)
    requires 0 < p && 0 < g && RunFree(h.pages, p, g) && forall q :: q in h.pages.free ==> p <= q
    requires size + HDR + HDR + MIN <= g * PAGE_SIZE
    ensures Malloc(h, size).1 == p * PAGE_SIZE + HDR && FreeLegal(Malloc(h, size).0, p * PAGE_SIZE + HDR)
    ensures Requested(h, size).blocks == [Blk(p * PAGE_SIZE, g * PAGE_SIZE - HDR, true)] + h.blocks
    ensures Requested(h, size).pages == h.pages.(free := h.pages.free - Span(p, g))
  {
    RequestedGrown(h, size, g, p);
    WholeAgain(h, size, g, p, Requested(h, size), Malloc(h, size).0);
  }

  // The heap grown by the region, its first n bytes taken
  function GrownBy(h: Heap, n: nat, g: nat, p: nat): Heap
    requires n + HDR + HDR <= g * PAGE_SIZE
  {
    var a := p * PAGE_SIZE;
    Heap([Blk(a, n, false), Blk(a + HDR + n, g * PAGE_SIZE - HDR - n - HDR, true)] + h.blocks,
         h.used + n, h.total + g * PAGE_SIZE, h.allocs + 1, h.pages.(free := h.pages.free - Span(p, g)))
  }

  lemma RequestedGrown(h: Heap, size: nat, g: nat, p: nat)
    requires h.pages.Valid() && 0 < size == RoundUp(size) && g == GrowthPages(size) && NoFit(h.blocks, size)
    requires 0 < p && 0 < g && RunFree(h.pages, p, g) && forall q :: q in h.pages.free ==> p <= q
    requires size + HDR + HDR + MIN <= g * PAGE_SIZE
    ensures Malloc(h, size).0 == GrownBy(h, size, g, p) && Malloc(h, size).1 == p * PAGE_SIZE + HDR
    ensures Requested(h, size) == B.Free(GrownBy(h, size, g, p), p * PAGE_SIZE + HDR)
  {
    Grows(h, size, size, g, p);
  }

  lemma WholeAgain(h: Heap, n: nat, g: nat, p: nat, r: Heap, h1: Heap)
    requires n + HDR + HDR <= g * PAGE_SIZE && h1 == GrownBy(h, n, g, p) && r == B.Free(h1, p * PAGE_SIZE + HDR)
    ensures FreeLegal(h1, p * PAGE_SIZE + HDR) && r.pages == h.pages.(free := h.pages.free - Span(p, g))
    ensures r.blocks == [Blk(p * PAGE_SIZE, g * PAGE_SIZE - HDR, true)] + h.blocks
  {
    var (a, end) := (p * PAGE_SIZE, g * PAGE_SIZE);
    FreesHead(h1, Blk(a, n, false), Blk(a + HDR + n, end - HDR - n - HDR, true), h.blocks, end - HDR, r);
  }

  // The first block of the list, the rest of its region behind it
  lemma FreesHead(h: Heap, x: Blk, y: Blk, rest: seq<Blk>, size: nat, r: Heap)
    requires h.blocks == [x, y] + rest && !x.free && y.free && End(x) == y.addr && size == x.size + HDR + y.size
    requires r == B.Free(h, Payload(x))
    ensures FreeLegal(h, Payload(x)) && r.pages == h.pages && r.blocks == [Blk(x.addr, size, true)] + rest
  {
    Frees(h, 0);
    HeadShape(h.blocks, x, y, rest, size);
  }

  lemma HeadShape(bs: seq<Blk>, x: Blk, y: Blk, rest: seq<Blk>, size: nat)
    requires bs == [x, y] + rest && !x.free && y.free && size == x.size + HDR + y.size
    ensures Replace(bs, First(bs, 0), Last(bs, 0) + 1, [Joined(bs, 0)]) == [Blk(x.addr, size, true)] + rest
  {
    assert bs[2..] == rest;
    assert Joined(bs, 0) == Blk(x.addr, size, true);
  }

  // The same with the free pages in one run
  lemma RegionOfRun(h: Heap, size: nat, g: nat, p: nat, c: nat)
    requires h.pages.Valid() && 0 < size == RoundUp(size) && g == GrowthPages(size) && NoFit(h.blocks, size)
    requires 0 < p && 0 < g <= c && h.pages.free == Span(p, c) && size + HDR + HDR + MIN <= g * PAGE_SIZE
    ensures Requested(h, size).blocks == [Blk(p * PAGE_SIZE, g * PAGE_SIZE - HDR, true)] + h.blocks
    ensures Requested(h, size).pages == h.pages.(free := Span(p + g, c - g))
  {
    RegionAdded(h, size, g, p);
    SpanLess(p, g, c);
  }

  // kmalloc, then kfree of what it returned
  function Requested(h: Heap, size: nat): (r: Heap)
    requires h.pages.Valid()
    ensures r.pages.Valid()
  {
    B.Free(Malloc(h, size).0, Malloc(h, size).1)
  }

  // Two regions are added, the later one is taken, another client of the page allocator gives
  // back the pages below both, and they become the third region.
  function WithN(): Heap { Requested(InitHeap(ARENA, Pages(2048, Span(1024, 320))), 600000) }
  function WithB(): Heap { Requested(WithN(), 700000) }
  function TakenB(): Heap { Malloc(WithB(), 704464).0 }
  function Given(): Heap { TakenB().(pages := Pages(2048, Span(827, 197))) }
  function WithP(): Heap
  {
    assert Given().pages.Valid();
    Requested(Given(), 800000)
  }

  lemma SizesSwapped()
    ensures RoundUp(600000) == 600000 && RoundUp(700000) == 700000 && RoundUp(704464) == 704464
    ensures RoundUp(800000) == 800000
    ensures GrowthPages(600000) == 148 && GrowthPages(700000) == 172 && GrowthPages(800000) == 197
  {
  }

  lemma FirstRegion(h: Heap, size: nat, g: nat, p: nat, c: nat, z: Blk)
    requires h.pages.Valid() && 0 < size == RoundUp(size) && g == GrowthPages(size)
    requires 0 < p && 0 < g <= c && h.pages.free == Span(p, c) && size + HDR + HDR + MIN <= g * PAGE_SIZE
    requires h.blocks == [z] && z.size < size
    ensures Requested(h, size).blocks == [Blk(p * PAGE_SIZE, g * PAGE_SIZE - HDR, true), z]
    ensures Requested(h, size).pages == h.pages.(free := Span(p + g, c - g))
  {
    RegionOfRun(h, size, g, p, c);
    assert [Blk(p * PAGE_SIZE, g * PAGE_SIZE - HDR, true)] + [z] == [Blk(p * PAGE_SIZE, g * PAGE_SIZE - HDR, true), z];
  }

  lemma WithNIs()
    ensures WithN().blocks == [Blk(1024 * PAGE_SIZE, 606168, true), Blk(ARENA, 524248, true)]
    ensures WithN().pages == Pages(2048, Span(1172, 172))
  {
    SizesSwapped();
    var h := InitHeap(ARENA, Pages(2048, Span(1024, 320)));
    assert h.blocks == [Blk(ARENA, 524248, true)];
    FirstRegion(h, 600000, 148, 1024, 320, Blk(ARENA, 524248, true));
  }

  lemma SecondRegion(h: Heap, size: nat, g: nat, p: nat, n: Blk, z: Blk)
    requires h.pages.Valid() && 0 < size == RoundUp(size) && g == GrowthPages(size)
    requires 0 < p && 0 < g && h.pages.free == Span(p, g) && size + HDR + HDR + MIN <= g * PAGE_SIZE
    requires h.blocks == [n, z] && n.size < size && z.size < size
    ensures Requested(h, size).blocks == [Blk(p * PAGE_SIZE, g * PAGE_SIZE - HDR, true), n, z]
    ensures Requested(h, size).pages == h.pages.(free := {})
  {
    RegionOfRun(h, size, g, p, g);
    assert [Blk(p * PAGE_SIZE, g * PAGE_SIZE - HDR, true)] + [n, z]
        == [Blk(p * PAGE_SIZE, g * PAGE_SIZE - HDR, true), n, z];
  }

  lemma WithBIs()
    ensures WithB().blocks == [Blk(1172 * PAGE_SIZE, 704472, true), Blk(1024 * PAGE_SIZE, 606168, true),
                               Blk(ARENA, 524248, true)]
    ensures WithB().pages == Pages(2048, {})
  {
    WithNIs();
    SizesSwapped();
    SecondRegion(WithN(), 700000, 172, 1172, Blk(1024 * PAGE_SIZE, 606168, true), Blk(ARENA, 524248, true));
  }

  lemma TakenBIs()
    ensures TakenB().blocks == [Blk(1172 * PAGE_SIZE, 704472, false), Blk(1024 * PAGE_SIZE, 606168, true),
                                Blk(ARENA, 524248, true)]
  {
    WithBIs();
    SizesSwapped();
    TakesWhole(WithB(), 704464, 704464, 0);
  }

  // A third region before two blocks and the arena
  lemma ThirdRegion(h: Heap, size: nat, g: nat, p: nat, c: nat, b: Blk, n: Blk, z: Blk)
    requires h.pages.Valid() && 0 < size == RoundUp(size) && g == GrowthPages(size)
    requires 0 < p && 0 < g <= c && h.pages.free == Span(p, c) && size + HDR + HDR + MIN <= g * PAGE_SIZE
    requires h.blocks == [b, n, z] && !b.free && n.size < size && z.size < size
    ensures Requested(h, size).blocks == [Blk(p * PAGE_SIZE, g * PAGE_SIZE - HDR, true), b, n, z]
  {
    RegionOfRun(h, size, g, p, c);
    assert [Blk(p * PAGE_SIZE, g * PAGE_SIZE - HDR, true)] + [b, n, z]
        == [Blk(p * PAGE_SIZE, g * PAGE_SIZE - HDR, true), b, n, z];
  }

  lemma WithPIs()
    ensures WithP().blocks == [Blk(827 * PAGE_SIZE, 806872, true), Blk(1172 * PAGE_SIZE, 704472, false),
                               Blk(1024 * PAGE_SIZE, 606168, true), Blk(ARENA, 524248, true)]
  {
    TakenBIs();
    SizesSwapped();
    ThirdRegion(Given(), 800000, 197, 827, 197, Blk(1172 * PAGE_SIZE, 704472, false),
                Blk(1024 * PAGE_SIZE, 606168, true), Blk(ARENA, 524248, true));
  }

  // The free block after b lies between the free block before b and b itself: the three are
  // one stretch, and the free is harmless although no list neighbours touch in list order.
  lemma FreeSwapped()
    ensures WithP().blocks == [Blk(827 * PAGE_SIZE, 806872, true), Blk(1172 * PAGE_SIZE, 704472, false),
                               Blk(1024 * PAGE_SIZE, 606168, true), Blk(ARENA, 524248, true)]
    ensures LiveAt(WithP().blocks, 1172 * PAGE_SIZE + HDR) && FreeLegal(WithP(), 1172 * PAGE_SIZE + HDR)
    ensures B.Free(WithP(), 1172 * PAGE_SIZE + HDR).blocks ==
      [Blk(827 * PAGE_SIZE, 2117592, true), Blk(ARENA, 524248, true)]
  {
    WithPIs();
    FreesSecond(WithP(), Blk(827 * PAGE_SIZE, 806872, true), Blk(1172 * PAGE_SIZE, 704472, false),
                Blk(1024 * PAGE_SIZE, 606168, true), Blk(ARENA, 524248, true));
  }

  lemma FreesSecond(h: Heap, p: Blk, b: Blk, n: Blk, z: Blk)
    requires h.blocks == [p, b, n, z] && p.free && !b.free && n.free && End(p) == n.addr && End(n) == b.addr
    ensures LiveAt(h.blocks, Payload(b)) && FreeLegal(h, Payload(b))
    ensures B.Free(h, Payload(b)).blocks == [Blk(p.addr, p.size + HDR + b.size + HDR + n.size, true), z]
  {
    Frees(h, 1);
    assert Joined(h.blocks, 1) == Blk(p.addr, p.size + HDR + b.size + HDR + n.size, true);
    assert Replace(h.blocks, 0, 3, [Joined(h.blocks, 1)]) == [Joined(h.blocks, 1), z];
  }
}
