/** A heap of several regions: the block list is one exact tiling after the other, a region
    added later before those added earlier. */
module Regions {
  import opened Bytes
  import opened Pages
  import opened Blocks
  import B = Blocks

  datatype Region = Region(lo: nat, hi: nat)

  // The regions in list order, and for each block the number of its region
  datatype Layout = Layout(regs: seq<Region>, who: seq<nat>)

  // Blocks i and i + 1 touch if they are of one region, and end and start their regions if not.
  ghost predicate Follows(bs: seq<Blk>, l: Layout, i: nat)
    requires i + 1 < |bs| == |l.who|
  {
    var (r, s) := (l.who[i], l.who[i + 1]);
    && r < |l.regs| && s < |l.regs|
    && (if r == s then End(bs[i]) == bs[i + 1].addr
        else s == r + 1 && End(bs[i]) == l.regs[r].hi && bs[i + 1].addr == l.regs[s].lo)
  }

  ghost predicate Laid(bs: seq<Blk>, l: Layout) {
    && 0 < |bs| == |l.who| && |l.regs| > 0
    && l.who[0] == 0 && bs[0].addr == l.regs[0].lo
    && l.who[|bs| - 1] == |l.regs| - 1 && End(bs[|bs| - 1]) == l.regs[|l.regs| - 1].hi
    && forall i :: 0 <= i < |bs| - 1 ==> Follows(bs, l, i)
  }

  // The blocks of one region, from the first to the last of them, tile it.
  lemma RegionTiles(bs: seq<Blk>, l: Layout, a: nat, b: nat)
    requires Laid(bs, l) && a < b <= |bs| && forall i :: a <= i < b ==> l.who[i] == l.who[a]
    requires a == 0 || l.who[a - 1] != l.who[a]
    requires b == |bs| || l.who[b] != l.who[a]
    ensures l.who[a] < |l.regs| && Tiles(bs[a..b], l.regs[l.who[a]].lo, l.regs[l.who[a]].hi)
  {
    if a > 0 { assert Follows(bs, l, a - 1); }
    if b < |bs| { assert Follows(bs, l, b - 1); }
    if a + 1 < |bs| { assert Follows(bs, l, a); }
    forall i | 0 <= i < b - a - 1 ensures End(bs[a..b][i]) == bs[a..b][i + 1].addr { assert Follows(bs, l, a + i); }
  }

  // ----- layouts change with the list -----

  function Same(r: nat, k: nat): (s: seq<nat>)
    ensures |s| == k && forall i :: 0 <= i < k ==> s[i] == r
  {
    seq(k, i => r)
  }

  // k blocks in the place of those from i up to j
  function Inserted(l: Layout, i: nat, j: nat, k: nat): Layout
    requires i < j <= |l.who|
  {
    l.(who := l.who[..i] + Same(l.who[i], k) + l.who[j..])
  }

  lemma InsertedLaid(bs: seq<Blk>, l: Layout, i: nat, j: nat, mid: seq<Blk>)
    requires Laid(bs, l) && i < j <= |bs| && forall x :: i <= x < j ==> l.who[x] == l.who[i]
    requires Tiles(mid, bs[i].addr, End(bs[j - 1]))
    ensures Laid(Replace(bs, i, j, mid), Inserted(l, i, j, |mid|))
  {
    var (r, l') := (Replace(bs, i, j, mid), Inserted(l, i, j, |mid|));
    forall x | 0 <= x < |r| - 1 ensures Follows(r, l', x) { InsertedFollows(bs, l, i, j, mid, x); }
    assert r[0].addr == bs[0].addr && l'.who[0] == l.who[0];
    assert End(r[|r| - 1]) == End(bs[|bs| - 1]) && l'.who[|r| - 1] == l.who[|bs| - 1];
  }

  lemma InsertedFollows(bs: seq<Blk>, l: Layout, i: nat, j: nat, mid: seq<Blk>, x: nat)
    requires Laid(bs, l) && i < j <= |bs| && forall y :: i <= y < j ==> l.who[y] == l.who[i]
    requires Tiles(mid, bs[i].addr, End(bs[j - 1])) && x + 1 < |Replace(bs, i, j, mid)|
    ensures Follows(Replace(bs, i, j, mid), Inserted(l, i, j, |mid|), x)
  {
    var (r, w, e) := (Replace(bs, i, j, mid), Inserted(l, i, j, |mid|).who, i + |mid|);
    RegionNumber(bs, l, i);
    if x + 1 < i {
      assert Follows(bs, l, x);
      assert r[x] == bs[x] && r[x + 1] == bs[x + 1] && w[x] == l.who[x] && w[x + 1] == l.who[x + 1];
    } else if x + 1 == i {
      assert Follows(bs, l, x);
      assert r[x] == bs[x] && r[x + 1] == mid[0] && w[x] == l.who[x] && w[x + 1] == l.who[i];
    } else if x + 1 < e {
      assert r[x] == mid[x - i] && r[x + 1] == mid[x + 1 - i] && w[x] == l.who[i] && w[x + 1] == l.who[i];
    } else {
      var y := x - e + j;
      assert Follows(bs, l, y);
      assert r[x + 1] == bs[y + 1] && w[x + 1] == l.who[y + 1];
      if x >= e {
        assert r[x] == bs[y] && w[x] == l.who[y];
      } else {
        assert r[x] == mid[|mid| - 1] && w[x] == l.who[i];
      }
    }
  }

  lemma RegionNumber(bs: seq<Blk>, l: Layout, i: nat)
    requires Laid(bs, l) && i < |bs|
    ensures l.who[i] < |l.regs|
  {
    if i + 1 < |bs| { assert Follows(bs, l, i); }
  }

  // A new region before the others
  function Prepended(l: Layout, r: Region): Layout {
    Layout([r] + l.regs, [0] + seq(|l.who|, i requires 0 <= i < |l.who| => l.who[i] + 1))
  }

  lemma PrependedLaid(bs: seq<Blk>, l: Layout, b: Blk)
    requires Laid(bs, l)
    ensures Laid([b] + bs, Prepended(l, Region(b.addr, End(b))))
  {
    var (bs', l') := ([b] + bs, Prepended(l, Region(b.addr, End(b))));
    forall i | 0 <= i < |bs'| - 1 ensures Follows(bs', l', i) {
      if i > 0 { assert Follows(bs, l, i - 1); }
    }
  }

  // ----- frees inside a region -----

  // The free list neighbours of block i are of its region.
  ghost predicate OwnRegion(bs: seq<Blk>, l: Layout, i: nat)
    requires i < |bs| == |l.who|
  {
    && (i + 1 < |bs| && bs[i + 1].free ==> l.who[i + 1] == l.who[i])
    && (i > 0 && bs[i - 1].free ==> l.who[i - 1] == l.who[i])
  }

  lemma OwnSafe(bs: seq<Blk>, l: Layout, i: nat)
    requires Laid(bs, l) && i < |bs| && OwnRegion(bs, l, i)
    ensures SeamSafe(bs, i)
    ensures Tiles([Joined(bs, i)], bs[First(bs, i)].addr, End(bs[Last(bs, i)]))
    ensures forall x :: First(bs, i) <= x <= Last(bs, i) ==> l.who[x] == l.who[First(bs, i)]
  {
    if i + 1 < |bs| { assert Follows(bs, l, i); }
    if i > 0 { assert Follows(bs, l, i - 1); }
  }

  // A block that is neither the first nor the last of its region may always be freed.
  lemma InnerFree(h: Heap, l: Layout, i: nat, limit: nat)
    requires Inv(h, limit) && Laid(h.blocks, l) && 0 < i && i + 1 < |h.blocks|
    requires l.who[i - 1] == l.who[i] == l.who[i + 1]
    ensures FreeLegal(h, Payload(h.blocks[i]))
  {
    OwnSafe(h.blocks, l, i);
    FindIs(h.blocks, i);
  }

  // ----- every run -----

  function AttemptLayout(h: Heap, n: nat, tries: nat, l: Layout): Layout
    requires h.pages.Valid() && |h.blocks| == |l.who|
    decreases tries
  {
    var i := FirstFit(h.blocks, n);
    if tries == 0 then l
    else if i < |h.blocks| then Inserted(l, i, i + 1, |Carve(h.blocks[i], n)|)
    else
      var (h', ok) := Expand(h, n);
      if !ok || |h'.blocks| != |h.blocks| + 1 then l else AttemptLayout(h', n, tries - 1, Expanded(h, n, l))
  }

  // With the region the heap grows by
  function Expanded(h: Heap, n: nat, l: Layout): (r: Layout)
    requires h.pages.Valid() && |Expand(h, n).0.blocks| > 0
    ensures |r.who| == |l.who| + 1
  {
    var b := Expand(h, n).0.blocks[0];
    Prepended(l, Region(b.addr, End(b)))
  }

  function MallocLayout(h: Heap, size: nat, l: Layout): Layout
    requires h.pages.Valid() && |h.blocks| == |l.who|
  {
    if size == 0 then l else AttemptLayout(h, RoundUp(size), 2, l)
  }

  function FreeLayout(h: Heap, ptr: nat, l: Layout): Layout
    requires |h.blocks| == |l.who|
  {
    if !Listed(h, ptr) || h.blocks[Find(h.blocks, ptr - HDR)].free then l
    else
      var i := Find(h.blocks, ptr - HDR);
      Inserted(l, First(h.blocks, i), Last(h.blocks, i) + 1, 1)
  }

  // l' is l with regions before its own.
  ghost predicate Extends(l: Layout, l': Layout) {
    |l'.regs| >= |l.regs| && l'.regs[|l'.regs| - |l.regs|..] == l.regs
  }

  lemma ExtendsTrans(a: Layout, b: Layout, c: Layout)
    requires Extends(a, b) && Extends(b, c)
    ensures Extends(a, c)
  {
  }

  lemma CarveTiles(b: Blk, n: nat)
    requires b.size >= n
    ensures Tiles(Carve(b, n), b.addr, End(b))
  {
  }

  lemma {:induction false} AttemptLaid(h: Heap, n: nat, tries: nat, l: Layout, limit: nat)
    requires Inv(h, limit) && n >= MIN && n % 8 == 0 && Laid(h.blocks, l)
    ensures Laid(Attempt(h, n, tries).0.blocks, AttemptLayout(h, n, tries, l))
    ensures Extends(l, AttemptLayout(h, n, tries, l))
    decreases tries
  {
    if tries == 0 {
    } else if FirstFit(h.blocks, n) < |h.blocks| {
      TakesLaid(h, n, tries, l);
    } else {
      var (h1, ok) := Expand(h, n);
      ExpandShape(h, n, limit);
      if ok {
        ExpandLaid(h, n, l);
        AttemptLaid(h1, n, tries - 1, Expanded(h, n, l), limit);
        GrowsLaid(h, n, tries, l, h1, Expanded(h, n, l));
      } else {
        StopsLaid(h, n, tries, l);
      }
    }
  }

  lemma GrowsLaid(h: Heap, n: nat, tries: nat, l: Layout, h1: Heap, l1: Layout)
    requires h.pages.Valid() && |h.blocks| == |l.who| && tries > 0 && FirstFit(h.blocks, n) == |h.blocks|
    requires Expand(h, n) == (h1, true) && |h1.blocks| == |h.blocks| + 1 && l1 == Expanded(h, n, l) && Extends(l, l1)
    requires Laid(Attempt(h1, n, tries - 1).0.blocks, AttemptLayout(h1, n, tries - 1, l1))
    requires Extends(l1, AttemptLayout(h1, n, tries - 1, l1))
    ensures Laid(Attempt(h, n, tries).0.blocks, AttemptLayout(h, n, tries, l))
    ensures Extends(l, AttemptLayout(h, n, tries, l))
  {
    AttemptGrows(h, n, tries);
    LayoutGrows(h, n, tries, l);
    ExtendsTrans(l, l1, AttemptLayout(h1, n, tries - 1, l1));
  }

  lemma StopsLaid(h: Heap, n: nat, tries: nat, l: Layout)
    requires h.pages.Valid() && |h.blocks| == |l.who| && tries > 0 && FirstFit(h.blocks, n) == |h.blocks|
    requires Expand(h, n) == (h, false)
    ensures Attempt(h, n, tries).0.blocks == h.blocks && AttemptLayout(h, n, tries, l) == l
  {
  }

  lemma TakesLaid(h: Heap, n: nat, tries: nat, l: Layout)
    requires h.pages.Valid() && Laid(h.blocks, l) && tries > 0 && FirstFit(h.blocks, n) < |h.blocks|
    ensures Laid(Attempt(h, n, tries).0.blocks, AttemptLayout(h, n, tries, l))
    ensures Extends(l, AttemptLayout(h, n, tries, l))
  {
    TakeLaid(h, FirstFit(h.blocks, n), n, l);
  }

  lemma ExpandShape(h: Heap, n: nat, limit: nat)
    requires Inv(h, limit) && n >= MIN
    ensures var (h1, ok) := Expand(h, n);
      && (!ok ==> h1 == h)
      && (ok ==> Inv(h1, limit) && |h1.blocks| == |h.blocks| + 1 && h1.blocks[1..] == h.blocks)
  {
    ExpandOk(h, n, limit);
  }

  lemma LayoutGrows(h: Heap, n: nat, tries: nat, l: Layout)
    requires h.pages.Valid() && |h.blocks| == |l.who| && tries > 0 && FirstFit(h.blocks, n) == |h.blocks|
    requires Expand(h, n).1 && |Expand(h, n).0.blocks| == |h.blocks| + 1
    ensures AttemptLayout(h, n, tries, l) == AttemptLayout(Expand(h, n).0, n, tries - 1, Expanded(h, n, l))
  {
  }

  lemma TakeLaid(h: Heap, i: nat, n: nat, l: Layout)
    requires Laid(h.blocks, l) && i < |h.blocks| && Fits(h.blocks[i], n)
    ensures Laid(Take(h, i, n).0.blocks, Inserted(l, i, i + 1, |Carve(h.blocks[i], n)|))
  {
    CarveTiles(h.blocks[i], n);
    InsertedLaid(h.blocks, l, i, i + 1, Carve(h.blocks[i], n));
  }

  lemma ExpandLaid(h: Heap, n: nat, l: Layout)
    requires h.pages.Valid() && Laid(h.blocks, l) && |Expand(h, n).0.blocks| == |h.blocks| + 1
    requires Expand(h, n).0.blocks[1..] == h.blocks
    ensures Laid(Expand(h, n).0.blocks, Expanded(h, n, l)) && Extends(l, Expanded(h, n, l))
  {
    var bs := Expand(h, n).0.blocks;
    assert bs == [bs[0]] + bs[1..];
    PrependedLaid(h.blocks, l, bs[0]);
  }

  lemma MallocLaid(h: Heap, size: nat, l: Layout, limit: nat)
    requires Inv(h, limit) && size < U64 && Laid(h.blocks, l)
    ensures Laid(Malloc(h, size).0.blocks, MallocLayout(h, size, l)) && Extends(l, MallocLayout(h, size, l))
  {
    RoundUpOk(size);
    if size > 0 { AttemptLaid(h, RoundUp(size), 2, l, limit); }
  }

  // The pointer is null or a block's whose free neighbours are of its region.
  ghost predicate FreeInside(h: Heap, ptr: nat, l: Layout)
    requires |h.blocks| == |l.who|
  {
    ptr != 0 ==> Listed(h, ptr) && OwnRegion(h.blocks, l, Find(h.blocks, ptr - HDR))
  }

  lemma FreeLaid(h: Heap, ptr: nat, l: Layout)
    requires Laid(h.blocks, l) && FreeInside(h, ptr, l)
    ensures FreeLegal(h, ptr) && Laid(B.Free(h, ptr).blocks, FreeLayout(h, ptr, l)) && Extends(l, FreeLayout(h, ptr, l))
  {
    if ptr != 0 { CoalesceLaid(h.blocks, l, Find(h.blocks, ptr - HDR)); }
  }

  lemma CoalesceLaid(bs: seq<Blk>, l: Layout, i: nat)
    requires Laid(bs, l) && i < |bs| && OwnRegion(bs, l, i)
    ensures SeamSafe(bs, i)
    ensures Laid(Coalesce(bs[i := bs[i].(free := true)], i), Inserted(l, First(bs, i), Last(bs, i) + 1, 1))
  {
    OwnSafe(bs, l, i);
    CoalesceShape(bs, i);
    InsertedLaid(bs, l, First(bs, i), Last(bs, i) + 1, [Joined(bs, i)]);
  }

  datatype Op = MallocOp(size: nat) | FreeOp(ptr: nat)

  ghost predicate Inside(h: Heap, l: Layout, op: Op)
    requires |h.blocks| == |l.who|
  {
    match op
    case MallocOp(size) => size < U64
    case FreeOp(ptr) => FreeInside(h, ptr, l)
  }

  function Plain(op: Op): B.Op { match op case MallocOp(s) => B.MallocOp(s) case FreeOp(p) => B.FreeOp(p) }

  function NextHeap(h: Heap, op: Op): (r: Heap)
    requires h.pages.Valid()
    ensures r.pages.Valid()
  {
    match op case MallocOp(size) => Malloc(h, size).0 case FreeOp(ptr) => B.Free(h, ptr)
  }

  function NextLayout(h: Heap, l: Layout, op: Op): Layout
    requires h.pages.Valid() && |h.blocks| == |l.who|
  {
    match op case MallocOp(size) => MallocLayout(h, size, l) case FreeOp(ptr) => FreeLayout(h, ptr, l)
  }

  // A run in which every free finds its free neighbours in its own region
  ghost predicate RegionRun(h: Heap, l: Layout, ops: seq<Op>, h': Heap, l': Layout)
    requires h.pages.Valid()
    decreases |ops|
  {
    if ops == [] then h' == h && l' == l
    else
      && |h.blocks| == |l.who| && Inside(h, l, ops[0])
      && RegionRun(NextHeap(h, ops[0]), NextLayout(h, l, ops[0]), ops[1..], h', l')
  }

  function PlainOps(ops: seq<Op>): seq<B.Op> { if ops == [] then [] else [Plain(ops[0])] + PlainOps(ops[1..]) }

  lemma StepLaid(h: Heap, l: Layout, op: Op, limit: nat)
    requires Inv(h, limit) && Laid(h.blocks, l) && Inside(h, l, op)
    ensures B.Legal(h, Plain(op)) && Inv(NextHeap(h, op), limit)
    ensures Laid(NextHeap(h, op).blocks, NextLayout(h, l, op)) && Extends(l, NextLayout(h, l, op))
  {
    match op
    case MallocOp(size) =>
      MallocLaid(h, size, l, limit);
      MallocOk(h, size, limit);
    case FreeOp(ptr) =>
      FreeLaid(h, ptr, l);
      FreeOk(h, ptr, limit);
  }

  // With any number of regions, in every such run: no free crosses a seam, the heap stays
  // sound, and the list is one exact tiling after the other, one for each region there is.
  lemma {:induction false} RunLaid(h: Heap, l: Layout, ops: seq<Op>, h': Heap, l': Layout, limit: nat)
    requires Inv(h, limit) && Laid(h.blocks, l) && RegionRun(h, l, ops, h', l')
    ensures B.Run(h, PlainOps(ops), h') && Inv(h', limit) && Laid(h'.blocks, l') && Extends(l, l')
    decreases |ops|
  {
    if ops == [] {
    } else {
      var (h1, l1) := (NextHeap(h, ops[0]), NextLayout(h, l, ops[0]));
      StepLaid(h, l, ops[0], limit);
      RunLaid(h1, l1, ops[1..], h', l', limit);
      ExtendsTrans(l, l1, l');
      assert PlainOps(ops)[0] == Plain(ops[0]) && PlainOps(ops)[1..] == PlainOps(ops[1..]);
    }
  }

  lemma InitLaid(arena: nat, pages: Pages)
    ensures Laid(InitHeap(arena, pages).blocks, Layout([Region(arena, arena + EARLY_HEAP)], [0]))
  {
    assert InitHeap(arena, pages).blocks == [Blk(arena, EARLY_HEAP - HDR, true)];
  }
}
