/** The kernel heap's block list as a value: first-fit allocation with splitting, freeing with
    two-sided coalescing, growth by page runs. Heap.dfy keeps the list in memory as linked
    headers and computes these operations. */
module Blocks {
  import opened Bytes
  import opened Pages

  const HDR: nat := 40         // sizeof(block_t)
  const MIN: nat := 32         // HEAP_MIN
  const ALIGN: nat := 16       // HEAP_ALIGN

  // A block occupies [addr, addr + HDR + size): a header, then size payload bytes.
  datatype Blk = Blk(addr: nat, size: nat, free: bool)

  function End(b: Blk): nat { b.addr + HDR + b.size }
  function Payload(b: Blk): nat { b.addr + HDR }

  datatype Heap = Heap(blocks: seq<Blk>, used: int, total: nat, allocs: nat, pages: Pages)

  // ----- the operations -----

  // H3OS_ALIGN_UP(size, 16) on 64-bit words, then at least HEAP_MIN
  function RoundUp(size: nat): nat {
    var up := (size + ALIGN - 1) % U64 / ALIGN * ALIGN;
    if up < MIN then MIN else up
  }

  predicate Fits(b: Blk, size: nat) { b.free && b.size >= size }

  function FirstFit(bs: seq<Blk>, size: nat): (i: nat)
    ensures i <= |bs| && (i < |bs| ==> Fits(bs[i], size))
    ensures forall j :: 0 <= j < i ==> !Fits(bs[j], size)
  {
    if bs == [] || Fits(bs[0], size) then 0 else 1 + FirstFit(bs[1..], size)
  }

  // bs with the blocks from i up to j replaced by mid
  function Replace(bs: seq<Blk>, i: nat, j: nat, mid: seq<Blk>): seq<Blk>
    requires i <= j <= |bs|
  {
    bs[..i] + mid + bs[j..]
  }

  function Carve(b: Blk, size: nat): seq<Blk>
    requires b.size >= size
  {
    if b.size >= size + HDR + MIN then
      [Blk(b.addr, size, false), Blk(b.addr + HDR + size, b.size - size - HDR, true)]
    else [b.(free := false)]
  }

  function Take(h: Heap, i: nat, size: nat): (Heap, nat)
    requires i < |h.blocks| && Fits(h.blocks[i], size)
  {
    var mid := Carve(h.blocks[i], size);
    (h.(blocks := Replace(h.blocks, i, i + 1, mid), used := h.used + mid[0].size, allocs := h.allocs + 1),
     Payload(h.blocks[i]))
  }

  function AddRegion(h: Heap, addr: nat, size: nat): Heap {
    if size < HDR + MIN then h
    else h.(blocks := [Blk(addr, size - HDR, true)] + h.blocks, total := h.total + size)
  }

  // H3OS_ALIGN_UP(need + 40 + 4096, 4096) / 4096 on 64-bit words
  function GrowthPages(need: nat): nat {
    (need + HDR + PAGE_SIZE + PAGE_SIZE - 1) % U64 / PAGE_SIZE
  }

  function Expand(h: Heap, need: nat): (Heap, bool)
    requires h.pages.Valid()
  {
    var (pages, a) := Alloc(h.pages, GrowthPages(need));
    if a == 0 then (h.(pages := pages), false)
    else (AddRegion(h.(pages := pages), a, GrowthPages(need) * PAGE_SIZE), true)
  }

  // kmalloc once the size is rounded, with tries passes left
  function Attempt(h: Heap, n: nat, tries: nat): (r: (Heap, nat))
    requires h.pages.Valid()
    ensures r.0.pages.Valid()
    decreases tries
  {
    var i := FirstFit(h.blocks, n);
    if tries == 0 then (h, 0)
    else if i < |h.blocks| then Take(h, i, n)
    else
      var (h', ok) := Expand(h, n);
      if !ok then (h', 0) else Attempt(h', n, tries - 1)
  }

  function Malloc(h: Heap, size: nat): (r: (Heap, nat))
    requires h.pages.Valid()
    ensures r.0.pages.Valid()
  {
    if size == 0 then (h, 0) else Attempt(h, RoundUp(size), 2)
  }

  function Find(bs: seq<Blk>, addr: nat): (i: nat)
    ensures i <= |bs| && (i < |bs| ==> bs[i].addr == addr)
    ensures forall j :: 0 <= j < i ==> bs[j].addr != addr
  {
    if bs == [] || bs[0].addr == addr then 0 else 1 + Find(bs[1..], addr)
  }

  // The list neighbours k and k + 1 become one block; their addresses are not compared.
  function Merge(bs: seq<Blk>, k: nat): seq<Blk>
    requires k + 1 < |bs|
  {
    Replace(bs, k, k + 2, [bs[k].(size := bs[k].size + HDR + bs[k + 1].size)])
  }

  function MergeNext(bs: seq<Blk>, i: nat): (r: seq<Blk>)
    requires i < |bs|
    ensures i < |r|
  {
    if i + 1 < |bs| && bs[i + 1].free then Merge(bs, i) else bs
  }

  function MergePrev(bs: seq<Blk>, i: nat): seq<Blk>
    requires i < |bs|
  {
    if i > 0 && bs[i - 1].free then Merge(bs, i - 1) else bs
  }

  function Coalesce(bs: seq<Blk>, i: nat): seq<Blk>
    requires i < |bs|
  {
    MergePrev(MergeNext(bs, i), i)
  }

  // Freeing a block already free is refused. A pointer that names no block changes nothing
  // here; no caller of this model passes one.
  function Free(h: Heap, ptr: nat): Heap {
    if ptr < HDR then h
    else
      var i := Find(h.blocks, ptr - HDR);
      if i == |h.blocks| || h.blocks[i].free then h
      else h.(blocks := Coalesce(h.blocks[i := h.blocks[i].(free := true)], i), used := h.used - h.blocks[i].size)
  }

  function Realloc(h: Heap, ptr: nat, size: nat): (r: (Heap, nat))
    requires h.pages.Valid()
    ensures r.0.pages.Valid()
  {
    if ptr == 0 then Malloc(h, size)
    else if !Listed(h, ptr) then (h, ptr)
    else if size == 0 then (Free(h, ptr), 0)
    else if h.blocks[Find(h.blocks, ptr - HDR)].size >= size then (h, ptr)
    else
      var (h', n) := Malloc(h, size);
      if n == 0 then (h', 0) else (Free(h', ptr), n)
  }

  // ptr is the payload of a block of the list.
  predicate Listed(h: Heap, ptr: nat) { ptr >= HDR && Find(h.blocks, ptr - HDR) < |h.blocks| }

  // ----- the invariant -----

  ghost predicate Apart(a: Blk, b: Blk) { End(a) <= b.addr || End(b) <= a.addr }

  ghost predicate Separate(bs: seq<Blk>) {
    forall i, j :: 0 <= i < j < |bs| ==> Apart(bs[i], bs[j])
  }

  // The block is well sized and aligned, lies in memory, and touches no free page.
  ghost predicate BlkOk(b: Blk, pages: Pages, limit: nat) {
    && b.addr > 0 && b.size >= MIN && End(b) <= limit
    && b.addr % 8 == 0 && b.size % 8 == 0
    && (forall p :: p in pages.free ==> End(b) <= p * PAGE_SIZE || (p + 1) * PAGE_SIZE <= b.addr)
  }

  function SumAll(bs: seq<Blk>): nat {
    if bs == [] then 0 else HDR + bs[0].size + SumAll(bs[1..])
  }

  function SumUsed(bs: seq<Blk>): nat {
    if bs == [] then 0 else (if bs[0].free then 0 else bs[0].size) + SumUsed(bs[1..])
  }

  // limit is the size of memory; heap_used and heap_total are exact.
  ghost predicate Inv(h: Heap, limit: nat) {
    && h.pages.Valid() && 0 !in h.pages.free && h.pages.total * PAGE_SIZE <= limit < U64
    && Separate(h.blocks)
    && (forall i :: 0 <= i < |h.blocks| ==> BlkOk(h.blocks[i], h.pages, limit))
    && h.used == SumUsed(h.blocks) && h.total == SumAll(h.blocks)
  }

  // ----- replacing blocks -----

  lemma {:induction false} Sums(a: seq<Blk>, b: seq<Blk>)
    ensures SumAll(a + b) == SumAll(a) + SumAll(b) && SumUsed(a + b) == SumUsed(a) + SumUsed(b)
  {
    if a == [] {
      assert a + b == b;
    } else {
      Sums(a[1..], b);
      assert (a + b)[1..] == a[1..] + b;
    }
  }

  lemma ReplaceSums(bs: seq<Blk>, i: nat, j: nat, mid: seq<Blk>)
    requires i <= j <= |bs|
    ensures SumAll(Replace(bs, i, j, mid)) + SumAll(bs[i..j]) == SumAll(bs) + SumAll(mid)
    ensures SumUsed(Replace(bs, i, j, mid)) + SumUsed(bs[i..j]) == SumUsed(bs) + SumUsed(mid)
  {
    assert bs == bs[..i] + bs[i..j] + bs[j..];
    Sums(bs[..i] + bs[i..j], bs[j..]);
    Sums(bs[..i], bs[i..j]);
    Sums(bs[..i] + mid, bs[j..]);
    Sums(bs[..i], mid);
  }

  // Blocks that are apart from the rest may stand in for the replaced ones.
  lemma ReplaceSeparate(bs: seq<Blk>, i: nat, j: nat, mid: seq<Blk>)
    requires i <= j <= |bs| && Separate(bs) && Separate(mid)
    requires forall m, k :: 0 <= m < |mid| && 0 <= k < |bs| && !(i <= k < j) ==> Apart(mid[m], bs[k])
    ensures Separate(Replace(bs, i, j, mid))
  {
    var r := Replace(bs, i, j, mid);
    forall x, y | 0 <= x < y < |r| ensures Apart(r[x], r[y]) {
      var p := if x < i then x else x - |mid| + (j - i);
      var q := if y < i then y else y - |mid| + (j - i);
      if x < i || x >= i + |mid| { assert r[x] == bs[p]; } else { assert r[x] == mid[x - i]; }
      if y < i || y >= i + |mid| { assert r[y] == bs[q]; } else { assert r[y] == mid[y - i]; }
    }
  }

  lemma ReplaceAll(bs: seq<Blk>, i: nat, j: nat, mid: seq<Blk>, b: Blk)
    requires i <= j <= |bs|
    ensures b in Replace(bs, i, j, mid) <==> b in bs[..i] || b in mid || b in bs[j..]
  {
  }

  // ----- allocation -----

  lemma RoundUpOk(size: nat)
    requires size < U64
    ensures RoundUp(size) % 8 == 0 && RoundUp(size) >= MIN && RoundUp(size) < U64
    ensures RoundUp(size) >= size <==> size <= U64 - ALIGN || size <= MIN
  {
    WrapOnce(size + ALIGN - 1);
    SixteenDown((size + ALIGN - 1) % U64);
  }

  lemma WrapOnce(v: nat)
    requires v < 2 * U64
    ensures v % U64 == if v < U64 then v else v - U64
  {
    ModUnique(v, U64, if v < U64 then 0 else 1, if v < U64 then v else v - U64);
  }

  lemma SixteenDown(x: nat)
    ensures x / ALIGN * ALIGN % 8 == 0 && x - ALIGN < x / ALIGN * ALIGN <= x
  {
    Multiple8(2 * (x / ALIGN));
  }

  // The block's live payload of at least n bytes is what the caller gets.
  ghost predicate Granted(h: Heap, ptr: nat, n: nat) {
    exists i :: 0 <= i < |h.blocks| && Payload(h.blocks[i]) == ptr && !h.blocks[i].free && h.blocks[i].size >= n
  }

  // The pointer is not the payload of a block live in h.
  ghost predicate NotLive(h: Heap, ptr: nat) {
    forall i :: 0 <= i < |h.blocks| && !h.blocks[i].free ==> Payload(h.blocks[i]) != ptr
  }

  // Every live block of h is still there in h', untouched.
  ghost predicate KeepsLive(h: Heap, h': Heap) {
    forall i :: 0 <= i < |h.blocks| && !h.blocks[i].free ==> h.blocks[i] in h'.blocks
  }

  lemma CarveOk(b: Blk, n: nat, pages: Pages, limit: nat)
    requires BlkOk(b, pages, limit) && b.size >= n && n >= MIN && n % 8 == 0 && b.free
    ensures var mid := Carve(b, n);
      && Separate(mid) && (forall k :: 0 <= k < |mid| ==> BlkOk(mid[k], pages, limit))
      && (forall k :: 0 <= k < |mid| ==> b.addr <= mid[k].addr && End(mid[k]) <= End(b))
      && SumAll(mid) == SumAll([b]) && SumUsed(mid) == mid[0].size && SumUsed([b]) == 0
      && mid[0].addr == b.addr && !mid[0].free && mid[0].size >= n
  {
    if b.size >= n + HDR + MIN { CarveAligned(b.addr, b.size, n); }
    CarveSums(b, n);
  }

  lemma CarveAligned(addr: nat, size: nat, n: nat)
    requires addr % 8 == 0 && size % 8 == 0 && n % 8 == 0 && size >= n + HDR
    ensures (addr + HDR + n) % 8 == 0 && (size - n - HDR) % 8 == 0
  {
  }

  lemma CarveSums(b: Blk, n: nat)
    requires b.size >= n && b.free
    ensures var mid := Carve(b, n);
      SumAll(mid) == SumAll([b]) && SumUsed(mid) == mid[0].size && SumUsed([b]) == 0
  {
    var mid := Carve(b, n);
    Sums([mid[0]], mid[1..]);
    assert mid == [mid[0]] + mid[1..];
    if |mid| == 2 { assert mid[1..] == [mid[1]]; }
  }

  lemma TakeOk(h: Heap, i: nat, n: nat, limit: nat)
    requires Inv(h, limit) && i < |h.blocks| && Fits(h.blocks[i], n) && n >= MIN && n % 8 == 0
    ensures var (h', p) := Take(h, i, n);
      && Inv(h', limit) && Granted(h', p, n) && NotLive(h, p) && KeepsLive(h, h') && p != 0
      && h'.total == h.total && h'.pages == h.pages
  {
    var b := h.blocks[i];
    var mid := Carve(b, n);
    var (h', p) := Take(h, i, n);
    CarveOk(b, n, h.pages, limit);
    forall m, k | 0 <= m < |mid| && 0 <= k < |h.blocks| && !(i <= k < i + 1) ensures Apart(mid[m], h.blocks[k]) {
      assert if k < i then Apart(h.blocks[k], b) else Apart(b, h.blocks[k]);
    }
    ReplaceSeparate(h.blocks, i, i + 1, mid);
    ReplaceSums(h.blocks, i, i + 1, mid);
    assert h.blocks[i..i + 1] == [b];
    forall k | 0 <= k < |h'.blocks| ensures BlkOk(h'.blocks[k], h.pages, limit) {
      ReplaceAll(h.blocks, i, i + 1, mid, h'.blocks[k]);
    }
    assert h'.blocks[i] == mid[0];
    forall k | 0 <= k < |h.blocks| && !h.blocks[k].free ensures Payload(h.blocks[k]) != p {
      assert if k < i then Apart(h.blocks[k], b) else k > i ==> Apart(b, h.blocks[k]);
    }
    forall k | 0 <= k < |h.blocks| && !h.blocks[k].free ensures h.blocks[k] in h'.blocks {
      if k < i { assert h.blocks[k] in h.blocks[..i]; } else { assert h.blocks[k] in h.blocks[i + 1..]; }
      ReplaceAll(h.blocks, i, i + 1, mid, h.blocks[k]);
    }
  }

  // A block that touches no page of a free run lies wholly below or wholly above it.
  lemma {:induction false} RunApart(b: Blk, pages: Pages, p: nat, count: nat)
    requires RunFree(pages, p, count) && count > 0
    requires forall q :: q in pages.free ==> End(b) <= q * PAGE_SIZE || (q + 1) * PAGE_SIZE <= b.addr
    ensures End(b) <= p * PAGE_SIZE || (p + count) * PAGE_SIZE <= b.addr
  {
    assert p in pages.free;
    if count == 1 {
    } else {
      RunApart(b, pages, p, count - 1);
      assert p + count - 1 in pages.free;
    }
  }

  // Growing the heap by one region of pages the allocator gave up
  lemma ExpandOk(h: Heap, n: nat, limit: nat)
    requires Inv(h, limit) && n >= MIN
    ensures var (h', ok) := Expand(h, n);
      && Inv(h', limit) && KeepsLive(h, h')
      && (ok <==> GrowthPages(n) > 0 && exists q: nat :: RunFree(h.pages, q, GrowthPages(n)))
      && (!ok ==> h' == h)
      && (ok ==> |h'.blocks| == |h.blocks| + 1 && h'.blocks[1..] == h.blocks && h'.used == h.used
                 && h'.allocs == h.allocs && h'.blocks[0].free && h'.total == h.total + GrowthPages(n) * PAGE_SIZE
                 && h'.blocks[0].size == GrowthPages(n) * PAGE_SIZE - HDR)
  {
    var g := GrowthPages(n);
    var (h', ok) := Expand(h, n);
    if g > 0 { AllocExact(h.pages, g); }
    var (pages, a) := Alloc(h.pages, g);
    if a != 0 {
      var p := a / PAGE_SIZE;
      var r := Blk(a, g * PAGE_SIZE - HDR, true);
      assert h'.blocks == [r] + h.blocks;
      forall i | 0 <= i < |h.blocks| ensures Apart(r, h.blocks[i]) {
        assert BlkOk(h.blocks[i], h.pages, limit);
        RunApart(h.blocks[i], h.pages, p, g);
      }
      forall i, j | 0 <= i < j < |h'.blocks| ensures Apart(h'.blocks[i], h'.blocks[j]) {
        if i > 0 { assert Apart(h.blocks[i - 1], h.blocks[j - 1]); }
      }
      RegionOk(h.pages, p, g, limit);
      forall k | 0 <= k < |h'.blocks| ensures BlkOk(h'.blocks[k], pages, limit) {
        if k > 0 { assert h'.blocks[k] == h.blocks[k - 1]; }
      }
      assert h'.blocks[1..] == h.blocks;
      forall i | 0 <= i < |h.blocks| && !h.blocks[i].free ensures h.blocks[i] in h'.blocks {
        assert h'.blocks[i + 1] == h.blocks[i];
      }
    }
  }

  lemma Multiple8(x: nat)
    ensures (8 * x) % 8 == 0
  {
  }

  lemma RegionOk(pages: Pages, p: nat, g: nat, limit: nat)
    requires pages.Valid() && RunFree(pages, p, g) && 0 < p && 0 < g && p + g <= pages.total
    requires pages.total * PAGE_SIZE <= limit
    ensures BlkOk(Blk(p * PAGE_SIZE, g * PAGE_SIZE - HDR, true), pages.(free := pages.free - Span(p, g)), limit)
  {
    var b := Blk(p * PAGE_SIZE, g * PAGE_SIZE - HDR, true);
    Multiple8(512 * p);
    Multiple8(512 * g - 5);
    assert End(b) == (p + g) * PAGE_SIZE && End(b) <= pages.total * PAGE_SIZE;
    forall q | q in pages.free - Span(p, g)
      ensures End(b) <= q * PAGE_SIZE || (q + 1) * PAGE_SIZE <= b.addr
    {
      assert q + 1 <= p || p + g <= q;
    }
  }

  lemma KeepsLiveTrans(a: Heap, b: Heap, c: Heap)
    requires KeepsLive(a, b) && KeepsLive(b, c)
    ensures KeepsLive(a, c)
  {
    forall i | 0 <= i < |a.blocks| && !a.blocks[i].free ensures a.blocks[i] in c.blocks {
      var j :| 0 <= j < |b.blocks| && b.blocks[j] == a.blocks[i];
    }
  }

  ghost predicate AllocPost(h: Heap, h': Heap, p: nat, n: nat, limit: nat) {
    Inv(h', limit) && KeepsLive(h, h') && (p != 0 ==> Granted(h', p, n) && NotLive(h, p))
  }

  lemma AllocPostTrans(a: Heap, b: Heap, c: Heap, p: nat, n: nat, limit: nat)
    requires KeepsLive(a, b) && AllocPost(b, c, p, n, limit)
    ensures AllocPost(a, c, p, n, limit)
  {
    KeepsLiveTrans(a, b, c);
    if p != 0 {
      forall i | 0 <= i < |a.blocks| && !a.blocks[i].free ensures Payload(a.blocks[i]) != p {
        var j :| 0 <= j < |b.blocks| && b.blocks[j] == a.blocks[i];
      }
    }
  }

  lemma {:induction false} AttemptOk(h: Heap, n: nat, tries: nat, limit: nat)
    requires Inv(h, limit) && n >= MIN && n % 8 == 0
    ensures AllocPost(h, Attempt(h, n, tries).0, Attempt(h, n, tries).1, n, limit)
    decreases tries
  {
    var i := FirstFit(h.blocks, n);
    if tries == 0 {
      assert Attempt(h, n, tries) == (h, 0);
      assert KeepsLive(h, h);
    } else if i < |h.blocks| {
      assert Attempt(h, n, tries) == Take(h, i, n);
      TakeOk(h, i, n, limit);
    } else {
      var (h1, ok) := Expand(h, n);
      ExpandOk(h, n, limit);
      if ok {
        assert Attempt(h, n, tries) == Attempt(h1, n, tries - 1);
        AttemptOk(h1, n, tries - 1, limit);
        AllocPostTrans(h, h1, Attempt(h1, n, tries - 1).0, Attempt(h1, n, tries - 1).1, n, limit);
      } else {
        assert Attempt(h, n, tries) == (h1, 0);
      }
    }
  }

  // Every allocation keeps the invariant and all live blocks, and a pointer returned is the
  // payload of a live block of the rounded size. By Separate it overlaps no other block.
  lemma MallocOk(h: Heap, size: nat, limit: nat)
    requires Inv(h, limit) && size < U64
    ensures var (h', p) := Malloc(h, size);
      && Inv(h', limit) && KeepsLive(h, h')
      && (p != 0 ==> Granted(h', p, RoundUp(size)) && NotLive(h, p))
      && (size == 0 ==> h' == h && p == 0)
  {
    RoundUpOk(size);
    AttemptOk(h, RoundUp(size), 2, limit);
  }

  // The same of a size that does not wrap when it is rounded
  lemma MallocGives(h: Heap, size: nat, limit: nat)
    requires Inv(h, limit) && size <= U64 - ALIGN
    ensures AllocPost(h, Malloc(h, size).0, Malloc(h, size).1, size, limit)
  {
    RoundUpOk(size);
    AttemptOk(h, RoundUp(size), 2, limit);
    GivesLess(h, Attempt(h, RoundUp(size), 2).0, Attempt(h, RoundUp(size), 2).1, RoundUp(size), size, limit);
    assert KeepsLive(h, h);
  }

  lemma GivesLess(h: Heap, h': Heap, p: nat, n: nat, size: nat, limit: nat)
    requires AllocPost(h, h', p, n, limit) && size <= n
    ensures AllocPost(h, h', p, size, limit)
  {
  }

  ghost predicate NoFit(bs: seq<Blk>, n: nat) {
    forall i :: 0 <= i < |bs| ==> !Fits(bs[i], n)
  }

  // The region asked for holds the request unless the 64-bit page computation wraps.
  lemma GrowthFits(n: nat)
    requires n >= MIN && n + HDR + 2 * PAGE_SIZE <= U64
    ensures GrowthPages(n) > 0 && GrowthPages(n) * PAGE_SIZE >= n + HDR + PAGE_SIZE
  {
  }

  lemma MallocGrows(h: Heap, n: nat, limit: nat)
    requires Inv(h, limit) && n >= MIN && n % 8 == 0 && n + HDR + 2 * PAGE_SIZE <= U64
    requires NoFit(h.blocks, n)
    ensures var (h', p) := Attempt(h, n, 2);
      && (p == 0 <==> forall q: nat :: !RunFree(h.pages, q, GrowthPages(n)))
      && (p == 0 ==> h' == h)
      && (p != 0 ==> Grown(h, h', p, GrowthPages(n)))
  {
    ExpandOk(h, n, limit);
    GrowthFits(n);
    var (h1, ok) := Expand(h, n);
    assert FirstFit(h.blocks, n) == |h.blocks|;
    if ok {
      assert Fits(h1.blocks[0], n) && FirstFit(h1.blocks, n) == 0;
      assert Attempt(h, n, 2) == Attempt(h1, n, 1) == Take(h1, 0, n);
      GrownTake(h, h1, n, GrowthPages(n));
    }
  }

  lemma GrownTake(h: Heap, h1: Heap, n: nat, g: nat)
    requires h1.blocks != [] && h1.blocks[1..] == h.blocks && Fits(h1.blocks[0], n)
    requires h1.total == h.total + g * PAGE_SIZE
    ensures Grown(h, Take(h1, 0, n).0, Take(h1, 0, n).1, g) && Take(h1, 0, n).1 != 0
  {
    var mid := Carve(h1.blocks[0], n);
    assert Take(h1, 0, n).0.blocks == mid + h.blocks;
  }

  // h' is h with one new region of g pages at the head, the allocation carved from its start.
  ghost predicate Grown(h: Heap, h': Heap, p: nat, g: nat) {
    && h'.total == h.total + g * PAGE_SIZE
    && |h'.blocks| > |h.blocks| && h'.blocks[|h'.blocks| - |h.blocks|..] == h.blocks
    && p == Payload(h'.blocks[0]) && !h'.blocks[0].free
  }

  // The page computation for n bytes stays below 2^64.
  predicate GrowthFitsWord(n: nat) { n + HDR + 2 * PAGE_SIZE <= U64 }

  // When it does not, the region asked for has at most two pages: too few for the request.
  lemma WrappedGrowth(n: nat)
    requires n < U64 && !GrowthFitsWord(n) && n % 8 == 0
    ensures GrowthPages(n) <= 2 && GrowthPages(n) * PAGE_SIZE < n
  {
    var v := n + HDR + PAGE_SIZE + PAGE_SIZE - 1;
    ModUnique(v, U64, 1, v - U64);
  }

  lemma MallocWraps(h: Heap, n: nat, limit: nat)
    requires Inv(h, limit) && n >= MIN && n % 8 == 0 && n < U64 && !GrowthFitsWord(n) && NoFit(h.blocks, n)
    ensures var (h', p) := Attempt(h, n, 2);
      p == 0 && (h' == h <==> GrowthPages(n) == 0 || forall q: nat :: !RunFree(h.pages, q, GrowthPages(n)))
  {
    var (h1, ok) := Expand(h, n);
    ExpandOk(h, n, limit);
    AttemptTotal(h, n, 2, limit);
    if ok {
      WrappedGrowth(n);
      NoFitGrown(h, h1, n);
      ExpandOk(h1, n, limit);
      assert Attempt(h, n, 2) == Attempt(h1, n, 1);
    }
  }

  // A region too small for the request does not make room for it.
  lemma NoFitGrown(h: Heap, h1: Heap, n: nat)
    requires NoFit(h.blocks, n) && h1.blocks != [] && h1.blocks[1..] == h.blocks && h1.blocks[0].size < n
    ensures NoFit(h1.blocks, n) && FirstFit(h1.blocks, n) == |h1.blocks|
  {
    forall k | 0 <= k < |h1.blocks| ensures !Fits(h1.blocks[k], n) {
      if k > 0 { assert h1.blocks[k] == h.blocks[k - 1]; }
    }
  }

  // NULL is returned exactly when no free block fits and either the page allocator has no run
  // of the computed length or that computation wraps. When the heap grows for a request it
  // serves, it grows once: the request is carved from the head of the one new region, and
  // every block that was there stays as it was. A NULL changes nothing unless the computation
  // wrapped; then every run found has been added to the heap for nothing.
  lemma MallocExact(h: Heap, size: nat, limit: nat)
    requires Inv(h, limit) && 0 < size < U64
    ensures var (n, g) := (RoundUp(size), GrowthPages(RoundUp(size)));
      var (h', p) := Malloc(h, size);
      && (p == 0 <==> NoFit(h.blocks, n) && (!GrowthFitsWord(n) || forall q: nat :: !RunFree(h.pages, q, g)))
      && (p == 0 && GrowthFitsWord(n) ==> h' == h)
      && (p == 0 && !GrowthFitsWord(n) ==> (h' == h <==> g == 0 || forall q: nat :: !RunFree(h.pages, q, g)))
      && (p != 0 && !NoFit(h.blocks, n) ==> h' == Take(h, FirstFit(h.blocks, n), n).0 && h'.total == h.total)
      && (p != 0 && NoFit(h.blocks, n) ==> Grown(h, h', p, g))
  {
    var n := RoundUp(size);
    RoundUpOk(size);
    var i := FirstFit(h.blocks, n);
    if i < |h.blocks| {
      TakeOk(h, i, n, limit);
      assert Attempt(h, n, 2) == Take(h, i, n);
    } else if GrowthFitsWord(n) {
      MallocGrows(h, n, limit);
    } else {
      MallocWraps(h, n, limit);
    }
  }

  lemma MallocHoldsSize(size: nat)
    requires size < U64
    ensures RoundUp(size) < size <==> size > U64 - ALIGN
    ensures RoundUp(U64 - 1) == MIN
  {
    RoundUpOk(size);
  }

  // A block returned holds the size asked for exactly when rounding that size did not wrap.
  lemma MallocHolds(h: Heap, size: nat, limit: nat)
    requires Inv(h, limit) && 0 < size < U64
    ensures var (h', p) := Malloc(h, size); p != 0 ==> (Granted(h', p, size) <==> size <= U64 - ALIGN)
  {
    MallocOk(h, size, limit);
    var h' := Malloc(h, size).0;
    if size <= U64 - ALIGN {
      RoundUpOk(size);
    } else {
      forall k | 0 <= k < |h'.blocks| ensures h'.blocks[k].size < size { assert BlkOk(h'.blocks[k], h'.pages, limit); }
    }
  }

  // The initial heap answers a request for 2^64 - 1 bytes with a block of 32.
  lemma MallocTooSmall(arena: nat, pages: Pages)
    requires pages.Valid() && arena > 0
    ensures var (h, p) := Malloc(InitHeap(arena, pages), U64 - 1);
      p == arena + HDR && h.blocks[0] == Blk(arena, MIN, false)
  {
    var h := InitHeap(arena, pages);
    MallocHoldsSize(U64 - 1);
    assert h.blocks[0] == Blk(arena, EARLY_HEAP - HDR, true) && FirstFit(h.blocks, MIN) == 0;
    assert Attempt(h, MIN, 2) == Take(h, 0, MIN);
  }

  // ----- freeing -----

  ghost predicate Covers(bs: seq<Blk>, a: nat) {
    exists i :: 0 <= i < |bs| && bs[i].addr <= a < End(bs[i])
  }

  lemma MergeCovers(bs: seq<Blk>, k: nat, a: nat)
    requires k + 1 < |bs|
    ensures Covers(Merge(bs, k), a) <==>
      || bs[k].addr <= a < End(bs[k]) + HDR + bs[k + 1].size
      || exists i :: 0 <= i < |bs| && i != k && i != k + 1 && bs[i].addr <= a < End(bs[i])
  {
    var r := Merge(bs, k);
    if Covers(r, a) {
      var i :| 0 <= i < |r| && r[i].addr <= a < End(r[i]);
      if i < k { assert r[i] == bs[i]; }
      if i > k { assert r[i] == bs[i + 1]; }
    }
    if bs[k].addr <= a < End(bs[k]) + HDR + bs[k + 1].size { assert r[k].addr <= a < End(r[k]); }
    if i :| 0 <= i < |bs| && i != k && i != k + 1 && bs[i].addr <= a < End(bs[i]) {
      var j := if i < k then i else i - 1;
      assert r[j] == bs[i];
    }
  }

  // Merging list neighbours keeps the set of covered addresses exactly when they are
  // neighbours in memory too.
  lemma MergeExact(bs: seq<Blk>, k: nat)
    requires k + 1 < |bs| && Separate(bs)
    ensures (forall a: nat :: Covers(Merge(bs, k), a) <==> Covers(bs, a)) <==> End(bs[k]) == bs[k + 1].addr
  {
    var x, y := bs[k], bs[k + 1];
    if End(x) == y.addr {
      forall a: nat ensures Covers(Merge(bs, k), a) <==> Covers(bs, a) {
        MergeCovers(bs, k, a);
        if x.addr <= a < End(x) { assert Covers(bs, a); }
        if y.addr <= a < End(y) { assert Covers(bs, a); }
      }
    } else if forall a: nat :: Covers(Merge(bs, k), a) <==> Covers(bs, a) {
      MergeLost(bs, k, y.addr);
      MergeLost(bs, k, End(y) - 1);
    }
  }

  // An address of the second block stays covered only if the merged block reaches it.
  lemma MergeLost(bs: seq<Blk>, k: nat, a: nat)
    requires k + 1 < |bs| && Separate(bs) && bs[k + 1].addr <= a < End(bs[k + 1])
    requires Covers(Merge(bs, k), a) <==> Covers(bs, a)
    ensures End(bs[k]) <= a < End(bs[k]) + HDR + bs[k + 1].size
  {
    MergeCovers(bs, k, a);
    assert Covers(bs, a);
    forall i | 0 <= i < |bs| && i != k + 1 ensures !(bs[i].addr <= a < End(bs[i])) {
      assert if i < k + 1 then Apart(bs[i], bs[k + 1]) else Apart(bs[k + 1], bs[i]);
    }
  }

  lemma MergeKeeps(bs: seq<Blk>, k: nat, b: Blk)
    requires k + 1 < |bs| && b in bs && b != bs[k] && b != bs[k + 1]
    ensures b in Merge(bs, k)
  {
    var r := Merge(bs, k);
    var j :| 0 <= j < |bs| && bs[j] == b;
    assert if j < k then r[j] == b else r[j - 1] == b;
  }

  lemma SumTwo(a: Blk, b: Blk)
    ensures SumAll([a, b]) == HDR + a.size + HDR + b.size
    ensures SumUsed([a, b]) == (if a.free then 0 else a.size) + if b.free then 0 else b.size
  {
    assert [a, b][1..] == [b];
    SumOne(b);
  }

  lemma SumOne(b: Blk)
    ensures SumAll([b]) == HDR + b.size && SumUsed([b]) == if b.free then 0 else b.size
  {
    assert [b][1..] == [];
  }

  // Block i may be freed: it and its free list neighbours make up one stretch of memory that
  // starts at the first of them in the list.
  ghost predicate SeamSafe(bs: seq<Blk>, i: nat)
    requires i < |bs|
  {
    var (n, p) := (i + 1 < |bs| && bs[i + 1].free, i > 0 && bs[i - 1].free);
    if n && p then InOrder(bs, i) || Swapped(bs, i)
    else (n ==> End(bs[i]) == bs[i + 1].addr) && (p ==> End(bs[i - 1]) == bs[i].addr)
  }

  ghost predicate InOrder(bs: seq<Blk>, i: nat)
    requires 0 < i && i + 1 < |bs|
  {
    End(bs[i - 1]) == bs[i].addr && End(bs[i]) == bs[i + 1].addr
  }

  // The successor in the list comes first in memory.
  ghost predicate Swapped(bs: seq<Blk>, i: nat)
    requires 0 < i && i + 1 < |bs|
  {
    End(bs[i - 1]) == bs[i + 1].addr && End(bs[i + 1]) == bs[i].addr
  }

  ghost predicate FreeLegal(h: Heap, ptr: nat) {
    ptr != 0 ==> ptr >= HDR && var i := Find(h.blocks, ptr - HDR);
      i < |h.blocks| && (!h.blocks[i].free ==> SeamSafe(h.blocks, i))
  }

  // ----- what a free covers -----

  // The first and last list position of the blocks that become one when block i is freed
  function First(bs: seq<Blk>, i: nat): nat
    requires i < |bs|
  {
    if i > 0 && bs[i - 1].free then i - 1 else i
  }

  function Last(bs: seq<Blk>, i: nat): nat
    requires i < |bs|
  {
    if i + 1 < |bs| && bs[i + 1].free then i + 1 else i
  }

  // The block they become
  function Joined(bs: seq<Blk>, i: nat): Blk
    requires i < |bs|
  {
    var own := bs[i].size + if Last(bs, i) > i then HDR + bs[i + 1].size else 0;
    if First(bs, i) < i then Blk(bs[i - 1].addr, bs[i - 1].size + HDR + own, true) else Blk(bs[i].addr, own, true)
  }

  lemma CoalesceShape(bs: seq<Blk>, i: nat)
    requires i < |bs|
    ensures Coalesce(bs[i := bs[i].(free := true)], i) == Replace(bs, First(bs, i), Last(bs, i) + 1, [Joined(bs, i)])
  {
    var b1 := bs[i := bs[i].(free := true)];
    var b2 := MergeNext(b1, i);
    assert b2 == bs[..i] + [bs[i].(size := Joined(bs, i).size - (if First(bs, i) < i then bs[i - 1].size + HDR else 0),
                                   free := true)] + bs[Last(bs, i) + 1..];
    if i > 0 { assert b2[i - 1] == bs[i - 1]; }
  }

  // After the free an address is covered by the joined block or by one that took no part.
  lemma JoinedCovers(bs: seq<Blk>, lo: nat, hi: nat, m: Blk, a: nat)
    requires lo <= hi < |bs|
    ensures Covers(Replace(bs, lo, hi + 1, [m]), a) <==>
      m.addr <= a < End(m) || exists k :: 0 <= k < |bs| && !(lo <= k <= hi) && bs[k].addr <= a < End(bs[k])
  {
    var r := Replace(bs, lo, hi + 1, [m]);
    if Covers(r, a) {
      var k :| 0 <= k < |r| && r[k].addr <= a < End(r[k]);
      if k < lo { assert r[k] == bs[k]; }
      if k > lo { assert r[k] == bs[k + (hi - lo)]; }
    }
    if m.addr <= a < End(m) { assert r[lo] == m; }
    if k :| 0 <= k < |bs| && !(lo <= k <= hi) && bs[k].addr <= a < End(bs[k]) {
      assert r[if k < lo then k else k - (hi - lo)] == bs[k];
    }
  }

  // A block that took part stays covered only inside the joined block.
  lemma JoinedLost(bs: seq<Blk>, lo: nat, hi: nat, m: Blk, j: nat, a: nat)
    requires lo <= j <= hi < |bs| && Separate(bs) && bs[j].addr <= a < End(bs[j])
    requires Covers(Replace(bs, lo, hi + 1, [m]), a) <==> Covers(bs, a)
    ensures m.addr <= a < End(m)
  {
    JoinedCovers(bs, lo, hi, m, a);
    assert Covers(bs, a);
    forall k | 0 <= k < |bs| && k != j ensures !(bs[k].addr <= a < End(bs[k])) {
      assert if k < j then Apart(bs[k], bs[j]) else Apart(bs[j], bs[k]);
    }
  }

  lemma JoinedHolds(bs: seq<Blk>, i: nat, j: nat)
    requires i < |bs| && First(bs, i) <= j <= Last(bs, i) && Separate(bs)
    requires forall a: nat :: Covers(Replace(bs, First(bs, i), Last(bs, i) + 1, [Joined(bs, i)]), a) <==> Covers(bs, a)
    ensures Joined(bs, i).addr <= bs[j].addr && End(bs[j]) <= End(Joined(bs, i))
  {
    JoinedLost(bs, First(bs, i), Last(bs, i), Joined(bs, i), j, bs[j].addr);
    JoinedLost(bs, First(bs, i), Last(bs, i), Joined(bs, i), j, End(bs[j]) - 1);
  }

  // In a stretch the joined block is the union of those that took part.
  lemma JoinedUnion(bs: seq<Blk>, i: nat, a: nat)
    requires i < |bs| && SeamSafe(bs, i)
    ensures var m := Joined(bs, i);
      m.addr <= a < End(m) <==> exists j :: First(bs, i) <= j <= Last(bs, i) && bs[j].addr <= a < End(bs[j])
  {
    if bs[i].addr <= a < End(bs[i]) { assert First(bs, i) <= i <= Last(bs, i); }
    if Last(bs, i) > i && bs[i + 1].addr <= a < End(bs[i + 1]) { assert First(bs, i) <= i + 1 <= Last(bs, i); }
    if First(bs, i) < i && bs[i - 1].addr <= a < End(bs[i - 1]) { assert First(bs, i) <= i - 1 <= Last(bs, i); }
  }

  lemma CoalesceExact(bs: seq<Blk>, i: nat)
    requires i < |bs| && Separate(bs)
    ensures var r := Coalesce(bs[i := bs[i].(free := true)], i);
      (forall a: nat :: Covers(r, a) <==> Covers(bs, a)) <==> SeamSafe(bs, i)
  {
    CoalesceShape(bs, i);
    var (lo, hi, m) := (First(bs, i), Last(bs, i), Joined(bs, i));
    var r := Replace(bs, lo, hi + 1, [m]);
    if SeamSafe(bs, i) {
      forall a: nat ensures Covers(r, a) <==> Covers(bs, a) {
        JoinedCovers(bs, lo, hi, m, a);
        JoinedUnion(bs, i, a);
      }
    }
    if forall a: nat :: Covers(r, a) <==> Covers(bs, a) { CoversSeam(bs, i); }
  }

  lemma CoversSeam(bs: seq<Blk>, i: nat)
    requires i < |bs| && Separate(bs)
    requires forall a: nat :: Covers(Replace(bs, First(bs, i), Last(bs, i) + 1, [Joined(bs, i)]), a) <==> Covers(bs, a)
    ensures SeamSafe(bs, i)
  {
    var (lo, hi) := (First(bs, i), Last(bs, i));
    JoinedHolds(bs, i, i);
    if hi > i {
      JoinedHolds(bs, i, i + 1);
      assert Apart(bs[i], bs[i + 1]);
    }
    if lo < i {
      JoinedHolds(bs, i, i - 1);
      assert Apart(bs[i - 1], bs[i]) && (hi > i ==> Apart(bs[i - 1], bs[i + 1]));
    }
  }

  // kfree of a live block keeps the set of covered addresses exactly when the block and its
  // free list neighbours make up one stretch of memory.
  lemma FreeExact(h: Heap, ptr: nat, limit: nat)
    requires Inv(h, limit) && Listed(h, ptr)
    requires !h.blocks[Find(h.blocks, ptr - HDR)].free
    ensures (forall a: nat :: Covers(Free(h, ptr).blocks, a) <==> Covers(h.blocks, a)) <==>
      SeamSafe(h.blocks, Find(h.blocks, ptr - HDR))
  {
    CoalesceExact(h.blocks, Find(h.blocks, ptr - HDR));
  }

  // Freeing keeps the invariant and every other live block.
  lemma FreeOk(h: Heap, ptr: nat, limit: nat)
    requires Inv(h, limit) && FreeLegal(h, ptr)
    ensures var h' := Free(h, ptr);
      && Inv(h', limit) && h'.total == h.total && h'.pages == h.pages
      && (forall i :: 0 <= i < |h.blocks| && !h.blocks[i].free && Payload(h.blocks[i]) != ptr ==>
            h.blocks[i] in h'.blocks)
  {
    if ptr != 0 && !h.blocks[Find(h.blocks, ptr - HDR)].free {
      var bs, i := h.blocks, Find(h.blocks, ptr - HDR);
      CoalesceOk(bs, i, h.pages, limit);
      forall k | 0 <= k < |bs| && !bs[k].free && Payload(bs[k]) != ptr ensures bs[k] in Free(h, ptr).blocks {
        CoalesceKeeps(bs, i, bs[k]);
      }
    }
  }

  lemma JoinedApart(bs: seq<Blk>, i: nat, b: Blk)
    requires i < |bs| && SeamSafe(bs, i)
    requires forall j :: First(bs, i) <= j <= Last(bs, i) ==> Apart(bs[j], b)
    ensures Apart(Joined(bs, i), b)
  {
    assert Apart(bs[i], b);
    if Last(bs, i) > i { assert Apart(bs[i + 1], b); }
    if First(bs, i) < i { assert Apart(bs[i - 1], b); }
  }

  lemma EightSum(a: nat, b: nat)
    requires a % 8 == 0 && b % 8 == 0
    ensures (a + HDR + b) % 8 == 0
  {
  }

  lemma JoinedSized(bs: seq<Blk>, i: nat, pages: Pages, limit: nat)
    requires i < |bs| && SeamSafe(bs, i)
    requires forall j :: 0 <= j < |bs| ==> BlkOk(bs[j], pages, limit)
    ensures var m := Joined(bs, i);
      m.addr > 0 && m.size >= MIN && End(m) <= limit && m.addr % 8 == 0 && m.size % 8 == 0
  {
    assert BlkOk(bs[i], pages, limit);
    var own := bs[i].size;
    if Last(bs, i) > i {
      assert BlkOk(bs[i + 1], pages, limit);
      EightSum(bs[i].size, bs[i + 1].size);
      own := bs[i].size + HDR + bs[i + 1].size;
    }
    if First(bs, i) < i {
      assert BlkOk(bs[i - 1], pages, limit);
      EightSum(bs[i - 1].size, own);
    }
  }

  lemma JoinedBlkOk(bs: seq<Blk>, i: nat, pages: Pages, limit: nat)
    requires i < |bs| && SeamSafe(bs, i)
    requires forall j :: 0 <= j < |bs| ==> BlkOk(bs[j], pages, limit)
    ensures BlkOk(Joined(bs, i), pages, limit)
  {
    JoinedSized(bs, i, pages, limit);
    var m := Joined(bs, i);
    forall p | p in pages.free ensures End(m) <= p * PAGE_SIZE || (p + 1) * PAGE_SIZE <= m.addr {
      var page := Blk(p * PAGE_SIZE, PAGE_SIZE - HDR, true);
      forall j | First(bs, i) <= j <= Last(bs, i) ensures Apart(bs[j], page) { assert BlkOk(bs[j], pages, limit); }
      JoinedApart(bs, i, page);
    }
  }

  lemma JoinedSums(bs: seq<Blk>, i: nat)
    requires i < |bs| && !bs[i].free
    ensures var r := Replace(bs, First(bs, i), Last(bs, i) + 1, [Joined(bs, i)]);
      SumAll(r) == SumAll(bs) && SumUsed(r) == SumUsed(bs) - bs[i].size
  {
    var (lo, hi, m) := (First(bs, i), Last(bs, i), Joined(bs, i));
    ReplaceSums(bs, lo, hi + 1, [m]);
    SumOne(m);
    SumOne(bs[i]);
    if lo < i && hi > i {
      assert bs[lo..hi + 1] == [bs[i - 1]] + [bs[i], bs[i + 1]];
      Sums([bs[i - 1]], [bs[i], bs[i + 1]]);
      SumOne(bs[i - 1]);
      SumTwo(bs[i], bs[i + 1]);
    } else if lo < i {
      assert bs[lo..hi + 1] == [bs[i - 1], bs[i]];
      SumTwo(bs[i - 1], bs[i]);
    } else if hi > i {
      assert bs[lo..hi + 1] == [bs[i], bs[i + 1]];
      SumTwo(bs[i], bs[i + 1]);
    } else {
      assert bs[lo..hi + 1] == [bs[i]];
    }
  }

  lemma CoalesceOk(bs: seq<Blk>, i: nat, pages: Pages, limit: nat)
    requires i < |bs| && Separate(bs) && !bs[i].free && SeamSafe(bs, i)
    requires forall k :: 0 <= k < |bs| ==> BlkOk(bs[k], pages, limit)
    ensures var r := Coalesce(bs[i := bs[i].(free := true)], i);
      && Separate(r) && (forall k :: 0 <= k < |r| ==> BlkOk(r[k], pages, limit))
      && SumAll(r) == SumAll(bs) && SumUsed(r) == SumUsed(bs) - bs[i].size
  {
    var (lo, hi, m) := (First(bs, i), Last(bs, i), Joined(bs, i));
    CoalesceShape(bs, i);
    JoinedSums(bs, i);
    JoinedBlkOk(bs, i, pages, limit);
    JoinedSeparate(bs, i);
    ReplaceBlkOk(bs, lo, hi + 1, m, pages, limit);
  }

  lemma ReplaceBlkOk(bs: seq<Blk>, lo: nat, hi: nat, m: Blk, pages: Pages, limit: nat)
    requires lo < hi <= |bs| && BlkOk(m, pages, limit)
    requires forall k :: 0 <= k < |bs| ==> BlkOk(bs[k], pages, limit)
    ensures var r := Replace(bs, lo, hi, [m]); forall k :: 0 <= k < |r| ==> BlkOk(r[k], pages, limit)
  {
    var r := Replace(bs, lo, hi, [m]);
    forall k | 0 <= k < |r| ensures BlkOk(r[k], pages, limit) {
      assert r[k] == if k < lo then bs[k] else if k == lo then m else bs[k - 1 + (hi - lo)];
    }
  }

  lemma JoinedSeparate(bs: seq<Blk>, i: nat)
    requires i < |bs| && Separate(bs) && SeamSafe(bs, i)
    ensures Separate(Replace(bs, First(bs, i), Last(bs, i) + 1, [Joined(bs, i)]))
  {
    var (lo, hi, m) := (First(bs, i), Last(bs, i), Joined(bs, i));
    forall k | 0 <= k < |bs| && !(lo <= k < hi + 1) ensures Apart(m, bs[k]) {
      forall j | lo <= j <= hi ensures Apart(bs[j], bs[k]) {
        assert if j < k then Apart(bs[j], bs[k]) else Apart(bs[k], bs[j]);
      }
      JoinedApart(bs, i, bs[k]);
    }
    ReplaceSeparate(bs, lo, hi + 1, [m]);
  }

  lemma CoalesceKeeps(bs: seq<Blk>, i: nat, b: Blk)
    requires i < |bs| && b in bs && !b.free && b.addr != bs[i].addr
    ensures b in Coalesce(bs[i := bs[i].(free := true)], i)
  {
    var b1 := bs[i := bs[i].(free := true)];
    var j :| 0 <= j < |bs| && bs[j] == b;
    assert b1[j] == b;
    if i + 1 < |b1| && b1[i + 1].free { MergeKeeps(b1, i, b); }
    var b2 := MergeNext(b1, i);
    if i > 0 && b2[i - 1].free { MergeKeeps(b2, i - 1, b); }
  }

  lemma FlipOk(bs: seq<Blk>, i: nat, pages: Pages, limit: nat)
    requires i < |bs| && Separate(bs) && !bs[i].free
    requires forall k :: 0 <= k < |bs| ==> BlkOk(bs[k], pages, limit)
    ensures var r := bs[i := bs[i].(free := true)];
      && Separate(r) && (forall k :: 0 <= k < |r| ==> BlkOk(r[k], pages, limit))
      && SumAll(r) == SumAll(bs) && SumUsed(r) == SumUsed(bs) - bs[i].size
  {
    var m := bs[i].(free := true);
    var r := bs[i := m];
    assert r == Replace(bs, i, i + 1, [m]);
    ReplaceSums(bs, i, i + 1, [m]);
    assert bs[i..i + 1] == [bs[i]];
    forall x, y | 0 <= x < y < |r| ensures Apart(r[x], r[y]) { assert Apart(bs[x], bs[y]); }
  }

  // ----- one region -----

  // The list is an exact tiling of [lo, hi) in address order ...
  ghost predicate Tiles(bs: seq<Blk>, lo: nat, hi: nat) {
    && |bs| > 0 && bs[0].addr == lo && End(bs[|bs| - 1]) == hi
    && forall i :: 0 <= i < |bs| - 1 ==> End(bs[i]) == bs[i + 1].addr
  }

  // ... with no two neighbours both free.
  ghost predicate Merged(bs: seq<Blk>) {
    forall i :: 0 <= i < |bs| - 1 ==> !(bs[i].free && bs[i + 1].free)
  }

  lemma ReplaceTiles(bs: seq<Blk>, i: nat, j: nat, mid: seq<Blk>, lo: nat, hi: nat)
    requires i < j <= |bs| && Tiles(bs, lo, hi) && Tiles(mid, bs[i].addr, End(bs[j - 1]))
    ensures Tiles(Replace(bs, i, j, mid), lo, hi)
  {
    var r := Replace(bs, i, j, mid);
    forall x | 0 <= x < |r| - 1 ensures End(r[x]) == r[x + 1].addr {
      if x + 1 < i { assert r[x] == bs[x] && r[x + 1] == bs[x + 1]; }
      else if x + 1 == i { assert r[x] == bs[x] && r[x + 1] == mid[0]; }
      else if x + 1 < i + |mid| { assert r[x] == mid[x - i] && r[x + 1] == mid[x + 1 - i]; }
      else {
        var y := x - |mid| + (j - i);
        assert r[x + 1] == bs[y + 1];
        if x + 1 > i + |mid| { assert r[x] == bs[y]; } else { assert r[x] == mid[|mid| - 1] && y == j - 1; }
      }
    }
  }

  lemma TakeTiles(h: Heap, i: nat, n: nat, lo: nat, hi: nat)
    requires i < |h.blocks| && Fits(h.blocks[i], n) && Tiles(h.blocks, lo, hi) && Merged(h.blocks)
    ensures Tiles(Take(h, i, n).0.blocks, lo, hi) && Merged(Take(h, i, n).0.blocks)
  {
    var bs, mid := h.blocks, Carve(h.blocks[i], n);
    ReplaceTiles(bs, i, i + 1, mid, lo, hi);
    var r := Replace(bs, i, i + 1, mid);
    forall x | 0 <= x < |r| - 1 ensures !(r[x].free && r[x + 1].free) {
      if x + 1 < i { assert r[x] == bs[x] && r[x + 1] == bs[x + 1]; }
      else if x >= i + |mid| { assert r[x] == bs[x - |mid| + 1] && r[x + 1] == bs[x - |mid| + 2]; }
      else if x == i + |mid| - 1 { assert r[x + 1] == bs[i + 1] && !(bs[i].free && bs[i + 1].free); }
      else { assert r[i] == mid[0]; }
    }
  }

  lemma MergeTiles(bs: seq<Blk>, k: nat, lo: nat, hi: nat)
    requires k + 1 < |bs| && Tiles(bs, lo, hi)
    ensures Tiles(Merge(bs, k), lo, hi)
  {
    ReplaceTiles(bs, k, k + 2, [bs[k].(size := bs[k].size + HDR + bs[k + 1].size)], lo, hi);
  }

  lemma CoalesceTiles(bs: seq<Blk>, i: nat, lo: nat, hi: nat)
    requires i < |bs| && Tiles(bs, lo, hi) && Merged(bs)
    ensures var r := Coalesce(bs[i := bs[i].(free := true)], i); Tiles(r, lo, hi) && Merged(r)
  {
    var b1 := bs[i := bs[i].(free := true)];
    assert Tiles(b1, lo, hi);
    if i + 1 < |b1| && b1[i + 1].free { MergeTiles(b1, i, lo, hi); }
    var b2 := MergeNext(b1, i);
    MergeNextMerged(bs, i);
    if i > 0 && b2[i - 1].free { MergeTiles(b2, i - 1, lo, hi); }
    MergePrevMerged(b2, i);
  }

  // In one region every free is legal and restores the tiling.
  lemma FreeTiles(h: Heap, ptr: nat, lo: nat, hi: nat)
    requires Tiles(h.blocks, lo, hi) && Merged(h.blocks)
    requires ptr != 0 ==> Listed(h, ptr)
    ensures FreeLegal(h, ptr)
    ensures Tiles(Free(h, ptr).blocks, lo, hi) && Merged(Free(h, ptr).blocks)
  {
    if ptr != 0 { CoalesceTiles(h.blocks, Find(h.blocks, ptr - HDR), lo, hi); }
  }

  // The only free pair left next to block i is with its predecessor.
  ghost predicate MergedBut(bs: seq<Blk>, i: nat) {
    forall x :: 0 <= x < |bs| - 1 && x + 1 != i ==> !(bs[x].free && bs[x + 1].free)
  }

  lemma MergeNextMerged(bs: seq<Blk>, i: nat)
    requires i < |bs| && Merged(bs)
    ensures var b2 := MergeNext(bs[i := bs[i].(free := true)], i);
      MergedBut(b2, i) && b2[i].free && (i > 0 ==> b2[i - 1] == bs[i - 1])
  {
    var b1 := bs[i := bs[i].(free := true)];
    var b2 := MergeNext(b1, i);
    if i + 1 < |bs| && bs[i + 1].free {
      forall x | 0 <= x < |b2| - 1 && x + 1 != i ensures !(b2[x].free && b2[x + 1].free) {
        if x + 1 < i { assert b2[x] == bs[x] && b2[x + 1] == bs[x + 1]; }
        else { assert b2[x + 1] == bs[x + 2] && !(bs[x + 1].free && bs[x + 2].free); }
      }
    }
  }

  lemma MergePrevMerged(bs: seq<Blk>, i: nat)
    requires i < |bs| && MergedBut(bs, i) && bs[i].free
    ensures Merged(MergePrev(bs, i))
  {
    var r := MergePrev(bs, i);
    if i > 0 && bs[i - 1].free {
      forall x | 0 <= x < |r| - 1 ensures !(r[x].free && r[x + 1].free) {
        if x + 1 < i { assert r[x + 1].free == bs[x + 1].free && r[x] == bs[x]; }
        else { assert r[x + 1] == bs[x + 2] && !(bs[x + 1].free && bs[x + 2].free); }
      }
    }
  }

  // ----- every run -----

  datatype Op = MallocOp(size: nat) | FreeOp(ptr: nat) | ReallocOp(ptr: nat, size: nat)

  // The pointer given back is null or a block's payload, and freeing it crosses no seam.
  ghost predicate Legal(h: Heap, op: Op)
    requires h.pages.Valid()
  {
    match op
    case MallocOp(size) => size < U64
    case FreeOp(ptr) => FreeLegal(h, ptr)
    case ReallocOp(ptr, size) =>
      && size < U64 && (ptr != 0 ==> Listed(h, ptr))
      && ReallocLegal(h, ptr, size)
  }

  // The block is too small for the new size, so that it has to move.
  ghost predicate Outgrown(h: Heap, ptr: nat, size: nat)
    requires ptr != 0 ==> Listed(h, ptr)
  {
    ptr != 0 && size > h.blocks[Find(h.blocks, ptr - HDR)].size
  }

  // Whatever krealloc frees may be freed.
  ghost predicate ReallocLegal(h: Heap, ptr: nat, size: nat)
    requires h.pages.Valid()
    requires ptr != 0 ==> Listed(h, ptr)
  {
    && (size == 0 ==> FreeLegal(h, ptr))
    && (Outgrown(h, ptr, size) && Malloc(h, size).1 != 0 ==> FreeLegal(Malloc(h, size).0, ptr))
  }

  ghost function Step(h: Heap, op: Op): (r: Heap)
    requires h.pages.Valid()
    ensures r.pages.Valid()
  {
    match op
    case MallocOp(size) => Malloc(h, size).0
    case FreeOp(ptr) => Free(h, ptr)
    case ReallocOp(ptr, size) => Realloc(h, ptr, size).0
  }

  lemma StepOk(h: Heap, op: Op, limit: nat)
    requires Inv(h, limit) && Legal(h, op)
    ensures Inv(Step(h, op), limit)
  {
    match op
    case MallocOp(size) => MallocOk(h, size, limit);
    case FreeOp(ptr) => FreeOk(h, ptr, limit);
    case ReallocOp(ptr, size) =>
      MallocOk(h, size, limit);
      if size == 0 && ptr != 0 { FreeOk(h, ptr, limit); }
      if Outgrown(h, ptr, size) && Malloc(h, size).1 != 0 { FreeOk(Malloc(h, size).0, ptr, limit); }
  }

  ghost predicate Run(h: Heap, ops: seq<Op>, h': Heap)
    requires h.pages.Valid()
    decreases |ops|
  {
    if ops == [] then h' == h
    else Legal(h, ops[0]) && Run(Step(h, ops[0]), ops[1..], h')
  }

  // Any number of regions: in every run whose frees cross no region seam, blocks never
  // overlap, never touch a page the allocator could hand out, and the counters are exact.
  lemma {:induction false} RunSafe(h: Heap, ops: seq<Op>, h': Heap, limit: nat)
    requires Inv(h, limit) && Run(h, ops, h')
    ensures Inv(h', limit)
    decreases |ops|
  {
    if ops == [] {
    } else {
      StepOk(h, ops[0], limit);
      RunSafe(Step(h, ops[0]), ops[1..], h', limit);
    }
  }

  // The list tiles one region, and no two neighbours in it are free.
  ghost predicate OneRegion(h: Heap, lo: nat, hi: nat, limit: nat) {
    Inv(h, limit) && Tiles(h.blocks, lo, hi) && Merged(h.blocks)
  }

  lemma AttemptGrows(h: Heap, n: nat, tries: nat)
    requires h.pages.Valid() && tries > 0 && FirstFit(h.blocks, n) == |h.blocks| && Expand(h, n).1
    ensures Expand(h, n).0.pages.Valid() && Attempt(h, n, tries) == Attempt(Expand(h, n).0, n, tries - 1)
  {
  }

  lemma AttemptStops(h: Heap, n: nat, tries: nat)
    requires h.pages.Valid()
    requires tries == 0 || FirstFit(h.blocks, n) < |h.blocks| || !Expand(h, n).1
    ensures Attempt(h, n, tries).0.total == h.total
  {
  }

  // Growth shows in the total.
  lemma {:induction false} AttemptTotal(h: Heap, n: nat, tries: nat, limit: nat)
    requires Inv(h, limit) && n >= MIN && n % 8 == 0
    ensures var t := Attempt(h, n, tries).0.total;
      t >= h.total && (tries > 0 && NoFit(h.blocks, n) && Expand(h, n).1 ==> t > h.total)
    decreases tries
  {
    if tries > 0 && FirstFit(h.blocks, n) == |h.blocks| && Expand(h, n).1 {
      AttemptGrows(h, n, tries);
      ExpandOk(h, n, limit);
      AttemptTotal(Expand(h, n).0, n, tries - 1, limit);
    } else {
      AttemptStops(h, n, tries);
    }
  }

  lemma MallocTiles(h: Heap, size: nat, lo: nat, hi: nat, limit: nat)
    requires OneRegion(h, lo, hi, limit) && size < U64 && Malloc(h, size).0.total == h.total
    ensures OneRegion(Malloc(h, size).0, lo, hi, limit)
  {
    MallocOk(h, size, limit);
    if size > 0 {
      var n := RoundUp(size);
      RoundUpOk(size);
      var i := FirstFit(h.blocks, n);
      if i < |h.blocks| {
        TakeTiles(h, i, n, lo, hi);
        assert Attempt(h, n, 2) == Take(h, i, n);
      } else {
        ExpandOk(h, n, limit);
        AttemptTotal(h, n, 2, limit);
      }
    }
  }

  // What one region asks of a client: free what is in the list, resize what is live, and ask
  // for nothing that makes the heap grow.
  ghost predicate ClientOk(h: Heap, op: Op)
    requires h.pages.Valid()
  {
    match op
    case MallocOp(size) => size < U64 && Malloc(h, size).0.total == h.total
    case FreeOp(ptr) => ptr != 0 ==> Listed(h, ptr)
    case ReallocOp(ptr, size) =>
      && size < U64 && (ptr != 0 ==> LiveAt(h.blocks, ptr))
      && (ptr == 0 || Outgrown(h, ptr, size) ==> Malloc(h, size).0.total == h.total)
  }

  ghost predicate LiveAt(bs: seq<Blk>, ptr: nat) {
    ptr >= HDR && Find(bs, ptr - HDR) < |bs| && !bs[Find(bs, ptr - HDR)].free
  }

  // Distinct blocks have distinct addresses, so the search finds the block meant.
  lemma FindIs(bs: seq<Blk>, i: nat)
    requires Separate(bs) && i < |bs|
    ensures Find(bs, bs[i].addr) == i
  {
    forall j | 0 <= j < i ensures bs[j].addr != bs[i].addr { assert Apart(bs[j], bs[i]); }
  }

  lemma StillLive(h: Heap, h': Heap, ptr: nat)
    requires KeepsLive(h, h') && LiveAt(h.blocks, ptr) && Separate(h'.blocks)
    ensures LiveAt(h'.blocks, ptr)
    ensures h'.blocks[Find(h'.blocks, ptr - HDR)] == h.blocks[Find(h.blocks, ptr - HDR)]
  {
    var b := h.blocks[Find(h.blocks, ptr - HDR)];
    var j :| 0 <= j < |h'.blocks| && h'.blocks[j] == b;
    FindIs(h'.blocks, j);
  }

  lemma OneFree(h: Heap, ptr: nat, lo: nat, hi: nat, limit: nat)
    requires OneRegion(h, lo, hi, limit)
    requires ptr != 0 ==> Listed(h, ptr)
    ensures FreeLegal(h, ptr) && OneRegion(Free(h, ptr), lo, hi, limit) && Free(h, ptr).total == h.total
  {
    FreeTiles(h, ptr, lo, hi);
    FreeOk(h, ptr, limit);
  }

  lemma OneRealloc(h: Heap, ptr: nat, size: nat, lo: nat, hi: nat, limit: nat)
    requires OneRegion(h, lo, hi, limit) && size < U64 && LiveAt(h.blocks, ptr)
    requires Outgrown(h, ptr, size) ==> Malloc(h, size).0.total == h.total
    ensures Legal(h, ReallocOp(ptr, size))
    ensures OneRegion(Realloc(h, ptr, size).0, lo, hi, limit) && Realloc(h, ptr, size).0.total == h.total
  {
    OneFree(h, ptr, lo, hi, limit);
    if size == 0 {
      assert Realloc(h, ptr, size).0 == Free(h, ptr);
    } else if !Outgrown(h, ptr, size) {
      assert Realloc(h, ptr, size).0 == h;
    } else {
      var h1 := Malloc(h, size).0;
      MallocTiles(h, size, lo, hi, limit);
      MallocOk(h, size, limit);
      StillLive(h, h1, ptr);
      OneFree(h1, ptr, lo, hi, limit);
      assert Realloc(h, ptr, size).0 == if Malloc(h, size).1 == 0 then h1 else Free(h1, ptr);
    }
  }

  lemma StepTiles(h: Heap, op: Op, lo: nat, hi: nat, limit: nat)
    requires OneRegion(h, lo, hi, limit) && ClientOk(h, op)
    ensures Legal(h, op) && OneRegion(Step(h, op), lo, hi, limit) && Step(h, op).total == h.total
  {
    match op
    case MallocOp(size) => MallocTiles(h, size, lo, hi, limit);
    case FreeOp(ptr) => OneFree(h, ptr, lo, hi, limit);
    case ReallocOp(ptr, size) =>
      if ptr != 0 {
        OneRealloc(h, ptr, size, lo, hi, limit);
      } else {
        MallocTiles(h, size, lo, hi, limit);
      }
  }

  ghost predicate RunOne(h: Heap, ops: seq<Op>, h': Heap)
    requires h.pages.Valid()
    decreases |ops|
  {
    if ops == [] then h' == h
    else ClientOk(h, ops[0]) && RunOne(Step(h, ops[0]), ops[1..], h')
  }

  // In every run confined to one region the list tiles the arena exactly, in address order, no two
  // neighbours are both free, heap_used is the sum of the allocated sizes and heap_total,
  // the size of the arena, never changes. No call of it is illegal: each free finds its free
  // neighbours touching.
  lemma {:induction false} RunTiles(h: Heap, ops: seq<Op>, h': Heap, lo: nat, hi: nat, limit: nat)
    requires OneRegion(h, lo, hi, limit) && RunOne(h, ops, h')
    ensures OneRegion(h', lo, hi, limit) && h'.total == h.total
    ensures Run(h, ops, h')
    decreases |ops|
  {
    if ops == [] {
    } else {
      StepTiles(h, ops[0], lo, hi, limit);
      RunTiles(Step(h, ops[0]), ops[1..], h', lo, hi, limit);
    }
  }

  // ----- heap_init -----

  const EARLY_HEAP: nat := 524288

  function InitHeap(arena: nat, pages: Pages): Heap {
    AddRegion(Heap([], 0, 0, 0, pages), arena, EARLY_HEAP)
  }

  lemma InitOk(arena: nat, pages: Pages, limit: nat)
    requires pages.Valid() && 0 !in pages.free && pages.total * PAGE_SIZE <= limit < U64
    requires arena > 0 && arena % 16 == 0 && arena + EARLY_HEAP <= limit
    requires forall p :: p in pages.free ==> arena + EARLY_HEAP <= p * PAGE_SIZE || (p + 1) * PAGE_SIZE <= arena
    ensures Inv(InitHeap(arena, pages), limit)
    ensures Tiles(InitHeap(arena, pages).blocks, arena, arena + EARLY_HEAP) && Merged(InitHeap(arena, pages).blocks)
  {
    var h := InitHeap(arena, pages);
    var b := Blk(arena, EARLY_HEAP - HDR, true);
    assert h.blocks == [b];
    SumOne(b);
    Multiple8(2 * (arena / 16));
    assert BlkOk(b, pages, limit);
  }

  lemma PayloadAlignment(b: Blk, pages: Pages, limit: nat)
    requires BlkOk(b, pages, limit)
    ensures AlignedAs(Payload(b), b.addr % ALIGN == 8)
  {
    PastHeader(b.addr);
  }

  lemma PastHeader(a: nat)
    requires a % 8 == 0
    ensures AlignedAs(a + HDR, a % ALIGN == 8)
  {
  }

  // p is 8-aligned, and 16-aligned exactly in the case named.
  predicate AlignedAs(p: nat, aligned: bool) { p % 8 == 0 && (p % ALIGN == 0 <==> aligned) }

  lemma OffByEight(p: nat)
    requires p % ALIGN == 8
    ensures AlignedAs(p, false)
  {
  }

  // HEAP_ALIGN is not met by what kmalloc returns: a header has 40 bytes. The result is
  // 16-aligned exactly when the first free block that fits lies 8 past a multiple of 16; a
  // request the heap has to grow for never gets an aligned block.
  lemma MallocAlignment(h: Heap, size: nat, limit: nat)
    requires Inv(h, limit) && 0 < size < U64
    ensures var (p, i) := (Malloc(h, size).1, FirstFit(h.blocks, RoundUp(size)));
      p != 0 ==> p % 8 == 0 && (p % ALIGN == 0 <==> i < |h.blocks| && h.blocks[i].addr % ALIGN == 8)
  {
    RoundUpOk(size);
    AttemptAlignment(h, RoundUp(size), limit);
  }

  lemma AttemptAlignment(h: Heap, n: nat, limit: nat)
    requires Inv(h, limit) && MIN <= n < U64 && n % 8 == 0
    ensures var (p, i) := (Attempt(h, n, 2).1, FirstFit(h.blocks, n));
      p != 0 ==> AlignedAs(p, i < |h.blocks| && h.blocks[i].addr % ALIGN == 8)
  {
    var i := FirstFit(h.blocks, n);
    if i < |h.blocks| {
      PayloadAlignment(h.blocks[i], h.pages, limit);
      assert Attempt(h, n, 2) == Take(h, i, n);
    } else if GrowthFitsWord(n) {
      GrowsAligned(h, n, limit);
      if Attempt(h, n, 2).1 != 0 { OffByEight(Attempt(h, n, 2).1); }
    } else {
      MallocWraps(h, n, limit);
    }
  }

  // A block carved from a new region starts at the region's page boundary.
  lemma GrowsAligned(h: Heap, n: nat, limit: nat)
    requires Inv(h, limit) && n >= MIN && n % 8 == 0 && GrowthFitsWord(n) && NoFit(h.blocks, n)
    ensures var p := Attempt(h, n, 2).1; p != 0 ==> p % ALIGN == 8
  {
    var (h1, ok) := Expand(h, n);
    ExpandOk(h, n, limit);
    if ok {
      GrowthFits(n);
      ExpandHead(h, n);
      assert FirstFit(h1.blocks, n) == 0;
      assert Attempt(h, n, 2) == Attempt(h1, n, 1) == Take(h1, 0, n);
      assert Take(h1, 0, n).1 == Payload(h1.blocks[0]);
    }
  }

  lemma ExpandHead(h: Heap, n: nat)
    requires h.pages.Valid() && Expand(h, n).1 && Expand(h, n).0.blocks != []
    requires GrowthPages(n) * PAGE_SIZE >= HDR + MIN
    ensures Payload(Expand(h, n).0.blocks[0]) % ALIGN == 8
  {
    AllocAligned(h.pages, GrowthPages(n));
  }

  lemma AllocAligned(pages: Pages, count: nat)
    requires pages.Valid()
    ensures Alloc(pages, count).1 % ALIGN == 0
  {
    var a := Alloc(pages, count).1;
    if a != 0 {
      var p := FindRun(pages, 0, count).value;
      assert a == p * PAGE_SIZE == p * 256 * ALIGN;
      ModUnique(a, ALIGN, p * 256, 0);
    }
  }

  lemma NotSixteen(p: nat)
    requires p % 8 == 0 && p % ALIGN != 0
    ensures p % ALIGN == 8
  {
  }

  lemma OneBlockMisaligned(h: Heap, size: nat, limit: nat)
    requires Inv(h, limit) && 0 < size < U64
    requires forall i :: 0 <= i < |h.blocks| ==> h.blocks[i].addr % ALIGN != 8
    ensures var p := Malloc(h, size).1; p != 0 ==> p % ALIGN == 8
  {
    MallocAlignment(h, size, limit);
    if Malloc(h, size).1 != 0 { NotSixteen(Malloc(h, size).1); }
  }

  // No first allocation is 16-aligned.
  lemma FirstPayloadMisaligned(arena: nat, pages: Pages, size: nat, limit: nat)
    requires Inv(InitHeap(arena, pages), limit) && arena % 16 == 0 && 0 < size < U64
    ensures var p := Malloc(InitHeap(arena, pages), size).1; p != 0 ==> p % ALIGN == 8
  {
    OneBlockMisaligned(InitHeap(arena, pages), size, limit);
  }

  // A block granted for the rounded size holds the size asked for.
  lemma GrantedSize(h: Heap, ptr: nat, size: nat)
    requires Granted(h, ptr, RoundUp(size)) && size <= U64 - ALIGN
    ensures Granted(h, ptr, size)
  {
    RoundUpOk(size);
  }
}
