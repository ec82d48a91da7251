/** Which blocks of the heap are live: what an allocation adds to them, what a free takes away,
    and what a resize exchanges. */
module Lifetimes {
  import opened Bytes
  import P = Pages
  import opened Blocks

  ghost function Live(bs: seq<Blk>): set<Blk> { set b | b in bs && !b.free }

  // The block whose payload ptr is
  function BlockOf(bs: seq<Blk>, ptr: nat): Blk
    requires LiveAt(bs, ptr)
  {
    bs[Find(bs, ptr - HDR)]
  }

  lemma BlockOfIs(bs: seq<Blk>, k: nat)
    requires Separate(bs) && k < |bs| && !bs[k].free
    ensures LiveAt(bs, Payload(bs[k])) && BlockOf(bs, Payload(bs[k])) == bs[k]
  {
    FindIs(bs, k);
  }

  // ----- sizes -----

  // The size asked for is rounded up to the next multiple of 16, and to at least 32.
  lemma RoundUpIs(size: nat, k: nat)
    requires size <= U64 - ALIGN
    ensures RoundUp(size) % 16 == 0 && RoundUp(size) >= 32 && RoundUp(size) >= size
    ensures 16 * k >= size && 16 * k >= 32 ==> 16 * k >= RoundUp(size)
  {
    ModUnique(size + 15, U64, 0, size + 15);
    var q := (size + 15) / 16;
    ModUnique(q * 16, 16, q, 0);
  }

  // Fewer than 72 bytes are no region; more become one free block, a header of 40 bytes and the
  // rest, in front of the list.
  lemma RegionIs(h: Heap, addr: nat, size: nat)
    ensures var h' := AddRegion(h, addr, size);
      && (size < 72 <==> h' == h)
      && (size >= 72 ==>
            |h'.blocks| == |h.blocks| + 1 && h'.blocks[1..] == h.blocks && h'.blocks[0].addr == addr
            && h'.blocks[0].free && addr + 40 + h'.blocks[0].size == addr + size
            && h' == h.(blocks := h'.blocks, total := h.total + size))
  {
    assert size >= 72 ==> |AddRegion(h, addr, size).blocks| == |h.blocks| + 1;
  }

  // The heap asks for the least number of pages that hold the request, a header and one page.
  lemma GrowthIs(n: nat)
    requires GrowthFitsWord(n)
    ensures n + 40 + 4096 <= GrowthPages(n) * 4096 < n + 40 + 2 * 4096
  {
    ModUnique(n + HDR + 2 * P.PAGE_SIZE - 1, U64, 0, n + HDR + 2 * P.PAGE_SIZE - 1);
  }

  // ----- allocation -----

  // One more block is live, it is the one at p, and it is less than a header and the least
  // payload larger than n; with p null nothing changed its state.
  ghost predicate Adds(h: Heap, h': Heap, p: nat, n: nat) {
    if p == 0 then Live(h'.blocks) == Live(h.blocks) && h'.used == h.used && h'.allocs == h.allocs
    else
      && LiveAt(h'.blocks, p) && n <= BlockOf(h'.blocks, p).size < n + 72
      && BlockOf(h'.blocks, p) !in Live(h.blocks) && Live(h'.blocks) == Live(h.blocks) + {BlockOf(h'.blocks, p)}
      && h'.used == h.used + BlockOf(h'.blocks, p).size && h'.allocs == h.allocs + 1
  }

  lemma InReplace(bs: seq<Blk>, i: nat, j: nat, mid: seq<Blk>, b: Blk)
    requires i <= j <= |bs|
    ensures b in Replace(bs, i, j, mid) <==> b in mid || exists k :: 0 <= k < |bs| && !(i <= k < j) && bs[k] == b
  {
    ReplaceAll(bs, i, j, mid, b);
    if b in bs[..i] || b in bs[j..] {
      var k :| 0 <= k < |bs| && !(i <= k < j) && bs[k] == b;
    }
    if k :| 0 <= k < |bs| && !(i <= k < j) && bs[k] == b {
      if k < i { assert bs[..i][k] == b; } else { assert bs[j..][k - j] == b; }
    }
  }

  lemma CarveLive(bs: seq<Blk>, i: nat, n: nat)
    requires i < |bs| && Fits(bs[i], n) && Separate(bs)
    ensures var mid := Carve(bs[i], n);
      Live(Replace(bs, i, i + 1, mid)) == Live(bs) + {mid[0]} && mid[0] !in bs
  {
    var mid := Carve(bs[i], n);
    var r := Replace(bs, i, i + 1, mid);
    forall b ensures b in Live(r) <==> b in Live(bs) || b == mid[0] {
      InReplace(bs, i, i + 1, mid, b);
      if b in Live(bs) { var k :| 0 <= k < |bs| && bs[k] == b; }
    }
    forall k | 0 <= k < |bs| ensures bs[k] != mid[0] {
      assert k < i ==> Apart(bs[k], bs[i]);
      assert i < k ==> Apart(bs[i], bs[k]);
    }
  }

  lemma TakeAdds(h: Heap, i: nat, n: nat, limit: nat)
    requires Inv(h, limit) && i < |h.blocks| && Fits(h.blocks[i], n) && n >= MIN && n % 8 == 0
    ensures Adds(h, Take(h, i, n).0, Take(h, i, n).1, n)
  {
    var (h', mid) := (Take(h, i, n).0, Carve(h.blocks[i], n));
    TakeOk(h, i, n, limit);
    CarveLive(h.blocks, i, n);
    assert h'.blocks[i] == mid[0];
    BlockOfIs(h'.blocks, i);
  }

  lemma ExpandAdds(h: Heap, n: nat, limit: nat)
    requires Inv(h, limit) && n >= MIN
    ensures var h' := Expand(h, n).0; Live(h'.blocks) == Live(h.blocks) && h'.used == h.used && h'.allocs == h.allocs
  {
    ExpandOk(h, n, limit);
    var (h', ok) := Expand(h, n);
    if ok { assert h'.blocks == [h'.blocks[0]] + h.blocks; }
  }

  lemma {:induction false} AttemptAdds(h: Heap, n: nat, tries: nat, limit: nat)
    requires Inv(h, limit) && n >= MIN && n % 8 == 0
    ensures Adds(h, Attempt(h, n, tries).0, Attempt(h, n, tries).1, n)
    decreases tries
  {
    var i := FirstFit(h.blocks, n);
    if tries == 0 {
      assert Attempt(h, n, tries) == (h, 0);
    } else if i < |h.blocks| {
      assert Attempt(h, n, tries) == Take(h, i, n);
      TakeAdds(h, i, n, limit);
    } else {
      var (h1, ok) := Expand(h, n);
      ExpandOk(h, n, limit);
      ExpandAdds(h, n, limit);
      if ok {
        assert Attempt(h, n, tries) == Attempt(h1, n, tries - 1);
        AttemptAdds(h1, n, tries - 1, limit);
        AddsAfter(h, h1, Attempt(h1, n, tries - 1).0, Attempt(h1, n, tries - 1).1, n);
      } else {
        assert Attempt(h, n, tries) == (h1, 0);
      }
    }
  }

  lemma AddsAfter(h: Heap, h1: Heap, h': Heap, p: nat, n: nat)
    requires Live(h1.blocks) == Live(h.blocks) && h1.used == h.used && h1.allocs == h.allocs && Adds(h1, h', p, n)
    ensures Adds(h, h', p, n)
  {
  }

  // kmalloc makes exactly one more block live, the one it returns, and none if it returns null.
  lemma MallocAdds(h: Heap, size: nat, limit: nat)
    requires Inv(h, limit) && size < U64
    ensures Adds(h, Malloc(h, size).0, Malloc(h, size).1, RoundUp(size))
  {
    RoundUpOk(size);
    AttemptAdds(h, RoundUp(size), 2, limit);
  }

  // ----- freeing -----

  // The block that was live at ptr, and no other, is live no more.
  ghost predicate Drops(h: Heap, h': Heap, ptr: nat) {
    && LiveAt(h.blocks, ptr) && NotLive(h', ptr)
    && Live(h'.blocks) == Live(h.blocks) - {BlockOf(h.blocks, ptr)}
    && h'.used == h.used - BlockOf(h.blocks, ptr).size && h'.allocs == h.allocs
  }

  // A stretch of the list in which only block i is live becomes one free block.
  lemma JoinedLive(bs: seq<Blk>, lo: nat, i: nat, hi: nat, m: Blk, b: Blk)
    requires lo <= i < hi <= |bs| && Separate(bs) && m.free
    requires forall k :: lo <= k < hi && k != i ==> bs[k].free
    ensures b in Live(Replace(bs, lo, hi, [m])) <==> b in Live(bs) && b != bs[i]
  {
    InReplace(bs, lo, hi, [m], b);
    if b in Live(bs) && b != bs[i] {
      var k :| 0 <= k < |bs| && bs[k] == b;
      assert k < lo || k >= hi;
    }
    if k :| 0 <= k < |bs| && !(lo <= k < hi) && bs[k] == b {
      assert k < i ==> Apart(bs[k], bs[i]);
      assert i < k ==> Apart(bs[i], bs[k]);
    }
  }

  lemma CoalesceLive(bs: seq<Blk>, i: nat)
    requires i < |bs| && !bs[i].free && Separate(bs)
    ensures Live(Coalesce(bs[i := bs[i].(free := true)], i)) == Live(bs) - {bs[i]}
  {
    CoalesceShape(bs, i);
    var (lo, hi, m) := (First(bs, i), Last(bs, i) + 1, Joined(bs, i));
    forall b ensures b in Live(Replace(bs, lo, hi, [m])) <==> b in Live(bs) && b != bs[i] {
      JoinedLive(bs, lo, i, hi, m, b);
    }
  }

  // kfree of a live block inside one stretch of memory
  lemma FreeDrops(h: Heap, ptr: nat, limit: nat)
    requires Inv(h, limit) && LiveAt(h.blocks, ptr) && FreeLegal(h, ptr)
    ensures Drops(h, Free(h, ptr), ptr)
  {
    var i := Find(h.blocks, ptr - HDR);
    CoalesceLive(h.blocks, i);
    var h' := Free(h, ptr);
    forall k | 0 <= k < |h'.blocks| && !h'.blocks[k].free ensures Payload(h'.blocks[k]) != ptr {
      assert h'.blocks[k] in Live(h'.blocks);
      var j :| 0 <= j < |h.blocks| && h.blocks[j] == h'.blocks[k];
      assert j != i;
      assert j < i ==> Apart(h.blocks[j], h.blocks[i]);
      assert i < j ==> Apart(h.blocks[i], h.blocks[j]);
    }
  }

  // ----- resizing -----

  // A block that is large enough stays where it is, and nothing changes; otherwise the pointer
  // returned is that of another block, just made live and large enough, and the old one is live no
  // more; or null, and the old one is still live. A pointer returned holds the size asked for,
  // unless rounding that size wraps.
  ghost predicate Resized(h: Heap, h': Heap, ptr: nat, p: nat, size: nat)
    requires LiveAt(h.blocks, ptr)
  {
    var b := BlockOf(h.blocks, ptr);
    && (p != 0 ==> LiveAt(h'.blocks, p) && (size <= U64 - ALIGN ==> BlockOf(h'.blocks, p).size >= size))
    && (b.size >= size ==> h' == h && p == ptr)
    && (b.size < size && p == 0 ==> Live(h'.blocks) == Live(h.blocks))
    && (b.size < size && p != 0 ==>
          && p != ptr && NotLive(h, p) && NotLive(h', ptr) && BlockOf(h'.blocks, p) !in Live(h.blocks)
          && Live(h'.blocks) == Live(h.blocks) - {b} + {BlockOf(h'.blocks, p)})
  }

  // krealloc of a live block to a size that is not null
  lemma ReallocIs(h: Heap, ptr: nat, size: nat, limit: nat)
    requires Inv(h, limit) && LiveAt(h.blocks, ptr) && 0 < size < U64 && ReallocLegal(h, ptr, size)
    ensures Inv(Realloc(h, ptr, size).0, limit)
    ensures Resized(h, Realloc(h, ptr, size).0, ptr, Realloc(h, ptr, size).1, size)
  {
    if BlockOf(h.blocks, ptr).size < size {
      MallocOk(h, size, limit);
      MallocAdds(h, size, limit);
      var (h1, p) := Malloc(h, size);
      StillLive(h, h1, ptr);
      if p == 0 {
        assert Realloc(h, ptr, size) == (h1, 0);
      } else {
        RoundUpOk(size);
        FreeOk(h1, ptr, limit);
        FreeDrops(h1, ptr, limit);
        ReallocMoves(h, h1, Free(h1, ptr), ptr, p, RoundUp(size));
        assert Realloc(h, ptr, size) == (Free(h1, ptr), p);
      }
    }
  }

  lemma ReallocMoves(h: Heap, h1: Heap, h2: Heap, ptr: nat, p: nat, n: nat)
    requires LiveAt(h.blocks, ptr) && Adds(h, h1, p, n) && p != 0 && Drops(h1, h2, ptr) && Separate(h2.blocks)
    requires NotLive(h, p) && BlockOf(h1.blocks, ptr) == BlockOf(h.blocks, ptr)
    ensures p != ptr && LiveAt(h2.blocks, p) && BlockOf(h2.blocks, p) == BlockOf(h1.blocks, p)
    ensures Live(h2.blocks) == Live(h.blocks) - {BlockOf(h.blocks, ptr)} + {BlockOf(h1.blocks, p)}
  {
    var (b, g) := (BlockOf(h.blocks, ptr), BlockOf(h1.blocks, p));
    assert b in Live(h.blocks) && b != g && Payload(b) == ptr && Payload(g) == p;
    assert g in Live(h2.blocks);
    var k :| 0 <= k < |h2.blocks| && h2.blocks[k] == g;
    BlockOfIs(h2.blocks, k);
  }

  // ----- every run -----

  ghost function Pointers(bs: seq<Blk>): set<nat> { set b | b in Live(bs) :: Payload(b) }

  // Only a live block is resized.
  ghost predicate Holds(h: Heap, op: Op) {
    op.ReallocOp? && op.ptr != 0 ==> LiveAt(h.blocks, op.ptr)
  }

  // The pointers a client has after a call: what kmalloc and krealloc returned to it, less what
  // it handed to kfree and krealloc took back.
  ghost function Account(h: Heap, held: set<nat>, op: Op): set<nat>
    requires h.pages.Valid()
  {
    match op
    case MallocOp(size) => var p := Malloc(h, size).1; if p == 0 then held else held + {p}
    case FreeOp(ptr) => held - {ptr}
    case ReallocOp(ptr, size) =>
      var p := Realloc(h, ptr, size).1;
      if ptr == 0 then if p == 0 then held else held + {p}
      else if size == 0 then held - {ptr}
      else if p == 0 then held else held - {ptr} + {p}
  }

  ghost function Accounts(h: Heap, held: set<nat>, ops: seq<Op>): set<nat>
    requires h.pages.Valid()
    decreases |ops|
  {
    if ops == [] then held else Accounts(Step(h, ops[0]), Account(h, held, ops[0]), ops[1..])
  }

  ghost predicate HoldsAll(h: Heap, ops: seq<Op>)
    requires h.pages.Valid()
    decreases |ops|
  {
    ops == [] || (Holds(h, ops[0]) && HoldsAll(Step(h, ops[0]), ops[1..]))
  }

  lemma PointersAdd(h: Heap, h': Heap, p: nat, n: nat)
    requires Adds(h, h', p, n)
    ensures Pointers(h'.blocks) == if p == 0 then Pointers(h.blocks) else Pointers(h.blocks) + {p}
  {
    if p != 0 {
      assert Payload(BlockOf(h'.blocks, p)) == p;
      PointersPlus(Live(h.blocks), Live(h'.blocks), BlockOf(h'.blocks, p));
    }
  }

  lemma PointersPlus(s: set<Blk>, t: set<Blk>, g: Blk)
    requires t == s + {g}
    ensures (set b | b in t :: Payload(b)) == (set b | b in s :: Payload(b)) + {Payload(g)}
  {
  }

  lemma PointersMinus(bs: seq<Blk>, k: nat)
    requires Separate(bs) && k < |bs| && !bs[k].free
    ensures (set b | b in Live(bs) - {bs[k]} :: Payload(b)) == Pointers(bs) - {Payload(bs[k])}
  {
    forall b | b in Live(bs) && b != bs[k] ensures Payload(b) != Payload(bs[k]) {
      var j :| 0 <= j < |bs| && bs[j] == b;
      assert j < k ==> Apart(bs[j], bs[k]);
      assert k < j ==> Apart(bs[k], bs[j]);
    }
  }

  lemma PointersFree(h: Heap, ptr: nat, limit: nat)
    requires Inv(h, limit) && FreeLegal(h, ptr)
    ensures Pointers(Free(h, ptr).blocks) == Pointers(h.blocks) - {ptr}
  {
    if LiveAt(h.blocks, ptr) {
      FreeDrops(h, ptr, limit);
      PointersMinus(h.blocks, Find(h.blocks, ptr - HDR));
    } else {
      forall b | b in Live(h.blocks) ensures Payload(b) != ptr {
        var k :| 0 <= k < |h.blocks| && h.blocks[k] == b;
        FindIs(h.blocks, k);
      }
    }
  }

  lemma PointersResized(h: Heap, h': Heap, ptr: nat, p: nat, size: nat)
    requires LiveAt(h.blocks, ptr) && Separate(h.blocks) && Resized(h, h', ptr, p, size)
    ensures Pointers(h'.blocks) == if p == 0 then Pointers(h.blocks) else Pointers(h.blocks) - {ptr} + {p}
  {
    var b := BlockOf(h.blocks, ptr);
    if b.size < size && p != 0 {
      PointersSwap(h.blocks, h'.blocks, Find(h.blocks, ptr - HDR), BlockOf(h'.blocks, p));
    } else if p != 0 {
      HeldPointer(h.blocks, ptr);
    }
  }

  lemma HeldPointer(bs: seq<Blk>, ptr: nat)
    requires LiveAt(bs, ptr)
    ensures Pointers(bs) - {ptr} + {ptr} == Pointers(bs)
  {
    assert BlockOf(bs, ptr) in Live(bs) && Payload(BlockOf(bs, ptr)) == ptr;
  }

  lemma PointersSwap(bs: seq<Blk>, bs': seq<Blk>, k: nat, g: Blk)
    requires Separate(bs) && k < |bs| && !bs[k].free && Live(bs') == Live(bs) - {bs[k]} + {g}
    ensures Pointers(bs') == Pointers(bs) - {Payload(bs[k])} + {Payload(g)}
  {
    PointersMinus(bs, k);
    PointersPlus(Live(bs) - {bs[k]}, Live(bs'), g);
  }

  lemma StepLedger(h: Heap, op: Op, limit: nat)
    requires Inv(h, limit) && Legal(h, op) && Holds(h, op)
    ensures Pointers(Step(h, op).blocks) == Account(h, Pointers(h.blocks), op)
  {
    match op
    case MallocOp(size) =>
      MallocAdds(h, size, limit);
      PointersAdd(h, Malloc(h, size).0, Malloc(h, size).1, RoundUp(size));
    case FreeOp(ptr) => PointersFree(h, ptr, limit);
    case ReallocOp(ptr, size) =>
      if ptr == 0 {
        MallocAdds(h, size, limit);
        PointersAdd(h, Malloc(h, size).0, Malloc(h, size).1, RoundUp(size));
      } else if size == 0 {
        PointersFree(h, ptr, limit);
      } else {
        ReallocIs(h, ptr, size, limit);
        PointersResized(h, Realloc(h, ptr, size).0, ptr, Realloc(h, ptr, size).1, size);
      }
  }

  // In every run from a heap with nothing handed out, whose frees cross no seam and which resizes
  // only live blocks, the live blocks are exactly those whose pointers the client has: none is
  // lost, and none is live without the client's knowing.
  lemma {:induction false} RunLedger(h: Heap, ops: seq<Op>, h': Heap, limit: nat)
    requires Inv(h, limit) && Run(h, ops, h') && HoldsAll(h, ops)
    ensures Inv(h', limit) && Pointers(h'.blocks) == Accounts(h, Pointers(h.blocks), ops)
    decreases |ops|
  {
    if ops == [] {
    } else {
      StepOk(h, ops[0], limit);
      StepLedger(h, ops[0], limit);
      RunLedger(Step(h, ops[0]), ops[1..], h', limit);
    }
  }
}
