/** What the physical page allocator promises, on sets of free pages. The bitmap in
    Pmm.dfy refines it; the paging code and the heap take their frames from it. */
module Pages {
  import opened Bytes

  const PAGE_SIZE: nat := 4096
  const MAX_PAGES: nat := 524288

  // A page at or above total is never free.
  datatype Pages = Pages(total: nat, free: set<nat>) {
    ghost predicate Valid() {
      && total <= MAX_PAGES
      && (forall p :: p in free ==> p < total)
    }
  }

  function Span(p: nat, count: nat): (r: set<nat>)
    ensures forall q :: q in r <==> p <= q < p + count
  {
    if count == 0 then {} else Span(p, count - 1) + {p + count - 1}
  }

  predicate RunFree(s: Pages, p: nat, count: nat) {
    forall q :: p <= q < p + count ==> q in s.free
  }

  // First-fit search for count consecutive free pages, starting at page from
  function FindRun(s: Pages, from: nat, count: nat): (r: Option<nat>)
    requires s.Valid() && count > 0
    ensures r.Some? ==> from <= r.value && r.value + count <= s.total && RunFree(s, r.value, count)
    ensures r.Some? ==> forall q: nat :: from <= q < r.value ==> !RunFree(s, q, count)
    ensures r.None? ==> forall q: nat :: from <= q ==> !RunFree(s, q, count)
    decreases s.total - from
  {
    if from + count > s.total then
      assert forall q: nat :: from <= q && RunFree(s, q, count) ==> q + count - 1 in s.free;
      None
    else if RunFree(s, from, count) then Some(from)
    else FindRun(s, from + 1, count)
  }

  // The state and the address (0 for failure) an allocation of count pages ends with
  function Alloc(s: Pages, count: nat): (r: (Pages, nat))
    requires s.Valid()
    ensures r.0.Valid() && r.0.total == s.total && r.0.free <= s.free
  {
    if count == 0 then (s, 0)
    else match FindRun(s, 0, count)
      case None => (s, 0)
      case Some(p) => (s.(free := s.free - Span(p, count)), p * PAGE_SIZE)
  }

  function Free(s: Pages, addr: nat): (r: Pages)
    requires s.Valid()
    ensures r.Valid()
  {
    if addr / PAGE_SIZE >= s.total then s else s.(free := s.free + {addr / PAGE_SIZE})
  }

  function FreeRun(s: Pages, addr: nat, count: nat): (r: Pages)
    requires s.Valid()
    ensures r.Valid() && r.total == s.total
    ensures r.free == s.free + set p | p in Span(addr / PAGE_SIZE, count) && p < s.total
  {
    if count == 0 then s
    else
      assert (addr + (count - 1) * PAGE_SIZE) / PAGE_SIZE == addr / PAGE_SIZE + (count - 1);
      Free(FreeRun(s, addr, count - 1), addr + (count - 1) * PAGE_SIZE)
  }

  // The address that turn i of pmm_free_pages names, a 64-bit word
  function TurnAddr(addr: nat, i: nat): nat { (addr + i * PAGE_SIZE) % U64 }

  // pmm_free_pages, page by page
  function FreeEach(s: Pages, addr: nat, count: nat): (r: Pages)
    requires s.Valid()
    ensures r.Valid() && r.total == s.total
  {
    if count == 0 then s else Free(FreeEach(s, addr, count - 1), TurnAddr(addr, count - 1))
  }

  // Exactly the tracked pages named by some turn become free.
  lemma {:induction false} FreeEachExact(s: Pages, addr: nat, count: nat, p: nat)
    requires s.Valid()
    ensures p in FreeEach(s, addr, count).free <==>
      p in s.free || (p < s.total && exists i :: 0 <= i < count && TurnAddr(addr, i) / PAGE_SIZE == p)
  {
    if count == 0 {
    } else {
      FreeEachExact(s, addr, count - 1, p);
      var t := FreeEach(s, addr, count - 1);
      assert FreeEach(s, addr, count) == Free(t, TurnAddr(addr, count - 1));
      if i :| 0 <= i < count && TurnAddr(addr, i) / PAGE_SIZE == p { assert i < count - 1 || i == count - 1; }
    }
  }

  // The last turn's address is still a word.
  predicate TurnsFit(addr: nat, count: nat) { count > 0 ==> addr + (count - 1) * PAGE_SIZE < U64 }

  lemma SmallTurn(addr: nat, i: nat)
    requires addr + i * PAGE_SIZE < U64
    ensures TurnAddr(addr, i) == addr + i * PAGE_SIZE
  {
    ModUnique(addr + i * PAGE_SIZE, U64, 0, addr + i * PAGE_SIZE);
  }

  // As long as no turn wraps, these are the pages of the run ...
  lemma {:induction false} FreeEachIs(s: Pages, addr: nat, count: nat)
    requires s.Valid() && TurnsFit(addr, count)
    ensures FreeEach(s, addr, count) == FreeRun(s, addr, count)
  {
    if count == 0 {
    } else {
      FreeEachIs(s, addr, count - 1);
      FreeEachStep(s, addr, count, FreeRun(s, addr, count - 1));
    }
  }

  lemma FreeEachStep(s: Pages, addr: nat, count: nat, t: Pages)
    requires s.Valid() && count > 0 && TurnsFit(addr, count)
    requires t == FreeEach(s, addr, count - 1) == FreeRun(s, addr, count - 1)
    ensures FreeEach(s, addr, count) == FreeRun(s, addr, count)
  {
    SmallTurn(addr, count - 1);
    FreeRunStep(s, addr, count);
    assert FreeEach(s, addr, count) == Free(t, TurnAddr(addr, count - 1));
  }

  lemma FreeRunStep(s: Pages, addr: nat, count: nat)
    requires s.Valid() && count > 0
    ensures FreeRun(s, addr, count) == Free(FreeRun(s, addr, count - 1), addr + (count - 1) * PAGE_SIZE)
  {
  }

  // ... and as soon as one does, the run goes on with page 0.
  lemma FreeEachWraps(s: Pages, addr: nat, count: nat)
    requires s.Valid() && s.total > 0 && addr < U64 && !TurnsFit(addr, count)
    ensures 0 in FreeEach(s, addr, count).free
  {
    FreeEachExact(s, addr, count, 0);
    var i := WrapTurn(addr, count);
    assert TurnAddr(addr, i) / PAGE_SIZE == 0;
  }

  lemma {:induction false} WrapTurn(addr: nat, count: nat) returns (i: nat)
    requires addr < U64 && !TurnsFit(addr, count)
    ensures i < count && TurnAddr(addr, i) / PAGE_SIZE == 0
    decreases count
  {
    if TurnsFit(addr, count - 1) {
      i := count - 1;
      PastWord(addr + i * PAGE_SIZE);
    } else {
      i := WrapTurn(addr, count - 1);
    }
  }

  lemma PastWord(v: nat)
    requires U64 <= v < U64 + PAGE_SIZE
    ensures v % U64 / PAGE_SIZE == 0
  {
    ModUnique(v, U64, 1, v - U64);
  }

  // ----- allocation is exact and lowest-first -----

  // A request for one or more pages returns 0 exactly when no run of that length is free,
  // and otherwise the lowest-starting one, provided page 0 is reserved.
  lemma AllocExact(s: Pages, count: nat)
    requires s.Valid() && count > 0 && 0 !in s.free
    ensures Alloc(s, count).1 == 0 <==> forall q: nat :: !RunFree(s, q, count)
    ensures Alloc(s, count).1 == 0 ==> Alloc(s, count).0 == s
    ensures Alloc(s, count).1 != 0 ==>
      var p := Alloc(s, count).1 / PAGE_SIZE;
      && Alloc(s, count).1 == p * PAGE_SIZE && 0 < p && p + count <= s.total
      && RunFree(s, p, count) && (forall q: nat :: q < p ==> !RunFree(s, q, count))
      && Alloc(s, count).0.free == s.free - Span(p, count)
  {
    match FindRun(s, 0, count)
    case None =>
    case Some(p) =>
      assert RunFree(s, p, count) && p in s.free;
      assert (p * PAGE_SIZE) / PAGE_SIZE == p;
  }

  // Without that proviso the returned 0 is ambiguous: a request is answered 0 although a run
  // is free exactly when the run starting at page 0 is free, and then those pages are lost.
  lemma AllocZeroAmbiguous(s: Pages, count: nat)
    requires s.Valid() && count > 0
    ensures (Alloc(s, count).1 == 0 && exists q: nat :: RunFree(s, q, count)) <==> RunFree(s, 0, count)
    ensures RunFree(s, 0, count) ==> Alloc(s, count).0.free == s.free - Span(0, count)
  {
    match FindRun(s, 0, count)
    case None =>
    case Some(p) => assert p * PAGE_SIZE == 0 <==> p == 0;
  }

  // A concrete state where the only free page is consumed by a request that reports failure
  lemma AllocZeroLosesPage()
    ensures Alloc(Pages(1, {0}), 1) == (Pages(1, {}), 0)
  {
    var s := Pages(1, {0});
    assert RunFree(s, 0, 1);
    AllocZeroAmbiguous(s, 1);
    assert FindRun(s, 0, 1) == Some(0);
    assert s.free - Span(0, 1) == {};
  }

  // One page is found exactly when some page is free; it is the lowest.
  lemma AllocOne(s: Pages)
    requires s.Valid() && 0 !in s.free
    ensures var (s', a) := Alloc(s, 1);
      && (a == 0 <==> s.free == {})
      && (a == 0 ==> s' == s)
      && (a != 0 ==> a % PAGE_SIZE == 0 && a / PAGE_SIZE in s.free && 0 < a / PAGE_SIZE < s.total
                     && (forall q :: q in s.free ==> a / PAGE_SIZE <= q)
                     && s' == s.(free := s.free - {a / PAGE_SIZE}) && |s'.free| == |s.free| - 1)
  {
    AllocExact(s, 1);
    var (s', a) := Alloc(s, 1);
    if a == 0 {
      forall q | q in s.free ensures false { assert RunFree(s, q, 1); }
      assert s.free == {};
    } else {
      var p := a / PAGE_SIZE;
      assert Span(p, 1) == {p};
      assert p in s.free;
      forall q | q in s.free ensures p <= q { assert RunFree(s, q, 1); }
    }
  }

  // Freeing exactly what was just allocated restores the allocator.
  lemma FreeUndoesAlloc(s: Pages, count: nat)
    requires s.Valid() && 0 !in s.free
    ensures var (s', a) := Alloc(s, count); a != 0 ==> FreeRun(s', a, count) == s
  {
    if count > 0 {
      AllocExact(s, count);
      var (s', a) := Alloc(s, count);
      if a != 0 {
        assert FreeRun(s', a, count).free == s.free;
      }
    }
  }

  // ----- every run of a client that frees only what it allocated -----

  datatype Op = AllocOp(count: nat) | FreeOp(addr: nat, count: nat)

  // The allocator together with the pages the client holds
  datatype Client = Client(pages: Pages, held: set<nat>)

  ghost predicate Legal(c: Client, op: Op) {
    op.FreeOp? ==> Span(op.addr / PAGE_SIZE, op.count) <= c.held
  }

  ghost function Step(c: Client, op: Op): (r: Client)
    requires c.pages.Valid()
    ensures r.pages.Valid()
  {
    match op
    case AllocOp(n) =>
      var (s', a) := Alloc(c.pages, n);
      Client(s', if a == 0 then c.held else c.held + Span(a / PAGE_SIZE, n))
    case FreeOp(a, n) =>
      Client(FreeRun(c.pages, a, n), c.held - Span(a / PAGE_SIZE, n))
  }

  ghost predicate Run(c: Client, ops: seq<Op>, c': Client)
    requires c.pages.Valid()
    decreases |ops|
  {
    if ops == [] then c' == c
    else Legal(c, ops[0]) && Run(Step(c, ops[0]), ops[1..], c')
  }

  // Conservation: at every moment free and held pages are disjoint and together are exactly
  // the pages free (or held) at the start. A page reserved at the start is never handed out.
  lemma {:induction false} RunConserves(c: Client, ops: seq<Op>, c': Client)
    requires c.pages.Valid() && 0 !in c.pages.free && 0 !in c.held && c.pages.free !! c.held
    requires forall p :: p in c.held ==> p < c.pages.total
    requires Run(c, ops, c')
    ensures c'.pages.Valid() && c'.pages.total == c.pages.total
    ensures c'.pages.free !! c'.held
    ensures c'.pages.free + c'.held == c.pages.free + c.held
    decreases |ops|
  {
    if ops == [] {
    } else {
      var d := Step(c, ops[0]);
      if ops[0].AllocOp? && ops[0].count > 0 { AllocExact(c.pages, ops[0].count); }
      assert d.pages.free + d.held == c.pages.free + c.held;
      RunConserves(d, ops[1..], c');
    }
  }
}
