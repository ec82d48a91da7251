/** Every run of map and unmap calls between other uses of the page allocator. */
module PagingRuns {
  import opened Bytes
  import opened Pages
  import opened Paging
  import opened Reach

  // ----- every run -----

  // Besides mapping and unmapping, other clients of the page allocator may take pages and
  // return pages that are not table frames.
  datatype Op = MapOp(virt: nat, phys: nat, flags: nat) | UnmapOp(virt: nat)
              | TakeOp(count: nat) | GiveOp(addr: nat, count: nat)

  // No access of the call misses its frame.
  ghost predicate Reachable(s: Vm, op: Op)
    requires s.pages.Valid()
  {
    match op
    case MapOp(v, p, f) => MapReach(s, v)
    case UnmapOp(v) => PathReach(s.mem, s.root, v)
    case _ => true
  }

  ghost predicate Legal(s: Vm, op: Op) {
    op.GiveOp? ==>
      && 0 !in Span(op.addr / PAGE_SIZE, op.count)
      && forall t :: FrameAt(s.mem, s.root, t).Some? ==>
           FrameAt(s.mem, s.root, t).value !in Span(op.addr / PAGE_SIZE, op.count)
  }

  ghost function Step(s: Vm, op: Op): (s': Vm)
    requires s.pages.Valid()
    ensures s'.pages.Valid() && s'.root == s.root
  {
    match op
    case MapOp(v, p, f) => Map(s, v, p, f).0
    case UnmapOp(v) => Unmap(s, v).0
    case TakeOp(n) => s.(pages := Alloc(s.pages, n).0)
    case GiveOp(a, n) => s.(pages := FreeRun(s.pages, a, n))
  }

  // The abstract machine: a partial map from virtual pages to physical page addresses
  type View = imap<VPage, nat>

  ghost predicate Denotes(s: Vm, d: View) {
    forall v: nat :: Translate(s.mem, s.root, v) ==
      if PageOf(v) in d then Some(d[PageOf(v)] + v % PAGE_SIZE) else None
  }

  ghost function ViewStep(s: Vm, d: View, op: Op): View
    requires s.pages.Valid()
  {
    match op
    case MapOp(v, p, f) => if Map(s, v, p, f).1 then d[PageOf(v) := PageBase(p)] else d
    case UnmapOp(v) => if Unmap(s, v).1 then d - {PageOf(v)} else d
    case _ => d
  }

  ghost predicate Run(s: Vm, d: View, ops: seq<Op>, s': Vm, d': View)
    requires s.pages.Valid()
    decreases |ops|
  {
    if ops == [] then s' == s && d' == d
    else
      && Legal(s, ops[0]) && Reachable(s, ops[0])
      && Run(Step(s, ops[0]), ViewStep(s, d, ops[0]), ops[1..], s', d')
  }

  // A run of a client that knows nothing of reach: all it does is to give back only frames
  // that hold no table and lie below 1 GiB.
  ghost predicate ClientRun(s: Vm, d: View, ops: seq<Op>, s': Vm, d': View)
    requires s.pages.Valid()
    decreases |ops|
  {
    if ops == [] then s' == s && d' == d
    else
      && Legal(s, ops[0]) && GivesLow(ops[0])
      && ClientRun(Step(s, ops[0]), ViewStep(s, d, ops[0]), ops[1..], s', d')
  }

  ghost predicate GivesLow(op: Op) {
    op.GiveOp? ==> forall p :: p in Span(op.addr / PAGE_SIZE, op.count) ==> Low(p)
  }

  lemma UpdatedDenotes(s: Vm, s': Vm, d: View, page: VPage, base: Option<nat>)
    requires Updated(s, s', page, base) && Denotes(s, d)
    ensures Denotes(s', if base.Some? then d[page := base.value] else d - {page})
  {
  }

  lemma UpdatedIdentity(s: Vm, s': Vm, v: nat, base: Option<nat>)
    requires Updated(s, s', PageOf(v), base) && IdentityLow(s) && !HugeAt(s.mem, s.root, v)
    ensures IdentityLow(s')
  {
    forall u: nat | u < LOW_GIB ensures PageOf(u) != PageOf(v) {
      HugePerPage(s, u, v);
    }
  }

  lemma UpdatedOk(s: Vm, s': Vm, d: View, v: nat, base: Option<nat>)
    requires Updated(s, s', PageOf(v), base) && Denotes(s, d) && IdentityLow(s) && !HugeAt(s.mem, s.root, v)
    ensures Denotes(s', if base.Some? then d[PageOf(v) := base.value] else d - {PageOf(v)})
    ensures IdentityLow(s')
  {
    UpdatedDenotes(s, s', d, PageOf(v), base);
    UpdatedIdentity(s, s', v, base);
  }

  lemma MapStepOk(s: Vm, d: View, v: nat, p: nat, f: nat)
    requires Inv(s) && Denotes(s, d) && IdentityLow(s)
    ensures var s', d' := Step(s, MapOp(v, p, f)), ViewStep(s, d, MapOp(v, p, f));
      Inv(s') && Denotes(s', d') && IdentityLow(s')
  {
    MapRefines(s, v, p, f);
    var r := Map(s, v, p, f);
    MapFacts(s, r.0, r.1, d, v, PageBase(p));
  }

  lemma MapFacts(s: Vm, s': Vm, ok: bool, d: View, v: nat, base: nat)
    requires Denotes(s, d) && IdentityLow(s)
    requires ok ==> !HugeAt(s.mem, s.root, v) && Updated(s, s', PageOf(v), Some(base))
    requires !ok ==> SameView(s, s')
    ensures Denotes(s', if ok then d[PageOf(v) := base] else d) && IdentityLow(s')
  {
    if ok { UpdatedOk(s, s', d, v, Some(base)); } else { SameViewOk(s, s', d); }
  }

  lemma SameViewOk(s: Vm, s': Vm, d: View)
    requires SameView(s, s') && Denotes(s, d) && IdentityLow(s)
    ensures Denotes(s', d) && IdentityLow(s')
  {
  }

  lemma UnmapStepOk(s: Vm, d: View, v: nat)
    requires Inv(s) && Denotes(s, d) && IdentityLow(s)
    ensures var s', d' := Step(s, UnmapOp(v)), ViewStep(s, d, UnmapOp(v));
      Inv(s') && Denotes(s', d') && IdentityLow(s')
  {
    UnmapRefines(s, v);
    var (s', ok) := Unmap(s, v);
    if ok {
      PtNotHuge(s, v);
      UpdatedOk(s, s', d, v, None);
    }
  }

  // Taking or giving back frames that hold no table leaves the tables as they are.
  lemma PagesStepOk(s: Vm, pages: Pages)
    requires Inv(s) && pages.Valid() && 0 !in pages.free
    requires forall t :: FrameAt(s.mem, s.root, t).Some? ==> FrameAt(s.mem, s.root, t).value !in pages.free
    ensures Inv(s.(pages := pages))
  {
    forall t ensures TableOk(s.(pages := pages), t) { assert TableOk(s, t); }
    forall t, u ensures OneParent(s.(pages := pages), t, u) { assert OneParent(s, t, u); }
  }

  lemma StepOk(s: Vm, d: View, op: Op)
    requires Inv(s) && Legal(s, op) && Denotes(s, d) && IdentityLow(s)
    ensures Inv(Step(s, op)) && Denotes(Step(s, op), ViewStep(s, d, op)) && IdentityLow(Step(s, op))
  {
    match op
    case MapOp(v, p, f) => MapStepOk(s, d, v, p, f);
    case UnmapOp(v) => UnmapStepOk(s, d, v);
    case TakeOp(n) =>
      forall t | FrameAt(s.mem, s.root, t).Some?
        ensures FrameAt(s.mem, s.root, t).value !in Alloc(s.pages, n).0.free { assert TableOk(s, t); }
      PagesStepOk(s, Alloc(s.pages, n).0);
      SameViewOk(s, Step(s, op), d);
    case GiveOp(a, n) =>
      forall t | FrameAt(s.mem, s.root, t).Some?
        ensures FrameAt(s.mem, s.root, t).value !in FreeRun(s.pages, a, n).free { assert TableOk(s, t); }
      PagesStepOk(s, FreeRun(s.pages, a, n));
      SameViewOk(s, Step(s, op), d);
  }

  // Being in a huge mapping depends only on the page.
  lemma HugePerPage(s: Vm, u: nat, v: nat)
    ensures PageOf(u) == PageOf(v) ==> HugeAt(s.mem, s.root, u) == HugeAt(s.mem, s.root, v)
  {
  }

  lemma PtNotHuge(s: Vm, v: nat)
    ensures PtAt(s.mem, s.root, PageOf(v).i4, PageOf(v).i3, PageOf(v).i2).Some? ==> !HugeAt(s.mem, s.root, v)
  {
  }

  // In every run whose accesses reach their frames the tables form a tree in reserved frames,
  // the first GiB stays identity-mapped, and the tables denote exactly the abstract map of the
  // operations so far.
  lemma {:induction false} RunRefines(s: Vm, d: View, ops: seq<Op>, s': Vm, d': View)
    requires Inv(s) && Denotes(s, d) && IdentityLow(s)
    requires Run(s, d, ops, s', d')
    ensures Inv(s') && Denotes(s', d') && IdentityLow(s')
    decreases |ops|
  {
    if ops == [] {
    } else {
      StepOk(s, d, ops[0]);
      RunRefines(Step(s, ops[0]), ViewStep(s, d, ops[0]), ops[1..], s', d');
    }
  }

  ghost function BootView(): View {
    imap p: VPage | p.i4 == 0 && p.i3 == 0 && p.i2 < ENTRIES && p.i1 < ENTRIES :: p.i2 * HUGE_SIZE + p.i1 * PAGE_SIZE
  }

  lemma StepLow(s: Vm, op: Op)
    requires Inv(s) && AllLow(s) && Legal(s, op) && GivesLow(op)
    ensures AllLow(Step(s, op))
  {
    match op
    case MapOp(v, p, f) => MapLow(s, v, p, f);
    case UnmapOp(v) => UnmapLow(s, v);
    case TakeOp(n) =>
    case GiveOp(a, n) =>
  }

  // If no frame at or above 1 GiB is in play, reach is no hypothesis: every access of every
  // call lands where it should, and every table of the state reached is mapped to itself.
  lemma {:induction false} LowRunRefines(s: Vm, d: View, ops: seq<Op>, s': Vm, d': View)
    requires Inv(s) && Denotes(s, d) && IdentityLow(s) && AllLow(s)
    requires ClientRun(s, d, ops, s', d')
    ensures Run(s, d, ops, s', d') && Inv(s') && Denotes(s', d') && IdentityLow(s') && AllLow(s') && TablesReach(s')
    decreases |ops|
  {
    if ops == [] {
      LowReach(s, 0);
    } else {
      StepReachable(s, ops[0]);
      StepOk(s, d, ops[0]);
      StepLow(s, ops[0]);
      LowRunRefines(Step(s, ops[0]), ViewStep(s, d, ops[0]), ops[1..], s', d');
    }
  }

  lemma StepReachable(s: Vm, op: Op)
    requires Inv(s) && IdentityLow(s) && AllLow(s)
    ensures Reachable(s, op)
  {
    match op
    case MapOp(v, p, f) => LowReach(s, v);
    case UnmapOp(v) => LowReach(s, v);
    case TakeOp(n) =>
    case GiveOp(a, n) =>
  }

  // The same from boot
  lemma BootRunRefines(s: Vm, pml4: nat, pdpt: nat, pd: nat, ops: seq<Op>, s': Vm, d': View)
    requires BootState(s, pml4, pdpt, pd) && Low(pml4) && Low(pdpt) && Low(pd)
    requires forall p :: p in s.pages.free ==> Low(p)
    requires ClientRun(s, BootView(), ops, s', d')
    ensures Run(s, BootView(), ops, s', d')
    ensures Inv(s') && Denotes(s', d') && IdentityLow(s') && AllLow(s') && TablesReach(s')
  {
    BootOk(s, pml4, pdpt, pd);
    IdentityDenotes(s);
    forall t | FrameAt(s.mem, s.root, t).Some? ensures Low(FrameAt(s.mem, s.root, t).value) {
      BootSlots(s, pml4, pdpt, pd, t);
    }
    LowRunRefines(s, BootView(), ops, s', d');
  }

  lemma IdentityDenotes(s: Vm)
    requires IdentityLow(s)
    requires forall v: nat :: LOW_GIB <= v < 0x1_0000_0000_0000 ==> Translate(s.mem, s.root, v) == None
    ensures Denotes(s, BootView())
  {
    forall v: nat ensures Translate(s.mem, s.root, v) ==
      if PageOf(v) in BootView() then Some(BootView()[PageOf(v)] + v % PAGE_SIZE) else None
    {
      var u := v % 0x1_0000_0000_0000;
      assert Translate(s.mem, s.root, u) == if u < LOW_GIB then Some(u) else None;
      TranslateLow(s, v);
      BootViewAt(v, Translate(s.mem, s.root, v));
    }
  }

  lemma BootViewAt(v: nat, t: Option<nat>)
    requires var u := v % 0x1_0000_0000_0000; t == if u < LOW_GIB then Some(u) else None
    ensures t == if PageOf(v) in BootView() then Some(BootView()[PageOf(v)] + v % PAGE_SIZE) else None
  {
    BootViewLow(v);
  }

  lemma BootViewLow(v: nat)
    ensures var u := v % 0x1_0000_0000_0000;
      && (PageOf(v) in BootView() <==> u < LOW_GIB)
      && (PageOf(v) in BootView() ==> BootView()[PageOf(v)] + v % PAGE_SIZE == u)
  {
    LowBits(v);
    LowPage(v % 0x1_0000_0000_0000);
  }

  lemma TranslateLow(s: Vm, v: nat)
    ensures Translate(s.mem, s.root, v) == Translate(s.mem, s.root, v % 0x1_0000_0000_0000)
  {
    LowBits(v);
  }
}
