/** Nothing leaks: which heap blocks the file system accounts for, over every run of its calls. */
module Leaks {
  import opened Bytes
  import opened Paths
  import opened Tree
  import opened Storage
  import S = Storage
  import FT = FileTree
  import B = Blocks
  import C = Contents
  import LT = Lifetimes
  import P = Pages

  // The data pointers of the nodes
  ghost function Owned(ns: Nodes): set<nat> { set i | 0 <= i < |ns| && ns[i].data != 0 :: ns[i].data }

  // The live blocks that belong to no node
  ghost function Strays(d: Disk): set<nat> { LT.Pointers(d.heap.blocks) - Owned(d.fs.nodes) }

  // The payload size of the block at a data pointer, 0 for the null pointer
  ghost function SizeAt(bs: seq<B.Blk>, data: nat): nat {
    if data != 0 && B.LiveAt(bs, data) then LT.BlockOf(bs, data).size else 0
  }

  // What the nodes' blocks add up to
  ghost function UsedBy(ns: Nodes, bs: seq<B.Blk>): nat {
    if ns == [] then 0 else UsedBy(ns[..|ns| - 1], bs) + SizeAt(bs, ns[|ns| - 1].data)
  }

  // What the heap counts as used beyond that
  ghost function Rest(d: Disk): int { d.heap.used - UsedBy(d.fs.nodes, d.heap.blocks) }

  // ----- sets and sums -----

  lemma {:induction false} UsedBySame(ns: Nodes, ns': Nodes, bs: seq<B.Blk>, bs': seq<B.Blk>)
    requires |ns| == |ns'| && forall j :: 0 <= j < |ns| ==> SizeAt(bs', ns'[j].data) == SizeAt(bs, ns[j].data)
    ensures UsedBy(ns', bs') == UsedBy(ns, bs)
  {
    if ns == [] {
    } else {
      UsedBySame(ns[..|ns| - 1], ns'[..|ns| - 1], bs, bs');
    }
  }

  // Only node i has another pointer, or its block another size.
  lemma {:induction false} UsedByBut(ns: Nodes, ns': Nodes, bs: seq<B.Blk>, bs': seq<B.Blk>, i: nat)
    requires i < |ns| == |ns'|
    requires forall j :: 0 <= j < |ns| && j != i ==> SizeAt(bs', ns'[j].data) == SizeAt(bs, ns[j].data)
    ensures UsedBy(ns', bs') == UsedBy(ns, bs) - SizeAt(bs, ns[i].data) + SizeAt(bs', ns'[i].data)
  {
    var n := |ns| - 1;
    if i == n {
      UsedBySame(ns[..n], ns'[..n], bs, bs');
    } else {
      UsedByBut(ns[..n], ns'[..n], bs, bs', i);
    }
  }

  lemma LivePointer(bs: seq<B.Blk>, ptr: nat)
    requires B.LiveAt(bs, ptr)
    ensures ptr in LT.Pointers(bs)
  {
    assert LT.BlockOf(bs, ptr) in LT.Live(bs) && B.Payload(LT.BlockOf(bs, ptr)) == ptr;
  }

  lemma OwnedLive(ns: Nodes, bs: seq<B.Blk>)
    requires C.DataOk(ns, bs)
    ensures Owned(ns) <= LT.Pointers(bs)
  {
    forall i | 0 <= i < |ns| && ns[i].data != 0 ensures ns[i].data in LT.Pointers(bs) {
      assert C.HeldOk(bs, ns[i]);
      LivePointer(bs, ns[i].data);
    }
  }

  // Node i has another pointer, no other node's; the rest have theirs.
  lemma OwnedBut(ns: Nodes, ns': Nodes, i: nat)
    requires i < |ns| == |ns'| && forall j :: 0 <= j < |ns| && j != i ==> ns'[j].data == ns[j].data
    requires forall j, k :: 0 <= j < k < |ns| && ns[j].data != 0 ==> ns[j].data != ns[k].data
    requires ns'[i].data != 0 ==> C.Unused(ns, ns'[i].data)
    ensures Owned(ns') == Owned(ns) - {ns[i].data} + if ns'[i].data == 0 then {} else {ns'[i].data}
  {
    var s := Owned(ns) - {ns[i].data} + if ns'[i].data == 0 then {} else {ns'[i].data};
    forall x ensures x in Owned(ns') <==> x in s {
      if x in Owned(ns') {
        var j :| 0 <= j < |ns'| && ns'[j].data != 0 && ns'[j].data == x;
        if j != i {
          assert j < i ==> ns[j].data != ns[i].data;
          assert i < j && ns[i].data != 0 ==> ns[i].data != ns[j].data;
        }
      }
      if x in Owned(ns) && x != ns[i].data {
        var j :| 0 <= j < |ns| && ns[j].data != 0 && ns[j].data == x;
        assert ns'[j].data == x;
      }
      if ns'[i].data != 0 && x == ns'[i].data { assert x in Owned(ns'); }
    }
  }

  lemma OwnedSame(ns: Nodes, ns': Nodes)
    requires |ns| <= |ns'| && (forall j :: 0 <= j < |ns| ==> ns'[j].data == ns[j].data)
    requires forall j :: |ns| <= j < |ns'| ==> ns'[j].data == 0
    ensures Owned(ns') == Owned(ns)
  {
    forall x ensures x in Owned(ns') <==> x in Owned(ns) {
      if x in Owned(ns) {
        var j :| 0 <= j < |ns| && ns[j].data != 0 && ns[j].data == x;
        assert ns'[j].data == x;
      }
    }
  }

  // ----- one heap operation -----

  // Every pointer that was live still names the same block, apart perhaps from one.
  ghost predicate SameBlocks(bs: seq<B.Blk>, bs': seq<B.Blk>, but: nat) {
    forall ptr: nat :: ptr != but && B.LiveAt(bs, ptr) ==>
      B.LiveAt(bs', ptr) && LT.BlockOf(bs', ptr) == LT.BlockOf(bs, ptr)
  }

  lemma MallocSame(h: B.Heap, size: nat, limit: nat)
    requires B.Inv(h, limit) && size < U64
    ensures SameBlocks(h.blocks, B.Malloc(h, size).0.blocks, 0)
  {
    B.MallocOk(h, size, limit);
    var h' := B.Malloc(h, size).0;
    forall ptr: nat | B.LiveAt(h.blocks, ptr)
      ensures B.LiveAt(h'.blocks, ptr) && LT.BlockOf(h'.blocks, ptr) == LT.BlockOf(h.blocks, ptr)
    {
      B.StillLive(h, h', ptr);
    }
  }

  // What kfree does to one live pointer, if there is one
  ghost predicate Dropped(h: B.Heap, h': B.Heap, data: nat) {
    && LT.Pointers(h'.blocks) == LT.Pointers(h.blocks) - {data}
    && h'.used == h.used - SizeAt(h.blocks, data) && SameBlocks(h.blocks, h'.blocks, data)
    && (data != 0 ==> B.NotLive(h', data))
  }

  lemma FreeDropped(h: B.Heap, data: nat, limit: nat)
    requires B.Inv(h, limit) && B.LiveAt(h.blocks, data) && B.FreeLegal(h, data)
    ensures Dropped(h, B.Free(h, data), data)
  {
    var h' := B.Free(h, data);
    LT.FreeDrops(h, data, limit);
    LT.PointersFree(h, data, limit);
    B.FreeOk(h, data, limit);
    forall ptr: nat | ptr != data && B.LiveAt(h.blocks, ptr)
      ensures B.LiveAt(h'.blocks, ptr) && LT.BlockOf(h'.blocks, ptr) == LT.BlockOf(h.blocks, ptr)
    {
      var b := LT.BlockOf(h.blocks, ptr);
      assert B.Payload(b) == ptr && b in h'.blocks;
      var k :| 0 <= k < |h'.blocks| && h'.blocks[k] == b;
      LT.BlockOfIs(h'.blocks, k);
    }
  }

  lemma NoNullPointer(bs: seq<B.Blk>)
    ensures 0 !in LT.Pointers(bs)
  {
  }

  lemma ReleasedDropped(h: B.Heap, data: nat, limit: nat)
    requires B.Inv(h, limit) && (data != 0 ==> B.LiveAt(h.blocks, data) && B.FreeLegal(h, data))
    ensures Dropped(h, Released(h, data), data)
  {
    if data == 0 { NoNullPointer(h.blocks); } else { FreeDropped(h, data, limit); }
  }

  // What kmalloc does, in the same terms
  ghost predicate Given(h: B.Heap, h': B.Heap, p: nat) {
    && LT.Pointers(h'.blocks) == LT.Pointers(h.blocks) + (if p == 0 then {} else {p})
    && p !in LT.Pointers(h.blocks)
    && h'.used == h.used + SizeAt(h'.blocks, p) && SameBlocks(h.blocks, h'.blocks, 0)
  }

  lemma MallocGiven(h: B.Heap, size: nat, limit: nat)
    requires B.Inv(h, limit) && size < U64
    ensures Given(h, B.Malloc(h, size).0, B.Malloc(h, size).1)
  {
    var (h', p) := B.Malloc(h, size);
    LT.MallocAdds(h, size, limit);
    LT.PointersAdd(h, h', p, B.RoundUp(size));
    MallocSame(h, size, limit);
    NoNullPointer(h.blocks);
    B.MallocOk(h, size, limit);
    NewPointer(h, p);
  }

  lemma NewPointer(h: B.Heap, p: nat)
    ensures p != 0 && B.NotLive(h, p) ==> p !in LT.Pointers(h.blocks)
  {
  }

  // ----- the calls -----

  // The nodes account for what they accounted for: no live block has come to belong to no node,
  // none that belonged to none is gone, and the sizes add up as before.
  ghost predicate Balanced(d: Disk, d': Disk) { Strays(d') == Strays(d) && Rest(d') == Rest(d) }

  // Node i gave up its block, if it had one, and has the one at p.
  ghost predicate Replaced(ns: Nodes, ns': Nodes, i: nat, p: nat) {
    && i < |ns| == |ns'| && ns'[i].data == p
    && forall j :: 0 <= j < |ns| && j != i ==> ns'[j].data == ns[j].data
  }

  lemma SizesKept(ns: Nodes, ns': Nodes, bs: seq<B.Blk>, bs': seq<B.Blk>, i: nat, p: nat)
    requires C.DataOk(ns, bs) && Replaced(ns, ns', i, p) && SameBlocks(bs, bs', ns[i].data)
    ensures UsedBy(ns', bs') == UsedBy(ns, bs) - SizeAt(bs, ns[i].data) + SizeAt(bs', p)
  {
    forall j | 0 <= j < |ns| && j != i ensures SizeAt(bs', ns'[j].data) == SizeAt(bs, ns[j].data) {
      assert C.HeldOk(bs, ns[j]);
      assert j < i && ns[j].data != 0 ==> ns[j].data != ns[i].data;
    }
    UsedByBut(ns, ns', bs, bs', i);
  }

  // The second half: h has the nodes' blocks, and the block at p, which is no node's.
  lemma ReplaceBalance(ns: Nodes, ns': Nodes, h: B.Heap, h': B.Heap, i: nat, p: nat)
    requires C.DataOk(ns, h.blocks) && Replaced(ns, ns', i, p) && Dropped(h, h', ns[i].data)
    requires p != 0 ==> B.LiveAt(h.blocks, p) && C.Unused(ns, p)
    ensures LT.Pointers(h'.blocks) - Owned(ns') == LT.Pointers(h.blocks) - Owned(ns) - {p}
    ensures h'.used - UsedBy(ns', h'.blocks) == h.used - UsedBy(ns, h.blocks) - SizeAt(h.blocks, p)
  {
    OwnedBut(ns, ns', i);
    OwnedLive(ns, h.blocks);
    NoNullPointer(h.blocks);
    SizesKept(ns, ns', h.blocks, h'.blocks, i, p);
    if p != 0 { assert p != ns[i].data; }
  }

  // The first half: the block that kmalloc gave is the only new stray.
  lemma GivenBalance(ns: Nodes, h: B.Heap, h': B.Heap, p: nat)
    requires C.DataOk(ns, h.blocks) && Given(h, h', p)
    ensures LT.Pointers(h'.blocks) - Owned(ns) - {p} == LT.Pointers(h.blocks) - Owned(ns)
    ensures UsedBy(ns, h'.blocks) == UsedBy(ns, h.blocks)
  {
    OwnedLive(ns, h.blocks);
    NoNullPointer(h.blocks);
    NoNullPointer(h'.blocks);
    forall j | 0 <= j < |ns| ensures SizeAt(h'.blocks, ns[j].data) == SizeAt(h.blocks, ns[j].data) {
      assert C.HeldOk(h.blocks, ns[j]);
    }
    UsedBySame(ns, ns, h.blocks, h'.blocks);
  }

  // The block at was is live no more; the one at p, with room for n bytes, is live and was not;
  // and what is used has changed by the difference of the two.
  ghost predicate Exchanged(h: B.Heap, h': B.Heap, was: nat, p: nat, n: nat) {
    && B.LiveAt(h'.blocks, p) && p !in LT.Pointers(h.blocks) && LT.BlockOf(h'.blocks, p).size >= n
    && (was != 0 ==> was != p && B.NotLive(h', was))
    && LT.Pointers(h'.blocks) == LT.Pointers(h.blocks) - {was} + {p}
    && h'.used == h.used - SizeAt(h.blocks, was) + SizeAt(h'.blocks, p)
  }

  lemma HeapExchanged(h: B.Heap, h1: B.Heap, h': B.Heap, was: nat, p: nat, n: nat)
    requires Given(h, h1, p) && p != 0 && B.LiveAt(h1.blocks, p) && LT.BlockOf(h1.blocks, p).size >= n
    requires Dropped(h1, h', was) && (was != 0 ==> B.LiveAt(h.blocks, was))
    ensures Exchanged(h, h', was, p, n)
  {
    if was != 0 { LivePointer(h.blocks, was); }
  }

  // An overwrite: the file's old block is exchanged for one with room for the new bytes.
  lemma WriteReleases(d: Disk, i: nat, buf: seq<byte>, h: B.Heap, p: nat, limit: nat)
    requires Sound(d, limit) && i < |d.files| && d.fs.nodes[i].kind == File && |buf| + 1 <= U64 - B.ALIGN
    requires (h, p) == B.Malloc(d.heap, |buf| + 1) && p != 0
    requires d.fs.nodes[i].data != 0 ==> B.FreeLegal(h, d.fs.nodes[i].data)
    ensures WriteExchanges(d, Write(d, Some(i), buf).0, i, p, |buf| + 1)
  {
    WriteIs(d, i, buf, h, p);
    SwapAfter(d, i, buf, h, p, limit);
  }

  lemma SwapAfter(d: Disk, i: nat, buf: seq<byte>, h: B.Heap, p: nat, limit: nat)
    requires Sound(d, limit) && i < |d.files| && |buf| + 1 <= U64 - B.ALIGN
    requires (h, p) == B.Malloc(d.heap, |buf| + 1) && p != 0
    requires d.fs.nodes[i].data != 0 ==> B.FreeLegal(h, d.fs.nodes[i].data)
    ensures WriteExchanges(d, Swap(d, i, buf, h, p).0, i, p, |buf| + 1)
  {
    MallocHere(d, |buf| + 1, h, p, limit);
    SwapReleases(d, i, buf, h, p, limit);
  }

  ghost predicate WriteExchanges(d: Disk, d': Disk, i: nat, p: nat, size: nat)
    requires i < |d.fs.nodes| == |d'.fs.nodes|
  {
    d'.fs.nodes[i].data == p && Exchanged(d.heap, d'.heap, d.fs.nodes[i].data, p, size) && Balanced(d, d')
  }

  lemma MallocHere(d: Disk, size: nat, h: B.Heap, p: nat, limit: nat)
    requires Sound(d, limit) && size <= U64 - B.ALIGN && (h, p) == B.Malloc(d.heap, size)
    ensures Ready(d.fs.nodes, h, p, size, limit) && Given(d.heap, h, p)
  {
    MallocReady(d.fs.nodes, d.heap, size, limit);
    MallocGiven(d.heap, size, limit);
  }

  lemma SwapReleases(d: Disk, i: nat, buf: seq<byte>, h: B.Heap, p: nat, limit: nat)
    requires i < |d.fs.nodes| == |d.files| && C.DataOk(d.fs.nodes, d.heap.blocks)
    requires Ready(d.fs.nodes, h, p, |buf| + 1, limit) && p != 0 && Given(d.heap, h, p)
    requires d.fs.nodes[i].data != 0 ==> B.FreeLegal(h, d.fs.nodes[i].data)
    ensures WriteExchanges(d, Swap(d, i, buf, h, p).0, i, p, |buf| + 1)
  {
    var (ns, d') := (d.fs.nodes, Swap(d, i, buf, h, p).0);
    assert C.HeldOk(h.blocks, ns[i]) && C.HeldOk(d.heap.blocks, ns[i]);
    GrantedLive(h, p, |buf| + 1);
    ReleasedDropped(h, ns[i].data, limit);
    HeapExchanged(d.heap, h, d'.heap, ns[i].data, p, |buf| + 1);
    SwapBalance(ns, d'.fs.nodes, d.heap, h, d'.heap, i, p);
  }

  lemma SwapBalance(ns: Nodes, ns': Nodes, h0: B.Heap, h: B.Heap, h': B.Heap, i: nat, p: nat)
    requires C.DataOk(ns, h0.blocks) && C.DataOk(ns, h.blocks) && Given(h0, h, p)
    requires Replaced(ns, ns', i, p) && Dropped(h, h', ns[i].data)
    requires p != 0 && B.LiveAt(h.blocks, p) && C.Unused(ns, p)
    ensures LT.Pointers(h'.blocks) - Owned(ns') == LT.Pointers(h0.blocks) - Owned(ns)
    ensures h'.used - UsedBy(ns', h'.blocks) == h0.used - UsedBy(ns, h0.blocks)
  {
    GivenBalance(ns, h0, h, p);
    ReplaceBalance(ns, ns', h, h', i, p);
  }

  lemma GrantedLive(h: B.Heap, p: nat, n: nat)
    requires B.Granted(h, p, n) && B.Separate(h.blocks)
    ensures B.LiveAt(h.blocks, p) && LT.BlockOf(h.blocks, p).size >= n
  {
    var k :| 0 <= k < |h.blocks| && B.Payload(h.blocks[k]) == p && !h.blocks[k].free && h.blocks[k].size >= n;
    LT.BlockOfIs(h.blocks, k);
  }

  // Without room nothing is released, and nothing given.
  lemma RefusedBalance(d: Disk, h: B.Heap)
    requires C.DataOk(d.fs.nodes, d.heap.blocks) && Given(d.heap, h, 0)
    ensures Balanced(d, d.(heap := h))
  {
    GivenBalance(d.fs.nodes, d.heap, h, 0);
    NoNullPointer(h.blocks);
  }

  lemma RefusedAfter(d: Disk, size: nat, h: B.Heap, limit: nat)
    requires Sound(d, limit) && size <= U64 - B.ALIGN && (h, 0) == B.Malloc(d.heap, size)
    ensures Balanced(d, d.(heap := h))
  {
    MallocHere(d, size, h, 0, limit);
    RefusedBalance(d, h);
  }

  lemma WriteBalance(d: Disk, node: Option<nat>, buf: seq<byte>, limit: nat)
    requires Sound(d, limit) && (node.Some? ==> node.value < |d.fs.nodes|) && |buf| + 1 <= U64 - B.ALIGN
    requires Legal(WriteFrees(d, node, |buf|))
    ensures Balanced(d, Write(d, node, buf).0)
  {
    if node.Some? && d.fs.nodes[node.value].kind == File {
      var (h, p) := B.Malloc(d.heap, |buf| + 1);
      WriteIs(d, node.value, buf, h, p);
      if p == 0 { RefusedAfter(d, |buf| + 1, h, limit); } else { SwapAfter(d, node.value, buf, h, p, limit); }
    }
  }

  // An unlink: the block of the node's contents is live no more, and what the heap counts as used
  // has dropped by its size.
  lemma UnlinkReleases(d: Disk, path: string, n: nat, limit: nat)
    requires Sound(d, limit) && FT.PathOk(d.fs.cwd, path) && FT.Resolve(d.fs, path) == Some(n) && n != 0
    requires d.fs.nodes[n].data != 0 ==> B.FreeLegal(d.heap, d.fs.nodes[n].data)
    ensures var (d', was) := (S.Unlink(d, path).0, d.fs.nodes[n].data);
      && d'.fs.nodes[n].data == 0 && (was != 0 ==> B.NotLive(d'.heap, was))
      && LT.Pointers(d'.heap.blocks) == LT.Pointers(d.heap.blocks) - {was}
      && d'.heap.used == d.heap.used - SizeAt(d.heap.blocks, was)
    ensures Balanced(d, S.Unlink(d, path).0)
  {
    var (ns, d') := (d.fs.nodes, S.Unlink(d, path).0);
    assert C.HeldOk(d.heap.blocks, ns[n]);
    ReleasedDropped(d.heap, ns[n].data, limit);
    UnlinkReplaced(d, path, n);
    ReplaceBalance(ns, d'.fs.nodes, d.heap, d'.heap, n, 0);
    NoNullPointer(d.heap.blocks);
  }

  lemma UnlinkReplaced(d: Disk, path: string, n: nat)
    requires Wf(d.fs.nodes) && |d.files| == |d.fs.nodes| && FT.PathOk(d.fs.cwd, path)
    requires FT.Resolve(d.fs, path) == Some(n) && n != 0
    ensures Replaced(d.fs.nodes, S.Unlink(d, path).0.fs.nodes, n, 0)
  {
    UnlinkShape(d.fs.nodes, n);
    C.UnchainData(d.fs.nodes, d.fs.nodes[n].parent.value, n);
  }

  lemma UnlinkBalance(d: Disk, path: string, limit: nat)
    requires Sound(d, limit) && FT.PathOk(d.fs.cwd, path) && Legal(UnlinkFrees(d, path))
    ensures Balanced(d, S.Unlink(d, path).0)
  {
    var n := FT.Resolve(d.fs, path);
    if n.Some? && n.value != 0 { UnlinkReleases(d, path, n.value, limit); }
  }

  lemma MakeBalance(d: Disk, path: string, kind: Kind, mode: nat, limit: nat)
    requires Sound(d, limit) && FT.PathOk(d.fs.cwd, path)
    ensures Balanced(d, Make(d, path, kind, mode).0)
  {
    MakeData(d.fs, path, kind, mode, d.heap.blocks);
    var (ns, ns') := (d.fs.nodes, FT.Make(d.fs, path, kind, mode).0.nodes);
    OwnedSame(ns, ns');
    UsedBySame(ns, ns'[..|ns|], d.heap.blocks, d.heap.blocks);
    if |ns'| > |ns| {
      assert ns'[..|ns'| - 1] == ns'[..|ns|];
    } else {
      assert ns'[..|ns|] == ns';
    }
  }

  lemma CopyBalance(d: Disk, i: nat, dst: string, mode: nat, limit: nat)
    requires Sound(d, limit) && i < |d.files| && FT.PathOk(d.fs.cwd, dst) && |FT.Leaf(d.fs.cwd, dst)| < NAME_MAX
    requires Legal(CopyFromFrees(d, i, dst, mode))
    ensures Balanced(d, CopyFrom(d, i, dst, mode).0)
  {
    var (d1, t) := Make(d, dst, File, mode);
    MakeSound(d, dst, File, mode, limit);
    MakeBalance(d, dst, File, mode, limit);
    FileFits(d1, i, limit);
    if t.Some? && d1.files[i] != [] { WriteBalance(d1, t, d1.files[i], limit); }
  }

  // Both halves of a rename
  lemma RenameBalance(d: Disk, src: string, dst: string, limit: nat)
    requires Sound(d, limit) && Fits(d, CopyOp(src, dst)) && RenameReady(d, src, dst)
    requires Legal(CopyFrees(d, src, dst)) && Legal(RenameFrees(d, src, dst))
    ensures Balanced(d, Rename(d, src, dst).0)
  {
    var (d1, r) := Copy(d, src, dst);
    StepSound(d, CopyOp(src, dst), limit);
    StepBalance(d, CopyOp(src, dst), limit);
    if r == 0 {
      CopyCwd(d, src, dst);
      UnlinkBalance(d1, src, limit);
    }
  }

  lemma CopyCwd(d: Disk, src: string, dst: string)
    requires Shaped(d) && Fits(d, CopyOp(src, dst))
    ensures Copy(d, src, dst).0.fs.cwd == d.fs.cwd
  {
    var i := FT.Resolve(d.fs, src);
    if i.Some? && d.fs.nodes[i.value].kind == File {
      CopyFromCwd(d, i.value, dst, CopyMode(d.fs.nodes[i.value].mode));
    }
  }

  lemma CopyFromCwd(d: Disk, i: nat, dst: string, mode: nat)
    requires d.heap.pages.Valid() && i < |d.fs.nodes| == |d.files| && FT.PathOk(d.fs.cwd, dst)
    ensures CopyFrom(d, i, dst, mode).0.fs.cwd == d.fs.cwd
  {
    var (d1, t) := Make(d, dst, File, mode);
    MakeCwd(d, dst, mode);
    if t.Some? && d1.files[i] != [] { SwapTree(d1, t, d1.files[i]); }
  }

  lemma MakeCwd(d: Disk, path: string, mode: nat)
    requires |d.fs.nodes| > 0 && FT.PathOk(d.fs.cwd, path)
    ensures Make(d, path, File, mode).0.fs.cwd == d.fs.cwd
  {
  }

  lemma StepBalance(d: Disk, op: Op, limit: nat)
    requires Sound(d, limit) && Fits(d, op) && Legal(Frees(d, op))
    ensures Balanced(d, Step(d, op))
  {
    match op
    case MakeOp(path, kind, mode) => MakeBalance(d, path, kind, mode, limit);
    case WriteOp(node, buf) => WriteBalance(d, node, buf, limit);
    case UnlinkOp(path) => UnlinkBalance(d, path, limit);
    case CopyOp(src, dst) =>
      var i := FT.Resolve(d.fs, src);
      if i.Some? && d.fs.nodes[i.value].kind == File {
        CopyBalance(d, i.value, dst, CopyMode(d.fs.nodes[i.value].mode), limit);
      }
    case ChdirOp(path) =>
  }

  // No leak: over every run whose frees cross no seam, the live blocks that belong to no node stay
  // the same, and so does what the heap counts as used beyond the nodes' own blocks.
  lemma {:induction false} RunBalanced(d: Disk, ops: seq<Op>, d': Disk, limit: nat)
    requires Sound(d, limit) && Run(d, ops, d') && AllLegal(d, ops)
    ensures Sound(d', limit) && Balanced(d, d')
    decreases |ops|
  {
    if ops == [] {
    } else {
      StepSound(d, ops[0], limit);
      StepBalance(d, ops[0], limit);
      RunBalanced(Step(d, ops[0]), ops[1..], d', limit);
    }
  }

  lemma InitStrays(h: B.Heap, limit: nat)
    requires B.Inv(h, limit) && forall k :: 0 <= k < |h.blocks| ==> h.blocks[k].free
    ensures Strays(Init(h)) == {} && Rest(Init(h)) == 0
  {
    AllFree(h.blocks);
    UsedByOne(Init(h).fs.nodes[0], h.blocks);
  }

  lemma UsedByOne(n: Node, bs: seq<B.Blk>)
    ensures UsedBy([n], bs) == SizeAt(bs, n.data)
  {
    assert [n][..0] == [];
    assert UsedBy([n], bs) == UsedBy([n][..0], bs) + SizeAt(bs, n.data);
  }

  lemma {:induction false} AllFree(bs: seq<B.Blk>)
    requires forall k :: 0 <= k < |bs| ==> bs[k].free
    ensures B.SumUsed(bs) == 0 && LT.Pointers(bs) == {}
  {
    if bs == [] {
    } else {
      AllFree(bs[1..]);
    }
  }

  lemma FreshRunBalanced(h: B.Heap, ops: seq<Op>, d': Disk, limit: nat)
    requires B.Inv(h, limit) && forall k :: 0 <= k < |h.blocks| ==> h.blocks[k].free
    requires Run(Init(h), ops, d') && AllLegal(Init(h), ops)
    ensures LT.Pointers(d'.heap.blocks) == Owned(d'.fs.nodes)
    ensures d'.heap.used == UsedBy(d'.fs.nodes, d'.heap.blocks)
  {
    InitSound(h, limit);
    InitStrays(h, limit);
    RunBalanced(Init(h), ops, d', limit);
    AllOwned(Init(h), d', limit);
  }

  lemma AllOwned(d: Disk, d': Disk, limit: nat)
    requires Strays(d) == {} && Rest(d) == 0 && Balanced(d, d') && Sound(d', limit)
    ensures LT.Pointers(d'.heap.blocks) == Owned(d'.fs.nodes)
    ensures d'.heap.used == UsedBy(d'.fs.nodes, d'.heap.blocks)
  {
    OwnedLive(d'.fs.nodes, d'.heap.blocks);
    SameSet(LT.Pointers(d'.heap.blocks), Owned(d'.fs.nodes));
  }

  lemma SameSet(a: set<nat>, b: set<nat>)
    requires a - b == {} && b <= a
    ensures a == b
  {
    forall x | x in a ensures x in b { assert x !in a - b; }
  }

  // From vfs_init in the heap of heap_init: the live blocks are exactly those of the nodes, and
  // heap_used is the sum of their sizes.
  lemma InitRunBalanced(arena: nat, pages: P.Pages, ops: seq<Op>, d': Disk, limit: nat)
    requires pages.Valid() && 0 !in pages.free && pages.total * P.PAGE_SIZE <= limit < U64
    requires arena > 0 && arena % 16 == 0 && arena + B.EARLY_HEAP <= limit
    requires forall p :: p in pages.free ==> arena + B.EARLY_HEAP <= p * P.PAGE_SIZE || (p + 1) * P.PAGE_SIZE <= arena
    requires Run(Init(B.InitHeap(arena, pages)), ops, d') && AllLegal(Init(B.InitHeap(arena, pages)), ops)
    ensures LT.Pointers(d'.heap.blocks) == Owned(d'.fs.nodes)
    ensures d'.heap.used == UsedBy(d'.fs.nodes, d'.heap.blocks)
  {
    B.InitOk(arena, pages, limit);
    InitFree(arena, pages);
    FreshRunBalanced(B.InitHeap(arena, pages), ops, d', limit);
  }

  lemma InitFree(arena: nat, pages: P.Pages)
    ensures var bs := B.InitHeap(arena, pages).blocks; forall k :: 0 <= k < |bs| ==> bs[k].free
  {
  }
}
