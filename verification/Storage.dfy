/** Files: the name space, the heap that holds the contents, and the bytes of every file, as
    one value that each call of the file system takes to the next. */
module Storage {
  import opened Bytes
  import opened Paths
  import opened Tree
  import FT = FileTree
  import B = Blocks
  import C = Contents
  import P = Pages

  // files[i] holds the bytes of node i.
  datatype Disk = Disk(fs: FT.Fs, heap: B.Heap, files: seq<seq<byte>>)

  // (i32)n
  function ToI32(n: nat): int {
    var r := n % U32;
    if r < 0x8000_0000 then r else r - U32
  }

  function CopyMode(mode: nat): nat { if mode != 0 then mode else 0x1A4 }   // 0644

  // ----- the calls -----

  // vfs_mkdir and vfs_create
  function Make(d: Disk, path: string, kind: Kind, mode: nat): (r: (Disk, Option<nat>))
    requires |d.fs.nodes| > 0 && FT.PathOk(d.fs.cwd, path)
    ensures r.1.Some? ==> r.1.value < |r.0.fs.nodes|
    ensures |r.0.fs.nodes| >= |d.fs.nodes| && r.0.heap == d.heap
    ensures |d.files| == |d.fs.nodes| ==> |r.0.files| == |r.0.fs.nodes|
  {
    var (fs, n) := FT.Make(d.fs, path, kind, mode);
    (Disk(fs, d.heap, if |fs.nodes| > |d.fs.nodes| then d.files + [[]] else d.files), n)
  }

  function Write(d: Disk, node: Option<nat>, buf: seq<byte>): (r: (Disk, int))
    requires d.heap.pages.Valid() && (node.Some? ==> node.value < |d.fs.nodes| == |d.files|)
    ensures |r.0.fs.nodes| == |d.fs.nodes| && |r.0.files| == |d.files| && r.0.heap.pages.Valid()
  {
    if node.None? || d.fs.nodes[node.value].kind != File then (d, -1)
    else
      var (h, p) := B.Malloc(d.heap, |buf| + 1);
      Swap(d, node.value, buf, h, p)
  }

  // The rest of vfs_write: kmalloc left the heap h and returned p. Node i gives up the block
  // it had for the one with buf.
  function Swap(d: Disk, i: nat, buf: seq<byte>, h: B.Heap, p: nat): (r: (Disk, int))
    requires i < |d.fs.nodes| == |d.files|
    ensures |r.0.fs.nodes| == |d.fs.nodes| && |r.0.files| == |d.files| && r.0.heap.pages == h.pages
    ensures r.0.heap.total == h.total
  {
    var n := d.fs.nodes[i];
    if p == 0 then (d.(heap := h), -1)
    else
      (Disk(d.fs.(nodes := d.fs.nodes[i := n.(data := p, size := |buf|)]), Released(h, n.data), d.files[i := buf]),
       ToI32(|buf|))
  }

  // if (data) kfree(data)
  function Released(h: B.Heap, data: nat): (r: B.Heap)
    ensures r.pages == h.pages && r.total == h.total
  {
    if data == 0 then h else B.Free(h, data)
  }

  function Unlink(d: Disk, path: string): (r: (Disk, int))
    requires 0 < |d.fs.nodes| == |d.files| && FT.PathOk(d.fs.cwd, path)
    ensures |r.0.fs.nodes| == |d.fs.nodes| && |r.0.files| == |d.files| && r.0.heap.pages == d.heap.pages
  {
    match FT.Resolve(d.fs, path)
    case None => (d, -1)
    case Some(n) =>
      if n == 0 then (d, -1)
      else (Disk(FT.Remove(d.fs, path).0, Released(d.heap, d.fs.nodes[n].data), d.files[n := []]), 0)
  }

  function CopyInto(d: Disk, i: nat, t: nat): (r: (Disk, int))
    requires d.heap.pages.Valid() && i < |d.fs.nodes| == |d.files| && t < |d.fs.nodes|
    ensures |r.0.fs.nodes| == |d.fs.nodes| && |r.0.files| == |d.files| && r.0.heap.pages.Valid()
  {
    if d.files[i] == [] then (d, 0) else Write(d, Some(t), d.files[i])
  }

  function CopyFrom(d: Disk, i: nat, dst: string, mode: nat): (r: (Disk, int))
    requires d.heap.pages.Valid() && i < |d.fs.nodes| == |d.files| && FT.PathOk(d.fs.cwd, dst)
    ensures |r.0.files| == |r.0.fs.nodes| >= |d.fs.nodes| && r.0.heap.pages.Valid()
  {
    var (d1, t) := Make(d, dst, File, mode);
    if t.None? then (d1, -1) else CopyInto(d1, i, t.value)
  }

  function Copy(d: Disk, src: string, dst: string): (r: (Disk, int))
    requires d.heap.pages.Valid() && 0 < |d.fs.nodes| == |d.files|
    requires FT.PathOk(d.fs.cwd, src) && FT.PathOk(d.fs.cwd, dst)
    ensures |r.0.files| == |r.0.fs.nodes| >= |d.fs.nodes| && r.0.heap.pages.Valid()
  {
    match FT.Resolve(d.fs, src)
    case None => (d, -1)
    case Some(i) =>
      if d.fs.nodes[i].kind != File then (d, -1) else CopyFrom(d, i, dst, CopyMode(d.fs.nodes[i].mode))
  }

  // vfs_rename
  function Rename(d: Disk, src: string, dst: string): (Disk, int)
    requires d.heap.pages.Valid() && 0 < |d.fs.nodes| == |d.files|
    requires FT.PathOk(d.fs.cwd, src) && FT.PathOk(d.fs.cwd, dst)
  {
    var (d1, r) := Copy(d, src, dst);
    if r != 0 then (d1, -1) else Unlink(d1, src)
  }

  // vfs_init before its seeds: the root directory
  function Init(h: B.Heap): Disk {
    Disk(FT.Fs([Node("/", Dir, 0x1ED, 0, 0, None, None, None)], "/"), h, [[]])   // 0755
  }

  // With what kmalloc answered at hand
  lemma WriteIs(d: Disk, i: nat, buf: seq<byte>, h: B.Heap, p: nat)
    requires d.heap.pages.Valid() && i < |d.fs.nodes| == |d.files| && d.fs.nodes[i].kind == File
    requires (h, p) == B.Malloc(d.heap, |buf| + 1)
    ensures Write(d, Some(i), buf) == Swap(d, i, buf, h, p)
    ensures WriteFrees(d, Some(i), |buf|) == SwapFrees(d, i, h, p)
  {
  }

  // ----- what a call hands to kfree -----

  // The heap at the moment of the call, and the pointer
  datatype Release = Release(heap: B.Heap, ptr: nat)

  function WriteFrees(d: Disk, node: Option<nat>, size: nat): Option<Release>
    requires d.heap.pages.Valid() && (node.Some? ==> node.value < |d.fs.nodes|)
  {
    if node.None? || d.fs.nodes[node.value].kind != File then None
    else
      var (h, p) := B.Malloc(d.heap, size + 1);
      SwapFrees(d, node.value, h, p)
  }

  function SwapFrees(d: Disk, i: nat, h: B.Heap, p: nat): Option<Release>
    requires i < |d.fs.nodes|
  {
    if p == 0 then None else Freeing(h, d.fs.nodes[i].data)
  }

  function Freeing(h: B.Heap, data: nat): Option<Release> { if data == 0 then None else Some(Release(h, data)) }

  function UnlinkFrees(d: Disk, path: string): Option<Release>
    requires |d.fs.nodes| > 0 && FT.PathOk(d.fs.cwd, path)
  {
    match FT.Resolve(d.fs, path)
    case None => None
    case Some(n) => if n == 0 then None else Freeing(d.heap, d.fs.nodes[n].data)
  }

  function CopyIntoFrees(d: Disk, i: nat, t: nat): Option<Release>
    requires d.heap.pages.Valid() && i < |d.fs.nodes| == |d.files| && t < |d.fs.nodes|
  {
    if d.files[i] == [] then None else WriteFrees(d, Some(t), |d.files[i]|)
  }

  function CopyFromFrees(d: Disk, i: nat, dst: string, mode: nat): Option<Release>
    requires d.heap.pages.Valid() && i < |d.fs.nodes| == |d.files| && FT.PathOk(d.fs.cwd, dst)
  {
    var (d1, t) := Make(d, dst, File, mode);
    if t.None? then None else CopyIntoFrees(d1, i, t.value)
  }

  function CopyFrees(d: Disk, src: string, dst: string): Option<Release>
    requires d.heap.pages.Valid() && 0 < |d.fs.nodes| == |d.files|
    requires FT.PathOk(d.fs.cwd, src) && FT.PathOk(d.fs.cwd, dst)
  {
    match FT.Resolve(d.fs, src)
    case None => None
    case Some(i) =>
      if d.fs.nodes[i].kind != File then None else CopyFromFrees(d, i, dst, CopyMode(d.fs.nodes[i].mode))
  }

  // What the second half of a rename hands to kfree
  function RenameFrees(d: Disk, src: string, dst: string): Option<Release>
    requires d.heap.pages.Valid() && 0 < |d.fs.nodes| == |d.files|
    requires FT.PathOk(d.fs.cwd, src) && FT.PathOk(d.fs.cwd, dst)
  {
    var (d1, r) := Copy(d, src, dst);
    if r != 0 then None else UnlinkFrees(d1, src)
  }

  // If the rename goes on to its second half, the first left the heap sound.
  ghost predicate RenameReady(d: Disk, src: string, dst: string)
    requires d.heap.pages.Valid() && 0 < |d.fs.nodes| == |d.files|
    requires FT.PathOk(d.fs.cwd, src) && FT.PathOk(d.fs.cwd, dst)
  {
    Copy(d, src, dst).1 == 0 ==> Legal(CopyFrees(d, src, dst))
  }

  // The merges of the free stay inside the block and its neighbours.
  ghost predicate Legal(f: Option<Release>) { f.Some? ==> B.FreeLegal(f.value.heap, f.value.ptr) }

  // The pointer is the payload of a live block: the free is neither invalid nor the second.
  ghost predicate FreesLive(f: Option<Release>) { f.Some? ==> B.LiveAt(f.value.heap.blocks, f.value.ptr) }

  // ----- the invariant -----

  ghost predicate Sizes(d: Disk) {
    |d.files| == |d.fs.nodes| && forall i :: 0 <= i < |d.files| ==> |d.files[i]| == d.fs.nodes[i].size
  }

  // A well-formed tree and heap, in which every data pointer is a live block of its own with
  // room for the file's bytes and a terminator
  ghost predicate Sound(d: Disk, limit: nat) {
    Wf(d.fs.nodes) && B.Inv(d.heap, limit) && C.DataOk(d.fs.nodes, d.heap.blocks) && Sizes(d)
  }

  lemma InitSound(h: B.Heap, limit: nat)
    requires B.Inv(h, limit)
    ensures Sound(Init(h), limit)
  {
    FT.InitRep(0x1ED);
  }

  lemma MakeSound(d: Disk, path: string, kind: Kind, mode: nat, limit: nat)
    requires Sound(d, limit) && FT.PathOk(d.fs.cwd, path) && |FT.Leaf(d.fs.cwd, path)| < NAME_MAX
    ensures Sound(Make(d, path, kind, mode).0, limit)
  {
    FT.MakeWf(d.fs, path, kind, mode);
    MakeData(d.fs, path, kind, mode, d.heap.blocks);
    var d1 := Make(d, path, kind, mode).0;
    forall i | 0 <= i < |d1.files| ensures |d1.files[i]| == d1.fs.nodes[i].size {
      assert i < |d.files| ==> d1.files[i] == d.files[i];
    }
  }

  // Making a node moves no contents, and a new node has none.
  lemma MakeData(fs: FT.Fs, path: string, kind: Kind, mode: nat, bs: seq<B.Blk>)
    requires |fs.nodes| > 0 && FT.PathOk(fs.cwd, path) && C.DataOk(fs.nodes, bs)
    ensures var (fs1, t) := FT.Make(fs, path, kind, mode);
      && C.DataOk(fs1.nodes, bs) && |fs.nodes| <= |fs1.nodes| <= |fs.nodes| + 1
      && (forall i :: 0 <= i < |fs.nodes| ==>
            && fs1.nodes[i].data == fs.nodes[i].data && fs1.nodes[i].size == fs.nodes[i].size
            && fs1.nodes[i].kind == fs.nodes[i].kind)
      && (forall i :: |fs.nodes| <= i < |fs1.nodes| ==> fs1.nodes[i].data == 0 && fs1.nodes[i].size == 0)
      && (t.Some? && t.value >= |fs.nodes| ==> t.value == |fs.nodes| < |fs1.nodes|)
  {
    var (p, leaf) := FT.EnsureParent(fs, path);
    if p.Some? { C.LinkData(fs.nodes, p.value, leaf, kind, mode, bs); }
  }

  // A file is smaller than memory.
  lemma FileFits(d: Disk, i: nat, limit: nat)
    requires Sound(d, limit) && i < |d.files|
    ensures |d.files[i]| + 1 <= U64 - B.ALIGN
    ensures d.files[i] != [] ==> d.fs.nodes[i].data != 0
  {
    assert C.HeldOk(d.heap.blocks, d.fs.nodes[i]);
    if d.fs.nodes[i].data != 0 {
      assert B.BlkOk(d.heap.blocks[B.Find(d.heap.blocks, d.fs.nodes[i].data - B.HDR)], d.heap.pages, limit);
    }
  }

  // What kmalloc leaves: every node's block live where it was, and the block given, if any,
  // with room for size bytes and no node's.
  ghost predicate Ready(ns: Nodes, h: B.Heap, p: nat, size: nat, limit: nat) {
    B.Inv(h, limit) && C.DataOk(ns, h.blocks) && (p != 0 ==> B.Granted(h, p, size) && C.Unused(ns, p))
  }

  lemma GivenReady(ns: Nodes, h: B.Heap, h': B.Heap, p: nat, size: nat, limit: nat)
    requires C.DataOk(ns, h.blocks) && B.AllocPost(h, h', p, size, limit)
    ensures Ready(ns, h', p, size, limit)
  {
    C.AllKept(ns, h, h', [], []);
    if p != 0 { C.FreshPointer(ns, h, p); }
  }

  lemma MallocReady(ns: Nodes, h: B.Heap, size: nat, limit: nat)
    requires B.Inv(h, limit) && C.DataOk(ns, h.blocks) && size <= U64 - B.ALIGN
    ensures Ready(ns, B.Malloc(h, size).0, B.Malloc(h, size).1, size, limit)
  {
    B.MallocGives(h, size, limit);
    GivenReady(ns, h, B.Malloc(h, size).0, B.Malloc(h, size).1, size, limit);
  }

  lemma SwapLive(d: Disk, i: nat, h: B.Heap, p: nat, size: nat, limit: nat)
    requires i < |d.fs.nodes| && Ready(d.fs.nodes, h, p, size, limit)
    ensures FreesLive(SwapFrees(d, i, h, p))
  {
    assert C.HeldOk(h.blocks, d.fs.nodes[i]);
  }

  lemma SwapSound(d: Disk, i: nat, buf: seq<byte>, h: B.Heap, p: nat, limit: nat)
    requires Wf(d.fs.nodes) && Sizes(d) && i < |d.fs.nodes| && d.fs.nodes[i].kind == File
    requires Ready(d.fs.nodes, h, p, |buf| + 1, limit) && Legal(SwapFrees(d, i, h, p))
    ensures Sound(Swap(d, i, buf, h, p).0, limit)
  {
    if p != 0 {
      var (ns, n') := (d.fs.nodes, d.fs.nodes[i].(data := p, size := |buf|));
      C.GrantedHeld(h, p, |buf| + 1, n');
      ReleaseData(ns, i, n', h, limit);
      ContentsKeepTree(ns, ns[i := n'], i);
    }
  }

  lemma WriteSound(d: Disk, node: Option<nat>, buf: seq<byte>, limit: nat)
    requires Sound(d, limit) && (node.Some? ==> node.value < |d.fs.nodes|) && |buf| + 1 <= U64 - B.ALIGN
    ensures FreesLive(WriteFrees(d, node, |buf|))
    ensures Legal(WriteFrees(d, node, |buf|)) ==> Sound(Write(d, node, buf).0, limit)
  {
    if node.Some? && d.fs.nodes[node.value].kind == File {
      var (h, p) := B.Malloc(d.heap, |buf| + 1);
      MallocReady(d.fs.nodes, d.heap, |buf| + 1, limit);
      SwapLive(d, node.value, h, p, |buf| + 1, limit);
      if Legal(SwapFrees(d, node.value, h, p)) { SwapSound(d, node.value, buf, h, p, limit); }
    }
  }

  // Node i's block is released and its pointer replaced.
  lemma ReleaseData(ns: Nodes, i: nat, n': Node, h: B.Heap, limit: nat)
    requires i < |ns| && B.Inv(h, limit) && C.DataOk(ns, h.blocks) && C.HeldOk(h.blocks, n')
    requires ns[i].data != 0 ==> B.FreeLegal(h, ns[i].data)
    requires n'.data != 0 ==> C.Unused(ns, n'.data)
    ensures B.Inv(Released(h, ns[i].data), limit) && C.DataOk(ns[i := n'], Released(h, ns[i].data).blocks)
  {
    var h' := Released(h, ns[i].data);
    if ns[i].data != 0 { B.FreeOk(h, ns[i].data, limit); }
    assert C.KeptBut(h.blocks, h'.blocks, [], [], ns[i].data);
    if n'.data != 0 { C.HeldPastFree(h.blocks, h'.blocks, [], [], ns[i].data, n'); }
    C.FreedOk(ns, i, h.blocks, h'.blocks, [], [], n');
  }

  lemma UnlinkLive(d: Disk, path: string, limit: nat)
    requires Sound(d, limit) && FT.PathOk(d.fs.cwd, path)
    ensures FreesLive(UnlinkFrees(d, path))
  {
    var n := FT.Resolve(d.fs, path);
    if n.Some? { assert C.HeldOk(d.heap.blocks, d.fs.nodes[n.value]); }
  }

  lemma UnlinkSound(d: Disk, path: string, limit: nat)
    requires Sound(d, limit) && FT.PathOk(d.fs.cwd, path) && Legal(UnlinkFrees(d, path))
    ensures Sound(Unlink(d, path).0, limit)
  {
    FT.RemoveWf(d.fs, path);
    var r := FT.Resolve(d.fs, path);
    if r.Some? && r.value != 0 {
      var (n, ns, h) := (r.value, d.fs.nodes, d.heap);
      UnlinkShape(ns, n);
      var m1 := Unchain(ns, ns[n].parent.value, n);
      C.UnchainData(ns, ns[n].parent.value, n);
      C.SameDataOk(ns, m1, h.blocks);
      ReleaseData(m1, n, m1[n].(name := "", size := 0, data := 0), h, limit);
    }
  }

  lemma CopyFromSound(d: Disk, i: nat, dst: string, mode: nat, limit: nat)
    requires Sound(d, limit) && i < |d.files| && FT.PathOk(d.fs.cwd, dst) && |FT.Leaf(d.fs.cwd, dst)| < NAME_MAX
    ensures FreesLive(CopyFromFrees(d, i, dst, mode))
    ensures Legal(CopyFromFrees(d, i, dst, mode)) ==> Sound(CopyFrom(d, i, dst, mode).0, limit)
  {
    var (d1, t) := Make(d, dst, File, mode);
    MakeSound(d, dst, File, mode, limit);
    FileFits(d1, i, limit);
    if t.Some? && d1.files[i] != [] { WriteSound(d1, t, d1.files[i], limit); }
  }

  // ----- one region -----

  // The heap is one region, tiled, with no two free neighbours.
  ghost predicate Good(d: Disk, lo: nat, hi: nat, limit: nat) {
    Sound(d, limit) && B.OneRegion(d.heap, lo, hi, limit)
  }

  lemma ReleasedRegion(h: B.Heap, data: nat, lo: nat, hi: nat, limit: nat)
    requires B.OneRegion(h, lo, hi, limit) && (data != 0 ==> B.LiveAt(h.blocks, data))
    ensures B.OneRegion(Released(h, data), lo, hi, limit) && (data != 0 ==> B.FreeLegal(h, data))
  {
    if data != 0 { B.OneFree(h, data, lo, hi, limit); }
  }

  lemma SwapGood(d: Disk, i: nat, buf: seq<byte>, h: B.Heap, p: nat, lo: nat, hi: nat, limit: nat)
    requires Wf(d.fs.nodes) && Sizes(d) && i < |d.fs.nodes| && d.fs.nodes[i].kind == File
    requires Ready(d.fs.nodes, h, p, |buf| + 1, limit) && B.OneRegion(h, lo, hi, limit)
    ensures Legal(SwapFrees(d, i, h, p)) && Good(Swap(d, i, buf, h, p).0, lo, hi, limit)
  {
    SwapLive(d, i, h, p, |buf| + 1, limit);
    if p != 0 { ReleasedRegion(h, d.fs.nodes[i].data, lo, hi, limit); }
    SwapSound(d, i, buf, h, p, limit);
  }

  // After a kmalloc that does not make the heap grow, the block a write replaces may be freed.
  lemma WriteGood(d: Disk, node: Option<nat>, buf: seq<byte>, lo: nat, hi: nat, limit: nat)
    requires Good(d, lo, hi, limit) && (node.Some? ==> node.value < |d.fs.nodes|) && |buf| + 1 <= U64 - B.ALIGN
    requires Write(d, node, buf).0.heap.total == d.heap.total
    ensures Legal(WriteFrees(d, node, |buf|)) && Good(Write(d, node, buf).0, lo, hi, limit)
  {
    if node.Some? && d.fs.nodes[node.value].kind == File {
      var (h, p) := B.Malloc(d.heap, |buf| + 1);
      MallocReady(d.fs.nodes, d.heap, |buf| + 1, limit);
      B.MallocTiles(d.heap, |buf| + 1, lo, hi, limit);
      SwapGood(d, node.value, buf, h, p, lo, hi, limit);
    }
  }

  lemma UnlinkGood(d: Disk, path: string, lo: nat, hi: nat, limit: nat)
    requires Good(d, lo, hi, limit) && FT.PathOk(d.fs.cwd, path)
    ensures Legal(UnlinkFrees(d, path)) && Good(Unlink(d, path).0, lo, hi, limit)
  {
    UnlinkLive(d, path, limit);
    var f := UnlinkFrees(d, path);
    if f.Some? { B.OneFree(d.heap, f.value.ptr, lo, hi, limit); }
    UnlinkSound(d, path, limit);
  }

  lemma CopyFromGood(d: Disk, i: nat, dst: string, mode: nat, lo: nat, hi: nat, limit: nat)
    requires Good(d, lo, hi, limit) && i < |d.files| && FT.PathOk(d.fs.cwd, dst) && |FT.Leaf(d.fs.cwd, dst)| < NAME_MAX
    requires CopyFrom(d, i, dst, mode).0.heap.total == d.heap.total
    ensures Legal(CopyFromFrees(d, i, dst, mode)) && Good(CopyFrom(d, i, dst, mode).0, lo, hi, limit)
  {
    var (d1, t) := Make(d, dst, File, mode);
    MakeSound(d, dst, File, mode, limit);
    FileFits(d1, i, limit);
    if t.Some? && d1.files[i] != [] { WriteGood(d1, t, d1.files[i], lo, hi, limit); }
  }

  // ----- every run -----

  datatype Op = MakeOp(path: string, kind: Kind, mode: nat) | WriteOp(node: Option<nat>, buf: seq<byte>)
              | UnlinkOp(path: string) | CopyOp(path: string, dst: string) | ChdirOp(path: string)

  // What the buffers and words of the code ask of a caller
  ghost predicate Fits(d: Disk, op: Op)
    requires |d.fs.nodes| > 0
  {
    match op
    case MakeOp(path, _, _) => FT.PathOk(d.fs.cwd, path) && |FT.Leaf(d.fs.cwd, path)| < NAME_MAX
    case WriteOp(node, buf) => (node.Some? ==> node.value < |d.fs.nodes|) && |buf| + 1 <= U64 - B.ALIGN
    case UnlinkOp(path) => FT.PathOk(d.fs.cwd, path)
    case CopyOp(src, dst) =>
      FT.PathOk(d.fs.cwd, src) && FT.PathOk(d.fs.cwd, dst) && |FT.Leaf(d.fs.cwd, dst)| < NAME_MAX
    case ChdirOp(path) => FT.PathOk(d.fs.cwd, path) && FT.ChdirFits(d.fs, path)
  }

  ghost predicate Shaped(d: Disk) { 0 < |d.fs.nodes| == |d.files| && d.heap.pages.Valid() }

  ghost function Step(d: Disk, op: Op): (r: Disk)
    requires Shaped(d) && Fits(d, op)
    ensures Shaped(r)
  {
    match op
    case MakeOp(path, kind, mode) => Make(d, path, kind, mode).0
    case WriteOp(node, buf) => Write(d, node, buf).0
    case UnlinkOp(path) => Unlink(d, path).0
    case CopyOp(src, dst) => Copy(d, src, dst).0
    case ChdirOp(path) => d.(fs := FT.Chdir(d.fs, path).0)
  }

  // What the step hands to kfree
  ghost function Frees(d: Disk, op: Op): Option<Release>
    requires Shaped(d) && Fits(d, op)
  {
    match op
    case WriteOp(node, buf) => WriteFrees(d, node, |buf|)
    case UnlinkOp(path) => UnlinkFrees(d, path)
    case CopyOp(src, dst) => CopyFrees(d, src, dst)
    case _ => None
  }

  lemma StepSound(d: Disk, op: Op, limit: nat)
    requires Sound(d, limit) && Fits(d, op)
    ensures FreesLive(Frees(d, op))
    ensures Legal(Frees(d, op)) ==> Sound(Step(d, op), limit)
  {
    match op
    case MakeOp(path, kind, mode) => MakeSound(d, path, kind, mode, limit);
    case WriteOp(node, buf) => WriteSound(d, node, buf, limit);
    case UnlinkOp(path) =>
      UnlinkLive(d, path, limit);
      if Legal(Frees(d, op)) { UnlinkSound(d, path, limit); }
    case CopyOp(src, dst) =>
      var i := FT.Resolve(d.fs, src);
      if i.Some? && d.fs.nodes[i.value].kind == File {
        CopyFromSound(d, i.value, dst, CopyMode(d.fs.nodes[i.value].mode), limit);
      }
    case ChdirOp(path) =>
  }

  lemma StepGood(d: Disk, op: Op, lo: nat, hi: nat, limit: nat)
    requires Good(d, lo, hi, limit) && Fits(d, op) && Step(d, op).heap.total == d.heap.total
    ensures Legal(Frees(d, op)) && Good(Step(d, op), lo, hi, limit)
  {
    match op
    case MakeOp(path, kind, mode) => MakeSound(d, path, kind, mode, limit);
    case WriteOp(node, buf) => WriteGood(d, node, buf, lo, hi, limit);
    case UnlinkOp(path) => UnlinkGood(d, path, lo, hi, limit);
    case CopyOp(src, dst) =>
      var i := FT.Resolve(d.fs, src);
      if i.Some? && d.fs.nodes[i.value].kind == File {
        CopyFromGood(d, i.value, dst, CopyMode(d.fs.nodes[i.value].mode), lo, hi, limit);
      }
    case ChdirOp(path) =>
  }

  // A run within the buffers' limits
  ghost predicate Run(d: Disk, ops: seq<Op>, d': Disk)
    requires Shaped(d)
    decreases |ops|
  {
    if ops == [] then d' == d
    else
      Fits(d, ops[0]) && Run(Step(d, ops[0]), ops[1..], d')
  }

  // Every call finds its arguments within those limits.
  ghost predicate Fitting(d: Disk, ops: seq<Op>)
    requires Shaped(d)
    decreases |ops|
  {
    ops == [] || (Fits(d, ops[0]) && Fitting(Step(d, ops[0]), ops[1..]))
  }

  // No free of the run crosses a seam between two regions.
  ghost predicate AllLegal(d: Disk, ops: seq<Op>)
    requires Shaped(d)
    decreases |ops|
  {
    ops == [] || (Fits(d, ops[0]) ==> Legal(Frees(d, ops[0])) && AllLegal(Step(d, ops[0]), ops[1..]))
  }

  // What is left of a run from the operation at j on
  lemma RunTail(d: Disk, ops: seq<Op>, j: nat)
    requires Shaped(d) && j < |ops| && Fitting(d, ops[j..]) && AllLegal(d, ops[j..])
    ensures Fits(d, ops[j]) && Legal(Frees(d, ops[j]))
    ensures Fitting(Step(d, ops[j]), ops[j + 1..]) && AllLegal(Step(d, ops[j]), ops[j + 1..])
    ensures forall d' :: Run(Step(d, ops[j]), ops[j + 1..], d') ==> Run(d, ops[j..], d')
    ensures forall i: nat :: NoneTouches(d, ops[j..], i) ==>
      !Touches(d, ops[j], i) && NoneTouches(Step(d, ops[j]), ops[j + 1..], i)
  {
    assert ops[j..][0] == ops[j] && ops[j..][1..] == ops[j + 1..];
  }

  // No step of the run makes the heap grow.
  ghost predicate NoGrowth(d: Disk, ops: seq<Op>)
    requires Shaped(d)
    decreases |ops|
  {
    ops == [] ||
    (Fits(d, ops[0]) ==>
       && Step(d, ops[0]).heap.total == d.heap.total
       && NoGrowth(Step(d, ops[0]), ops[1..]))
  }

  // Every free of the run is of a live block and stays inside that block's stretch.
  ghost predicate AllFreesOk(d: Disk, ops: seq<Op>)
    requires Shaped(d)
    decreases |ops|
  {
    ops == [] ||
    (Fits(d, ops[0]) ==>
       && FreesLive(Frees(d, ops[0])) && Legal(Frees(d, ops[0]))
       && AllFreesOk(Step(d, ops[0]), ops[1..]))
  }

  // In every run of make, write, copy, unlink and chdir in a heap of one region that does not
  // grow: every data pointer stays a live block of its own with room for its file, and every
  // pointer handed to kfree is such a block, so that no free is invalid or repeated.
  lemma {:induction false} RunGood(d: Disk, ops: seq<Op>, d': Disk, lo: nat, hi: nat, limit: nat)
    requires Good(d, lo, hi, limit) && Run(d, ops, d') && NoGrowth(d, ops)
    ensures Good(d', lo, hi, limit) && AllFreesOk(d, ops)
    decreases |ops|
  {
    if ops == [] {
    } else {
      StepGood(d, ops[0], lo, hi, limit);
      StepSound(d, ops[0], limit);
      RunGood(Step(d, ops[0]), ops[1..], d', lo, hi, limit);
    }
  }

  // With any number of regions the same holds as long as no free crosses a seam: that every
  // pointer freed is a live block needs no assumption.
  lemma {:induction false} RunSound(d: Disk, ops: seq<Op>, d': Disk, limit: nat)
    requires Sound(d, limit) && Run(d, ops, d') && AllLegal(d, ops)
    ensures Sound(d', limit) && AllFreesOk(d, ops)
    decreases |ops|
  {
    if ops == [] {
    } else {
      StepSound(d, ops[0], limit);
      RunSound(Step(d, ops[0]), ops[1..], d', limit);
    }
  }

  // From vfs_init in the heap of heap_init
  lemma InitRunGood(arena: nat, pages: P.Pages, ops: seq<Op>, d': Disk, limit: nat)
    requires pages.Valid() && 0 !in pages.free && pages.total * P.PAGE_SIZE <= limit < U64
    requires arena > 0 && arena % 16 == 0 && arena + B.EARLY_HEAP <= limit
    requires forall p :: p in pages.free ==> arena + B.EARLY_HEAP <= p * P.PAGE_SIZE || (p + 1) * P.PAGE_SIZE <= arena
    requires Run(Init(B.InitHeap(arena, pages)), ops, d') && NoGrowth(Init(B.InitHeap(arena, pages)), ops)
    ensures Good(d', arena, arena + B.EARLY_HEAP, limit) && AllFreesOk(Init(B.InitHeap(arena, pages)), ops)
  {
    B.InitOk(arena, pages, limit);
    InitSound(B.InitHeap(arena, pages), limit);
    RunGood(Init(B.InitHeap(arena, pages)), ops, d', arena, arena + B.EARLY_HEAP, limit);
  }

  // ----- what a write and a copy do -----

  // The node array with other contents somewhere
  ghost predicate SameTree(ns: Nodes, ns': Nodes) {
    && |ns'| == |ns|
    && forall i :: 0 <= i < |ns| ==>
         && ns'[i].name == ns[i].name && ns'[i].parent == ns[i].parent
         && ns'[i].child == ns[i].child && ns'[i].sibling == ns[i].sibling
  }

  lemma {:induction false} SameWalk(ns: Nodes, ns': Nodes, cur: nat, parts: seq<string>)
    requires SameTree(ns, ns') && cur < |ns|
    ensures FT.Walk(ns', cur, parts) == FT.Walk(ns, cur, parts)
    decreases |parts|
  {
    if parts == [] {
    } else {
      SameFind(ns, ns', ns[cur].child, parts[0]);
      var next := FT.Move(ns, cur, parts[0]);
      if next.Some? { SameWalk(ns, ns', next.value, parts[1..]); }
    }
  }

  lemma WriteKeepsFile(d: Disk, node: Option<nat>, buf: seq<byte>, i: nat)
    requires d.heap.pages.Valid() && (node.Some? ==> node.value < |d.fs.nodes|) && |d.fs.nodes| == |d.files|
    requires i < |d.files| && node != Some(i)
    ensures Write(d, node, buf).0.files[i] == d.files[i]
  {
    if node.Some? {
      var (h, p) := B.Malloc(d.heap, |buf| + 1);
      assert Swap(d, node.value, buf, h, p).0.files[i] == d.files[i];
    }
  }

  // Every path leads where it led before.
  lemma WriteKeepsPaths(d: Disk, node: Option<nat>, buf: seq<byte>, path: string)
    requires d.heap.pages.Valid() && (node.Some? ==> node.value < |d.fs.nodes|) && 0 < |d.fs.nodes| == |d.files|
    requires FT.PathOk(d.fs.cwd, path)
    ensures Write(d, node, buf).0.fs.cwd == d.fs.cwd
    ensures FT.Resolve(Write(d, node, buf).0.fs, path) == FT.Resolve(d.fs, path)
  {
    SwapTree(d, node, buf);
    SameWalk(d.fs.nodes, Write(d, node, buf).0.fs.nodes, 0, FT.Components(d.fs.cwd, path));
  }

  lemma SwapTree(d: Disk, node: Option<nat>, buf: seq<byte>)
    requires d.heap.pages.Valid() && (node.Some? ==> node.value < |d.fs.nodes|) && 0 < |d.fs.nodes| == |d.files|
    ensures SameTree(d.fs.nodes, Write(d, node, buf).0.fs.nodes) && Write(d, node, buf).0.fs.cwd == d.fs.cwd
  {
    if node.Some? {
      var (h, p) := B.Malloc(d.heap, |buf| + 1);
      assert SameTree(d.fs.nodes, Swap(d, node.value, buf, h, p).0.fs.nodes);
    }
  }

  // A write succeeds exactly for a file for which kmalloc has room. Then the file holds the
  // buffer; no other file and no path changes in any case.
  lemma WriteExact(d: Disk, node: Option<nat>, buf: seq<byte>)
    requires d.heap.pages.Valid() && (node.Some? ==> node.value < |d.fs.nodes|) && 0 < |d.fs.nodes| == |d.files|
    ensures var (d', r) := Write(d, node, buf);
      && (if node.Some? && d.fs.nodes[node.value].kind == File && B.Malloc(d.heap, |buf| + 1).1 != 0
          then r == ToI32(|buf|) && d'.files[node.value] == buf else r == -1 && d'.fs == d.fs && d'.files == d.files)
      && (forall j :: 0 <= j < |d.files| && node != Some(j) ==> d'.files[j] == d.files[j])
      && (forall path :: FT.PathOk(d.fs.cwd, path) ==> FT.Resolve(d'.fs, path) == FT.Resolve(d.fs, path))
  {
    if node.Some? && d.fs.nodes[node.value].kind == File {
      var (h, p) := B.Malloc(d.heap, |buf| + 1);
      assert Write(d, node, buf) == Swap(d, node.value, buf, h, p);
    }
    forall j | 0 <= j < |d.files| && node != Some(j) ensures Write(d, node, buf).0.files[j] == d.files[j] {
      WriteKeepsFile(d, node, buf, j);
    }
    SwapTree(d, node, buf);
    forall path | FT.PathOk(d.fs.cwd, path)
      ensures FT.Resolve(Write(d, node, buf).0.fs, path) == FT.Resolve(d.fs, path)
    {
      WriteKeepsPaths(d, node, buf, path);
    }
  }

  // The source of a copy holds something, the target is or can be made a file, and kmalloc
  // has room.
  ghost predicate Copies(d: Disk, i: nat, dst: string, mode: nat)
    requires d.heap.pages.Valid() && i < |d.fs.nodes| == |d.files| && FT.PathOk(d.fs.cwd, dst)
  {
    var (fs, t) := FT.Make(d.fs, dst, File, mode);
    && d.files[i] != [] && t.Some? && fs.nodes[t.value].kind == File
    && B.Malloc(d.heap, |d.files[i]| + 1).1 != 0
  }

  // Then the target has the same bytes, found at the path given unless that ends in a dot
  // component, and no other file changes.
  lemma CopyExact(d: Disk, i: nat, dst: string, mode: nat)
    requires Wf(d.fs.nodes) && d.heap.pages.Valid() && i < |d.fs.nodes| == |d.files|
    requires FT.PathOk(d.fs.cwd, dst) && |FT.Leaf(d.fs.cwd, dst)| < NAME_MAX && Copies(d, i, dst, mode)
    ensures var ((d', r), t, leaf) :=
        (CopyFrom(d, i, dst, mode), FT.Make(d.fs, dst, File, mode).1, FT.Leaf(d.fs.cwd, dst));
      && r == ToI32(|d.files[i]|) && t.Some? && t.value < |d'.files|
      && d'.files[t.value] == d.files[i] == d'.files[i]
      && (forall j :: 0 <= j < |d.files| && t != Some(j) ==> d'.files[j] == d.files[j])
      && d'.fs.cwd == d.fs.cwd
      && (FT.Resolve(d'.fs, dst) == t <==> leaf != "." && leaf != "..")
  {
    var (d1, t) := Make(d, dst, File, mode);
    CopyBytes(d1, i, t.value);
    CopyPath(d, i, dst, mode);
  }

  lemma CopyBytes(d: Disk, i: nat, t: nat)
    requires d.heap.pages.Valid() && i < |d.fs.nodes| == |d.files| && t < |d.fs.nodes| && d.files[i] != []
    requires d.fs.nodes[t].kind == File && B.Malloc(d.heap, |d.files[i]| + 1).1 != 0
    ensures var (d', r) := CopyInto(d, i, t);
      && r == ToI32(|d.files[i]|) && d'.files[t] == d.files[i]
      && forall j :: 0 <= j < |d.files| && t != j ==> d'.files[j] == d.files[j]
  {
    WriteExact(d, Some(t), d.files[i]);
  }

  lemma CopyPath(d: Disk, i: nat, dst: string, mode: nat)
    requires Wf(d.fs.nodes) && d.heap.pages.Valid() && i < |d.fs.nodes| == |d.files|
    requires FT.PathOk(d.fs.cwd, dst) && |FT.Leaf(d.fs.cwd, dst)| < NAME_MAX
    requires FT.Make(d.fs, dst, File, mode).1.Some?
    ensures var (d', t, leaf) :=
        (CopyFrom(d, i, dst, mode).0, FT.Make(d.fs, dst, File, mode).1, FT.Leaf(d.fs.cwd, dst));
      d'.fs.cwd == d.fs.cwd && (FT.Resolve(d'.fs, dst) == t <==> leaf != "." && leaf != "..")
  {
    var (d1, t) := Make(d, dst, File, mode);
    FT.MakeThenResolve(d.fs, dst, File, mode);
    if d1.files[i] != [] { WriteKeepsPaths(d1, t, d1.files[i], dst); }
  }

  // A file that a copy makes has the mode of its source, or 0644 if that is 0.
  lemma CopiedMode(d: Disk, src: string, dst: string, i: nat)
    requires d.heap.pages.Valid() && i < |d.fs.nodes| == |d.files|
    requires FT.PathOk(d.fs.cwd, src) && FT.PathOk(d.fs.cwd, dst) && FT.Resolve(d.fs, src) == Some(i)
    requires |Copy(d, src, dst).0.fs.nodes| > |d.fs.nodes|
    ensures var n := Copy(d, src, dst).0.fs.nodes[|d.fs.nodes|];
      n.kind == File && n.mode == if d.fs.nodes[i].mode == 0 then 420 else d.fs.nodes[i].mode
  {
    var mode := CopyMode(d.fs.nodes[i].mode);
    var (d1, t) := Make(d, dst, File, mode);
    if t.Some? && d1.files[i] != [] { SwapModes(d1, t, d1.files[i]); }
  }

  lemma SwapModes(d: Disk, node: Option<nat>, buf: seq<byte>)
    requires d.heap.pages.Valid() && (node.Some? ==> node.value < |d.fs.nodes|) && 0 < |d.fs.nodes| == |d.files|
    ensures var ns' := Write(d, node, buf).0.fs.nodes;
      |ns'| == |d.fs.nodes| && forall j :: 0 <= j < |ns'| ==>
        ns'[j].kind == d.fs.nodes[j].kind && ns'[j].mode == d.fs.nodes[j].mode
  {
    if node.Some? {
      var (h, p) := B.Malloc(d.heap, |buf| + 1);
      assert Swap(d, node.value, buf, h, p).0.fs.nodes[node.value].mode == d.fs.nodes[node.value].mode;
    }
  }

  // The count a write returns is the size read as a signed 32-bit word.
  lemma CountIs(n: nat)
    ensures -0x8000_0000 <= ToI32(n) < 0x8000_0000 && (n - ToI32(n)) % 0x1_0000_0000 == 0
    ensures n < 0x8000_0000 ==> ToI32(n) == n
  {
  }

  // ----- rename -----

  lemma ZeroSize(n: nat)
    ensures ToI32(n) == 0 <==> n % U32 == 0
  {
  }

  // A copy that succeeds returns the number of bytes and keeps its source.
  lemma CopyCounts(d: Disk, i: nat, dst: string, mode: nat)
    requires Wf(d.fs.nodes) && d.heap.pages.Valid() && i < |d.fs.nodes| == |d.files|
    requires FT.PathOk(d.fs.cwd, dst) && |FT.Leaf(d.fs.cwd, dst)| < NAME_MAX
    requires if d.files[i] == [] then FT.Make(d.fs, dst, File, mode).1.Some? else Copies(d, i, dst, mode)
    ensures var (d', r) := CopyFrom(d, i, dst, mode); r == ToI32(|d.files[i]|) && d'.files[i] == d.files[i]
  {
    if d.files[i] != [] { CopyExact(d, i, dst, mode); }
  }

  // vfs_rename takes the byte count its copy returns for a failure. When the copy succeeds the
  // rename goes on exactly if the file's size is a multiple of 2^32, empty files included;
  // otherwise it reports a failure and leaves the source behind, beside its copy.
  lemma RenameExact(d: Disk, src: string, dst: string, i: nat, mode: nat)
    requires Wf(d.fs.nodes) && d.heap.pages.Valid() && i < |d.fs.nodes| == |d.files|
    requires FT.PathOk(d.fs.cwd, src) && FT.PathOk(d.fs.cwd, dst) && |FT.Leaf(d.fs.cwd, dst)| < NAME_MAX
    requires FT.Resolve(d.fs, src) == Some(i) && d.fs.nodes[i].kind == File && mode == CopyMode(d.fs.nodes[i].mode)
    requires if d.files[i] == [] then FT.Make(d.fs, dst, File, mode).1.Some? else Copies(d, i, dst, mode)
    ensures var (d1, (d', r)) := (CopyFrom(d, i, dst, mode).0, Rename(d, src, dst));
      && d1.fs.cwd == d.fs.cwd
      && FT.Resolve(d1.fs, src) == Some(i) && d1.files[i] == d.files[i]
      && (if |d.files[i]| % U32 == 0 then (d', r) == Unlink(d1, src) else d' == d1 && r == -1)
  {
    CopyCounts(d, i, dst, mode);
    ZeroSize(|d.files[i]|);
    CopyKeepsPath(d, i, dst, mode, src);
  }

  lemma CopyKeepsPath(d: Disk, i: nat, dst: string, mode: nat, path: string)
    requires Wf(d.fs.nodes) && d.heap.pages.Valid() && i < |d.fs.nodes| == |d.files|
    requires FT.PathOk(d.fs.cwd, dst) && |FT.Leaf(d.fs.cwd, dst)| < NAME_MAX
    requires FT.PathOk(d.fs.cwd, path) && FT.Resolve(d.fs, path).Some?
    ensures CopyFrom(d, i, dst, mode).0.fs.cwd == d.fs.cwd
    ensures FT.Resolve(CopyFrom(d, i, dst, mode).0.fs, path) == FT.Resolve(d.fs, path)
  {
    var (d1, t) := Make(d, dst, File, mode);
    FT.MakeKeepsPath(d.fs, dst, File, mode, path);
    if t.Some? && d1.files[i] != [] { WriteKeepsPaths(d1, t, d1.files[i], path); }
  }

  // ----- what a read finds -----

  // The step gives node i other bytes.
  ghost predicate Touches(d: Disk, op: Op, i: nat)
    requires Shaped(d) && Fits(d, op)
  {
    match op
    case WriteOp(node, _) => node == Some(i)
    case UnlinkOp(path) => FT.Resolve(d.fs, path) == Some(i)
    case CopyOp(src, dst) =>
      var s := FT.Resolve(d.fs, src);
      s.Some? && Make(d, dst, File, CopyMode(d.fs.nodes[s.value].mode)).1 == Some(i)
    case _ => false
  }

  ghost predicate NoneTouches(d: Disk, ops: seq<Op>, i: nat)
    requires Shaped(d)
    decreases |ops|
  {
    ops == [] ||
    (Fits(d, ops[0]) ==>
       && !Touches(d, ops[0], i)
       && NoneTouches(Step(d, ops[0]), ops[1..], i))
  }

  lemma CopyKeepsFile(d: Disk, s: nat, dst: string, mode: nat, i: nat)
    requires d.heap.pages.Valid() && s < |d.fs.nodes| == |d.files| && FT.PathOk(d.fs.cwd, dst)
    requires i < |d.files| && Make(d, dst, File, mode).1 != Some(i)
    ensures CopyFrom(d, s, dst, mode).0.files[i] == d.files[i]
  {
    var (d1, t) := Make(d, dst, File, mode);
    if t.Some? && d1.files[s] != [] { WriteKeepsFile(d1, t, d1.files[s], i); }
  }

  lemma StepKeepsFile(d: Disk, op: Op, i: nat)
    requires Shaped(d) && Fits(d, op) && i < |d.files| && !Touches(d, op, i)
    ensures |Step(d, op).files| >= |d.files| && Step(d, op).files[i] == d.files[i]
  {
    match op
    case MakeOp(path, kind, mode) =>
    case WriteOp(node, buf) => WriteKeepsFile(d, node, buf, i);
    case UnlinkOp(path) =>
    case CopyOp(src, dst) =>
      var s := FT.Resolve(d.fs, src);
      if s.Some? && d.fs.nodes[s.value].kind == File {
        CopyKeepsFile(d, s.value, dst, CopyMode(d.fs.nodes[s.value].mode), i);
      }
    case ChdirOp(path) =>
  }

  // A file holds what was last written to it, whatever other calls come in between, as long
  // as no free crosses a seam. The bytes are those in memory: Vfs.Execute ties them together.
  lemma {:induction false} RunKeepsFile(d: Disk, ops: seq<Op>, d': Disk, i: nat, limit: nat)
    requires Sound(d, limit) && i < |d.files| && Run(d, ops, d') && AllLegal(d, ops) && NoneTouches(d, ops, i)
    ensures Sound(d', limit) && i < |d'.files| && d'.files[i] == d.files[i]
    decreases |ops|
  {
    if ops == [] {
    } else {
      StepSound(d, ops[0], limit);
      StepKeepsFile(d, ops[0], i);
      RunKeepsFile(Step(d, ops[0]), ops[1..], d', i, limit);
    }
  }

  // One region that does not grow needs no such condition.
  lemma {:induction false} GoodRunLegal(d: Disk, ops: seq<Op>, lo: nat, hi: nat, limit: nat)
    requires Good(d, lo, hi, limit) && Fitting(d, ops) && NoGrowth(d, ops)
    ensures AllLegal(d, ops)
    decreases |ops|
  {
    if ops == [] {
    } else {
      StepGood(d, ops[0], lo, hi, limit);
      GoodRunLegal(Step(d, ops[0]), ops[1..], lo, hi, limit);
    }
  }

  // ----- a run, one operation at a time -----

  // The run from d0 has come to operation j and state d: what is left fits and frees legally,
  // ends where the whole ends, and files left alone so far are what they were.
  ghost predicate Progress(d0: Disk, ops: seq<Op>, j: nat, d: Disk)
    requires Shaped(d0) && Shaped(d) && j <= |ops|
  {
    && |d0.files| <= |d.files| && Fitting(d, ops[j..]) && AllLegal(d, ops[j..])
    && (forall d' :: Run(d, ops[j..], d') ==> Run(d0, ops, d'))
    && (forall i :: 0 <= i < |d0.files| && NoneTouches(d0, ops, i) ==>
          NoneTouches(d, ops[j..], i) && d.files[i] == d0.files[i])
  }

  lemma ProgressStep(d0: Disk, ops: seq<Op>, j: nat, d: Disk)
    requires Shaped(d0) && Shaped(d) && j < |ops| && Progress(d0, ops, j, d)
    ensures Fits(d, ops[j]) && Legal(Frees(d, ops[j])) && Progress(d0, ops, j + 1, Step(d, ops[j]))
  {
    RunTail(d, ops, j);
    forall i | 0 <= i < |d.files| && NoneTouches(d, ops[j..], i)
      ensures i < |Step(d, ops[j]).files| && Step(d, ops[j]).files[i] == d.files[i]
    {
      StepKeepsFile(d, ops[j], i);
    }
    StepGrows(d, ops[j]);
  }

  lemma StepGrows(d: Disk, op: Op)
    requires Shaped(d) && Fits(d, op)
    ensures |Step(d, op).files| >= |d.files|
  {
  }

  lemma ProgressEnd(d0: Disk, ops: seq<Op>, d: Disk)
    requires Shaped(d0) && Shaped(d) && Progress(d0, ops, |ops|, d)
    ensures Run(d0, ops, d)
  {
    assert ops[|ops|..] == [];
    assert Run(d, [], d);
  }
}
