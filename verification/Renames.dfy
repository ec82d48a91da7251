/** When vfs_rename does what its name says, and inputs for which it does not. */
module Renames {
  import opened Bytes
  import opened Paths
  import opened Tree
  import opened Storage
  import S = Storage
  import FT = FileTree
  import B = Blocks
  import P = Pages

  // Nothing hangs below a file.
  lemma {:induction false} FileLeaf(ns: Nodes, i: nat, t: nat)
    requires Wf(ns) && Reached(ns, i) && Reached(ns, t) && ns[i].kind == File && PathOf(ns, i) <= PathOf(ns, t)
    ensures t == i
    decreases t
  {
    ReachedLookup(ns, i);
    ReachedLookup(ns, t);
    if PathOf(ns, i) == PathOf(ns, t) {
    } else {
      assert LinkOk(ns, t);
      var p := ns[t].parent.value;
      Shorter(PathOf(ns, i), PathOf(ns, p), ns[t].name);
      assert LinkOk(ns, p);
      FileLeaf(ns, i, p);
    }
  }

  lemma Shorter<T>(a: seq<T>, b: seq<T>, x: T)
    requires a <= b + [x] && a != b + [x]
    ensures a <= b
  {
  }

  lemma MadeReached(fs: FT.Fs, path: string, kind: Kind, mode: nat)
    requires Wf(fs.nodes) && FT.PathOk(fs.cwd, path) && |FT.Leaf(fs.cwd, path)| < NAME_MAX
    requires FT.Make(fs, path, kind, mode).1.Some?
    ensures var (fs', t) := FT.Make(fs, path, kind, mode); Wf(fs'.nodes) && Reached(fs'.nodes, t.value)
  {
    var (fs', t) := FT.Make(fs, path, kind, mode);
    var p := FT.EnsureParent(fs, path).0.value;
    FT.ParentStays(fs, path, kind, mode);
    FT.RootReached(fs'.nodes);
    var e := FT.SpaceOf(fs'.nodes);
    FT.WalkDenotes(fs'.nodes, e, 0, FT.DirParts(fs.cwd, path));
    KidParent(fs'.nodes, p, t.value);
  }

  // Writing keeps a node where it hangs.
  lemma WriteReached(d: Disk, node: Option<nat>, buf: seq<byte>, t: nat)
    requires Wf(d.fs.nodes) && d.heap.pages.Valid() && |d.fs.nodes| == |d.files|
    requires (node.Some? ==> node.value < |d.fs.nodes|) && Reached(d.fs.nodes, t)
    ensures var ns := Write(d, node, buf).0.fs.nodes;
      Wf(ns) && Reached(ns, t) && PathOf(ns, t) == PathOf(d.fs.nodes, t) && ns[t].kind == d.fs.nodes[t].kind
  {
    var ns' := Write(d, node, buf).0.fs.nodes;
    if node.Some? && d.fs.nodes[node.value].kind == File {
      var (h, p) := B.Malloc(d.heap, |buf| + 1);
      SwapReached(d, node.value, buf, h, p, t);
    }
  }

  lemma SwapReached(d: Disk, i: nat, buf: seq<byte>, h: B.Heap, p: nat, t: nat)
    requires Wf(d.fs.nodes) && i < |d.fs.nodes| == |d.files| && Reached(d.fs.nodes, t)
    ensures var ns := Swap(d, i, buf, h, p).0.fs.nodes;
      Wf(ns) && Reached(ns, t) && PathOf(ns, t) == PathOf(d.fs.nodes, t) && ns[t].kind == d.fs.nodes[t].kind
  {
    var (ns, ns') := (d.fs.nodes, Swap(d, i, buf, h, p).0.fs.nodes);
    if p != 0 {
      assert SameButContents(ns, ns', i);
      ContentsKeepTree(ns, ns', i);
      LookupIff(ns, PathOf(ns, t), t);
      LookupIff(ns', PathOf(ns, t), t);
    }
  }

  // The state after the copy: the target's entry is there, and what it holds
  lemma CopiedTarget(d: Disk, i: nat, dst: string, mode: nat)
    requires Wf(d.fs.nodes) && d.heap.pages.Valid() && i < |d.fs.nodes| == |d.files|
    requires FT.PathOk(d.fs.cwd, dst) && |FT.Leaf(d.fs.cwd, dst)| < NAME_MAX
    requires if d.files[i] == [] then FT.Make(d.fs, dst, File, mode).1.Some? else Copies(d, i, dst, mode)
    ensures var (d1, t) := (CopyFrom(d, i, dst, mode).0, FT.Make(d.fs, dst, File, mode).1.value);
      && Wf(d1.fs.nodes) && Reached(d1.fs.nodes, t) && t < |d1.files|
      && (d.files[i] != [] ==> d1.files[t] == d.files[i] && d1.fs.nodes[t].kind == File)
  {
    var (d1, t) := Make(d, dst, File, mode);
    MadeReached(d.fs, dst, File, mode);
    CopiedInto(d1, i, t.value);
  }

  lemma CopiedInto(d: Disk, i: nat, t: nat)
    requires Wf(d.fs.nodes) && d.heap.pages.Valid() && i < |d.fs.nodes| == |d.files| && Reached(d.fs.nodes, t)
    requires d.files[i] != [] ==> d.fs.nodes[t].kind == File && B.Malloc(d.heap, |d.files[i]| + 1).1 != 0
    ensures var d' := CopyInto(d, i, t).0;
      && Wf(d'.fs.nodes) && Reached(d'.fs.nodes, t) && t < |d'.files|
      && (d.files[i] != [] ==> d'.files[t] == d.files[i] && d'.fs.nodes[t].kind == File)
  {
    if d.files[i] != [] {
      WriteReached(d, Some(t), d.files[i], t);
      CopyBytes(d, i, t);
    }
  }

  // A rename whose copy is made reports success exactly if the file's size is a multiple of
  // 2^32. It has moved the file, so that the target is a file with the source's bytes, exactly
  // if, besides, source and target are different nodes and an empty file was not renamed onto
  // something else than an empty file.
  lemma RenameMoves(d: Disk, src: string, dst: string, i: nat, mode: nat)
    requires Wf(d.fs.nodes) && d.heap.pages.Valid() && i < |d.fs.nodes| == |d.files|
    requires FT.PathOk(d.fs.cwd, src) && FT.PathOk(d.fs.cwd, dst) && |FT.Leaf(d.fs.cwd, dst)| < NAME_MAX
    requires FT.Resolve(d.fs, src) == Some(i) && d.fs.nodes[i].kind == File && mode == CopyMode(d.fs.nodes[i].mode)
    requires if d.files[i] == [] then FT.Make(d.fs, dst, File, mode).1.Some? else Copies(d, i, dst, mode)
    ensures var (d1, t) := (CopyFrom(d, i, dst, mode).0, FT.Make(d.fs, dst, File, mode).1.value);
      var ((d', r), whole) := (Rename(d, src, dst), |d.files[i]| % U32 == 0);
      && t < |d1.fs.nodes| && |d1.fs.nodes| == |d1.files| && r == (if whole then 0 else -1)
      && (r == 0 && HasBytes(d', PathOf(d1.fs.nodes, t), d.files[i]) <==>
          whole && t != i && d1.fs.nodes[t].kind == File && (d.files[i] != [] || d1.files[t] == []))
  {
    var (d1, t) := (CopyFrom(d, i, dst, mode).0, FT.Make(d.fs, dst, File, mode).1.value);
    RenameExact(d, src, dst, i, mode);
    CopiedTarget(d, i, dst, mode);
    if |d.files[i]| % U32 == 0 {
      FT.ResolveReached(d1.fs, src);
      KindKept(d, i, dst, mode);
      Unlinked(d1, src, i, t, d.files[i]);
    }
  }

  // The path of components q leads to a file with these bytes.
  ghost predicate HasBytes(d: Disk, q: seq<string>, bytes: seq<byte>) {
    var n := Lookup(d.fs.nodes, q);
    n.Some? && d.fs.nodes[n.value].kind == File && n.value < |d.files| && d.files[n.value] == bytes
  }

  lemma KindKept(d: Disk, i: nat, dst: string, mode: nat)
    requires d.heap.pages.Valid() && i < |d.fs.nodes| == |d.files| && FT.PathOk(d.fs.cwd, dst)
    ensures CopyFrom(d, i, dst, mode).0.fs.nodes[i].kind == d.fs.nodes[i].kind
  {
    var (d1, t) := Make(d, dst, File, mode);
    if t.Some? && d1.files[i] != [] {
      var (h, p) := B.Malloc(d1.heap, |d1.files[i]| + 1);
      assert Swap(d1, t.value, d1.files[i], h, p).0.fs.nodes[i].kind == d1.fs.nodes[i].kind;
    }
  }

  // Unlinking the file i takes away the entry of node t exactly if it is that file.
  lemma Unlinked(d: Disk, src: string, i: nat, t: nat, bytes: seq<byte>)
    requires Wf(d.fs.nodes) && 0 < |d.fs.nodes| == |d.files| && FT.PathOk(d.fs.cwd, src)
    requires FT.Resolve(d.fs, src) == Some(i) && Reached(d.fs.nodes, i) && d.fs.nodes[i].kind == File
    requires Reached(d.fs.nodes, t)
    ensures S.Unlink(d, src).1 == 0
    ensures HasBytes(S.Unlink(d, src).0, PathOf(d.fs.nodes, t), bytes) <==>
      t != i && d.fs.nodes[t].kind == File && d.files[t] == bytes
  {
    var (ns, q) := (d.fs.nodes, PathOf(d.fs.nodes, t));
    UnlinkRefines(ns, i, q);
    ReachedLookup(ns, t);
    if PathOf(ns, i) <= q { FileLeaf(ns, i, t); }
    UnlinkShape(ns, i);
    UnchainKind(ns, ns[i].parent.value, i, t);
  }

  lemma UnchainKind(ns: Nodes, p: nat, n: nat, t: nat)
    requires p < |ns| && n < |ns| && t < |ns|
    ensures |Unchain(ns, p, n)| == |ns| && Unchain(ns, p, n)[t].kind == ns[t].kind
  {
  }

  // ----- inputs -----

  const ARENA: nat := 0x10_0000

  // A path of one letter in the root
  lemma TopPath(fs: FT.Fs, x: char)
    requires |fs.nodes| > 0 && fs.cwd == "/" && x != '/' && x != '.'
    ensures FT.PathOk(fs.cwd, ['/', x]) && FT.Leaf(fs.cwd, ['/', x]) == [x]
    ensures FT.EnsureParent(fs, ['/', x]) == (Some(0), [x])
    ensures FT.Resolve(fs, ['/', x]) == FindIn(fs.nodes, fs.nodes[0].child, [x])
  {
    var p := ['/', x];
    assert Normalize(fs.cwd, p) == p;
    assert LastSlash(p) == 0 && p[1..] == [x];
    PartsWord([x]);
    FT.WalkOne(fs.nodes, 0, [x]);
  }

  lemma TopMade(fs: FT.Fs, x: char, mode: nat)
    requires 0 < |fs.nodes| < MAX_NODES && fs.cwd == "/" && x != '/' && x != '.' && fs.nodes[0].kind == Dir
    ensures FT.PathOk(fs.cwd, ['/', x])
    ensures var (fs', t) := FT.Make(fs, ['/', x], File, mode);
      if FindIn(fs.nodes, fs.nodes[0].child, [x]).Some? then fs' == fs && t == FindIn(fs.nodes, fs.nodes[0].child, [x])
      else fs' == fs.(nodes := Link(fs.nodes, 0, [x], File, mode)) && t == Some(|fs.nodes|)
  {
    TopPath(fs, x);
  }

  function Fresh(): Disk { Init(B.InitHeap(ARENA, P.Pages(0, {}))) }

  function TwoFiles(size: nat, data: nat): Nodes {
    [Node("/", Dir, 0x1ED, 0, 0, None, Some(2), None), Node("a", File, 0x1A4, 0, 0, Some(0), None, None),
     Node("b", File, 0x1A4, size, data, Some(0), None, Some(1))]
  }

  lemma FirstMade()
    ensures FT.PathOk(Fresh().fs.cwd, "/a")
    ensures var d := S.Make(Fresh(), "/a", File, 0x1A4).0;
      && d.heap == Fresh().heap && d.files == [[], []] && d.fs.cwd == "/"
      && d.fs.nodes == [Node("/", Dir, 0x1ED, 0, 0, None, Some(1), None),
                        Node("a", File, 0x1A4, 0, 0, Some(0), None, None)]
  {
    TopMade(Fresh().fs, 'a', 0x1A4);
  }

  lemma SecondMade(d: Disk)
    requires d.fs == FT.Fs([Node("/", Dir, 0x1ED, 0, 0, None, Some(1), None),
                            Node("a", File, 0x1A4, 0, 0, Some(0), None, None)], "/") && d.files == [[], []]
    ensures FT.PathOk(d.fs.cwd, "/b")
    ensures var d' := S.Make(d, "/b", File, 0x1A4).0;
      d'.heap == d.heap && d'.files == [[], [], []] && d'.fs == FT.Fs(TwoFiles(0, 0), "/")
  {
    assert "a" != "b" by { assert "a"[0] != "b"[0]; }
    assert FindIn(d.fs.nodes, Some(1), "b") == None;
    TopMade(d.fs, 'b', 0x1A4);
  }

  // The state after one byte was written to the second file, with room left in the heap
  ghost predicate Ready(d: Disk) {
    && d.heap.pages.Valid() && B.Malloc(d.heap, 2).1 != 0
    && (exists data: nat :: d.fs == FT.Fs(TwoFiles(1, data), "/")) && d.files == [[], [], [65]]
  }

  lemma WfTwo(size: nat, data: nat)
    ensures Wf(TwoFiles(size, data)) && Reached(TwoFiles(size, data), 1) && Reached(TwoFiles(size, data), 2)
  {
    var ns := TwoFiles(size, data);
    assert Chain(ns, Some(1)) == [1];
    assert Kids(ns, 0) == [2, 1];
    assert "a" != "b" by { assert "a"[0] != "b"[0]; }
    forall d | 0 <= d < |ns| ensures NamesOk(ns, d) { if d > 0 { assert Kids(ns, d) == []; } }
    assert 1 in Kids(ns, 0) && 2 in Kids(ns, 0);
  }

  lemma TwoFound(ns: Nodes, size: nat, data: nat)
    requires ns == TwoFiles(size, data)
    ensures FindIn(ns, ns[0].child, "a") == Some(1) && FindIn(ns, ns[0].child, "b") == Some(2)
    ensures FindIn(ns, ns[0].child, "c") == None
  {
    assert "a"[0] != "b"[0] && "a"[0] != "c"[0] && "b"[0] != "c"[0];
    assert FindIn(ns, Some(1), "a") == Some(1) && FindIn(ns, Some(1), "c") == None;
  }

  // A file of one byte is not moved: the call reports failure and leaves the file and a copy.
  lemma RenameStays(d: Disk)
    requires Ready(d)
    ensures FT.PathOk(d.fs.cwd, "/b") && FT.PathOk(d.fs.cwd, "/c")
    ensures var (d', r) := S.Rename(d, "/b", "/c");
      && r == -1 && FT.PathOk(d'.fs.cwd, "/b")
      && FT.Resolve(d'.fs, "/b") == Some(2) && |d'.files| > 2 && d'.files[2] == [65]
  {
    var data: nat :| d.fs == FT.Fs(TwoFiles(1, data), "/");
    WfTwo(1, data);
    TwoFound(d.fs.nodes, 1, data);
    TopPath(d.fs, 'b');
    TopMade(d.fs, 'c', 0x1A4);
    RenameExact(d, "/b", "/c", 2, 0x1A4);
  }

  // An empty file renamed onto one that is not empty is gone, and the call reports success ...
  lemma RenameLosesEmpty(d: Disk)
    requires Ready(d)
    ensures FT.PathOk(d.fs.cwd, "/a") && FT.PathOk(d.fs.cwd, "/b")
    ensures var (d', r) := S.Rename(d, "/a", "/b"); r == 0 && !HasBytes(d', PathOf(d.fs.nodes, 2), [])
  {
    var data: nat :| d.fs == FT.Fs(TwoFiles(1, data), "/");
    WfTwo(1, data);
    TwoFound(d.fs.nodes, 1, data);
    TopPath(d.fs, 'a');
    TopMade(d.fs, 'b', 0x1A4);
    RenameMoves(d, "/a", "/b", 1, 0x1A4);
  }

  // ... and so is one renamed onto itself.
  lemma RenameLosesItself(d: Disk)
    requires Ready(d)
    ensures FT.PathOk(d.fs.cwd, "/a")
    ensures var (d', r) := S.Rename(d, "/a", "/a"); r == 0 && !HasBytes(d', PathOf(d.fs.nodes, 1), [])
  {
    var data: nat :| d.fs == FT.Fs(TwoFiles(1, data), "/");
    WfTwo(1, data);
    TwoFound(d.fs.nodes, 1, data);
    TopPath(d.fs, 'a');
    TopMade(d.fs, 'a', 0x1A4);
    RenameMoves(d, "/a", "/a", 1, 0x1A4);
  }

  // The initial heap gives a first and a second block.
  lemma RoomTwice(h: B.Heap)
    requires h == B.InitHeap(ARENA, P.Pages(0, {}))
    ensures B.Malloc(h, 2).1 != 0 && B.Malloc(B.Malloc(h, 2).0, 2).1 != 0
  {
    B.InitOk(ARENA, P.Pages(0, {}), 0x100_0000);
    assert h.blocks == [B.Blk(ARENA, 524248, true)];
    assert B.RoundUp(2) == 32;
    assert B.FirstFit(h.blocks, 32) == 0;
    assert B.Attempt(h, 32, 2) == B.Take(h, 0, 32);
    var h1 := B.Malloc(h, 2).0;
    assert h1.blocks == [B.Blk(ARENA, 32, false), B.Blk(ARENA + 72, 524176, true)];
    B.MallocOk(h, 2, 0x100_0000);
    B.MallocExact(h1, 2, 0x100_0000);
    assert B.Fits(h1.blocks[1], 32);
  }

  // Such a state is reached from vfs_init in the initial heap by three calls.
  lemma ReadyReached() returns (d: Disk)
    ensures Ready(d) && Shaped(Fresh())
    ensures Run(Fresh(), [MakeOp("/a", File, 0x1A4), MakeOp("/b", File, 0x1A4), WriteOp(Some(2), [65])], d)
  {
    FirstMade();
    var d1 := S.Make(Fresh(), "/a", File, 0x1A4).0;
    SecondMade(d1);
    var d2 := S.Make(d1, "/b", File, 0x1A4).0;
    RoomTwice(d2.heap);
    d := Write(d2, Some(2), [65]).0;
    Wrote(d2);
    TopPath(Fresh().fs, 'a');
    TopPath(d1.fs, 'b');
    RunThree(Fresh(), MakeOp("/a", File, 0x1A4), MakeOp("/b", File, 0x1A4), WriteOp(Some(2), [65]));
  }

  lemma RunCons(d: Disk, op: Op, rest: seq<Op>, d1: Disk, d': Disk)
    requires Shaped(d) && Fits(d, op) && d1 == Step(d, op) && Run(d1, rest, d')
    ensures Run(d, [op] + rest, d')
  {
    assert ([op] + rest)[1..] == rest;
  }

  lemma RunThree(d: Disk, o1: Op, o2: Op, o3: Op)
    requires Shaped(d) && Fits(d, o1) && Fits(Step(d, o1), o2) && Fits(Step(Step(d, o1), o2), o3)
    ensures Run(d, [o1, o2, o3], Step(Step(Step(d, o1), o2), o3))
  {
    var (d1, d2) := (Step(d, o1), Step(Step(d, o1), o2));
    RunFrom(d, o1, o2, o3, d1, d2, Step(d2, o3));
  }

  lemma RunFrom(d: Disk, o1: Op, o2: Op, o3: Op, d1: Disk, d2: Disk, d3: Disk)
    requires Shaped(d) && Shaped(d1) && Shaped(d2) && Shaped(d3) && Fits(d, o1) && Fits(d1, o2) && Fits(d2, o3)
    requires d1 == Step(d, o1) && d2 == Step(d1, o2) && d3 == Step(d2, o3)
    ensures Run(d, [o1, o2, o3], d3)
  {
    RunCons(d2, o3, [], d3, d3);
    RunCons(d1, o2, [o3] + [], d2, d3);
    RunCons(d, o1, [o2] + ([o3] + []), d1, d3);
    assert [o1] + ([o2] + ([o3] + [])) == [o1, o2, o3];
  }

  lemma Wrote(d: Disk)
    requires d.fs == FT.Fs(TwoFiles(0, 0), "/") && d.files == [[], [], []] && d.heap.pages.Valid()
    requires B.Malloc(d.heap, 2).1 != 0 && B.Malloc(B.Malloc(d.heap, 2).0, 2).1 != 0
    ensures Ready(Write(d, Some(2), [65]).0)
  {
    var (h, p) := B.Malloc(d.heap, 2);
    var d' := Swap(d, 2, [65], h, p).0;
    assert d'.fs == FT.Fs(TwoFiles(1, p), "/") && d'.heap == h;
  }
}
