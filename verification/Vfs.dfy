/** The virtual file system in memory: a fixed array of nodes handed out in order, relinked in
    place, with file contents in kernel-heap blocks. */
module Vfs {
  import opened Bytes
  import opened Paths
  import opened Tree
  import FT = FileTree
  import KH = KernelHeap
  import B = Blocks
  import C = Contents
  import Pages
  import S = Storage

  // ----- reading components off a buffer -----

  lemma WordStep(s: string, p: nat, cap: nat)
    requires p < |s| && s[p] != '/' && cap > 0
    ensures WordLen(s[p..], cap) == 1 + WordLen(s[p + 1..], cap - 1)
  {
    DropStep(s, p);
  }

  lemma DropStep<T>(s: seq<T>, p: nat)
    requires p < |s|
    ensures s[p..] != [] && s[p..][0] == s[p] && s[p..][1..] == s[p + 1..]
  {
  }

  lemma SkipStep(s: string, p: nat)
    requires p < |s| && s[p] == '/'
    ensures SkipSlashes(s[p..]) == SkipSlashes(s[p + 1..])
  {
    DropStep(s, p);
  }

  // One turn of the component loop: the word at start, its end at mid, the next word at p
  lemma PartsStep(s: string, start: nat, mid: nat, p: nat)
    requires start < |s| && start <= mid <= p <= |s|
    requires mid - start == WordLen(s[start..], NAME_MAX - 1) && SkipSlashes(s[mid..]) == s[p..]
    ensures Parts(s[start..]) == (if mid == start then [] else [s[start..mid]]) + Parts(s[p..])
    ensures start < p
  {
    var t := s[start..];
    Slices(s, start, mid);
    PartsUnfold(t);
    RestShorter(t);
  }

  lemma Slices<T>(s: seq<T>, a: nat, b: nat)
    requires a <= b <= |s|
    ensures s[a..][..b - a] == s[a..b] && s[a..][b - a..] == s[b..]
  {
  }

  // ----- rebuilding the working directory -----

  function Reversed<T>(s: seq<T>): (r: seq<T>)
    ensures |r| == |s|
  {
    if s == [] then [] else Reversed(s[1..]) + [s[0]]
  }

  lemma {:induction false} ReversedSnoc<T>(a: seq<T>, x: T)
    ensures Reversed(a + [x]) == [x] + Reversed(a)
  {
    if a == [] {
      assert [x][1..] == [];
    } else {
      assert (a + [x])[1..] == a[1..] + [x];
      ReversedSnoc(a[1..], x);
    }
  }

  lemma LastSnoc<T>(q: seq<T>, x: T, k: nat)
    ensures FT.LastOf(q + [x], k) == if k == 0 then [] else FT.LastOf(q, k - 1) + [x]
  {
  }

  // One turn of the climb: the name of the node left goes into the next row, if there is one.
  lemma LastStep<T>(q: seq<T>, x: T, rows: seq<T>, k: nat)
    ensures FT.LastOf(q + [x], k) + Reversed(rows) ==
      if k > 0 then FT.LastOf(q, k - 1) + Reversed(rows + [x]) else FT.LastOf(q, 0) + Reversed(rows)
  {
    LastSnoc(q, x, k);
    ReversedSnoc(rows, x);
    LastNone(q);
    if k > 0 { Assoc(FT.LastOf(q, k - 1), [x], Reversed(rows)); }
  }

  lemma ParentPath(ns: Nodes, cur: nat)
    requires Wf(ns) && Reached(ns, cur) && cur > 0
    ensures ns[cur].parent.Some?
    ensures var p := ns[cur].parent.value;
      p < cur && Reached(ns, p) && Plain(ns[cur].name) && PathOf(ns, cur) == PathOf(ns, p) + [ns[cur].name]
  {
    assert LinkOk(ns, cur) && NamesOk(ns, ns[cur].parent.value);
  }

  // The rows hold the names climbed past; with those still above they make up the last parts.
  ghost predicate Rows(ns: Nodes, n: nat, cur: nat, rows: seq<string>) {
    && n < |ns| && |rows| <= FT.DEPTH && Reached(ns, cur)
    && (forall i :: 0 <= i < |rows| ==> Plain(rows[i]))
    && FT.LastParts(PathOf(ns, n)) == FT.LastOf(PathOf(ns, cur), FT.DEPTH - |rows|) + Reversed(rows)
  }

  // The rows after one more name
  function Noted(rows: seq<string>, name: string): seq<string> {
    if |rows| < FT.DEPTH then rows + [name] else rows
  }

  lemma NotedLast(q: seq<string>, x: string, rows: seq<string>)
    requires |rows| <= FT.DEPTH
    ensures FT.LastOf(q + [x], FT.DEPTH - |rows|) + Reversed(rows) ==
      FT.LastOf(q, FT.DEPTH - |Noted(rows, x)|) + Reversed(Noted(rows, x))
  {
    LastStep(q, x, rows, FT.DEPTH - |rows|);
  }

  lemma ClimbStep(ns: Nodes, n: nat, cur: nat, rows: seq<string>)
    requires Wf(ns) && 0 < cur && Rows(ns, n, cur, rows)
    ensures ns[cur].parent.Some?
    ensures Rows(ns, n, ns[cur].parent.value, Noted(rows, ns[cur].name))
  {
    ParentPath(ns, cur);
    NotedLast(PathOf(ns, ns[cur].parent.value), ns[cur].name, rows);
  }

  lemma RowsStart(ns: Nodes, n: nat)
    requires Reached(ns, n)
    ensures Rows(ns, n, n, [])
  {
    NilRightSeq(FT.LastOf(PathOf(ns, n), FT.DEPTH));
  }

  lemma RowsEnd(ns: Nodes, n: nat, rows: seq<string>)
    requires Wf(ns) && Rows(ns, n, 0, rows)
    ensures Reversed(rows) == FT.LastParts(PathOf(ns, n))
  {
    assert LinkOk(ns, 0);
    NilLeft(Reversed(rows));
  }

  lemma LastNone<T>(q: seq<T>)
    ensures FT.LastOf(q, 0) == []
  {
  }

  lemma JoinStep(parts: seq<string>, i: nat)
    requires i < |parts| && forall j :: 0 <= j < |parts| ==> Plain(parts[j])
    ensures var q := Reversed(parts[i + 1..]);
      && (|Join(q)| > 1 <==> q != [])
      && Join(Reversed(parts[i..])) == (if q != [] then Join(q) + ['/'] else Join(q)) + parts[i]
  {
    DropStep(parts, i);
    var q := Reversed(parts[i + 1..]);
    JoinSnoc(q, parts[i]);
    if q != [] { BodyLong(parts, i + 1); }
  }

  lemma JoinSnoc(q: seq<string>, x: string)
    ensures Join(q + [x]) == (if q != [] then Join(q) + ['/'] else Join(q)) + x
  {
    SnocInv(q, x);
    if q == [] { NilLeft([x]); NilRight(x); }
  }

  lemma NilRight(x: string)
    ensures ['/'] + [] + x == ['/'] + x
  {
  }

  lemma NilRightSeq<T>(q: seq<T>)
    ensures q + Reversed<T>([]) == q
  {
  }

  lemma BodyLong(parts: seq<string>, i: nat)
    requires i < |parts| && forall j :: 0 <= j < |parts| ==> Plain(parts[j])
    ensures |Join(Reversed(parts[i..]))| > 1
  {
    DropStep(parts, i);
    JoinSnoc(Reversed(parts[i + 1..]), parts[i]);
  }

  class FileSystem {
    const nodes: array<Node>
    var nodeCount: nat
    var cwd: string
    const heap: KH.Heap

    constructor (heap: KH.Heap)
      ensures fresh(nodes) && nodes.Length == MAX_NODES && this.heap == heap
    {
      nodes := new Node[MAX_NODES](i => Node("", File, 0, 0, 0, None, None, None));
      nodeCount := 0;
      cwd := "/";
      this.heap := heap;
    }

    // Zero the array, then put the root directory into its first entry.
    method VfsInit()
      requires nodes.Length == MAX_NODES && heap.Valid()
      modifies this`nodeCount, this`cwd, nodes
      ensures Valid() && Disk() == S.Init(heap.Abs())
    {
      forall k | 0 <= k < nodes.Length {
        nodes[k] := Node("", File, 0, 0, 0, None, None, None);
      }
      nodeCount := 0;
      var root := AllocNode("/", Dir, 0x1ED);   // 0755
      cwd := "/";
      FT.InitRep(0x1ED);
      assert nodes[..nodeCount] == S.Init(heap.Abs()).fs.nodes;
      assert C.Files(nodes[..nodeCount], heap.mem) == [[]];
    }

    ghost predicate Shape()
      reads this, nodes
    {
      nodes.Length == MAX_NODES && nodeCount <= MAX_NODES && Wf(nodes[..nodeCount]) && Absolute(cwd)
    }

    function Fs(): FT.Fs
      requires nodeCount <= nodes.Length
      reads this, nodes
    {
      FT.Fs(nodes[..nodeCount], cwd)
    }

    // ----- the namespace -----

    method FindChild(dir: nat, name: string) returns (r: Option<nat>)
      requires Shape() && dir < nodeCount
      ensures r == FindIn(nodes[..nodeCount], nodes[dir].child, name)
    {
      ghost var ns := nodes[..nodeCount];
      var c: Option<nat> := nodes[dir].child;
      assert LinkOk(ns, dir);
      while c.Some?
        invariant c.Some? ==> c.value < nodeCount
        invariant FindIn(ns, c, name) == FindIn(ns, nodes[dir].child, name)
        decreases if c.Some? then c.value + 1 else 0
      {
        assert LinkOk(ns, c.value);
        if nodes[c.value].name == name { return c; }
        c := nodes[c.value].sibling;
      }
      r := None;
    }

    // The next component of full at start: where it ends and where the one after begins
    method NextPart(full: string, start: nat) returns (mid: nat, p: nat)
      requires start < |full|
      ensures start <= mid <= p <= |full| && start < p
      ensures Parts(full[start..]) == (if mid == start then [] else [full[start..mid]]) + Parts(full[p..])
    {
      p := start;
      var i := 0;
      while p < |full| && full[p] != '/' && i + 1 < NAME_MAX
        invariant start <= p <= |full| && i == p - start < NAME_MAX
        invariant WordLen(full[start..], NAME_MAX - 1) == i + WordLen(full[p..], NAME_MAX - 1 - i)
      {
        WordStep(full, p, NAME_MAX - 1 - i);
        p, i := p + 1, i + 1;
      }
      mid := p;
      while p < |full| && full[p] == '/'
        invariant mid <= p <= |full|
        invariant SkipSlashes(full[mid..]) == SkipSlashes(full[p..])
      {
        SkipStep(full, p);
        p := p + 1;
      }
      PartsStep(full, start, mid, p);
    }

    // Follow one component from the node cur.
    method Advance(cur: nat, part: string) returns (r: Option<nat>)
      requires Shape() && cur < nodeCount
      ensures r == FT.Move(nodes[..nodeCount], cur, part)
    {
      assert LinkOk(nodes[..nodeCount], cur);
      if part == "." { return Some(cur); }
      if part == ".." {
        if nodes[cur].parent.Some? { return nodes[cur].parent; }
        return Some(cur);
      }
      r := FindChild(cur, part);
    }

    method VfsResolve(path: string) returns (r: Option<nat>)
      requires Shape() && FT.PathOk(cwd, path)
      ensures r == FT.Resolve(Fs(), path)
    {
      ghost var ns := nodes[..nodeCount];
      var full := Normalize(cwd, path);
      if full == "/" {
        assert full[1..] == "";
        return Some(0);
      }
      var cur: nat, p := 0, 1;
      while p < |full|
        invariant 1 <= p <= |full| && cur < nodeCount
        invariant FT.Walk(ns, cur, Parts(full[p..])) == FT.Walk(ns, 0, Parts(full[1..]))
      {
        var start := p;
        var mid: nat;
        mid, p := NextPart(full, start);
        if mid == start {
          NilLeft(Parts(full[p..]));
          continue;
        }
        var part := full[start..mid];
        FT.WalkStep(ns, cur, part, Parts(full[p..]));
        var next := Advance(cur, part);
        if next.None? { return None; }
        cur := next.value;
      }
      assert full[p..] == "";
      r := Some(cur);
    }

    method EnsureParent(path: string) returns (parent: Option<nat>, leaf: string)
      requires Shape() && FT.PathOk(cwd, path)
      ensures (parent, leaf) == FT.EnsureParent(Fs(), path)
    {
      var full := Normalize(cwd, path);
      var last, s := 0, 0;
      while s < |full|
        invariant s <= |full| && last < |full| && full[last] == '/' && (last < s || s == 0)
        invariant forall j :: last < j < s ==> full[j] != '/'
      {
        if full[s] == '/' { last := s; }
        s := s + 1;
      }
      assert last == LastSlash(full);
      if last == 0 { return Some(0), full[1..]; }
      leaf := full[last + 1..];
      FT.NormalizeOk(cwd, path);
      parent := VfsResolve(full[..last]);
    }

    method AllocNode(name: string, kind: Kind, mode: nat) returns (n: Option<nat>)
      requires nodes.Length == MAX_NODES && nodeCount <= MAX_NODES
      modifies this`nodeCount, nodes
      ensures n.None? <==> old(nodeCount) == MAX_NODES
      ensures n.None? ==> nodeCount == old(nodeCount) && nodes[..] == old(nodes[..])
      ensures n.Some? ==>
        && n.value == old(nodeCount) && nodeCount == old(nodeCount) + 1
        && nodes[..nodeCount] == old(nodes[..nodeCount]) + [Node(name, kind, mode, 0, 0, None, None, None)]
    {
      if nodeCount >= MAX_NODES { return None; }
      n := Some(nodeCount);
      nodes[nodeCount] := Node(name, kind, mode, 0, 0, None, None, None);
      nodeCount := nodeCount + 1;
    }

    method LinkChild(p: nat, n: nat)
      requires nodes.Length == MAX_NODES && p < n < MAX_NODES
      modifies nodes
      ensures nodes[..] == old(nodes[..])[n := old(nodes[n]).(parent := Some(p), sibling := old(nodes[p].child))]
                             [p := old(nodes[p]).(child := Some(n))]
    {
      nodes[n] := nodes[n].(parent := Some(p));
      nodes[n] := nodes[n].(sibling := nodes[p].child);
      nodes[p] := nodes[p].(child := Some(n));
    }

    // alloc_node, then link_child
    method Attach(p: nat, name: string, kind: Kind, mode: nat) returns (n: Option<nat>)
      requires Shape() && p < nodeCount
      modifies this`nodeCount, nodes
      ensures n.None? <==> old(nodeCount) == MAX_NODES
      ensures n.None? ==> nodeCount == old(nodeCount) && nodes[..] == old(nodes[..])
      ensures n.Some? ==> n.value == old(nodeCount) && nodeCount == old(nodeCount) + 1
      ensures n.Some? ==> nodes[..nodeCount] == Link(old(nodes[..nodeCount]), p, name, kind, mode)
    {
      n := AllocNode(name, kind, mode);
      if n.Some? { LinkChild(p, n.value); }
    }

    method MakeIn(parent: Option<nat>, leaf: string, kind: Kind, mode: nat) returns (r: Option<nat>)
      requires Shape() && (parent.Some? ==> parent.value < nodeCount)
      modifies this`nodeCount, nodes
      ensures nodeCount <= MAX_NODES
      ensures (Fs(), r) == FT.MakeIn(old(Fs()), parent, leaf, kind, mode)
    {
      if parent.None? || nodes[parent.value].kind != Dir || leaf == "" { return None; }
      r := FindChild(parent.value, leaf);
      if r.Some? { return; }
      r := Attach(parent.value, leaf, kind, mode);
    }

    // vfs_mkdir and vfs_create differ in the kind alone.
    method MakeNode(path: string, kind: Kind, mode: nat) returns (r: Option<nat>)
      requires Shape() && FT.PathOk(cwd, path) && |FT.Leaf(cwd, path)| < NAME_MAX
      modifies this`nodeCount, nodes
      ensures Shape() && (Fs(), r) == FT.Make(old(Fs()), path, kind, mode)
    {
      FT.MakeWf(Fs(), path, kind, mode);
      var parent, leaf := EnsureParent(path);
      r := MakeIn(parent, leaf, kind, mode);
    }

    // Take node n out of its parent's chain.
    method UnchainNode(p: nat, n: nat)
      requires Shape() && p < nodeCount && n < nodeCount
      modifies nodes
      ensures nodes[..nodeCount] == Unchain(old(nodes[..nodeCount]), p, n)
    {
      ghost var ns := nodes[..nodeCount];
      if nodes[p].child == Some(n) {
        nodes[p] := nodes[p].(child := nodes[n].sibling);
        return;
      }
      assert LinkOk(ns, p);
      var c: Option<nat> := nodes[p].child;
      while c.Some?
        invariant c.Some? ==> c.value < nodeCount
        invariant nodes[..nodeCount] == ns && Before(ns, c, n) == Before(ns, ns[p].child, n)
        decreases if c.Some? then c.value + 1 else 0
      {
        assert LinkOk(ns, c.value);
        if nodes[c.value].sibling == Some(n) {
          nodes[c.value] := nodes[c.value].(sibling := nodes[n].sibling);
          return;
        }
        c := nodes[c.value].sibling;
      }
    }

    // One turn of the climb: note the name if a row is left, and go to the parent.
    method ClimbOne(cur: nat, rows: seq<string>, ghost n: nat) returns (up: nat, more: seq<string>)
      requires Shape() && 0 < cur && n < nodeCount && Rows(nodes[..nodeCount], n, cur, rows)
      ensures up < cur && Rows(nodes[..nodeCount], n, up, more)
    {
      ghost var ns := nodes[..nodeCount];
      ParentPath(ns, cur);
      ClimbStep(ns, n, cur, rows);
      more := Noted(rows, nodes[cur].name);
      up := nodes[cur].parent.value;
    }

    // Climb from node n to the root, filling at most 32 rows, nearest name first.
    method Climb(n: nat) returns (parts: seq<string>)
      requires Shape() && n < nodeCount && Reached(nodes[..nodeCount], n)
      ensures Reversed(parts) == FT.LastParts(PathOf(nodes[..nodeCount], n))
      ensures forall i :: 0 <= i < |parts| ==> Plain(parts[i])
    {
      ghost var ns := nodes[..nodeCount];
      parts := [];
      var cur: nat := n;
      RowsStart(ns, n);
      while cur != 0
        invariant Rows(ns, n, cur, parts)
        decreases cur
      {
        cur, parts := ClimbOne(cur, parts, n);
      }
      RowsEnd(ns, n, parts);
    }

    method VfsChdir(path: string) returns (ok: bool)
      requires Shape() && FT.PathOk(cwd, path) && FT.ChdirFits(Fs(), path)
      modifies this`cwd
      ensures Shape() && (Fs(), ok) == FT.Chdir(old(Fs()), path)
    {
      var n := VfsResolve(path);
      if n.None? || nodes[n.value].kind != Dir { return false; }
      FT.ResolveReached(Fs(), path);
      var parts := Climb(n.value);
      cwd := Rebuild(parts);
      ok := true;
    }

    // strcpy and strcat of the rows, the last filled first
    method Rebuild(parts: seq<string>) returns (s: string)
      requires forall i :: 0 <= i < |parts| ==> Plain(parts[i])
      ensures s == Join(Reversed(parts))
    {
      s := "/";
      var i := |parts|;
      while i > 0
        invariant 0 <= i <= |parts|
        invariant s == Join(Reversed(parts[i..]))
      {
        i := i - 1;
        JoinStep(parts, i);
        if |s| > 1 { s := s + ['/']; }
        s := s + parts[i];
      }
      assert parts[0..] == parts;
    }

    // ----- contents -----

    ghost predicate Valid()
      reads this, nodes, heap, heap.pmm, heap.pmm.bitmap
    {
      Shape() && heap.Valid() && C.DataOk(nodes[..nodeCount], heap.blocks)
    }

    // The bytes of the file at node i
    ghost function FileBytes(i: nat): seq<byte>
      requires i < nodeCount <= nodes.Length
      reads this, nodes, heap
    {
      C.Stored(heap.mem, nodes[i])
    }

    // The name space, the heap and the bytes of every file
    ghost function Disk(): S.Disk
      requires nodeCount <= nodes.Length && heap.pmm.Valid()
      reads this, nodes, heap, heap.pmm, heap.pmm.bitmap
    {
      S.Disk(Fs(), heap.Abs(), C.Files(nodes[..nodeCount], heap.mem))
    }

    lemma DiskSound()
      requires Valid()
      ensures S.Sound(Disk(), |heap.mem|)
    {
      var ns := nodes[..nodeCount];
      forall i | 0 <= i < |ns| ensures |Disk().files[i]| == ns[i].size {
        HeldAt(ns, i, heap.blocks, heap.pmm.Abs(), heap.mem);
      }
    }

    // kmalloc and memcpy: a fresh block holding buf and a terminator
    method NewBlock(buf: seq<byte>) returns (p: nat)
      requires Valid() && |buf| + 1 <= U64 - B.ALIGN
      modifies heap, heap.pmm, heap.pmm.bitmap
      ensures heap.Valid() && C.DataOk(nodes[..nodeCount], heap.blocks)
      ensures (heap.Abs(), p) == B.Malloc(old(heap.Abs()), |buf| + 1)
      ensures C.SameAll(nodes[..nodeCount], old(heap.mem), heap.mem)
      ensures p != 0 ==> C.Filled(heap.blocks, heap.mem, p, buf) && C.Unused(nodes[..nodeCount], p)
    {
      ghost var ns, h0, m0 := nodes[..nodeCount], heap.Abs(), heap.mem;
      var panicked: bool;
      p, panicked := heap.Kmalloc(|buf| + 1);
      if p == 0 {
        C.AllKept(ns, h0, heap.Abs(), m0, heap.mem);
        return;
      }
      B.GrantedSize(heap.Abs(), p, |buf| + 1);
      C.FreshPointer(ns, h0, p);
      FillBlock(p, buf, ns, h0, m0);
    }

    method FillBlock(p: nat, buf: seq<byte>, ghost ns: Nodes, ghost h0: B.Heap, ghost m0: seq<byte>)
      requires heap.Valid() && B.Granted(heap.Abs(), p, |buf| + 1) && p != 0
      requires B.KeepsLive(h0, heap.Abs()) && B.NotLive(h0, p) && KH.LiveKept(m0, heap.mem, h0.blocks)
      requires C.DataOk(ns, h0.blocks)
      modifies heap`mem
      ensures heap.Valid() && C.DataOk(ns, heap.blocks)
      ensures C.SameAll(ns, m0, heap.mem) && C.Filled(heap.blocks, heap.mem, p, buf)
    {
      ghost var k :| 0 <= k < |heap.blocks| && B.Payload(heap.blocks[k]) == p && !heap.blocks[k].free
                     && heap.blocks[k].size >= |buf| + 1;
      ghost var m1 := heap.mem;
      heap.Store(p, buf + [0], k);
      KH.KeptPastStore(m0, m1, heap.mem, h0, heap.Abs(), k);
      C.AllKept(ns, h0, heap.Abs(), m0, heap.mem);
      FrontOf(heap.mem, p, buf);
      forall n: Node | n.kind == File && n.data == p && n.size == |buf|
        ensures C.HeldOk(heap.blocks, n) && C.Stored(heap.mem, n) == buf
      {
        C.GrantedHeld(heap.Abs(), p, |buf| + 1, n);
      }
    }

    // The node's block, if any, is one of the heap's.
    lemma HeldListed(i: nat)
      requires heap.Valid() && nodeCount <= nodes.Length && i < nodeCount && C.DataOk(nodes[..nodeCount], heap.blocks)
      ensures nodes[i].data != 0 ==> B.Listed(heap.Abs(), nodes[i].data)
    {
      assert C.HeldOk(heap.blocks, nodes[..nodeCount][i]);
    }

    // if (data) kfree(data)
    method Drop(data: nat)
      requires heap.Valid() && (data != 0 ==> B.Listed(heap.Abs(), data))
      modifies heap`mem, heap`blocks, heap`heapUsed
      ensures heap.Intact() && C.KeptBut(old(heap.blocks), heap.blocks, old(heap.mem), heap.mem, data)
      ensures heap.Abs() == S.Released(old(heap.Abs()), data)
      ensures S.Legal(S.Freeing(old(heap.Abs()), data)) ==> heap.Valid()
    {
      KH.AllSelf(heap.blocks, heap.mem);
      if data != 0 { heap.Kfree(data); }
    }

    // Point node i at the block just filled, releasing the one it had.
    method Install(i: nat, data: nat, buf: seq<byte>)
      requires Shape() && heap.Valid() && C.DataOk(nodes[..nodeCount], heap.blocks)
      requires i < nodeCount && nodes[i].kind == File && data != 0
      requires C.Unused(nodes[..nodeCount], data) && C.Filled(heap.blocks, heap.mem, data, buf)
      modifies nodes, heap`mem, heap`blocks, heap`heapUsed
      ensures heap.Intact() && heap.Abs() == S.Released(old(heap.Abs()), old(nodes[i].data))
      ensures nodes[..nodeCount] == old(nodes[..nodeCount])[i := old(nodes[i]).(data := data, size := |buf|)]
      ensures C.Stored(heap.mem, nodes[i]) == buf
      ensures C.OthersSame(old(nodes[..nodeCount]), old(heap.mem), heap.mem, i)
      ensures S.Legal(S.Freeing(old(heap.Abs()), old(nodes[i].data))) ==>
        heap.Valid() && C.DataOk(nodes[..nodeCount], heap.blocks)
    {
      ghost var ns, bs, m := nodes[..nodeCount], heap.blocks, heap.mem;
      HeldListed(i);
      Drop(nodes[i].data);
      C.SwapOk(ns, i, bs, heap.blocks, m, heap.mem, data, buf, nodes[i].(data := data, size := |buf|));
      nodes[i] := nodes[i].(data := data);
      nodes[i] := nodes[i].(size := |buf|);
    }

    method Overwrite(i: nat, data: nat, buf: seq<byte>)
      requires Shape() && heap.Valid() && C.DataOk(nodes[..nodeCount], heap.blocks)
      requires i < nodeCount && nodes[i].kind == File && data != 0
      requires C.Unused(nodes[..nodeCount], data) && C.Filled(heap.blocks, heap.mem, data, buf)
      modifies nodes, heap`mem, heap`blocks, heap`heapUsed
      ensures Shape() && heap.Intact() && Disk() == S.Swap(old(Disk()), i, buf, old(heap.Abs()), data).0
      ensures S.Legal(S.SwapFrees(old(Disk()), i, old(heap.Abs()), data)) ==> Valid()
    {
      ghost var ns, m := nodes[..nodeCount], heap.mem;
      Install(i, data, buf);
      ContentsKeepTree(ns, nodes[..nodeCount], i);
      C.OneFile(ns, nodes[..nodeCount], m, heap.mem, i);
    }

    // The new state is what the abstract write makes of the old one in any case. It is sound
    // again if releasing the old block crosses no seam of the heap.
    method VfsWrite(node: Option<nat>, buf: seq<byte>) returns (r: int)
      requires Valid() && |buf| + 1 <= U64 - B.ALIGN && (node.Some? ==> node.value < nodeCount)
      modifies nodes, heap, heap.pmm, heap.pmm.bitmap
      ensures Shape() && heap.Intact() && (Disk(), r) == S.Write(old(Disk()), node, buf)
      ensures S.Legal(S.WriteFrees(old(Disk()), node, |buf|)) ==> Valid()
    {
      if node.None? || nodes[node.value].kind != File { return -1; }
      var i := node.value;
      ghost var d := Disk();
      var data := NewBlock(buf);
      S.WriteIs(d, i, buf, heap.Abs(), data);
      assert C.Files(nodes[..nodeCount], heap.mem) == d.files;
      if data == 0 { return -1; }
      Overwrite(i, data, buf);
      r := S.ToI32(|buf|);
    }

    method VfsRead(node: Option<nat>, max: nat) returns (r: int, out: seq<byte>)
      requires Valid() && (node.Some? ==> node.value < nodeCount)
      ensures node.None? || nodes[node.value].kind != File ==> r == -1 && out == []
      ensures node.Some? && nodes[node.value].kind == File ==>
        && r == S.ToI32(|out|)
        && out == (if |FileBytes(node.value)| <= max then FileBytes(node.value) else FileBytes(node.value)[..max])
    {
      if node.None? || nodes[node.value].kind != File { return -1, []; }
      var f := nodes[node.value];
      assert f == nodes[..nodeCount][node.value] && C.HeldOk(heap.blocks, f);
      HeldInMemory(heap.blocks, heap.pmm.Abs(), heap.mem, f);
      var n := if f.size < max then f.size else max;
      out := [];
      if n != 0 && f.data != 0 { out := KH.Part(heap.mem, f.data, n); }
      r := S.ToI32(n);
    }

    // Release what node n holds and clear it.
    method ClearNode(n: nat)
      requires nodes.Length == MAX_NODES && n < nodeCount <= MAX_NODES
      requires heap.Valid() && C.DataOk(nodes[..nodeCount], heap.blocks)
      modifies nodes, heap`mem, heap`blocks, heap`heapUsed
      ensures heap.Intact() && heap.Abs() == S.Released(old(heap.Abs()), old(nodes[n].data))
      ensures nodes[..nodeCount] == old(nodes[..nodeCount])[n := old(nodes[n]).(name := "", size := 0, data := 0)]
      ensures C.Files(nodes[..nodeCount], heap.mem) == old(C.Files(nodes[..nodeCount], heap.mem))[n := []]
      ensures S.Legal(S.Freeing(old(heap.Abs()), old(nodes[n].data))) ==>
        heap.Valid() && C.DataOk(nodes[..nodeCount], heap.blocks)
    {
      ghost var ns, bs, m := nodes[..nodeCount], heap.blocks, heap.mem;
      HeldListed(n);
      Drop(nodes[n].data);
      C.ClearOk(ns, n, bs, heap.blocks, m, heap.mem);
      WipeNode(n);
    }

    method WipeNode(n: nat)
      requires nodes.Length == MAX_NODES && n < nodeCount <= MAX_NODES
      modifies nodes
      ensures nodes[..nodeCount] == old(nodes[..nodeCount])[n := old(nodes[n]).(name := "", size := 0, data := 0)]
    {
      nodes[n] := nodes[n].(data := 0);
      nodes[n] := nodes[n].(size := 0);
      nodes[n] := nodes[n].(name := "");
    }

    // The rest of vfs_unlink once the node and its parent p are known
    method RemoveNode(n: nat, p: nat)
      requires Shape() && heap.Valid() && C.DataOk(nodes[..nodeCount], heap.blocks)
      requires 0 < n < nodeCount && nodes[n].parent == Some(p) && p < n
      modifies nodes, heap`mem, heap`blocks, heap`heapUsed
      ensures heap.Intact() && heap.Abs() == S.Released(old(heap.Abs()), old(nodes[n].data))
      ensures nodes[..nodeCount] == Unlink(old(nodes[..nodeCount]), n)
      ensures C.Files(nodes[..nodeCount], heap.mem) == old(C.Files(nodes[..nodeCount], heap.mem))[n := []]
      ensures S.Legal(S.Freeing(old(heap.Abs()), old(nodes[n].data))) ==>
        heap.Valid() && C.DataOk(nodes[..nodeCount], heap.blocks)
    {
      ghost var ns := nodes[..nodeCount];
      UnchainNode(p, n);
      C.UnchainData(ns, p, n);
      C.SameDataOk(ns, nodes[..nodeCount], heap.blocks);
      C.SameFiles(ns, nodes[..nodeCount], heap.mem);
      ClearNode(n);
    }

    method VfsUnlink(path: string) returns (r: int)
      requires Valid() && FT.PathOk(cwd, path)
      modifies nodes, heap`mem, heap`blocks, heap`heapUsed
      ensures Shape() && heap.Intact() && (Disk(), r) == S.Unlink(old(Disk()), path)
      ensures S.Legal(S.UnlinkFrees(old(Disk()), path)) ==> Valid()
    {
      FT.RemoveWf(Fs(), path);
      var n := VfsResolve(path);
      if n.None? || n.value == 0 { return -1; }
      assert LinkOk(nodes[..nodeCount], n.value);
      if nodes[n.value].parent.None? { return -1; }
      RemoveNode(n.value, nodes[n.value].parent.value);
      r := 0;
    }

    // vfs_mkdir and vfs_create with the contents in view
    method MakeKeeping(path: string, kind: Kind, mode: nat) returns (r: Option<nat>)
      requires Valid() && FT.PathOk(cwd, path) && |FT.Leaf(cwd, path)| < NAME_MAX
      modifies this`nodeCount, nodes
      ensures Valid() && (Disk(), r) == S.Make(old(Disk()), path, kind, mode)
    {
      ghost var d := Disk();
      r := MakeNode(path, kind, mode);
      S.MakeData(d.fs, path, kind, mode, heap.blocks);
      C.GrownFiles(d.fs.nodes, nodes[..nodeCount], heap.mem);
    }

    // The last step of vfs_copy: the bytes of node i, if any, become those of node t.
    method CopyContents(i: nat, t: nat) returns (r: int)
      requires Valid() && i < nodeCount && t < nodeCount
      modifies nodes, heap, heap.pmm, heap.pmm.bitmap
      ensures Shape() && heap.Intact() && (Disk(), r) == S.CopyInto(old(Disk()), i, t)
      ensures S.Legal(S.CopyIntoFrees(old(Disk()), i, t)) ==> Valid()
    {
      HeldAt(nodes[..nodeCount], i, heap.blocks, heap.pmm.Abs(), heap.mem);
      if nodes[i].size == 0 || nodes[i].data == 0 { return 0; }
      DiskSound();
      S.FileFits(Disk(), i, |heap.mem|);
      r := VfsWrite(Some(t), KH.Part(heap.mem, nodes[i].data, nodes[i].size));
    }

    // vfs_copy once the source is resolved
    method CopyFrom(i: nat, dst: string, mode: nat) returns (r: int)
      requires Valid() && i < nodeCount && FT.PathOk(cwd, dst) && |FT.Leaf(cwd, dst)| < NAME_MAX
      modifies this`nodeCount, nodes, heap, heap.pmm, heap.pmm.bitmap
      ensures Shape() && heap.Intact() && (Disk(), r) == S.CopyFrom(old(Disk()), i, dst, mode)
      ensures S.Legal(S.CopyFromFrees(old(Disk()), i, dst, mode)) ==> Valid()
    {
      var t := MakeKeeping(dst, File, mode);
      if t.None? { return -1; }
      r := CopyContents(i, t.value);
    }

    method VfsCopy(src: string, dst: string) returns (r: int)
      requires Valid() && FT.PathOk(cwd, src) && FT.PathOk(cwd, dst) && |FT.Leaf(cwd, dst)| < NAME_MAX
      modifies this`nodeCount, nodes, heap, heap.pmm, heap.pmm.bitmap
      ensures Shape() && heap.Intact() && (Disk(), r) == S.Copy(old(Disk()), src, dst)
      ensures S.Legal(S.CopyFrees(old(Disk()), src, dst)) ==> Valid()
    {
      var s := VfsResolve(src);
      if s.None? || nodes[s.value].kind != File { return -1; }
      r := CopyFrom(s.value, dst, S.CopyMode(nodes[s.value].mode));
    }

    method VfsRename(src: string, dst: string) returns (r: int)
      requires Valid() && FT.PathOk(cwd, src) && FT.PathOk(cwd, dst) && |FT.Leaf(cwd, dst)| < NAME_MAX
      requires S.RenameReady(Disk(), src, dst)
      modifies this`nodeCount, nodes, heap, heap.pmm, heap.pmm.bitmap
      ensures Shape() && heap.Intact() && (Disk(), r) == S.Rename(old(Disk()), src, dst)
      ensures S.Legal(S.CopyFrees(old(Disk()), src, dst)) && S.Legal(S.RenameFrees(old(Disk()), src, dst)) ==> Valid()
    {
      var copied := VfsCopy(src, dst);
      if copied != 0 { return -1; }
      r := VfsUnlink(src);
    }

    // ----- runs in memory -----

    method Perform(op: S.Op)
      requires Valid() && S.Fits(Disk(), op)
      modifies this`nodeCount, this`cwd, nodes, heap, heap.pmm, heap.pmm.bitmap
      ensures Shape() && heap.Intact() && Disk() == S.Step(old(Disk()), op)
      ensures S.Legal(S.Frees(old(Disk()), op)) ==> Valid()
    {
      match op
      case MakeOp(path, kind, mode) => var n := MakeKeeping(path, kind, mode);
      case WriteOp(node, buf) => var r := VfsWrite(node, buf);
      case UnlinkOp(path) => var r := VfsUnlink(path);
      case CopyOp(src, dst) => var r := VfsCopy(src, dst);
      case ChdirOp(path) => var ok := VfsChdir(path);
    }

    // Any sequence of calls on memory is the abstract run, and leaves the bytes in memory of
    // every file that none of them writes, copies to or unlinks.
    method Execute(ops: seq<S.Op>)
      requires Valid() && S.Fitting(Disk(), ops) && S.AllLegal(Disk(), ops)
      modifies this`nodeCount, this`cwd, nodes, heap, heap.pmm, heap.pmm.bitmap
      ensures Valid() && S.Run(old(Disk()), ops, Disk()) && nodeCount >= old(nodeCount)
      ensures forall i :: 0 <= i < old(nodeCount) && S.NoneTouches(old(Disk()), ops, i) ==>
        FileBytes(i) == old(FileBytes(i))
    {
      ghost var d0 := Disk();
      assert ops[0..] == ops;
      var j := 0;
      while j < |ops|
        invariant 0 <= j <= |ops| && Valid() && S.Progress(d0, ops, j, Disk())
      {
        S.ProgressStep(d0, ops, j, Disk());
        Perform(ops[j]);
        j := j + 1;
      }
      S.ProgressEnd(d0, ops, Disk());
    }
  }

  lemma HeldAt(ns: Nodes, i: nat, bs: seq<B.Blk>, pages: Pages.Pages, m: seq<byte>)
    requires i < |ns| && C.DataOk(ns, bs) && forall k :: 0 <= k < |bs| ==> B.BlkOk(bs[k], pages, |m|)
    ensures ns[i].data != 0 ==>
      ns[i].data + ns[i].size <= |m| && C.Stored(m, ns[i]) == KH.Part(m, ns[i].data, ns[i].size)
    ensures |C.Stored(m, ns[i])| == ns[i].size && (ns[i].data == 0 ==> ns[i].size == 0)
  {
    assert C.HeldOk(bs, ns[i]);
    HeldInMemory(bs, pages, m, ns[i]);
  }

  lemma HeldInMemory(bs: seq<B.Blk>, pages: Pages.Pages, m: seq<byte>, n: Node)
    requires C.HeldOk(bs, n) && forall k :: 0 <= k < |bs| ==> B.BlkOk(bs[k], pages, |m|)
    ensures n.data != 0 ==> n.data + n.size <= |m|
    ensures |C.Stored(m, n)| == n.size
  {
    if n.data != 0 { assert B.BlkOk(bs[B.Find(bs, n.data - B.HDR)], pages, |m|); }
  }

  lemma FrontOf(m: seq<byte>, p: nat, buf: seq<byte>)
    requires p + |buf| + 1 <= |m| && KH.Part(m, p, |buf| + 1) == buf + [0]
    ensures KH.Part(m, p, |buf|) == buf
  {
    assert m[p..p + |buf|] == m[p..p + |buf| + 1][..|buf|];
    assert (buf + [0])[..|buf|] == buf;
  }
}
