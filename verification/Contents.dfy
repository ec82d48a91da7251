/** Which heap blocks hold the contents of which nodes. */
module Contents {
  import opened Bytes
  import opened Tree
  import KH = KernelHeap
  import B = Blocks

  // A node's data pointer is null, or the payload of a live block with room for the contents
  // and a terminator.
  ghost predicate HeldOk(bs: seq<B.Blk>, n: Node) {
    if n.data == 0 then n.size == 0
    else
      && n.kind == File && B.LiveAt(bs, n.data)
      && bs[B.Find(bs, n.data - B.HDR)].size >= n.size + 1
  }

  // Every node's pointer is so, and no two nodes share a block.
  ghost predicate DataOk(ns: Nodes, bs: seq<B.Blk>) {
    && (forall i :: 0 <= i < |ns| ==> HeldOk(bs, ns[i]))
    && (forall i, j :: 0 <= i < j < |ns| && ns[i].data != 0 ==> ns[i].data != ns[j].data)
  }

  ghost function Stored(m: seq<byte>, n: Node): seq<byte> {
    if n.data == 0 || n.data + n.size > |m| then [] else KH.Part(m, n.data, n.size)
  }

  // The bytes of every node
  ghost function Files(ns: Nodes, m: seq<byte>): (r: seq<seq<byte>>)
    ensures |r| == |ns| && forall i :: 0 <= i < |ns| ==> r[i] == Stored(m, ns[i])
  {
    seq(|ns|, i requires 0 <= i < |ns| => Stored(m, ns[i]))
  }

  // Every node's contents are the same in both memories.
  ghost predicate SameAll(ns: Nodes, m: seq<byte>, m': seq<byte>) {
    forall i :: 0 <= i < |ns| ==> Stored(m', ns[i]) == Stored(m, ns[i])
  }

  // Every node's contents but node i's are the same in both memories.
  ghost predicate OthersSame(ns: Nodes, m: seq<byte>, m': seq<byte>, i: nat) {
    forall j :: 0 <= j < |ns| && j != i ==> Stored(m', ns[j]) == Stored(m, ns[j])
  }

  // Every live block but the one at ptr is kept, list and bytes.
  ghost predicate KeptBut(bs: seq<B.Blk>, bs': seq<B.Blk>, m: seq<byte>, m': seq<byte>, ptr: nat) {
    forall b :: b in bs && !b.free && B.Payload(b) != ptr ==> b in bs' && KH.PayloadKept(m, m', b)
  }

  // No node uses the block at ptr.
  ghost predicate Unused(ns: Nodes, ptr: nat) {
    forall j :: 0 <= j < |ns| && ns[j].data != 0 ==> ns[j].data != ptr
  }

  // A file node pointed at ptr with size |buf| would hold exactly buf.
  ghost predicate Filled(bs: seq<B.Blk>, m: seq<byte>, ptr: nat, buf: seq<byte>) {
    forall n: Node :: n.kind == File && n.data == ptr && n.size == |buf| ==> HeldOk(bs, n) && Stored(m, n) == buf
  }

  lemma SameBytes(m: seq<byte>, m': seq<byte>, b: B.Blk, n: Node)
    requires KH.PayloadKept(m, m', b) && B.Payload(b) == n.data && n.size <= b.size
    ensures Stored(m', n) == Stored(m, n)
  {
    if n.data + n.size <= |m| { KH.PartKept(m, m', b, n.size); }
  }

  // One node across a heap operation that keeps live blocks
  lemma HeldKept(h: B.Heap, h': B.Heap, m: seq<byte>, m': seq<byte>, n: Node)
    requires HeldOk(h.blocks, n) && B.KeepsLive(h, h') && B.Separate(h'.blocks) && KH.LiveKept(m, m', h.blocks)
    ensures HeldOk(h'.blocks, n) && Stored(m', n) == Stored(m, n)
  {
    if n.data != 0 {
      var k := B.Find(h.blocks, n.data - B.HDR);
      B.StillLive(h, h', n.data);
      assert KH.PayloadKept(m, m', h.blocks[k]);
      SameBytes(m, m', h.blocks[k], n);
    }
  }

  lemma AllKept(ns: Nodes, h: B.Heap, h': B.Heap, m: seq<byte>, m': seq<byte>)
    requires DataOk(ns, h.blocks) && B.KeepsLive(h, h') && B.Separate(h'.blocks) && KH.LiveKept(m, m', h.blocks)
    ensures DataOk(ns, h'.blocks)
    ensures SameAll(ns, m, m')
  {
    forall i | 0 <= i < |ns| ensures HeldOk(h'.blocks, ns[i]) && Stored(m', ns[i]) == Stored(m, ns[i]) {
      HeldKept(h, h', m, m', ns[i]);
    }
  }

  // One node's bytes across the release of another's block
  lemma StoredPastFree(bs: seq<B.Blk>, bs': seq<B.Blk>, m: seq<byte>, m': seq<byte>, ptr: nat, n: Node)
    requires HeldOk(bs, n) && n.data != ptr && KeptBut(bs, bs', m, m', ptr)
    ensures Stored(m', n) == Stored(m, n)
  {
    if n.data != 0 { SameBytes(m, m', bs[B.Find(bs, n.data - B.HDR)], n); }
  }

  // And its block
  lemma HeldPastFree(bs: seq<B.Blk>, bs': seq<B.Blk>, m: seq<byte>, m': seq<byte>, ptr: nat, n: Node)
    requires HeldOk(bs, n) && n.data != ptr && B.Separate(bs') && KeptBut(bs, bs', m, m', ptr)
    ensures HeldOk(bs', n)
  {
    if n.data != 0 {
      var b := bs[B.Find(bs, n.data - B.HDR)];
      assert b in bs';
      var j :| 0 <= j < |bs'| && bs'[j] == b;
      B.FindIs(bs', j);
    }
  }

  // Node i's block was released: the bytes of the others are what they were.
  lemma OthersStored(ns: Nodes, i: nat, bs: seq<B.Blk>, bs': seq<B.Blk>, m: seq<byte>, m': seq<byte>)
    requires i < |ns| && DataOk(ns, bs) && KeptBut(bs, bs', m, m', ns[i].data)
    ensures OthersSame(ns, m, m', i)
  {
    forall j | 0 <= j < |ns| && j != i ensures Stored(m', ns[j]) == Stored(m, ns[j]) {
      assert HeldOk(bs, ns[j]);
      if ns[j].data != 0 { StoredPastFree(bs, bs', m, m', ns[i].data, ns[j]); }
    }
  }

  // With a cleared or fresh pointer there, all is well again.
  lemma FreedOk(ns: Nodes, i: nat, bs: seq<B.Blk>, bs': seq<B.Blk>, m: seq<byte>, m': seq<byte>, n': Node)
    requires i < |ns| && DataOk(ns, bs) && B.Separate(bs')
    requires KeptBut(bs, bs', m, m', ns[i].data)
    requires HeldOk(bs', n')
    requires n'.data != 0 ==> forall j :: 0 <= j < |ns| && j != i ==> ns[j].data != n'.data
    ensures DataOk(ns[i := n'], bs')
    ensures OthersSame(ns, m, m', i)
  {
    OthersStored(ns, i, bs, bs', m, m');
    forall j | 0 <= j < |ns| && j != i ensures HeldOk(bs', ns[j]) {
      assert HeldOk(bs, ns[j]);
      if ns[j].data != 0 { HeldPastFree(bs, bs', m, m', ns[i].data, ns[j]); }
    }
  }

  // A block just granted is no node's.
  lemma FreshPointer(ns: Nodes, h: B.Heap, ptr: nat)
    requires DataOk(ns, h.blocks) && B.NotLive(h, ptr)
    ensures Unused(ns, ptr)
  {
    forall j | 0 <= j < |ns| && ns[j].data != 0 ensures ns[j].data != ptr {
      assert HeldOk(h.blocks, ns[j]);
      var k := B.Find(h.blocks, ns[j].data - B.HDR);
      assert B.Payload(h.blocks[k]) == ns[j].data;
    }
  }

  // What is granted can be held.
  lemma GrantedHeld(h: B.Heap, ptr: nat, n: nat, node: Node)
    requires B.Granted(h, ptr, n) && B.Separate(h.blocks) && node.kind == File && node.data == ptr != 0
    requires node.size + 1 <= n
    ensures HeldOk(h.blocks, node)
  {
    var k :| 0 <= k < |h.blocks| && B.Payload(h.blocks[k]) == ptr && !h.blocks[k].free && h.blocks[k].size >= n;
    B.FindIs(h.blocks, k);
  }

  // The state of the array after node i dropped its block (if any) and became n'
  lemma SwapOk(ns: Nodes, i: nat, bs: seq<B.Blk>, bs': seq<B.Blk>, m: seq<byte>, m': seq<byte>,
               ptr: nat, buf: seq<byte>, n': Node)
    requires i < |ns| && DataOk(ns, bs) && KeptBut(bs, bs', m, m', ns[i].data)
    requires Unused(ns, ptr) && Filled(bs, m, ptr, buf)
    requires n'.kind == File && n'.data == ptr != 0 && n'.size == |buf|
    ensures Stored(m', n') == buf && OthersSame(ns, m, m', i)
    ensures B.Separate(bs') ==> DataOk(ns[i := n'], bs')
  {
    StoredPastFree(bs, bs', m, m', ns[i].data, n');
    OthersStored(ns, i, bs, bs', m, m');
    if B.Separate(bs') {
      HeldPastFree(bs, bs', m, m', ns[i].data, n');
      FreedOk(ns, i, bs, bs', m, m', n');
    }
  }

  // Only node i's pointer, size and bytes may have changed.
  lemma OneFile(ns: Nodes, ns': Nodes, m: seq<byte>, m': seq<byte>, i: nat)
    requires i < |ns| == |ns'| && OthersSame(ns, m, m', i)
    requires forall j :: 0 <= j < |ns| && j != i ==> ns'[j].data == ns[j].data && ns'[j].size == ns[j].size
    ensures Files(ns', m') == Files(ns, m)[i := Stored(m', ns'[i])]
  {
    var (a, b) := (Files(ns', m'), Files(ns, m)[i := Stored(m', ns'[i])]);
    forall j | 0 <= j < |ns| ensures a[j] == b[j] {
      if j != i { assert Stored(m', ns'[j]) == Stored(m', ns[j]); }
    }
  }

  // One more node at most, and that one empty
  lemma GrownFiles(ns: Nodes, ns': Nodes, m: seq<byte>)
    requires |ns| <= |ns'| <= |ns| + 1
    requires forall i :: 0 <= i < |ns| ==> ns'[i].data == ns[i].data && ns'[i].size == ns[i].size
    requires forall i :: |ns| <= i < |ns'| ==> ns'[i].data == 0
    ensures Files(ns', m) == if |ns'| > |ns| then Files(ns, m) + [[]] else Files(ns, m)
  {
    forall i | 0 <= i < |ns| ensures Stored(m, ns'[i]) == Stored(m, ns[i]) {}
    var r := if |ns'| > |ns| then Files(ns, m) + [[]] else Files(ns, m);
    assert forall i :: 0 <= i < |ns'| ==> Files(ns', m)[i] == r[i];
  }

  // Relinking nodes moves no contents.
  ghost predicate SameData(ns: Nodes, ns': Nodes) {
    && |ns'| == |ns|
    && forall i :: 0 <= i < |ns| ==> ns'[i].data == ns[i].data && ns'[i].size == ns[i].size && ns'[i].kind == ns[i].kind
  }

  lemma SameDataOk(ns: Nodes, ns': Nodes, bs: seq<B.Blk>)
    requires DataOk(ns, bs) && SameData(ns, ns')
    ensures DataOk(ns', bs)
  {
    forall i | 0 <= i < |ns'| ensures HeldOk(bs, ns'[i]) { assert HeldOk(bs, ns[i]); }
  }

  lemma SameFiles(ns: Nodes, ns': Nodes, m: seq<byte>)
    requires SameData(ns, ns')
    ensures Files(ns', m) == Files(ns, m)
  {
    forall i | 0 <= i < |ns| ensures Stored(m, ns'[i]) == Stored(m, ns[i]) {}
    assert forall i :: 0 <= i < |ns| ==> Files(ns', m)[i] == Files(ns, m)[i];
  }

  lemma UnchainData(ns: Nodes, p: nat, n: nat)
    requires p < |ns| && n < |ns|
    ensures SameData(ns, Unchain(ns, p, n))
  {
  }

  // A new node owns nothing.
  lemma LinkData(ns: Nodes, p: nat, name: string, kind: Kind, mode: nat, bs: seq<B.Blk>)
    requires DataOk(ns, bs) && p < |ns|
    ensures DataOk(Link(ns, p, name, kind, mode), bs)
  {
    var ns' := Link(ns, p, name, kind, mode);
    forall i | 0 <= i < |ns'| ensures HeldOk(bs, ns'[i]) {
      if i < |ns| { assert HeldOk(bs, ns[i]); }
    }
  }

  // Node n drops its block and is cleared.
  lemma ClearOk(ns: Nodes, n: nat, bs: seq<B.Blk>, bs': seq<B.Blk>, m: seq<byte>, m': seq<byte>)
    requires n < |ns| && DataOk(ns, bs) && KeptBut(bs, bs', m, m', ns[n].data)
    ensures var ns' := ns[n := ns[n].(name := "", size := 0, data := 0)];
      && Files(ns', m') == Files(ns, m)[n := []] && (B.Separate(bs') ==> DataOk(ns', bs'))
  {
    var n' := ns[n].(name := "", size := 0, data := 0);
    OthersStored(ns, n, bs, bs', m, m');
    OneFile(ns, ns[n := n'], m, m', n);
    if B.Separate(bs') { FreedOk(ns, n, bs, bs', m, m', n'); }
  }
}
