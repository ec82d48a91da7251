/** The kernel heap in memory: block headers are bytes in the arenas they describe, linked
    into a list. Each method computes the operation of the same name in Blocks.dfy and
    writes nothing but headers, so live payloads are never disturbed. */
module KernelHeap {
  import opened Bytes
  import opened Pages
  import opened Blocks
  import Pmm

  const MAGIC: nat := 0x48_3341_4C4C_4F43

  // ----- a header in memory: magic, size, free, next, prev at offsets 0, 8, 16, 24, 32 -----

  datatype Hdr = Hdr(magic: nat, size: nat, free: bool, next: nat, prev: nat)

  function ReadHdr(m: seq<byte>, a: nat): Hdr
    requires a + HDR <= |m|
  {
    Hdr(Get(m, a, 8), Get(m, a + 8, 8), m[a + 16] != 0, Get(m, a + 24, 8), Get(m, a + 32, 8))
  }

  datatype Field = MagicF | SizeF | NextF | PrevF

  function Offset(f: Field): nat {
    match f case MagicF => 0 case SizeF => 8 case NextF => 24 case PrevF => 32
  }

  function With(h: Hdr, f: Field, v: nat): Hdr {
    match f
    case MagicF => h.(magic := v)
    case SizeF => h.(size := v)
    case NextF => h.(next := v)
    case PrevF => h.(prev := v)
  }

  lemma HdrFrame(m: seq<byte>, m': seq<byte>, a: nat)
    requires a + HDR <= |m| && |m'| == |m|
    requires forall i :: a <= i < a + HDR ==> m'[i] == m[i]
    ensures ReadHdr(m', a) == ReadHdr(m, a)
  {
    GetFrame(m, m', a, 8);
    GetFrame(m, m', a + 8, 8);
    GetFrame(m, m', a + 24, 8);
    GetFrame(m, m', a + 32, 8);
  }

  // A word written at offset o leaves the word at offset p and the flag alone.
  lemma FieldKept(m: seq<byte>, a: nat, o: nat, v: nat, p: nat)
    requires a + HDR <= |m| && o + 8 <= HDR && p + 8 <= HDR && (o + 8 <= p || p + 8 <= o)
    ensures Get(Put(m, a + o, 8, v), a + p, 8) == Get(m, a + p, 8)
  {
    GetFrame(m, Put(m, a + o, 8, v), a + p, 8);
  }

  lemma WordWritten(m: seq<byte>, a: nat, f: Field, v: nat)
    requires a + HDR <= |m| && v < U64
    ensures ReadHdr(Put(m, a + Offset(f), 8, v), a) == With(ReadHdr(m, a), f, v)
  {
    WordSizes();
    GetPutFits(m, a + Offset(f), 8, v);
    OthersKept(m, a, Offset(f), v);
  }

  lemma OthersKept(m: seq<byte>, a: nat, o: nat, v: nat)
    requires a + HDR <= |m| && (o == 0 || o == 8 || o == 24 || o == 32)
    ensures var m' := Put(m, a + o, 8, v);
      && (o != 0 ==> Get(m', a, 8) == Get(m, a, 8))
      && (o != 8 ==> Get(m', a + 8, 8) == Get(m, a + 8, 8))
      && (o != 24 ==> Get(m', a + 24, 8) == Get(m, a + 24, 8))
      && (o != 32 ==> Get(m', a + 32, 8) == Get(m, a + 32, 8))
      && m'[a + 16] == m[a + 16]
  {
    if o != 0 { FieldKept(m, a, o, v, 0); }
    if o != 8 { FieldKept(m, a, o, v, 8); }
    if o != 24 { FieldKept(m, a, o, v, 24); }
    if o != 32 { FieldKept(m, a, o, v, 32); }
  }

  lemma FlagWritten(m: seq<byte>, a: nat, v: byte)
    requires a + HDR <= |m|
    ensures ReadHdr(m[a + 16 := v], a) == ReadHdr(m, a).(free := v != 0)
  {
    var m' := m[a + 16 := v];
    GetFrame(m, m', a, 8);
    GetFrame(m, m', a + 8, 8);
    GetFrame(m, m', a + 24, 8);
    GetFrame(m, m', a + 32, 8);
  }

  // ----- the list in memory -----

  // The address of block i, or null off either end
  function AddrAt(bs: seq<Blk>, i: int): nat {
    if 0 <= i < |bs| then bs[i].addr else 0
  }

  ghost predicate Node(m: seq<byte>, bs: seq<Blk>, i: nat)
    requires i < |bs|
  {
    && bs[i].addr + HDR <= |m|
    && ReadHdr(m, bs[i].addr) == Hdr(MAGIC, bs[i].size, bs[i].free, AddrAt(bs, i + 1), AddrAt(bs, i - 1))
  }

  ghost predicate Linked(m: seq<byte>, head: nat, bs: seq<Blk>) {
    && head == AddrAt(bs, 0)
    && forall i :: 0 <= i < |bs| ==> Node(m, bs, i)
  }

  // Only header bytes of the listed blocks differ.
  ghost predicate OnlyHeaders(m: seq<byte>, m': seq<byte>, bs: seq<Blk>) {
    && |m'| == |m|
    && forall i :: 0 <= i < |m| && m'[i] != m[i] ==> exists k :: 0 <= k < |bs| && bs[k].addr <= i < bs[k].addr + HDR
  }

  // Every payload byte of b is the same in both memories.
  ghost predicate PayloadKept(m: seq<byte>, m': seq<byte>, b: Blk) {
    && |m'| == |m|
    && forall i :: Payload(b) <= i < End(b) && i < |m| ==> m'[i] == m[i]
  }

  // kfree takes the pointer for none it may free: the header before it lacks the magic number
  // or says free.
  predicate Refused(m: seq<byte>, ptr: nat) {
    HDR <= ptr <= |m| && (ReadHdr(m, ptr - HDR).magic != MAGIC || ReadHdr(m, ptr - HDR).free)
  }

  // No two headers overlap, whatever the sizes in them say.
  ghost predicate HeadersApart(bs: seq<Blk>) {
    forall i, j :: 0 <= i < j < |bs| ==> HdrApart(bs[i].addr, bs[j].addr)
  }

  lemma SeparateHeaders(bs: seq<Blk>)
    requires Separate(bs)
    ensures HeadersApart(bs)
  {
    forall i, j | 0 <= i < j < |bs| ensures HdrApart(bs[i].addr, bs[j].addr) { assert Apart(bs[i], bs[j]); }
  }

  // The sizes that the merges of a free add up fit their words.
  ghost predicate MergesFit(bs: seq<Blk>, i: nat)
    requires i < |bs|
  {
    && (i + 1 < |bs| && bs[i + 1].free ==> bs[i].size + HDR + bs[i + 1].size < U64)
    && (i > 0 && bs[i - 1].free ==> bs[i - 1].size + HDR + MergeNext(bs, i)[i].size < U64)
  }

  // Blocks that are apart add up to no more than the memory they lie in.
  lemma ApartFits(a: Blk, b: Blk, c: Blk, limit: nat)
    requires Apart(a, b) && Apart(b, c) && Apart(a, c) && End(a) <= limit && End(b) <= limit && End(c) <= limit
    ensures a.size + HDR + b.size + HDR + c.size < limit
  {
  }

  lemma SeparateFits(bs: seq<Blk>, i: nat, pages: Pages, limit: nat)
    requires i < |bs| && Separate(bs) && limit < U64
    requires forall j :: 0 <= j < |bs| ==> BlkOk(bs[j], pages, limit)
    ensures MergesFit(bs[i := bs[i].(free := true)], i)
  {
    var b1 := bs[i := bs[i].(free := true)];
    assert BlkOk(bs[i], pages, limit);
    if i + 1 < |bs| { assert BlkOk(bs[i + 1], pages, limit) && Apart(bs[i], bs[i + 1]); }
    if i > 0 { assert BlkOk(bs[i - 1], pages, limit) && Apart(bs[i - 1], bs[i]); }
    if i > 0 && i + 1 < |bs| {
      assert Apart(bs[i - 1], bs[i + 1]);
      ApartFits(bs[i - 1], bs[i], bs[i + 1], limit);
    }
    assert MergeNext(b1, i)[i].size ==
      if i + 1 < |bs| && bs[i + 1].free then bs[i].size + HDR + bs[i + 1].size else bs[i].size;
  }

  lemma HeadersMissPayload(m: seq<byte>, m': seq<byte>, bs: seq<Blk>, b: Blk)
    requires OnlyHeaders(m, m', bs) && Separate(bs) && b in bs
    ensures PayloadKept(m, m', b)
  {
    var k :| 0 <= k < |bs| && bs[k] == b;
    forall i | Payload(b) <= i < End(b) && i < |m| ensures m'[i] == m[i] {
      NoHeaderIn(bs, k, i);
    }
  }

  lemma NoHeaderIn(bs: seq<Blk>, k: nat, i: nat)
    requires Separate(bs) && k < |bs| && Payload(bs[k]) <= i < End(bs[k])
    ensures forall j :: 0 <= j < |bs| ==> !(bs[j].addr <= i < bs[j].addr + HDR)
  {
    forall j | 0 <= j < |bs| ensures !(bs[j].addr <= i < bs[j].addr + HDR) {
      assert j < k ==> Apart(bs[j], bs[k]);
      assert k < j ==> Apart(bs[k], bs[j]);
    }
  }

  // The bytes of m, with data stored at a
  function WithBytes(m: seq<byte>, a: nat, data: seq<byte>): (r: seq<byte>)
    requires a + |data| <= |m|
    ensures |r| == |m| && r[a..a + |data|] == data
    ensures forall i :: 0 <= i < |m| && !(a <= i < a + |data|) ==> r[i] == m[i]
  {
    m[..a] + data + m[a + |data|..]
  }

  function Part(m: seq<byte>, a: nat, n: nat): (r: seq<byte>)
    requires a + n <= |m|
    ensures |r| == n
  {
    m[a..a + n]
  }

  lemma PartKept(m: seq<byte>, m': seq<byte>, b: Blk, n: nat)
    requires PayloadKept(m, m', b) && n <= b.size && Payload(b) + n <= |m|
    ensures Part(m', Payload(b), n) == Part(m, Payload(b), n)
  {
  }

  // Bytes stored inside one payload disturb no header and no other payload.
  lemma StoreKeepsList(m: seq<byte>, head: nat, bs: seq<Blk>, k: nat, a: nat, data: seq<byte>)
    requires Linked(m, head, bs) && Separate(bs) && k < |bs|
    requires Payload(bs[k]) <= a && a + |data| <= End(bs[k]) <= |m|
    ensures Linked(WithBytes(m, a, data), head, bs)
    ensures forall j :: 0 <= j < |bs| && j != k ==> PayloadKept(m, WithBytes(m, a, data), bs[j])
  {
    var m' := WithBytes(m, a, data);
    forall j | 0 <= j < |bs| ensures Node(m', bs, j) && (j != k ==> PayloadKept(m, m', bs[j])) {
      assert Node(m, bs, j);
      assert j < k ==> Apart(bs[j], bs[k]);
      assert k < j ==> Apart(bs[k], bs[j]);
      HdrFrame(m, m', bs[j].addr);
    }
  }

  class Heap {
    var mem: seq<byte>          // physical memory
    var heapHead: nat           // 0 is the null pointer
    var heapUsed: int
    var heapTotal: nat
    var heapAllocs: nat
    const pmm: Pmm.Allocator
    ghost var blocks: seq<Blk>

    constructor (mem: seq<byte>, pmm: Pmm.Allocator)
      ensures this.mem == mem && this.pmm == pmm
    {
      this.mem, this.pmm := mem, pmm;
      heapHead, heapUsed, heapTotal, heapAllocs, blocks := 0, 0, 0, 0, [];
    }

    ghost function Abs(): (h: Blocks.Heap)
      requires pmm.Valid()
      reads this, pmm, pmm.bitmap
      ensures h.pages.Valid()
    {
      Blocks.Heap(blocks, heapUsed, heapTotal, heapAllocs, pmm.Abs())
    }

    // Memory holds the list, wherever its blocks lie.
    ghost predicate Intact()
      reads this, pmm, pmm.bitmap
    {
      pmm.Valid() && Linked(mem, heapHead, blocks)
    }

    ghost predicate Valid()
      reads this, pmm, pmm.bitmap
    {
      Intact() && Inv(Abs(), |mem|)
    }

    // ----- writing one field of a header -----

    method SetWord(a: nat, f: Field, v: nat)
      requires a + HDR <= |mem| && v < U64
      modifies this`mem
      ensures |mem| == |old(mem)|
      ensures ReadHdr(mem, a) == With(old(ReadHdr(mem, a)), f, v)
      ensures forall c: nat :: c + HDR <= |mem| && (c + HDR <= a || a + HDR <= c) ==>
        ReadHdr(mem, c) == old(ReadHdr(mem, c))
      ensures forall i :: 0 <= i < |mem| && !(a <= i < a + HDR) ==> mem[i] == old(mem)[i]
    {
      WordWritten(mem, a, f, v);
      mem := Put(mem, a + Offset(f), 8, v);
      forall c: nat | c + HDR <= |mem| && (c + HDR <= a || a + HDR <= c)
        ensures ReadHdr(mem, c) == old(ReadHdr(mem, c))
      {
        HdrFrame(old(mem), mem, c);
      }
    }

    method SetFree(a: nat, free: bool)
      requires a + HDR <= |mem|
      modifies this`mem
      ensures |mem| == |old(mem)|
      ensures ReadHdr(mem, a) == old(ReadHdr(mem, a)).(free := free)
      ensures forall c: nat :: c + HDR <= |mem| && (c + HDR <= a || a + HDR <= c) ==>
        ReadHdr(mem, c) == old(ReadHdr(mem, c))
      ensures forall i :: 0 <= i < |mem| && !(a <= i < a + HDR) ==> mem[i] == old(mem)[i]
    {
      var v: byte := if free then 1 else 0;
      FlagWritten(mem, a, v);
      mem := mem[a + 16 := v];
      forall c: nat | c + HDR <= |mem| && (c + HDR <= a || a + HDR <= c)
        ensures ReadHdr(mem, c) == old(ReadHdr(mem, c))
      {
        HdrFrame(old(mem), mem, c);
      }
    }

    // ----- surgery on the list -----

    // Fill in a whole header.
    method NewHdr(n: nat, size: nat, next: nat, prev: nat)
      requires n + HDR <= |mem| < U64 && size < U64 && next < U64 && prev < U64
      modifies this`mem
      ensures |mem| == |old(mem)|
      ensures ReadHdr(mem, n) == Hdr(MAGIC, size, true, next, prev)
      ensures SameBut(old(mem), mem, n, n, 0)
    {
      SetWord(n, MagicF, MAGIC);
      SetWord(n, SizeF, size);
      SetFree(n, true);
      SetWord(n, NextF, next);
      SetWord(n, PrevF, prev);
    }

    // The header writes of a split, as one step
    method LinkNew(b: nat, n: nat, size: nat, rest: nat, next: nat)
      requires b + HDR <= n && n + HDR <= |mem| < U64 && size < U64 && rest < U64
      requires next + HDR <= |mem|
      requires next == 0 || (HdrApart(next, b) && HdrApart(next, n))
      modifies this`mem
      ensures |mem| == |old(mem)|
      ensures ReadHdr(mem, n) == Hdr(MAGIC, rest, true, next, b)
      ensures ReadHdr(mem, b) == old(ReadHdr(mem, b)).(next := n, size := size)
      ensures next != 0 ==> ReadHdr(mem, next) == old(ReadHdr(mem, next)).(prev := n)
      ensures SameBut(old(mem), mem, b, n, next)
    {
      NewHdr(n, rest, next, b);
      if next != 0 { SetWord(next, PrevF, n); }
      SetWord(b, NextF, n);
      SetWord(b, SizeF, size);
    }

    // Carve a free header for the rest of block i off its tail.
    method Split(b: nat, size: nat, ghost i: nat)
      requires Linked(mem, heapHead, blocks) && i < |blocks| && b == blocks[i].addr
      requires blocks[i].free && blocks[i].size >= size + HDR + MIN
      requires End(blocks[i]) <= |mem| < U64
      requires Separate(blocks) && forall o :: 0 <= o < |blocks| ==> blocks[o].addr > 0
      modifies this`mem, this`blocks
      ensures blocks == SplitBlocks(old(blocks), i, size)
      ensures Linked(mem, heapHead, blocks) && OnlyHeaders(old(mem), mem, blocks)
    {
      ghost var bs, m0 := blocks, mem;
      var n := b + HDR + size;
      assert Node(mem, blocks, i);
      var rest := ReadHdr(mem, b).size - size - HDR;
      var next := ReadHdr(mem, b).next;
      if next != 0 {
        assert i + 1 < |bs| && Node(m0, bs, i + 1);
        assert Apart(bs[i], bs[i + 1]);
      }
      LinkNew(b, n, size, rest, next);
      blocks := SplitBlocks(bs, i, size);
      SplitLinked(m0, mem, heapHead, bs, i, size);
      SplitOnlyHeaders(m0, mem, bs, i, size);
    }

    method Flip(b: nat, free: bool, ghost i: nat)
      requires Linked(mem, heapHead, blocks) && i < |blocks| && b == blocks[i].addr
      requires Separate(blocks)
      modifies this`mem, this`blocks
      ensures blocks == old(blocks)[i := old(blocks)[i].(free := free)]
      ensures Linked(mem, heapHead, blocks) && OnlyHeaders(old(mem), mem, blocks)
    {
      ghost var bs, m0 := blocks, mem;
      assert Node(mem, blocks, i);
      SetFree(b, free);
      blocks := bs[i := bs[i].(free := free)];
      forall j | 0 <= j < |blocks| ensures Node(mem, blocks, j) {
        assert Node(m0, bs, j);
        assert j < i ==> Apart(bs[j], bs[i]);
        assert i < j ==> Apart(bs[i], bs[j]);
      }
      assert blocks[i].addr == b;
    }

    // The header writes of a merge, as one step: x's successor y leaves the list.
    method Unlink(x: nat, y: nat)
      requires x + HDR <= |mem| && y + HDR <= |mem| < U64 && HdrApart(x, y)
      requires ReadHdr(mem, x).next == y
      requires ReadHdr(mem, x).size + HDR + ReadHdr(mem, y).size < U64
      requires var next := ReadHdr(mem, y).next;
        next + HDR <= |mem| && (next == 0 || (HdrApart(next, x) && HdrApart(next, y)))
      modifies this`mem
      ensures |mem| == |old(mem)|
      ensures var (hx, hy) := (old(ReadHdr(mem, x)), old(ReadHdr(mem, y)));
        && ReadHdr(mem, x) == hx.(size := hx.size + HDR + hy.size, next := hy.next)
        && (hy.next != 0 ==> ReadHdr(mem, hy.next) == old(ReadHdr(mem, hy.next)).(prev := x))
        && SameBut(old(mem), mem, x, x, hy.next)
    {
      SetWord(x, SizeF, ReadHdr(mem, x).size + HDR + ReadHdr(mem, y).size);
      SetWord(x, NextF, ReadHdr(mem, y).next);
      var next := ReadHdr(mem, x).next;
      if next != 0 { SetWord(next, PrevF, x); }
    }

    // x absorbs its successor in the list, wherever that lies.
    method Absorb(x: nat, ghost k: nat)
      requires Linked(mem, heapHead, blocks) && k + 1 < |blocks| && x == blocks[k].addr
      requires HeadersApart(blocks) && blocks[k].size + HDR + blocks[k + 1].size < U64 && |mem| < U64
      requires forall j :: 0 <= j < |blocks| ==> blocks[j].addr > 0
      modifies this`mem, this`blocks
      ensures blocks == Merge(old(blocks), k)
      ensures Linked(mem, heapHead, blocks) && OnlyHeaders(old(mem), mem, old(blocks))
      ensures old(blocks)[k + 1].addr + HDR <= |mem|
      ensures ReadHdr(mem, old(blocks)[k + 1].addr) == old(ReadHdr(mem, blocks[k + 1].addr))
    {
      ghost var bs, m0 := blocks, mem;
      assert Node(m0, bs, k) && Node(m0, bs, k + 1);
      if k + 2 < |bs| { assert Node(m0, bs, k + 2); }
      Unlink(x, ReadHdr(mem, x).next);
      blocks := Merge(bs, k);
      MergeLinked(m0, mem, heapHead, bs, k);
      MergeOnlyHeaders(m0, mem, bs, k);
    }

    // The first half of coalesce: absorb the successor if it is free.
    method CoalesceNext(b: nat, ghost i: nat)
      requires Linked(mem, heapHead, blocks) && i < |blocks| && b == blocks[i].addr
      requires HeadersApart(blocks) && MergesFit(blocks, i) && |mem| < U64
      requires forall j :: 0 <= j < |blocks| ==> blocks[j].addr > 0
      modifies this`mem, this`blocks
      ensures blocks == MergeNext(old(blocks), i) && Linked(mem, heapHead, blocks)
      ensures OnlyHeaders(old(mem), mem, old(blocks))
    {
      assert Node(mem, blocks, i);
      if i + 1 < |blocks| { assert Node(mem, blocks, i + 1); }
      var next := ReadHdr(mem, b).next;
      if next != 0 && ReadHdr(mem, next).free { Absorb(b, i); }
    }

    // The second half: be absorbed by the predecessor if it is free.
    method CoalescePrev(b: nat, ghost i: nat)
      requires Linked(mem, heapHead, blocks) && i < |blocks| && b == blocks[i].addr
      requires HeadersApart(blocks) && |mem| < U64
      requires i > 0 && blocks[i - 1].free ==> blocks[i - 1].size + HDR + blocks[i].size < U64
      requires forall j :: 0 <= j < |blocks| ==> blocks[j].addr > 0
      modifies this`mem, this`blocks
      ensures blocks == MergePrev(old(blocks), i) && Linked(mem, heapHead, blocks)
      ensures OnlyHeaders(old(mem), mem, old(blocks))
      ensures old(blocks)[i].free ==> Refused(mem, b + HDR)
    {
      assert Node(mem, blocks, i);
      if i > 0 { assert Node(mem, blocks, i - 1); }
      var prev := ReadHdr(mem, b).prev;
      if prev != 0 && ReadHdr(mem, prev).free { Absorb(prev, i - 1); }
    }

    // Merge the block at b, just freed, with its list neighbours, wherever they lie.
    method CoalesceAt(b: nat, ghost i: nat)
      requires Linked(mem, heapHead, blocks) && i < |blocks| && b == blocks[i].addr
      requires Separate(blocks) && MergesFit(blocks, i) && |mem| < U64
      requires forall j :: 0 <= j < |blocks| ==> blocks[j].addr > 0
      modifies this`mem, this`blocks
      ensures blocks == Coalesce(old(blocks), i) && Linked(mem, heapHead, blocks)
      ensures LiveKept(old(mem), mem, old(blocks))
      ensures old(blocks)[i].free ==> Refused(mem, b + HDR)
    {
      ghost var b0, m0 := blocks, mem;
      SeparateHeaders(b0);
      MergeHeaders(b0, i);
      CoalesceNext(b, i);
      ghost var m1 := mem;
      CoalescePrev(b, i);
      OnlyHeadersChain(m0, m1, mem, b0, MergeNext(b0, i));
      OnlyHeadersLive(m0, mem, b0);
    }

    // ----- the interface -----

    method HeapAddRegion(addr: nat, size: nat)
      requires Linked(mem, heapHead, blocks) && addr > 0 && addr + size <= |mem| < U64
      requires Separate(blocks) && forall j :: 0 <= j < |blocks| ==> blocks[j].addr > 0
      requires forall j :: 0 <= j < |blocks| ==> End(blocks[j]) <= addr || addr + size <= blocks[j].addr
      modifies this`mem, this`blocks, this`heapHead, this`heapTotal
      ensures size < HDR + MIN ==> blocks == old(blocks) && heapTotal == old(heapTotal)
      ensures size >= HDR + MIN ==>
        blocks == [Blk(addr, size - HDR, true)] + old(blocks) && heapTotal == old(heapTotal) + size
      ensures Linked(mem, heapHead, blocks) && |mem| == |old(mem)|
      ensures LiveKept(old(mem), mem, old(blocks))
    {
      if size < HDR + MIN { return; }
      ghost var bs, m0 := blocks, mem;
      if bs != [] { assert Node(mem, bs, 0); }
      NewHdr(addr, size - HDR, heapHead, 0);
      if heapHead != 0 { SetWord(heapHead, PrevF, addr); }
      RegionLinked(m0, mem, heapHead, bs, addr, size);
      heapHead := addr;
      heapTotal := heapTotal + size;
      blocks := [Blk(addr, size - HDR, true)] + bs;
    }

    method HeapInit(arena: nat)
      requires pmm.Valid() && 0 !in pmm.Abs().free && pmm.Abs().total * PAGE_SIZE <= |mem| < U64
      requires arena > 0 && arena % 16 == 0 && arena + EARLY_HEAP <= |mem|
      requires forall p :: p in pmm.Abs().free ==>
        arena + EARLY_HEAP <= p * PAGE_SIZE || (p + 1) * PAGE_SIZE <= arena
      modifies this
      ensures Valid() && Abs() == InitHeap(arena, pmm.Abs()) && |mem| == |old(mem)|
    {
      heapHead, heapUsed, heapTotal, heapAllocs, blocks := 0, 0, 0, 0, [];
      InitOk(arena, pmm.Abs(), |mem|);
      HeapAddRegion(arena, EARLY_HEAP);
    }

    method HeapGetStats() returns (total: nat, used: int, free: int)
      requires Valid()
      ensures total == SumAll(blocks) && used == SumUsed(blocks) && free + used == total
    {
      UsedFits(blocks);
      total, used := heapTotal, heapUsed;
      free := if heapTotal > heapUsed then heapTotal - heapUsed else 0;
    }

    method ExpandHeap(need: nat) returns (ok: bool)
      requires Valid() && need >= MIN
      modifies this, pmm, pmm.bitmap
      ensures Valid() && (Abs(), ok) == Expand(old(Abs()), need)
      ensures LiveKept(old(mem), mem, old(blocks))
    {
      ghost var h := Abs();
      ExpandOk(h, need, |mem|);
      var pages := GrowthPages(need);
      ok := GrowBy(pages);
    }

    method GrowBy(pages: nat) returns (ok: bool)
      requires Valid() && pages < U64
      modifies this, pmm, pmm.bitmap
      ensures pmm.Valid() && Linked(mem, heapHead, blocks) && |mem| == |old(mem)|
      ensures Abs() == Grow(old(Abs()), pages) && (ok <==> Alloc(old(Abs()).pages, pages).1 != 0)
      ensures LiveKept(old(mem), mem, old(blocks))
    {
      ghost var h := Abs();
      var phys := pmm.AllocPages(pages);
      if phys == 0 { return false; }
      AddPages(phys, pages, h);
      ok := true;
    }

    // Hand the pages just allocated to the heap as a region.
    method AddPages(phys: nat, pages: nat, ghost h: Blocks.Heap)
      requires pmm.Valid() && Inv(h, |mem|) && Linked(mem, heapHead, blocks)
      requires Abs() == h.(pages := pmm.Abs()) && (pmm.Abs(), phys) == Alloc(h.pages, pages) && phys != 0
      modifies this`mem, this`blocks, this`heapHead, this`heapTotal
      ensures Linked(mem, heapHead, blocks) && |mem| == |old(mem)| && Abs() == Grow(h, pages)
      ensures LiveKept(old(mem), mem, old(blocks))
    {
      RegionFree(h, phys, pages, |mem|);
      var size := pages * PAGE_SIZE;
      HeapAddRegion(phys, size);
      GrowIs(h, pages, pmm.Abs(), phys, size, Abs());
    }

    // One pass over the list for the first block that fits. A header without the magic
    // number is the corruption panic.
    method TakeFirstFit(size: nat) returns (ptr: nat, found: bool, panicked: bool)
      requires Valid() && size >= MIN && size % 8 == 0
      modifies this
      ensures Valid() && !panicked
      ensures var i := FirstFit(old(blocks), size);
        && found == (i < |old(blocks)|)
        && (found ==> (Abs(), ptr) == Take(old(Abs()), i, size))
        && (!found ==> Abs() == old(Abs()))
      ensures LiveKept(old(mem), mem, old(blocks))
    {
      ptr, found, panicked := 0, false, false;
      var b := heapHead;
      ghost var i := 0;
      while b != 0
        invariant !panicked && !found && i <= |blocks| && b == AddrAt(blocks, i)
        invariant forall j :: 0 <= j < i ==> !Fits(blocks[j], size)
        decreases |blocks| - i
      {
        assert Node(mem, blocks, i);
        var hdr := ReadHdr(mem, b);
        panicked := hdr.magic != MAGIC;
        if panicked { break; }
        if hdr.free && hdr.size >= size {
          FirstFitIs(blocks, size, i);
          TakeAt(b, size, i);
          return b + HDR, true, false;
        }
        b, i := hdr.next, i + 1;
      }
      ListEnd(blocks, i, pmm.Abs(), |mem|);
      FirstFitIs(blocks, size, i);
    }

    // Split block i if the rest is worth a header.
    method SplitIfLarge(b: nat, size: nat, ghost i: nat)
      requires Valid() && size >= MIN && size % 8 == 0
      requires i < |blocks| && b == blocks[i].addr && Fits(blocks[i], size)
      modifies this`mem, this`blocks
      ensures Linked(mem, heapHead, blocks) && Separate(blocks) && i < |blocks| && blocks[i].addr == b
      ensures blocks[i := blocks[i].(free := false)] == Take(old(Abs()), i, size).0.blocks
      ensures LiveKept(old(mem), mem, old(blocks))
    {
      ghost var h, m0 := Abs(), mem;
      assert Node(mem, blocks, i);
      if ReadHdr(mem, b).size >= size + HDR + MIN { Split(b, size, i); }
      SplitSeparate(h, i, size, |m0|, blocks);
      LiveThroughSplit(m0, mem, h.blocks, i, size, blocks);
    }

    // Mark block i as taken and count it.
    method Claim(b: nat, ghost i: nat)
      requires pmm.Valid() && Linked(mem, heapHead, blocks) && Separate(blocks)
      requires i < |blocks| && b == blocks[i].addr
      modifies this
      ensures |mem| == |old(mem)| && Linked(mem, heapHead, blocks)
      ensures blocks == old(blocks)[i := old(blocks)[i].(free := false)]
      ensures heapUsed == old(heapUsed) + old(blocks)[i].size && heapAllocs == old(heapAllocs) + 1
      ensures heapTotal == old(heapTotal) && LiveKept(old(mem), mem, blocks)
    {
      ghost var m1 := mem;
      Flip(b, false, i);
      OnlyHeadersLive(m1, mem, blocks);
      assert Node(mem, blocks, i);
      heapUsed := heapUsed + ReadHdr(mem, b).size;
      heapAllocs := heapAllocs + 1;
    }

    method TakeAt(b: nat, size: nat, ghost i: nat)
      requires Valid() && size >= MIN && size % 8 == 0
      requires i < |blocks| && b == blocks[i].addr && Fits(blocks[i], size)
      modifies this
      ensures Valid() && Abs() == Take(old(Abs()), i, size).0
      ensures LiveKept(old(mem), mem, old(blocks))
    {
      ghost var h, m0 := Abs(), mem;
      TakeOk(h, i, size, |mem|);
      SplitIfLarge(b, size, i);
      ghost var m1 := mem;
      Claim(b, i);
      LiveInTaken(m0, m1, mem, h, i, size);
      TakeIs(h, i, size, Abs());
    }

    // One attempt: a pass over the list, then growth if nothing fits.
    method Pass(n: nat) returns (ptr: nat, found: bool, grew: bool, panicked: bool)
      requires Valid() && n >= MIN && n % 8 == 0
      modifies this, pmm, pmm.bitmap
      ensures Valid() && !panicked && |mem| == |old(mem)|
      ensures KeepsLive(old(Abs()), Abs()) && LiveKept(old(mem), mem, old(blocks))
      ensures forall tries: nat :: tries > 0 ==>
        (Attempt(old(Abs()), n, tries) ==
         if found then (Abs(), ptr) else if !grew then (Abs(), 0) else Attempt(Abs(), n, tries - 1))
    {
      ghost var h, m := Abs(), mem;
      ptr, found, panicked := TakeFirstFit(n);
      grew := false;
      if found {
        TakeOk(h, FirstFit(h.blocks, n), n, |mem|);
      } else {
        ghost var m' := mem;
        ExpandOk(h, n, |mem|);
        grew := ExpandHeap(n);
        KeepsLiveSelf(h);
        LiveChain(h, h, m, m', mem);
      }
    }

    method Kmalloc(size: nat) returns (ptr: nat, panicked: bool)
      requires Valid() && size < U64
      modifies this, pmm, pmm.bitmap
      ensures Valid() && !panicked && |mem| == |old(mem)|
      ensures (Abs(), ptr) == Malloc(old(Abs()), size)
      ensures KeepsLive(old(Abs()), Abs())
      ensures ptr != 0 ==> Granted(Abs(), ptr, RoundUp(size)) && NotLive(old(Abs()), ptr)
      ensures LiveKept(old(mem), mem, old(blocks))
    {
      MallocOk(Abs(), size, |mem|);
      panicked := false;
      if size == 0 {
        AllSelf(blocks, mem);
        return 0, false;
      }
      var n := RoundUp(size);
      RoundUpOk(size);
      ptr, panicked := AllocRounded(n);
    }

    // kmalloc once the size is rounded: two passes at most
    method AllocRounded(n: nat) returns (ptr: nat, panicked: bool)
      requires Valid() && n >= MIN && n % 8 == 0
      modifies this, pmm, pmm.bitmap
      ensures Valid() && !panicked && |mem| == |old(mem)|
      ensures (Abs(), ptr) == Attempt(old(Abs()), n, 2)
      ensures KeepsLive(old(Abs()), Abs()) && LiveKept(old(mem), mem, old(blocks))
    {
      ghost var h0, m0 := Abs(), mem;
      KeepsLiveSelf(h0);
      AllSelf(blocks, mem);
      panicked := false;
      var attempt := 0;
      while attempt < 2
        invariant 0 <= attempt <= 2 && Valid() && !panicked && |mem| == |m0|
        invariant Attempt(h0, n, 2) == Attempt(Abs(), n, 2 - attempt)
        invariant KeepsLive(h0, Abs()) && LiveKept(m0, mem, h0.blocks)
      {
        ghost var h, m := Abs(), mem;
        var found, grew: bool;
        ptr, found, grew, panicked := Pass(n);
        LiveChain(h0, h, m0, m, mem);
        KeepsLiveTrans(h0, h, Abs());
        if found { return; }
        if !grew { return 0, panicked; }
        attempt := attempt + 1;
      }
      ptr := 0;
    }

    // Free the live block i and merge it.
    method Release(b: nat, size: nat, ghost i: nat)
      requires Valid() && i < |blocks| && b == blocks[i].addr && size == blocks[i].size
      requires !blocks[i].free
      modifies this`mem, this`blocks, this`heapUsed
      ensures Linked(mem, heapHead, blocks) && |mem| == |old(mem)|
      ensures blocks == Coalesce(old(blocks)[i := old(blocks)[i].(free := true)], i)
      ensures heapUsed == old(heapUsed) - size && Refused(mem, b + HDR)
      ensures forall x :: x in old(blocks) && !x.free && x.addr != b ==> PayloadKept(old(mem), mem, x)
    {
      ghost var bs, m0 := blocks, mem;
      FlipOk(blocks, i, pmm.Abs(), |mem|);
      Flip(b, true, i);
      ghost var b1, m1 := blocks, mem;
      OnlyHeadersLive(m0, m1, b1);
      heapUsed := heapUsed - size;
      SeparateFits(bs, i, pmm.Abs(), |mem|);
      CoalesceAt(b, i);
      LiveInFlipped(m0, m1, mem, bs, i);
    }

    // The list in memory is what the abstract free makes of it in any case; the heap stays
    // sound if the free crosses no seam. The header before the pointer reads as free from then
    // on, even where its block was merged into another: the same free again changes nothing.
    method Kfree(ptr: nat)
      requires Valid() && (ptr != 0 ==> Listed(Abs(), ptr) || Refused(mem, ptr))
      modifies this`mem, this`blocks, this`heapUsed
      ensures Intact() && Abs() == Blocks.Free(old(Abs()), ptr) && |mem| == |old(mem)|
      ensures FreeLegal(old(Abs()), ptr) ==> Valid()
      ensures ptr != 0 ==> Refused(mem, ptr)
      ensures Refused(old(mem), ptr) ==> Valid() && mem == old(mem) && Abs() == old(Abs())
      ensures forall b :: b in old(blocks) && !b.free && Payload(b) != ptr ==>
        b in blocks && PayloadKept(old(mem), mem, b)
    {
      AllSelf(blocks, mem);
      if ptr == 0 { return; }
      var b := ptr - HDR;
      ghost var i := Find(blocks, b);
      if i < |blocks| { assert Node(mem, blocks, i); }
      var hdr := ReadHdr(mem, b);
      if hdr.magic != MAGIC || hdr.free { return; }
      FreeLive(b, hdr.size, i);
    }

    // The rest of kfree for a live block
    method FreeLive(b: nat, size: nat, ghost i: nat)
      requires Valid() && i == Find(blocks, b) < |blocks| && size == blocks[i].size && !blocks[i].free
      modifies this`mem, this`blocks, this`heapUsed
      ensures Intact() && Abs() == Blocks.Free(old(Abs()), b + HDR) && |mem| == |old(mem)|
      ensures (SeamSafe(old(blocks), i) ==> Valid()) && Refused(mem, b + HDR)
      ensures forall x :: x in old(blocks) && !x.free && x.addr != b ==> x in blocks && PayloadKept(old(mem), mem, x)
    {
      ghost var h := Abs();
      FreeInv(h, b, i, |mem|);
      Release(b, size, i);
      FreeIs(h, b + HDR, i, Abs());
    }

    // memcpy and memset into a payload, by the heap or by the client that holds it
    method Store(a: nat, data: seq<byte>, ghost k: nat)
      requires Valid() && k < |blocks|
      requires Payload(blocks[k]) <= a && a + |data| <= End(blocks[k])
      modifies this`mem
      ensures Valid() && |mem| == |old(mem)| && a + |data| <= |mem| && Part(mem, a, |data|) == data
      ensures forall i :: 0 <= i < |mem| && !(a <= i < a + |data|) ==> mem[i] == old(mem)[i]
      ensures forall j :: 0 <= j < |blocks| && j != k ==> PayloadKept(old(mem), mem, blocks[j])
    {
      StoreKeepsList(mem, heapHead, blocks, k, a, data);
      mem := WithBytes(mem, a, data);
    }

    method Kcalloc(n: nat, size: nat) returns (ptr: nat)
      requires Valid() && n * size % U64 <= U64 - ALIGN
      modifies this, pmm, pmm.bitmap
      ensures Valid() && |mem| == |old(mem)|
      ensures (Abs(), ptr) == Malloc(old(Abs()), n * size % U64)
      ensures ptr != 0 ==> Granted(Abs(), ptr, n * size % U64) && ptr + n * size % U64 <= |mem|
      ensures ptr != 0 ==> forall i :: ptr <= i < ptr + n * size % U64 ==> mem[i] == 0
      ensures LiveKept(old(mem), mem, old(blocks))
    {
      ptr := AllocZeroed(n * size % U64);
    }

    method AllocZeroed(total: nat) returns (ptr: nat)
      requires Valid() && total <= U64 - ALIGN
      modifies this, pmm, pmm.bitmap
      ensures Valid() && |mem| == |old(mem)|
      ensures (Abs(), ptr) == Malloc(old(Abs()), total)
      ensures ptr != 0 ==> Granted(Abs(), ptr, total) && ptr + total <= |mem|
      ensures ptr != 0 ==> forall i :: ptr <= i < ptr + total ==> mem[i] == 0
      ensures LiveKept(old(mem), mem, old(blocks))
    {
      ghost var h0, m0 := Abs(), mem;
      var panicked: bool;
      ptr, panicked := Kmalloc(total);
      if ptr != 0 {
        RoundUpOk(total);
        ghost var m1 := mem;
        ghost var k :| 0 <= k < |blocks| && Payload(blocks[k]) == ptr && !blocks[k].free
                       && blocks[k].size >= RoundUp(total);
        Store(ptr, seq(total, i => 0), k);
        assert forall i :: ptr <= i < ptr + total ==> mem[i] == Part(mem, ptr, total)[i - ptr];
        KeptPastStore(m0, m1, mem, h0, Abs(), k);
      }
    }

    method Krealloc(ptr: nat, size: nat) returns (r: nat)
      requires Valid() && size <= U64 - ALIGN
      requires ptr != 0 ==> LiveAt(blocks, ptr)
      modifies this, pmm, pmm.bitmap
      ensures Intact() && |mem| == |old(mem)|
      ensures ReallocLegal(old(Abs()), ptr, size) ==> Valid()
      ensures (Abs(), r) == Realloc(old(Abs()), ptr, size)
      ensures ptr != 0 && r != 0 ==>
        var b := old(blocks)[Find(old(blocks), ptr - HDR)];
        r + b.size <= |mem| && Part(mem, r, b.size) == Part(old(mem), ptr, b.size)
      ensures ptr != 0 && size > 0 && r == 0 ==>
        var b := old(blocks)[Find(old(blocks), ptr - HDR)]; b in blocks && PayloadKept(old(mem), mem, b)
      ensures forall x :: x in old(blocks) && !x.free && Payload(x) != ptr ==> PayloadKept(old(mem), mem, x)
    {
      ghost var h0, m0 := Abs(), mem;
      var panicked: bool;
      if ptr == 0 {
        r, panicked := Kmalloc(size);
        return;
      }
      if size == 0 {
        Kfree(ptr);
        return 0;
      }
      ghost var i := Find(blocks, ptr - HDR);
      assert Node(mem, blocks, i) && BlkOk(blocks[i], pmm.Abs(), |mem|);
      var oldSize := ReadHdr(mem, ptr - HDR).size;
      if oldSize >= size {
        AllSelf(blocks, mem);
        return ptr;
      }
      r := MoveOut(ptr, size, oldSize, i);
    }

    // The growing half of krealloc: allocate, copy, free.
    method MoveOut(ptr: nat, size: nat, oldSize: nat, ghost i: nat) returns (r: nat)
      requires Valid() && 0 < oldSize < size <= U64 - ALIGN && LiveAt(blocks, ptr)
      requires i == Find(blocks, ptr - HDR) && blocks[i].size == oldSize
      modifies this, pmm, pmm.bitmap
      ensures Intact() && |mem| == |old(mem)|
      ensures (Malloc(old(Abs()), size).1 != 0 ==> FreeLegal(Malloc(old(Abs()), size).0, ptr)) ==> Valid()
      ensures var (h, p) := Malloc(old(Abs()), size);
        r == p && Abs() == (if p == 0 then h else Blocks.Free(h, ptr))
      ensures ptr + oldSize <= |mem|
      ensures r != 0 ==> r + oldSize <= |mem| && Part(mem, r, oldSize) == Part(old(mem), ptr, oldSize)
      ensures r == 0 ==> old(blocks)[i] in blocks && PayloadKept(old(mem), mem, old(blocks)[i])
      ensures forall x :: x in old(blocks) && !x.free && Payload(x) != ptr ==> PayloadKept(old(mem), mem, x)
    {
      ghost var h0, m0, b := Abs(), mem, blocks[i];
      assert BlkOk(b, pmm.Abs(), |mem|);
      RoundUpOk(size);
      var panicked: bool;
      r, panicked := Kmalloc(size);
      assert b in blocks && PayloadKept(m0, mem, b);
      if r == 0 { return; }
      StillLive(h0, Abs(), ptr);
      PartKept(m0, mem, b, oldSize);
      Move(r, ptr, oldSize, RoundUp(size), h0, m0);
      FreeAfterMove(ptr, r, oldSize, RoundUp(size), h0, m0);
    }

    method FreeAfterMove(ptr: nat, r: nat, len: nat, ghost n: nat, ghost h0: Blocks.Heap, ghost m0: seq<byte>)
      requires Valid() && Listed(Abs(), ptr) && Granted(Abs(), r, n) && len <= n && r != ptr
      requires KeepsLive(h0, Abs()) && LiveKept(m0, mem, h0.blocks)
      modifies this`mem, this`blocks, this`heapUsed
      ensures Intact() && Abs() == Blocks.Free(old(Abs()), ptr) && |mem| == |old(mem)|
      ensures FreeLegal(old(Abs()), ptr) ==> Valid()
      ensures r + len <= |mem| && Part(mem, r, len) == Part(old(mem), r, len)
      ensures forall x :: x in h0.blocks && !x.free && Payload(x) != ptr ==> PayloadKept(m0, mem, x)
    {
      ghost var h, m := Abs(), mem;
      Kfree(ptr);
      GrantKept(h, m, mem, r, n, len, ptr);
      KeptPastFree(h0, h, m0, m, mem, ptr);
    }

    // Copy len payload bytes from src to the block just granted at dst.
    method Move(dst: nat, src: nat, len: nat, ghost n: nat, ghost h0: Blocks.Heap, ghost m0: seq<byte>)
      requires Valid() && Granted(Abs(), dst, n) && len <= n && src + len <= |mem|
      requires KeepsLive(h0, Abs()) && NotLive(h0, dst) && LiveKept(m0, mem, h0.blocks)
      modifies this`mem
      ensures Valid() && |mem| == |old(mem)| && dst + len <= |mem|
      ensures Part(mem, dst, len) == Part(old(mem), src, len)
      ensures LiveKept(m0, mem, h0.blocks)
    {
      ghost var k :| 0 <= k < |blocks| && Payload(blocks[k]) == dst && !blocks[k].free && blocks[k].size >= n;
      assert BlkOk(blocks[k], pmm.Abs(), |mem|);
      ghost var m1 := mem;
      Store(dst, Part(mem, src, len), k);
      KeptPastStore(m0, m1, mem, h0, Abs(), k);
    }
  }

  // A store into a block that was not live in h0 spares every payload that was.
  lemma KeptPastStore(m0: seq<byte>, m1: seq<byte>, m2: seq<byte>, h0: Blocks.Heap, h: Blocks.Heap, k: nat)
    requires LiveKept(m0, m1, h0.blocks) && KeepsLive(h0, h) && k < |h.blocks| && |m2| == |m1|
    requires NotLive(h0, Payload(h.blocks[k]))
    requires forall j :: 0 <= j < |h.blocks| && j != k ==> PayloadKept(m1, m2, h.blocks[j])
    ensures LiveKept(m0, m2, h0.blocks)
  {
    forall x | x in h0.blocks && !x.free ensures PayloadKept(m0, m2, x) {
      var i :| 0 <= i < |h0.blocks| && h0.blocks[i] == x;
      var j :| 0 <= j < |h.blocks| && h.blocks[j] == x;
      assert PayloadKept(m0, m1, x) && PayloadKept(m1, m2, x);
    }
  }

  lemma {:induction false} UsedFits(bs: seq<Blk>)
    ensures SumUsed(bs) <= SumAll(bs)
  {
    if bs == [] {
    } else {
      UsedFits(bs[1..]);
    }
  }

  lemma AllSelf(bs: seq<Blk>, m: seq<byte>)
    ensures forall x :: x in bs ==> PayloadKept(m, m, x)
  {
  }

  lemma FreeInv(h: Blocks.Heap, b: nat, i: nat, limit: nat)
    requires Inv(h, limit) && i == Find(h.blocks, b) < |h.blocks|
    ensures SeamSafe(h.blocks, i) ==> Inv(Blocks.Free(h, b + HDR), limit)
  {
    if SeamSafe(h.blocks, i) { FreeOk(h, b + HDR, limit); }
  }

  lemma FreeIs(h: Blocks.Heap, ptr: nat, i: nat, h': Blocks.Heap)
    requires ptr >= HDR && i == Find(h.blocks, ptr - HDR) < |h.blocks| && !h.blocks[i].free
    requires h' == h.(blocks := Coalesce(h.blocks[i := h.blocks[i].(free := true)], i),
                      used := h.used - h.blocks[i].size)
    ensures h' == Blocks.Free(h, ptr)
    ensures forall x :: x in h.blocks && !x.free && Payload(x) != ptr ==> x in h'.blocks
  {
    forall x | x in h.blocks && !x.free && Payload(x) != ptr ensures x in h'.blocks {
      CoalesceKeeps(h.blocks, i, x);
    }
  }

  lemma KeepsLiveSelf(h: Blocks.Heap)
    ensures KeepsLive(h, h)
  {
  }

  lemma LiveInFlipped(m0: seq<byte>, m1: seq<byte>, m2: seq<byte>, bs: seq<Blk>, i: nat)
    requires i < |bs| && LiveKept(m0, m1, bs[i := bs[i].(free := true)])
    requires LiveKept(m1, m2, bs[i := bs[i].(free := true)])
    ensures forall x :: x in bs && !x.free && x.addr != bs[i].addr ==> PayloadKept(m0, m2, x)
  {
    var b1 := bs[i := bs[i].(free := true)];
    forall x | x in bs && !x.free && x.addr != bs[i].addr ensures PayloadKept(m0, m2, x) {
      var k :| 0 <= k < |bs| && bs[k] == x;
      assert b1[k] == x;
      assert PayloadKept(m0, m1, x) && PayloadKept(m1, m2, x);
    }
  }

  lemma LiveChain(h0: Blocks.Heap, h: Blocks.Heap, m0: seq<byte>, m: seq<byte>, m': seq<byte>)
    requires KeepsLive(h0, h) && LiveKept(m0, m, h0.blocks) && LiveKept(m, m', h.blocks)
    ensures LiveKept(m0, m', h0.blocks)
  {
    forall x | x in h0.blocks && !x.free ensures PayloadKept(m0, m', x) {
      var k :| 0 <= k < |h0.blocks| && h0.blocks[k] == x;
      assert PayloadKept(m0, m, x) && PayloadKept(m, m', x);
    }
  }

  // Another block's payload is the same after ptr is freed.
  lemma GrantKept(h: Blocks.Heap, m: seq<byte>, m': seq<byte>, r: nat, n: nat, len: nat, ptr: nat)
    requires Granted(h, r, n) && len <= n && r != ptr
    requires forall i :: 0 <= i < |h.blocks| ==> End(h.blocks[i]) <= |m|
    requires forall b :: b in h.blocks && !b.free && Payload(b) != ptr ==> PayloadKept(m, m', b)
    ensures r + len <= |m| == |m'| && Part(m', r, len) == Part(m, r, len)
  {
    var k :| 0 <= k < |h.blocks| && Payload(h.blocks[k]) == r && !h.blocks[k].free && h.blocks[k].size >= n;
    assert PayloadKept(m, m', h.blocks[k]);
    PartKept(m, m', h.blocks[k], len);
  }

  lemma KeptPastFree(h0: Blocks.Heap, h: Blocks.Heap, m0: seq<byte>, m: seq<byte>, m': seq<byte>, ptr: nat)
    requires KeepsLive(h0, h) && LiveKept(m0, m, h0.blocks)
    requires forall b :: b in h.blocks && !b.free && Payload(b) != ptr ==> PayloadKept(m, m', b)
    ensures forall x :: x in h0.blocks && !x.free && Payload(x) != ptr ==> PayloadKept(m0, m', x)
  {
    forall x | x in h0.blocks && !x.free && Payload(x) != ptr ensures PayloadKept(m0, m', x) {
      var j :| 0 <= j < |h0.blocks| && h0.blocks[j] == x;
      assert x in h.blocks && PayloadKept(m0, m, x) && PayloadKept(m, m', x);
    }
  }

  lemma LiveInTaken(m0: seq<byte>, m1: seq<byte>, m2: seq<byte>, h: Blocks.Heap, i: nat, size: nat)
    requires i < |h.blocks| && Fits(h.blocks[i], size) && KeepsLive(h, Take(h, i, size).0)
    requires LiveKept(m0, m1, h.blocks) && LiveKept(m1, m2, Take(h, i, size).0.blocks)
    ensures LiveKept(m0, m2, h.blocks)
  {
    forall x | x in h.blocks && !x.free ensures PayloadKept(m0, m2, x) {
      var k :| 0 <= k < |h.blocks| && h.blocks[k] == x;
      assert PayloadKept(m0, m1, x) && PayloadKept(m1, m2, x);
    }
  }

  lemma GrowIs(h: Blocks.Heap, pages: nat, pg: Pages, phys: nat, size: nat, h': Blocks.Heap)
    requires h.pages.Valid() && (pg, phys) == Alloc(h.pages, pages) && phys != 0 && size == pages * PAGE_SIZE
    requires h'.used == h.used && h'.allocs == h.allocs && h'.pages == pg
    requires size < HDR + MIN ==> h'.blocks == h.blocks && h'.total == h.total
    requires size >= HDR + MIN ==>
      h'.blocks == [Blk(phys, size - HDR, true)] + h.blocks && h'.total == h.total + size
    ensures h' == Grow(h, pages)
  {
    assert h' == AddRegion(h.(pages := pg), phys, size);
  }

  function Grow(h: Blocks.Heap, pages: nat): Blocks.Heap
    requires h.pages.Valid()
  {
    var (pg, a) := Alloc(h.pages, pages);
    if a == 0 then h.(pages := pg) else AddRegion(h.(pages := pg), a, pages * PAGE_SIZE)
  }

  // The pages just taken overlap no block.
  lemma RegionFree(h: Blocks.Heap, a: nat, g: nat, limit: nat)
    requires Inv(h, limit) && a == Alloc(h.pages, g).1 != 0
    ensures a % PAGE_SIZE == 0 && a + g * PAGE_SIZE <= limit
    ensures forall j :: 0 <= j < |h.blocks| ==>
      h.blocks[j].addr > 0 && (End(h.blocks[j]) <= a || a + g * PAGE_SIZE <= h.blocks[j].addr)
  {
    AllocExact(h.pages, g);
    forall j | 0 <= j < |h.blocks|
      ensures h.blocks[j].addr > 0 && (End(h.blocks[j]) <= a || a + g * PAGE_SIZE <= h.blocks[j].addr)
    {
      assert BlkOk(h.blocks[j], h.pages, limit);
      RunApart(h.blocks[j], h.pages, a / PAGE_SIZE, g);
    }
  }

  // Block addresses are not null, so the walk ends only at the end.
  lemma ListEnd(bs: seq<Blk>, i: nat, pages: Pages, limit: nat)
    requires i <= |bs| && AddrAt(bs, i) == 0
    requires forall j :: 0 <= j < |bs| ==> BlkOk(bs[j], pages, limit)
    ensures i == |bs|
  {
  }

  lemma FirstFitIs(bs: seq<Blk>, size: nat, i: nat)
    requires i <= |bs| && (i < |bs| ==> Fits(bs[i], size))
    requires forall j :: 0 <= j < i ==> !Fits(bs[j], size)
    ensures FirstFit(bs, size) == i
  {
    var k := FirstFit(bs, size);
    assert !(k < i) && !(i < k);
  }

  // The list between the split and the flag write
  lemma SplitSeparate(h: Blocks.Heap, i: nat, size: nat, limit: nat, b1: seq<Blk>)
    requires Inv(h, limit) && i < |h.blocks| && Fits(h.blocks[i], size) && size >= MIN && size % 8 == 0
    requires b1 == if h.blocks[i].size >= size + HDR + MIN then SplitBlocks(h.blocks, i, size) else h.blocks
    ensures Separate(b1) && i < |b1| && b1[i].addr == h.blocks[i].addr
    ensures b1[i := b1[i].(free := false)] == Take(h, i, size).0.blocks
  {
    TakeOk(h, i, size, limit);
    SplitTakes(h, i, size, b1);
    SeparateFlip(b1, b1[i := b1[i].(free := false)]);
  }

  lemma TakeIs(h: Blocks.Heap, i: nat, size: nat, h': Blocks.Heap)
    requires i < |h.blocks| && Fits(h.blocks[i], size)
    requires h'.blocks == Take(h, i, size).0.blocks && h'.total == h.total && h'.pages == h.pages
    requires i < |h'.blocks| && h'.used == h.used + h'.blocks[i].size && h'.allocs == h.allocs + 1
    ensures h' == Take(h, i, size).0
  {
  }

  lemma SplitTakes(h: Blocks.Heap, i: nat, size: nat, b1: seq<Blk>)
    requires i < |h.blocks| && Fits(h.blocks[i], size)
    requires b1 == if h.blocks[i].size >= size + HDR + MIN then SplitBlocks(h.blocks, i, size) else h.blocks
    ensures i < |b1| && b1[i].addr == h.blocks[i].addr
    ensures b1[i := b1[i].(free := false)] == Take(h, i, size).0.blocks
  {
  }

  // Whether blocks overlap does not depend on their flags.
  lemma SeparateFlip(bs: seq<Blk>, r: seq<Blk>)
    requires |r| == |bs| && forall k :: 0 <= k < |bs| ==> bs[k].addr == r[k].addr && bs[k].size == r[k].size
    requires Separate(r)
    ensures Separate(bs)
  {
    forall x, y | 0 <= x < y < |bs| ensures Apart(bs[x], bs[y]) { assert Apart(r[x], r[y]); }
  }

  lemma LiveThroughSplit(m: seq<byte>, m': seq<byte>, bs: seq<Blk>, i: nat, size: nat, b1: seq<Blk>)
    requires i < |bs| && bs[i].free && Separate(b1)
    requires if bs[i].size >= size + HDR + MIN
             then b1 == SplitBlocks(bs, i, size) && OnlyHeaders(m, m', b1) else m' == m
    ensures LiveKept(m, m', bs)
  {
    if bs[i].size >= size + HDR + MIN {
      forall b | b in bs && !b.free ensures PayloadKept(m, m', b) {
        var k :| 0 <= k < |bs| && bs[k] == b;
        assert b1[if k < i then k else k + 1] == b;
        HeadersMissPayload(m, m', b1, b);
      }
    }
  }

  // What the writes of a new region leave in memory
  lemma RegionLinked(m: seq<byte>, m': seq<byte>, head: nat, bs: seq<Blk>, addr: nat, size: nat)
    requires Linked(m, head, bs) && addr > 0 && size >= HDR + MIN && addr + size <= |m|
    requires Separate(bs) && forall j :: 0 <= j < |bs| ==> bs[j].addr > 0
    requires forall j :: 0 <= j < |bs| ==> End(bs[j]) <= addr || addr + size <= bs[j].addr
    requires SameBut(m, m', addr, addr, head) && head + HDR <= |m|
    requires ReadHdr(m', addr) == Hdr(MAGIC, size - HDR, true, head, 0)
    requires head != 0 ==> ReadHdr(m', head) == ReadHdr(m, head).(prev := addr)
    ensures Linked(m', addr, [Blk(addr, size - HDR, true)] + bs)
    ensures LiveKept(m, m', bs)
  {
    var r := [Blk(addr, size - HDR, true)] + bs;
    forall j | 0 <= j < |r| ensures Node(m', r, j) {
      if j > 0 {
        assert Node(m, bs, j - 1) && r[j] == bs[j - 1];
        if j > 1 { ExtentApart(bs, j - 1, 0, bs[0].addr); }
      }
    }
    forall b | b in bs && !b.free ensures PayloadKept(m, m', b) {
      var k :| 0 <= k < |bs| && bs[k] == b;
      forall i | Payload(b) <= i < End(b) && i < |m| ensures m'[i] == m[i] { NoHeaderIn(bs, k, i); }
    }
  }

  // No payload byte of a live block differs.
  ghost predicate LiveKept(m: seq<byte>, m': seq<byte>, bs: seq<Blk>) {
    |m'| == |m| && forall b :: b in bs && !b.free ==> PayloadKept(m, m', b)
  }

  lemma OnlyHeadersLive(m: seq<byte>, m': seq<byte>, bs: seq<Blk>)
    requires OnlyHeaders(m, m', bs) && Separate(bs)
    ensures LiveKept(m, m', bs)
  {
    forall b | b in bs && !b.free ensures PayloadKept(m, m', b) { HeadersMissPayload(m, m', bs, b); }
  }

  predicate HdrApart(a: nat, b: nat) { a + HDR <= b || b + HDR <= a }

  // Outside the headers at a, b and (unless null) c, the two memories agree.
  ghost predicate SameBut(m: seq<byte>, m': seq<byte>, a: nat, b: nat, c: nat) {
    && |m'| == |m|
    && (forall d: nat :: d + HDR <= |m| && HdrApart(d, a) && HdrApart(d, b) && (c == 0 || HdrApart(d, c)) ==>
          ReadHdr(m', d) == ReadHdr(m, d))
    && (forall i :: 0 <= i < |m| && !(a <= i < a + HDR) && !(b <= i < b + HDR) && !(c != 0 && c <= i < c + HDR) ==>
          m'[i] == m[i])
  }

  // A header inside block i's extent is apart from every other block's header.
  lemma ExtentApart(bs: seq<Blk>, o: nat, i: nat, a: nat)
    requires Separate(bs) && o < |bs| && i < |bs| && o != i && bs[i].addr <= a && a + HDR <= End(bs[i])
    ensures HdrApart(bs[o].addr, a)
  {
    assert o < i ==> Apart(bs[o], bs[i]);
    assert i < o ==> Apart(bs[i], bs[o]);
  }

  // What a split's writes leave in memory
  ghost predicate SplitWrote(m: seq<byte>, m': seq<byte>, bs: seq<Blk>, i: nat, size: nat)
    requires i < |bs| && bs[i].size >= size + HDR + MIN
  {
    var b, n, next := bs[i].addr, bs[i].addr + HDR + size, AddrAt(bs, i + 1);
    && End(bs[i]) <= |m| && next + HDR <= |m| && SameBut(m, m', b, n, next)
    && ReadHdr(m', n) == Hdr(MAGIC, bs[i].size - size - HDR, true, next, b)
    && ReadHdr(m', b) == ReadHdr(m, b).(next := n, size := size)
    && (next != 0 ==> ReadHdr(m', next) == ReadHdr(m, next).(prev := n))
  }

  function SplitBlocks(bs: seq<Blk>, i: nat, size: nat): seq<Blk>
    requires i < |bs| && bs[i].size >= size + HDR + MIN
  {
    Replace(bs, i, i + 1, [Blk(bs[i].addr, size, true), Blk(bs[i].addr + HDR + size, bs[i].size - size - HDR, true)])
  }

  lemma SplitNode(m: seq<byte>, m': seq<byte>, bs: seq<Blk>, i: nat, size: nat, o: nat)
    requires i < |bs| && bs[i].size >= size + HDR + MIN && SplitWrote(m, m', bs, i, size)
    requires Separate(bs) && o < |bs| && Node(m, bs, o) && bs[o].addr > 0
    ensures o != i && o != i + 1 ==> ReadHdr(m', bs[o].addr) == ReadHdr(m, bs[o].addr)
  {
    if o != i && o != i + 1 {
      ExtentApart(bs, o, i, bs[i].addr);
      ExtentApart(bs, o, i, bs[i].addr + HDR + size);
      if i + 1 < |bs| { ExtentApart(bs, o, i + 1, bs[i + 1].addr); }
    }
  }

  lemma SplitNodeAt(m: seq<byte>, m': seq<byte>, bs: seq<Blk>, i: nat, size: nat, j: nat, o: nat)
    requires i < |bs| && bs[i].free && bs[i].size >= size + HDR + MIN && SplitWrote(m, m', bs, i, size)
    requires j <= |bs| && o == (if j <= i then j else j - 1)
    requires Node(m, bs, i) && Node(m, bs, o) && bs[o].addr > 0
    requires o != i && o != i + 1 ==> ReadHdr(m', bs[o].addr) == ReadHdr(m, bs[o].addr)
    ensures Node(m', SplitBlocks(bs, i, size), j)
  {
    var r := SplitBlocks(bs, i, size);
    assert j != i && j != i + 1 ==> r[j] == bs[o];
    assert AddrAt(r, j - 1) ==
      (if j == i + 1 then bs[i].addr else if j == i + 2 then r[i + 1].addr else AddrAt(bs, o - 1));
    assert AddrAt(r, j + 1) == (if j == i then r[i + 1].addr else AddrAt(bs, o + 1));
  }

  lemma SplitLinked(m: seq<byte>, m': seq<byte>, head: nat, bs: seq<Blk>, i: nat, size: nat)
    requires i < |bs| && bs[i].free && bs[i].size >= size + HDR + MIN
    requires Linked(m, head, bs) && Separate(bs) && forall o :: 0 <= o < |bs| ==> bs[o].addr > 0
    requires SplitWrote(m, m', bs, i, size)
    ensures Linked(m', head, SplitBlocks(bs, i, size))
  {
    var r := SplitBlocks(bs, i, size);
    forall j | 0 <= j < |r| ensures Node(m', r, j) {
      var o := if j <= i then j else j - 1;
      assert Node(m, bs, o) && Node(m, bs, i);
      SplitNode(m, m', bs, i, size, o);
      SplitNodeAt(m, m', bs, i, size, j, o);
    }
  }

  lemma SplitOnlyHeaders(m: seq<byte>, m': seq<byte>, bs: seq<Blk>, i: nat, size: nat)
    requires i < |bs| && bs[i].size >= size + HDR + MIN && SplitWrote(m, m', bs, i, size)
    ensures OnlyHeaders(m, m', SplitBlocks(bs, i, size))
  {
    var r := SplitBlocks(bs, i, size);
    assert r[i].addr == bs[i].addr && r[i + 1].addr == bs[i].addr + HDR + size;
    assert i + 1 < |bs| ==> r[i + 2] == bs[i + 1];
  }

  // What a merge's writes leave in memory
  ghost predicate MergeWrote(m: seq<byte>, m': seq<byte>, bs: seq<Blk>, k: nat)
    requires k + 1 < |bs|
  {
    var x, y, next := bs[k], bs[k + 1], AddrAt(bs, k + 2);
    && x.addr + HDR <= |m| && next + HDR <= |m| && SameBut(m, m', x.addr, x.addr, next)
    && ReadHdr(m', x.addr) == ReadHdr(m, x.addr).(size := x.size + HDR + y.size, next := next)
    && (next != 0 ==> ReadHdr(m', next) == ReadHdr(m, next).(prev := x.addr))
  }

  lemma MergeNode(m: seq<byte>, m': seq<byte>, bs: seq<Blk>, k: nat, o: nat)
    requires k + 1 < |bs| && MergeWrote(m, m', bs, k)
    requires HeadersApart(bs) && o < |bs| && Node(m, bs, o)
    ensures o != k && o != k + 2 ==> ReadHdr(m', bs[o].addr) == ReadHdr(m, bs[o].addr)
  {
    if o != k && o != k + 2 {
      assert HdrApart(bs[o].addr, bs[k].addr) && (k + 2 < |bs| ==> HdrApart(bs[o].addr, bs[k + 2].addr));
    }
  }

  lemma MergeNodeAt(m: seq<byte>, m': seq<byte>, bs: seq<Blk>, k: nat, j: nat, o: nat)
    requires k + 1 < |bs| && MergeWrote(m, m', bs, k)
    requires j + 1 < |bs| && o == (if j <= k then j else j + 1)
    requires Node(m, bs, k) && Node(m, bs, o) && bs[o].addr > 0
    requires o != k && o != k + 2 ==> ReadHdr(m', bs[o].addr) == ReadHdr(m, bs[o].addr)
    ensures Node(m', Merge(bs, k), j)
  {
    var r := Merge(bs, k);
    assert j != k ==> r[j] == bs[o];
    assert AddrAt(r, j - 1) == (if j == k + 1 then bs[k].addr else AddrAt(bs, o - 1));
    assert AddrAt(r, j + 1) == (if j == k then AddrAt(bs, k + 2) else AddrAt(bs, o + 1));
  }

  lemma MergeLinked(m: seq<byte>, m': seq<byte>, head: nat, bs: seq<Blk>, k: nat)
    requires k + 1 < |bs| && Linked(m, head, bs) && HeadersApart(bs)
    requires forall j :: 0 <= j < |bs| ==> bs[j].addr > 0
    requires MergeWrote(m, m', bs, k)
    ensures Linked(m', head, Merge(bs, k))
  {
    var r := Merge(bs, k);
    forall j | 0 <= j < |r| ensures Node(m', r, j) {
      var o := if j <= k then j else j + 1;
      assert Node(m, bs, o) && Node(m, bs, k);
      MergeNode(m, m', bs, k, o);
      MergeNodeAt(m, m', bs, k, j, o);
    }
  }

  lemma MergeOnlyHeaders(m: seq<byte>, m': seq<byte>, bs: seq<Blk>, k: nat)
    requires k + 1 < |bs| && MergeWrote(m, m', bs, k)
    ensures OnlyHeaders(m, m', bs)
  {
  }

  // After the first merge the headers left are where they were.
  lemma MergeHeaders(bs: seq<Blk>, i: nat)
    requires i < |bs| && HeadersApart(bs) && forall j :: 0 <= j < |bs| ==> bs[j].addr > 0
    ensures var r := MergeNext(bs, i);
      && HeadersApart(r) && r[i].addr == bs[i].addr && (i > 0 ==> r[i - 1] == bs[i - 1])
      && (forall j :: 0 <= j < |r| ==> r[j].addr == bs[if j <= i || r == bs then j else j + 1].addr && r[j].addr > 0)
  {
    var r := MergeNext(bs, i);
    if i + 1 < |bs| && bs[i + 1].free {
      forall j | 0 <= j < |r| ensures r[j].addr == bs[if j <= i then j else j + 1].addr {
        if j > i { assert r[j] == bs[j + 1]; }
      }
    }
  }

  lemma OnlyHeadersChain(m0: seq<byte>, m1: seq<byte>, m2: seq<byte>, bs: seq<Blk>, r: seq<Blk>)
    requires OnlyHeaders(m0, m1, bs) && OnlyHeaders(m1, m2, r)
    requires forall j :: 0 <= j < |r| ==> exists k :: 0 <= k < |bs| && bs[k].addr == r[j].addr
    ensures OnlyHeaders(m0, m2, bs)
  {
    forall i | 0 <= i < |m0| && m2[i] != m0[i] ensures exists k :: 0 <= k < |bs| && bs[k].addr <= i < bs[k].addr + HDR {
      if m1[i] == m0[i] {
        var j :| 0 <= j < |r| && r[j].addr <= i < r[j].addr + HDR;
        var k :| 0 <= k < |bs| && bs[k].addr == r[j].addr;
      }
    }
  }
}
