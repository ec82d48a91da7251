/** Base relocation of a PE image: the walk over the blocks of the relocation directory, and
    the words it patches. */
module Relocation {
  import opened Bytes

  const DIR64: nat := 10    // IMAGE_REL_BASED_DIR64
  const HIGHLOW: nat := 3   // IMAGE_REL_BASED_HIGHLOW
  const BLOCK: nat := 8     // a block's header: page RVA and block size

  // A word to patch: 8 bytes or 4
  datatype Target = Target(at: nat, width: nat)

  predicate InBounds(t: Target, length: nat) { t.at + t.width <= length }

  predicate Covers(t: Target, i: int) { t.at <= i < t.at + t.width }

  predicate Apart(t: Target, at: nat, n: nat) { t.at + t.width <= at || at + n <= t.at }

  // ----- what the directory says -----

  // The target of one entry of the block of a page, if its type has one
  function EntryTarget(page: nat, entry: nat): seq<Target> {
    var kind, off := entry / 0x1000, entry % 0x1000;
    if kind == DIR64 then [Target(page + off, 8)]
    else if kind == HIGHLOW then [Target(page + off, 4)]
    else []
  }

  // The targets of count 16-bit entries stored in a directory from position at
  function Entries(d: seq<byte>, page: nat, at: nat, count: nat): seq<Target>
    requires at + 2 * count <= |d|
  {
    if count == 0 then [] else Entries(d, page, at, count - 1) + EntryTarget(page, Get(d, at + 2 * (count - 1), 2))
  }

  function PageRva(d: seq<byte>, pos: nat): nat requires pos + BLOCK <= |d| { Get(d, pos, 4) }

  function BlockSize(d: seq<byte>, pos: nat): nat requires pos + BLOCK <= |d| { Get(d, pos + 4, 4) }

  function EntryCount(blockSize: nat): (r: nat)
    requires blockSize >= BLOCK
    ensures BLOCK + 2 * r <= blockSize < BLOCK + 2 * r + 2
  {
    (blockSize - BLOCK) / 2
  }

  // From position pos on, every block the walk reads lies inside the directory.
  predicate BlocksFit(d: seq<byte>, pos: nat)
    decreases |d| - pos
  {
    pos + BLOCK <= |d| ==>
      var n := BlockSize(d, pos);
      n >= BLOCK ==> pos + n <= |d| && BlocksFit(d, pos + n)
  }

  // The targets of the blocks from position pos on; a block shorter than its header ends them.
  function Targets(d: seq<byte>, pos: nat): seq<Target>
    requires BlocksFit(d, pos)
    decreases |d| - pos
  {
    if pos + BLOCK > |d| || BlockSize(d, pos) < BLOCK then []
    else
      var n := BlockSize(d, pos);
      Entries(d, PageRva(d, pos), pos + BLOCK, EntryCount(n)) + Targets(d, pos + n)
  }

  // The relocation directory of an image
  function Dir(m: seq<byte>, dir: nat, size: nat): seq<byte>
    requires dir + size <= |m|
  {
    m[dir..dir + size]
  }

  predicate DirFits(m: seq<byte>, dir: nat, size: nat) {
    dir + size <= |m| && size < U32 && BlocksFit(Dir(m, dir, size), 0)
  }

  function AllTargets(m: seq<byte>, dir: nat, size: nat): seq<Target>
    requires DirFits(m, dir, size)
  {
    Targets(Dir(m, dir, size), 0)
  }

  // Each target lies in an image of the given length and outside its directory.
  ghost predicate InImage(ts: seq<Target>, length: nat, dir: nat, size: nat) {
    forall k {:trigger InImageAt(ts, k, length, dir, size)} :: 0 <= k < |ts| ==> InImageAt(ts, k, length, dir, size)
  }

  predicate InImageAt(ts: seq<Target>, k: int, length: nat, dir: nat, size: nat)
    requires 0 <= k < |ts|
  {
    InBounds(ts[k], length) && Apart(ts[k], dir, size)
  }

  lemma AllInImage(ts: seq<Target>, length: nat, dir: nat, size: nat)
    requires InImage(ts, length, dir, size)
    ensures forall k :: 0 <= k < |ts| ==> InBounds(ts[k], length) && Apart(ts[k], dir, size)
  {
    forall k | 0 <= k < |ts| ensures InBounds(ts[k], length) && Apart(ts[k], dir, size) {
      assert InImageAt(ts, k, length, dir, size);
    }
  }

  ghost predicate Disjoint(ts: seq<Target>) {
    forall i, j :: 0 <= i < j < |ts| ==> Apart(ts[i], ts[j].at, ts[j].width)
  }

  ghost predicate WellFormed(m: seq<byte>, dir: nat, size: nat) {
    && DirFits(m, dir, size)
    && InImage(AllTargets(m, dir, size), |m|, dir, size)
    && Disjoint(AllTargets(m, dir, size))
  }

  // ----- what relocation should do -----

  function Moved(v: nat, delta: int, width: nat): nat { (v + delta) % Pow256(width) }

  // Every target has moved by delta, modulo its own width, and no other byte has changed.
  ghost predicate Relocated(m: seq<byte>, m': seq<byte>, ts: seq<Target>, delta: int) {
    && |m'| == |m|
    && (forall k :: 0 <= k < |ts| ==> MovedAt(m, m', ts[k], delta))
    && (forall i {:trigger Free(ts, i)} :: 0 <= i < |m| && Free(ts, i) ==> m'[i] == m[i])
  }

  // The targets of the directory have moved by delta.
  ghost predicate Relocation(m: seq<byte>, m': seq<byte>, dir: nat, size: nat, delta: int) {
    DirFits(m, dir, size) && Relocated(m, m', AllTargets(m, dir, size), delta)
  }

  predicate MovedAt(m: seq<byte>, m': seq<byte>, t: Target, delta: int)
    requires |m'| == |m|
  {
    InBounds(t, |m|) && Get(m', t.at, t.width) == Moved(Get(m, t.at, t.width), delta, t.width)
  }

  ghost predicate Free(ts: seq<Target>, i: nat) {
    forall k :: 0 <= k < |ts| ==> !Covers(ts[k], i)
  }

  // ----- what the loop does -----

  function Patch(m: seq<byte>, t: Target, delta: int): (r: seq<byte>)
    ensures |r| == |m|
  {
    if !InBounds(t, |m|) then m else Put(m, t.at, t.width, Moved(Get(m, t.at, t.width), delta, t.width))
  }

  function PatchAll(m: seq<byte>, ts: seq<Target>, delta: int): (r: seq<byte>)
    ensures |r| == |m|
  {
    if ts == [] then m else Patch(PatchAll(m, ts[..|ts| - 1], delta), ts[|ts| - 1], delta)
  }

  // The image after apply_relocations
  function Rebased(m: seq<byte>, dir: nat, size: nat, delta: int): (r: seq<byte>)
    requires DirFits(m, dir, size)
    ensures |r| == |m|
  {
    PatchAll(m, AllTargets(m, dir, size), delta)
  }

  // ----- arithmetic -----

  lemma ModIs(v: int, m: nat, a: int, r: int)
    requires 0 <= r < m && v == a * m + r
    ensures v % m == r
  {
    var q := v / m;
    assert v == q * m + v % m;
    assert (q - a) * m == q * m - a * m;
    NoMultiple(q - a, m);
  }

  lemma NoMultiple(d: int, m: int)
    requires m > 0
    ensures -m < d * m < m ==> d == 0
  {
    if d > 0 { assert d * m >= m; }
    if d < 0 { assert d * m <= -m; }
  }

  // Moving twice is moving by the sum; a move that leaves the word as it is changes nothing.
  lemma MovedTwice(v: nat, a: int, b: int, width: nat)
    ensures Moved(Moved(v, a, width), b, width) == Moved(v, a + b, width)
    ensures v < Pow256(width) ==> Moved(v, 0, width) == v
  {
    var m := Pow256(width);
    var (q, r) := ((v + a) / m, (v + a) % m);
    var (p, s) := ((r + b) / m, (r + b) % m);
    assert v + a + b == (q + p) * m + s by { assert (q + p) * m == q * m + p * m; }
    ModIs(v + a + b, m, q + p, s);
    if v < m { ModIs(v, m, 0, v); }
  }

  // The 32-bit addition of the truncated delta moves by the delta itself.
  lemma NarrowDelta(v: nat, delta: int)
    ensures Moved(v, delta % U64, 8) == Moved(v, delta, 8)
    ensures Moved(v, (delta % U64) % U32, 4) == Moved(v, delta, 4)
  {
    WordSizes();
    SameResidue(v, delta, U64, 1, U64);
    var (q, w) := (delta / U64, delta % U64);
    SameResidue(v, delta, U32, U32, U64);
    SameResidue(v, w, U32, 1, U32);
  }

  lemma SameResidue(v: nat, delta: int, m: nat, k: nat, km: nat)
    requires m > 0 && km == k * m && km > 0
    ensures (v + delta % km) % m == (v + delta) % m
  {
    var (q, w) := (delta / km, delta % km);
    var (p, r) := ((v + w) / m, (v + w) % m);
    assert delta == q * km + w;
    assert q * km == (q * k) * m;
    assert v + delta == (q * k + p) * m + r by { assert (q * k + p) * m == (q * k) * m + p * m; }
    ModIs(v + delta, m, q * k + p, r);
  }

  // ----- the patched words -----

  // Patching a target apart from all earlier ones extends the result by that target.
  lemma PatchOne(m: seq<byte>, p: seq<byte>, ts: seq<Target>, t: Target, delta: int)
    requires Relocated(m, p, ts, delta) && InBounds(t, |m|)
    requires forall k :: 0 <= k < |ts| ==> Apart(ts[k], t.at, t.width)
    ensures Relocated(m, Patch(p, t, delta), ts + [t], delta)
  {
    var r, us := Patch(p, t, delta), ts + [t];
    forall i | t.at <= i < t.at + t.width ensures p[i] == m[i] { assert Free(ts, i); }
    GetFrame(m, p, t.at, t.width);
    PatchedWord(p, t, delta);
    forall k | 0 <= k < |us| ensures MovedAt(m, r, us[k], delta) {
      if k < |ts| {
        assert us[k] == ts[k] && MovedAt(m, p, ts[k], delta);
        GetFrame(p, r, ts[k].at, ts[k].width);
      }
    }
    forall i | 0 <= i < |m| && Free(us, i) ensures r[i] == m[i] {
      assert us[|ts|] == t && forall k :: 0 <= k < |ts| ==> us[k] == ts[k];
      assert Free(ts, i);
    }
  }

  lemma PatchedWord(p: seq<byte>, t: Target, delta: int)
    requires t.at + t.width <= |p|
    ensures var r := Patch(p, t, delta);
      && Get(r, t.at, t.width) == Moved(Get(p, t.at, t.width), delta, t.width)
      && forall i :: 0 <= i < |p| && !(t.at <= i < t.at + t.width) ==> r[i] == p[i]
  {
    GetPutFits(p, t.at, t.width, Moved(Get(p, t.at, t.width), delta, t.width));
  }

  lemma {:induction false} PatchAllIs(m: seq<byte>, ts: seq<Target>, delta: int)
    requires Disjoint(ts) && forall k :: 0 <= k < |ts| ==> InBounds(ts[k], |m|)
    ensures Relocated(m, PatchAll(m, ts, delta), ts, delta)
  {
    if ts == [] {
    } else {
      var front, t := ts[..|ts| - 1], ts[|ts| - 1];
      PatchAllIs(m, front, delta);
      PatchOne(m, PatchAll(m, front, delta), front, t, delta);
      assert front + [t] == ts;
    }
  }

  // There is only one image that meets the description.
  lemma RelocatedUnique(m: seq<byte>, a: seq<byte>, b: seq<byte>, ts: seq<Target>, delta: int)
    requires Relocated(m, a, ts, delta) && Relocated(m, b, ts, delta)
    ensures a == b
  {
    forall i | 0 <= i < |m| ensures a[i] == b[i] {
      if !Free(ts, i) {
        var k :| 0 <= k < |ts| && Covers(ts[k], i);
        assert MovedAt(m, a, ts[k], delta) && MovedAt(m, b, ts[k], delta);
        SameWord(a, b, ts[k].at, ts[k].width, i);
      }
    }
  }

  lemma {:induction false} SameWord(a: seq<byte>, b: seq<byte>, o: nat, n: nat, i: nat)
    requires |a| == |b| && o + n <= |a| && o <= i < o + n && Get(a, o, n) == Get(b, o, n)
    ensures a[i] == b[i]
    decreases n
  {
    LowByte(a, o, n);
    LowByte(b, o, n);
    if i == o {
    } else {
      SameWord(a, b, o + 1, n - 1, i);
    }
  }

  lemma LowByte(m: seq<byte>, o: nat, n: nat)
    requires o + n <= |m| && n > 0
    ensures Get(m, o, n) % 256 == m[o] && Get(m, o, n) / 256 == Get(m, o + 1, n - 1)
  {
  }

  // Moved by d to a and from there by e to b: moved by d + e.
  lemma RelocatedTwice(m: seq<byte>, a: seq<byte>, b: seq<byte>, ts: seq<Target>, d: int, e: int, f: int)
    requires f == d + e && Relocated(m, a, ts, d) && Relocated(a, b, ts, e)
    ensures Relocated(m, b, ts, f)
  {
    forall k | 0 <= k < |ts| ensures MovedAt(m, b, ts[k], f) {
      var t := ts[k];
      assert MovedAt(m, a, t, d) && MovedAt(a, b, t, e);
      MovedTwice(Get(m, t.at, t.width), d, e, t.width);
    }
  }

  lemma RelocatedByNothing(m: seq<byte>, ts: seq<Target>)
    requires forall k :: 0 <= k < |ts| ==> InBounds(ts[k], |m|)
    ensures Relocated(m, m, ts, 0)
  {
    forall k | 0 <= k < |ts| ensures MovedAt(m, m, ts[k], 0) {
      var t := ts[k];
      GetBound(m, t.at, t.width);
      MovedTwice(Get(m, t.at, t.width), 0, 0, t.width);
    }
  }

  // ----- the directory survives its own relocations -----

  ghost predicate SameDir(m: seq<byte>, m': seq<byte>, dir: nat, size: nat) {
    |m'| == |m| && dir + size <= |m| && Dir(m', dir, size) == Dir(m, dir, size)
  }

  lemma RelocatedDir(m: seq<byte>, m': seq<byte>, ts: seq<Target>, delta: int, dir: nat, size: nat)
    requires dir + size <= |m| && Relocated(m, m', ts, delta) && InImage(ts, |m|, dir, size)
    ensures SameDir(m, m', dir, size)
  {
    AllInImage(ts, |m|, dir, size);
    forall i | dir <= i < dir + size ensures m'[i] == m[i] {
      assert Free(ts, i);
    }
  }

  // ----- the theorems -----

  // Relocating a well-formed image is possible in exactly one way, and gives an image with
  // the same directory.
  lemma RebasedIs(m: seq<byte>, dir: nat, size: nat, delta: int)
    requires WellFormed(m, dir, size)
    ensures Relocation(m, Rebased(m, dir, size, delta), dir, size, delta)
  {
    AllInImage(AllTargets(m, dir, size), |m|, dir, size);
    PatchAllIs(m, AllTargets(m, dir, size), delta);
  }

  lemma RelocationUnique(m: seq<byte>, a: seq<byte>, b: seq<byte>, dir: nat, size: nat, delta: int)
    requires Relocation(m, a, dir, size, delta) && Relocation(m, b, dir, size, delta)
    ensures a == b
  {
    RelocatedUnique(m, a, b, AllTargets(m, dir, size), delta);
  }

  lemma RelocationKeepsDir(m: seq<byte>, m': seq<byte>, dir: nat, size: nat, delta: int)
    requires WellFormed(m, dir, size) && Relocation(m, m', dir, size, delta)
    ensures WellFormed(m', dir, size) && AllTargets(m', dir, size) == AllTargets(m, dir, size)
  {
    RelocatedDir(m, m', AllTargets(m, dir, size), delta, dir, size);
  }

  // From base p to q and on to r is from p to r; there and back again restores the image.
  lemma RelocationComposes(m: seq<byte>, a: seq<byte>, b: seq<byte>, dir: nat, size: nat, p: nat, q: nat, r: nat)
    requires WellFormed(m, dir, size)
    requires Relocation(m, a, dir, size, q - p) && Relocation(a, b, dir, size, r - q)
    ensures Relocation(m, b, dir, size, r - p)
    ensures r == p ==> b == m
  {
    var ts := AllTargets(m, dir, size);
    RelocationKeepsDir(m, a, dir, size, q - p);
    RelocatedTwice(m, a, b, ts, q - p, r - q, r - p);
    if r == p {
      RelocatedByNothing(m, ts);
      RelocatedUnique(m, m, b, ts, 0);
    }
  }

  lemma RebasedByNothing(m: seq<byte>, dir: nat, size: nat)
    requires WellFormed(m, dir, size)
    ensures Rebased(m, dir, size, 0) == m
  {
    RebasedIs(m, dir, size, 0);
    RelocatedByNothing(m, AllTargets(m, dir, size));
    RelocatedUnique(m, m, Rebased(m, dir, size, 0), AllTargets(m, dir, size), 0);
  }

  // ----- the program -----

  method StoreWord(image: array<byte>, o: nat, n: nat, v: nat)
    requires o + n <= image.Length
    modifies image
    ensures image[..] == Put(old(image[..]), o, n, v)
  {
    ghost var was := image[..];
    var rest := v;
    for i := 0 to n
      invariant Put(was, o, n, v) == Put(image[..], o + i, n - i, rest)
    {
      ghost var now := image[..];
      image[o + i] := rest % 256;
      assert image[..] == now[o + i := rest % 256];
      rest := rest / 256;
    }
  }

  class Image {
    const bytes: array<byte>

    constructor (size: nat)
      ensures fresh(bytes) && bytes.Length == size
    {
      bytes := new byte[size];
    }

    method Word(o: nat, n: nat) returns (v: nat)
      requires o + n <= bytes.Length
      ensures v == Get(bytes[..], o, n)
    {
      v := 0;
      for i := n downto 0
        invariant v == Get(bytes[..], o + i, n - i)
      {
        v := bytes[o + i] + 256 * v;
      }
    }

    // One entry of the block of a page; delta is the low 64 bits of the move.
    method ApplyEntry(page: nat, entry: nat, delta: nat, ghost move: int)
      requires delta == move % U64 && EntryFits(bytes.Length, page, entry)
      modifies bytes
      ensures bytes[..] == PatchAll(old(bytes[..]), EntryTarget(page, entry), move)
    {
      var kind, off := entry / 0x1000, entry % 0x1000;
      EntryPatched(bytes[..], page, entry, kind, off, move);
      if kind == DIR64 {
        var v := Word(page + off, 8);
        StoreWord(bytes, page + off, 8, (v + delta) % U64);
      } else if kind == HIGHLOW {
        var v := Word(page + off, 4);
        StoreWord(bytes, page + off, 4, (v + delta % U32) % U32);
      }
    }

    // Entry i of a block whose entries start at position at of the directory d
    method ApplyEntryAt(page: nat, at: nat, i: nat, count: nat, delta: nat, dir: nat,
                        ghost was: seq<byte>, ghost move: int, ghost d: seq<byte>)
      requires delta == move % U64 && i < count && BlockFits(d, |was|, page, at, count, dir)
      requires BlockDone(was, bytes[..], d, page, at, i, move, dir)
      modifies bytes
      ensures BlockDone(was, bytes[..], d, page, at, i + 1, move, dir)
    {
      var entry := Word(dir + (at + 2 * i), 2);
      BlockStep(was, bytes[..], d, page, at, i, count, entry, move, dir);
      ApplyEntry(page, entry, delta, move);
    }

    // The entries of one block
    method ApplyBlock(page: nat, at: nat, count: nat, delta: nat, dir: nat, ghost move: int, ghost d: seq<byte>)
      requires delta == move % U64 && BlockFits(d, bytes.Length, page, at, count, dir) && IsDir(bytes[..], d, dir)
      modifies bytes
      ensures BlockDone(old(bytes[..]), bytes[..], d, page, at, count, move, dir)
    {
      ghost var was := bytes[..];
      for i := 0 to count
        invariant BlockDone(was, bytes[..], d, page, at, i, move, dir)
      {
        ApplyEntryAt(page, at, i, count, delta, dir, was, move, d);
      }
    }

    // The header of the block at position pos
    method BlockHeader(dir: nat, pos: nat, ghost d: seq<byte>) returns (page: nat, blockSize: nat)
      requires IsDir(bytes[..], d, dir) && pos + BLOCK <= |d|
      ensures page == PageRva(d, pos) && blockSize == BlockSize(d, pos)
    {
      GetInDir(bytes[..], d, dir, pos, 4);
      GetInDir(bytes[..], d, dir, pos + 4, 4);
      page := Word(dir + pos, 4);
      blockSize := Word(dir + (pos + 4), 4);
    }

    // The block at position pos, of which the header has been read
    method ApplyNext(dir: nat, pos: nat, page: nat, blockSize: nat, delta: nat,
                     ghost final: seq<byte>, ghost d: seq<byte>, ghost move: int)
      requires delta == move % U64 && pos + BLOCK <= |d| && WalkDone(final, bytes[..], d, dir, pos, move)
      requires page == PageRva(d, pos) && blockSize == BlockSize(d, pos) && blockSize >= BLOCK
      modifies bytes
      ensures WalkDone(final, bytes[..], d, dir, pos + blockSize, move)
    {
      ghost var m := bytes[..];
      var count := EntryCount(blockSize);
      WalkFits(final, m, d, dir, pos, blockSize, page, count, move);
      ApplyBlock(page, pos + 8, count, delta, dir, move, d);
      WalkOn(final, m, bytes[..], d, dir, pos, blockSize, page, count, move);
    }

    // apply_relocations, for the directory entry already found
    method ApplyRelocations(base: nat, preferred: nat, dir: nat, size: nat)
      requires base < U64 && preferred < U64 && WellFormed(bytes[..], dir, size)
      modifies bytes
      ensures bytes[..] == Rebased(old(bytes[..]), dir, size, base - preferred)
      ensures Relocation(old(bytes[..]), bytes[..], dir, size, base - preferred)
    {
      RebasedIs(bytes[..], dir, size, base - preferred);
      ghost var was, move := bytes[..], base - preferred;
      if base == preferred {
        RebasedByNothing(was, dir, size);
        return;
      }
      var delta: nat := (base - preferred) % U64;
      var pos: nat := 0;
      ghost var d, final := Dir(was, dir, size), Rebased(was, dir, size, move);
      while pos + 8 <= size
        invariant WalkDone(final, bytes[..], d, dir, pos, move)
        decreases size - pos
      {
        var page, blockSize := BlockHeader(dir, pos, d);
        if blockSize < 8 { break; }
        ApplyNext(dir, pos, page, blockSize, delta, final, d, move);
        pos := pos + blockSize;
      }
      WalkEnd(final, bytes[..], d, dir, pos, move);
    }
  }

  // ----- the loops -----

  // Adding low to the word of n bytes at o, modulo m, is what patching the entry's target does.
  ghost predicate PatchIs(bs: seq<byte>, page: nat, entry: nat, o: nat, n: nat, low: nat, m: nat, move: int) {
    m > 0 && o + n <= |bs| && PatchAll(bs, EntryTarget(page, entry), move) == Put(bs, o, n, (Get(bs, o, n) + low) % m)
  }

  ghost predicate EntryFits(length: nat, page: nat, entry: nat) {
    forall k :: 0 <= k < |EntryTarget(page, entry)| ==> InBounds(EntryTarget(page, entry)[k], length)
  }

  // What the code stores for an entry is the patch of its target.
  lemma EntryPatched(m: seq<byte>, page: nat, entry: nat, kind: nat, off: nat, move: int)
    requires kind == entry / 0x1000 && off == entry % 0x1000
    ensures EntryFits(|m|, page, entry) && kind == DIR64 ==>
      PatchIs(m, page, entry, page + off, 8, move % U64, U64, move)
    ensures EntryFits(|m|, page, entry) && kind == HIGHLOW ==>
      PatchIs(m, page, entry, page + off, 4, (move % U64) % U32, U32, move)
    ensures kind != DIR64 && kind != HIGHLOW ==> PatchAll(m, EntryTarget(page, entry), move) == m
  {
    WordSizes();
    if EntryFits(|m|, page, entry) && (kind == DIR64 || kind == HIGHLOW) {
      var t := Target(page + off, if kind == DIR64 then 8 else 4);
      assert EntryTarget(page, entry) == [t] && EntryTarget(page, entry)[0] == t;
      NarrowDelta(Get(m, t.at, t.width), move);
      PatchAllOne(m, t, move);
    }
  }

  // d is the directory found at dir in an image.
  ghost predicate IsDir(m: seq<byte>, d: seq<byte>, dir: nat) {
    dir + |d| <= |m| && forall i {:trigger d[i]} :: 0 <= i < |d| ==> d[i] == m[dir + i]
  }

  lemma {:induction false} GetInDir(m: seq<byte>, d: seq<byte>, dir: nat, o: nat, n: nat)
    requires IsDir(m, d, dir) && o + n <= |d|
    ensures Get(m, dir + o, n) == Get(d, o, n)
    decreases n
  {
    if n == 0 {
    } else {
      GetInDir(m, d, dir, o + 1, n - 1);
      assert d[o] == m[dir + o];
      assert dir + (o + 1) == dir + o + 1;
    }
  }

  // A block's entries lie in the directory, and its targets in the image outside it.
  ghost predicate BlockFits(d: seq<byte>, length: nat, page: nat, at: nat, count: nat, dir: nat) {
    at + 2 * count <= |d| && InImage(Entries(d, page, at, count), length, dir, |d|)
  }

  // The first i entries of a block are done.
  ghost predicate BlockDone(was: seq<byte>, m: seq<byte>, d: seq<byte>, page: nat, at: nat, i: nat,
                            move: int, dir: nat)
  {
    at + 2 * i <= |d| && m == PatchAll(was, Entries(d, page, at, i), move) && IsDir(m, d, dir)
  }

  lemma EntriesNext(d: seq<byte>, page: nat, at: nat, i: nat, entry: nat)
    requires at + 2 * (i + 1) <= |d| && entry == Get(d, at + 2 * i, 2)
    ensures Entries(d, page, at, i + 1) == Entries(d, page, at, i) + EntryTarget(page, entry)
  {
    assert at + 2 * (i + 1 - 1) == at + 2 * i;
  }

  lemma BlockStep(was: seq<byte>, m: seq<byte>, d: seq<byte>, page: nat, at: nat, i: nat, count: nat, entry: nat,
                  move: int, dir: nat)
    requires BlockFits(d, |was|, page, at, count, dir) && i < count
    requires BlockDone(was, m, d, page, at, i, move, dir) && entry == Get(m, dir + (at + 2 * i), 2)
    ensures EntryFits(|m|, page, entry)
    ensures BlockDone(was, PatchAll(m, EntryTarget(page, entry), move), d, page, at, i + 1, move, dir)
  {
    GetInDir(m, d, dir, at + 2 * i, 2);
    EntriesNext(d, page, at, i, entry);
    EntryIn(d, page, at, i, count, |m|, dir);
    AllInImage(EntryTarget(page, entry), |m|, dir, |d|);
    PatchOutside(m, EntryTarget(page, entry), move, d, dir);
    PatchAllJoin(was, Entries(d, page, at, i), EntryTarget(page, entry), move);
  }

  // Patching what is left from position pos on gives the final image.
  ghost predicate WalkDone(final: seq<byte>, m: seq<byte>, d: seq<byte>, dir: nat, pos: nat, move: int) {
    && IsDir(m, d, dir) && pos <= |d| && BlocksFit(d, pos)
    && InImage(Targets(d, pos), |m|, dir, |d|)
    && PatchAll(m, Targets(d, pos), move) == final
  }

  lemma WalkStep(final: seq<byte>, m: seq<byte>, d: seq<byte>, dir: nat, pos: nat, n: nat, page: nat, count: nat,
                 move: int)
    requires WalkDone(final, m, d, dir, pos, move) && pos + BLOCK <= |d|
    requires n == BlockSize(d, pos) && n >= BLOCK && page == PageRva(d, pos) && count == EntryCount(n)
    ensures BlockFits(d, |m|, page, pos + BLOCK, count, dir)
    ensures WalkDone(final, PatchAll(m, Entries(d, page, pos + BLOCK, count), move), d, dir, pos + n, move)
  {
    TargetsNext(d, pos, n, page, count);
    Peel(final, m, d, dir, Entries(d, page, pos + BLOCK, count), Targets(d, pos + n), move);
  }

  lemma WalkFits(final: seq<byte>, m: seq<byte>, d: seq<byte>, dir: nat, pos: nat, n: nat, page: nat, count: nat,
                 move: int)
    requires WalkDone(final, m, d, dir, pos, move) && pos + BLOCK <= |d|
    requires n == BlockSize(d, pos) && n >= BLOCK && page == PageRva(d, pos) && count == EntryCount(n)
    ensures BlockFits(d, |m|, page, pos + BLOCK, count, dir) && IsDir(m, d, dir)
  {
    WalkStep(final, m, d, dir, pos, n, page, count, move);
  }

  // One block done, the walk goes on behind it.
  lemma WalkOn(final: seq<byte>, m: seq<byte>, m': seq<byte>, d: seq<byte>, dir: nat, pos: nat, n: nat,
               page: nat, count: nat, move: int)
    requires WalkDone(final, m, d, dir, pos, move) && pos + BLOCK <= |d|
    requires n == BlockSize(d, pos) && n >= BLOCK && page == PageRva(d, pos) && count == EntryCount(n)
    requires BlockDone(m, m', d, page, pos + BLOCK, count, move, dir)
    ensures WalkDone(final, m', d, dir, pos + n, move)
  {
    WalkStep(final, m, d, dir, pos, n, page, count, move);
  }

  lemma TargetsNext(d: seq<byte>, pos: nat, n: nat, page: nat, count: nat)
    requires BlocksFit(d, pos) && pos + BLOCK <= |d|
    requires n == BlockSize(d, pos) && n >= BLOCK && page == PageRva(d, pos) && count == EntryCount(n)
    ensures pos + n <= |d| && BlocksFit(d, pos + n)
    ensures Targets(d, pos) == Entries(d, page, pos + BLOCK, count) + Targets(d, pos + n)
  {
  }

  // Patching the first targets of a list leaves the rest.
  lemma Peel(final: seq<byte>, m: seq<byte>, d: seq<byte>, dir: nat, us: seq<Target>, rest: seq<Target>, move: int)
    requires IsDir(m, d, dir) && InImage(us + rest, |m|, dir, |d|) && PatchAll(m, us + rest, move) == final
    ensures InImage(us, |m|, dir, |d|) && InImage(rest, |m|, dir, |d|)
    ensures IsDir(PatchAll(m, us, move), d, dir) && PatchAll(PatchAll(m, us, move), rest, move) == final
  {
    InImageSplit(us, rest, |m|, dir, |d|);
    PatchAllJoin(m, us, rest, move);
    PatchOutside(m, us, move, d, dir);
  }

  lemma WalkEnd(final: seq<byte>, m: seq<byte>, d: seq<byte>, dir: nat, pos: nat, move: int)
    requires WalkDone(final, m, d, dir, pos, move)
    requires pos + BLOCK <= |d| ==> BlockSize(d, pos) < BLOCK
    ensures m == final
  {
    assert Targets(d, pos) == [];
  }

  lemma InImageSplit(a: seq<Target>, b: seq<Target>, length: nat, dir: nat, size: nat)
    requires InImage(a + b, length, dir, size)
    ensures InImage(a, length, dir, size) && InImage(b, length, dir, size)
  {
    AllInImage(a + b, length, dir, size);
    forall k | 0 <= k < |a| ensures InImageAt(a, k, length, dir, size) { assert a[k] == (a + b)[k]; }
    forall k | 0 <= k < |b| ensures InImageAt(b, k, length, dir, size) { assert b[k] == (a + b)[|a| + k]; }
  }

  lemma PatchAllOne(m: seq<byte>, t: Target, delta: int)
    ensures PatchAll(m, [t], delta) == Patch(m, t, delta)
  {
    assert [t][..0] == [];
  }

  lemma {:induction false} PatchAllJoin(m: seq<byte>, a: seq<Target>, b: seq<Target>, delta: int)
    ensures PatchAll(m, a + b, delta) == PatchAll(PatchAll(m, a, delta), b, delta)
  {
    if b == [] {
      assert a + b == a;
    } else {
      PatchAllJoin(m, a, b[..|b| - 1], delta);
      assert (a + b)[..|a + b| - 1] == a + b[..|b| - 1];
    }
  }

  lemma {:induction false} PatchOutside(m: seq<byte>, ts: seq<Target>, delta: int, d: seq<byte>, dir: nat)
    requires IsDir(m, d, dir) && InImage(ts, |m|, dir, |d|)
    ensures IsDir(PatchAll(m, ts, delta), d, dir)
  {
    if ts == [] {
    } else {
      var (front, t) := (ts[..|ts| - 1], ts[|ts| - 1]);
      assert ts == front + [t] && InImageAt(ts, |ts| - 1, |m|, dir, |d|);
      InImageSplit(front, [t], |m|, dir, |d|);
      PatchOutside(m, front, delta, d, dir);
    }
  }

  lemma {:induction false} EntryIn(d: seq<byte>, page: nat, at: nat, i: nat, count: nat, length: nat, dir: nat)
    requires i < count && at + 2 * count <= |d| && InImage(Entries(d, page, at, count), length, dir, |d|)
    ensures InImage(EntryTarget(page, Get(d, at + 2 * i, 2)), length, dir, |d|)
    decreases count
  {
    InImageSplit(Entries(d, page, at, count - 1), EntryTarget(page, Get(d, at + 2 * (count - 1), 2)), length, dir, |d|);
    if i < count - 1 { EntryIn(d, page, at, i, count - 1, length, dir); }
  }
}
