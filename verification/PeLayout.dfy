/** PE32+ files and relocation directories as whoever writes them lays them out, and what the
    loader makes of every such file. */
module Layout {
  import opened Bytes
  import opened Packing
  import L = Loader
  import R = Relocation

  // ----- a relocation directory -----

  datatype Fixup = Fixup(kind: nat, off: nat)

  // The fixups of one 4 KiB page of the image
  datatype Block = Block(rva: nat, fixups: seq<Fixup>)

  ghost predicate BlockOk(b: Block) {
    && b.rva < U32 && 8 + 2 * |b.fixups| < U32
    && forall i :: 0 <= i < |b.fixups| ==> b.fixups[i].kind < 16 && b.fixups[i].off < 0x1000
  }

  // The kind in the upper four bits
  function FixupBytes(f: Fixup): (r: seq<byte>)
    ensures |r| == 2
  {
    Encode(f.kind * 0x1000 + f.off, 2)
  }

  function FixupRecords(fs: seq<Fixup>): seq<seq<byte>> {
    seq(|fs|, i requires 0 <= i < |fs| => FixupBytes(fs[i]))
  }

  function BlockHead(b: Block): Fields { [(4, b.rva), (4, 8 + 2 * |b.fixups|)] }

  function BlockBytes(b: Block): seq<byte> { Pack(BlockHead(b)) + Flat(FixupRecords(b.fixups)) }

  function DirBytes(bs: seq<Block>): seq<byte> {
    if bs == [] then [] else BlockBytes(bs[0]) + DirBytes(bs[1..])
  }

  // What the fixups ask for: kind 10 an eight-byte word, kind 3 a four-byte word, any other nothing
  function Wanted(rva: nat, fs: seq<Fixup>): seq<R.Target> {
    if fs == [] then []
    else
      var f := fs[|fs| - 1];
      Wanted(rva, fs[..|fs| - 1])
      + (if f.kind == 10 then [R.Target(rva + f.off, 8)] else if f.kind == 3 then [R.Target(rva + f.off, 4)] else [])
  }

  function AllWanted(bs: seq<Block>): seq<R.Target> {
    if bs == [] then [] else Wanted(bs[0].rva, bs[0].fixups) + AllWanted(bs[1..])
  }

  lemma HeadWords(b: Block)
    requires BlockOk(b)
    ensures |Pack(BlockHead(b))| == 8
    ensures Get(Pack(BlockHead(b)), 0, 4) == b.rva && Get(Pack(BlockHead(b)), 4, 4) == 8 + 2 * |b.fixups|
  {
    WordSizes();
    PackLength(BlockHead(b), 2);
    GetField(BlockHead(b), 0, 0, 4, b.rva);
    GetField(BlockHead(b), 1, 4, 4, 8 + 2 * |b.fixups|);
  }

  lemma FixupWord(f: Fixup, rva: nat)
    requires f.kind < 16 && f.off < 0x1000
    ensures var v := f.kind * 0x1000 + f.off;
      Get(FixupBytes(f), 0, 2) == v && v / 0x1000 == f.kind && v % 0x1000 == f.off
  {
    WordSizes();
    GetEncoded(f.kind * 0x1000 + f.off, 2);
    ModUnique(f.kind * 0x1000 + f.off, 0x1000, f.kind, f.off);
  }

  // The words of a block that lies in d at position at
  ghost predicate BlockAt(d: seq<byte>, at: nat, b: Block) {
    && at + 8 + 2 * |b.fixups| <= |d|
    && Get(d, at, 4) == b.rva && Get(d, at + 4, 4) == 8 + 2 * |b.fixups|
    && forall i {:trigger b.fixups[i]} :: 0 <= i < |b.fixups| ==>
         Get(d, at + 8 + 2 * i, 2) == b.fixups[i].kind * 0x1000 + b.fixups[i].off
  }

  lemma BlockWords(d: seq<byte>, pre: seq<byte>, b: Block, post: seq<byte>)
    requires BlockOk(b) && d == pre + (BlockBytes(b) + post)
    ensures |BlockBytes(b)| == 8 + 2 * |b.fixups| && BlockAt(d, |pre|, b)
  {
    HeadWords(b);
    FlatLength(FixupRecords(b.fixups), 2);
    WordAt(pre, BlockBytes(b), post, 0, 4);
    WordAt(pre, BlockBytes(b), post, 4, 4);
    GetLeft(Pack(BlockHead(b)), Flat(FixupRecords(b.fixups)), 0, 4);
    GetLeft(Pack(BlockHead(b)), Flat(FixupRecords(b.fixups)), 4, 4);
    forall i {:trigger b.fixups[i]} | 0 <= i < |b.fixups|
      ensures Get(d, |pre| + 8 + 2 * i, 2) == b.fixups[i].kind * 0x1000 + b.fixups[i].off
    {
      FixupInBlock(b, i);
      WordAt(pre, BlockBytes(b), post, 8 + 2 * i, 2);
    }
  }

  lemma FixupInBlock(b: Block, i: nat)
    requires BlockOk(b) && i < |b.fixups|
    ensures 8 + 2 * i + 2 <= |BlockBytes(b)|
    ensures Get(BlockBytes(b), 8 + 2 * i, 2) == b.fixups[i].kind * 0x1000 + b.fixups[i].off
  {
    HeadWords(b);
    FixupWord(b.fixups[i], b.rva);
    GetRecord(FixupRecords(b.fixups), 2, i, 0, 2);
    GetRight(Pack(BlockHead(b)), Flat(FixupRecords(b.fixups)), i * 2, 2);
  }

  lemma WordAt(pre: seq<byte>, m: seq<byte>, post: seq<byte>, o: nat, n: nat)
    requires o + n <= |m|
    ensures Get(pre + (m + post), |pre| + o, n) == Get(m, o, n)
  {
    GetRight(pre, m + post, o, n);
    GetLeft(m, post, o, n);
  }

  lemma WantedLast(rva: nat, fs: seq<Fixup>, n: nat, entry: nat)
    requires 0 < n <= |fs| && fs[n - 1].kind == entry / 0x1000 && fs[n - 1].off == entry % 0x1000
    ensures Wanted(rva, fs[..n]) == Wanted(rva, fs[..n - 1]) + R.EntryTarget(rva, entry)
  {
    assert fs[..n][..n - 1] == fs[..n - 1];
  }

  lemma {:induction false} EntriesWanted(d: seq<byte>, at: nat, b: Block, n: nat)
    requires BlockOk(b) && BlockAt(d, at, b) && n <= |b.fixups|
    ensures R.Entries(d, b.rva, at + 8, n) == Wanted(b.rva, b.fixups[..n])
    decreases n
  {
    if n == 0 {
    } else {
      EntriesWanted(d, at, b, n - 1);
      var f := b.fixups[n - 1];
      FixupWord(f, b.rva);
      var entry := f.kind * 0x1000 + f.off;
      WantedLast(b.rva, b.fixups, n, entry);
      assert Get(d, at + 8 + 2 * (n - 1), 2) == entry;
      R.EntriesNext(d, b.rva, at + 8, n - 1, entry);
    }
  }

  lemma CountOf(n: nat)
    ensures R.EntryCount(8 + 2 * n) == n
  {
  }

  // One block of the walk
  lemma BlockWanted(d: seq<byte>, at: nat, b: Block, next: nat, ts: seq<R.Target>)
    requires BlockOk(b) && BlockAt(d, at, b) && next == at + 8 + 2 * |b.fixups|
    requires R.BlocksFit(d, next) && R.Targets(d, next) == ts
    ensures R.BlocksFit(d, at) && R.Targets(d, at) == Wanted(b.rva, b.fixups) + ts
  {
    var n := |b.fixups|;
    EntriesWanted(d, at, b, n);
    assert b.fixups[..n] == b.fixups;
    CountOf(n);
  }

  lemma DirSplit(d: seq<byte>, pre: seq<byte>, b: seq<byte>, rest: seq<byte>)
    requires d == pre + (b + rest)
    ensures d == pre + b + rest
  {
  }

  // The walk over a directory that ends with these blocks finds what their fixups ask for.
  lemma {:induction false} WalkWanted(d: seq<byte>, pre: seq<byte>, bs: seq<Block>)
    requires d == pre + DirBytes(bs) && forall i :: 0 <= i < |bs| ==> BlockOk(bs[i])
    ensures R.BlocksFit(d, |pre|) && R.Targets(d, |pre|) == AllWanted(bs)
    decreases |bs|
  {
    if bs == [] {
    } else {
      var (b, next) := (bs[0], pre + BlockBytes(bs[0]));
      DirSplit(d, pre, BlockBytes(b), DirBytes(bs[1..]));
      BlockWords(d, pre, b, DirBytes(bs[1..]));
      WalkWanted(d, next, bs[1..]);
      BlockWanted(d, |pre|, b, |next|, AllWanted(bs[1..]));
    }
  }

  // Round trip: an image with these blocks as its directory has exactly the targets their
  // fixups ask for, in order.
  lemma DirectoryBack(m: seq<byte>, dir: nat, bs: seq<Block>)
    requires var size := |DirBytes(bs)|; dir + size <= |m| && size < U32 && R.Dir(m, dir, size) == DirBytes(bs)
    requires forall i :: 0 <= i < |bs| ==> BlockOk(bs[i])
    ensures R.DirFits(m, dir, |DirBytes(bs)|) && R.AllTargets(m, dir, |DirBytes(bs)|) == AllWanted(bs)
  {
    WalkWanted(DirBytes(bs), [], bs);
  }

  // Every fixup of kind 10 or 3 is asked for.
  lemma {:induction false} WantedHas(rva: nat, fs: seq<Fixup>, j: nat) returns (k: nat)
    requires j < |fs| && (fs[j].kind == 10 || fs[j].kind == 3)
    ensures k < |Wanted(rva, fs)|
    ensures Wanted(rva, fs)[k] == R.Target(rva + fs[j].off, if fs[j].kind == 10 then 8 else 4)
    decreases |fs|
  {
    var front := Wanted(rva, fs[..|fs| - 1]);
    if j == |fs| - 1 {
      k := |front|;
    } else {
      k := WantedHas(rva, fs[..|fs| - 1], j);
      assert Wanted(rva, fs)[k] == front[k];
    }
  }

  lemma {:induction false} AllWantedHas(bs: seq<Block>, i: nat, j: nat) returns (k: nat)
    requires i < |bs| && j < |bs[i].fixups| && (bs[i].fixups[j].kind == 10 || bs[i].fixups[j].kind == 3)
    ensures k < |AllWanted(bs)|
    ensures var f := bs[i].fixups[j];
      AllWanted(bs)[k] == R.Target(bs[i].rva + f.off, if f.kind == 10 then 8 else 4)
    decreases |bs|
  {
    var first := Wanted(bs[0].rva, bs[0].fixups);
    if i == 0 {
      k := WantedHas(bs[0].rva, bs[0].fixups, j);
    } else {
      k := AllWantedHas(bs[1..], i - 1, j);
      k := k + |first|;
    }
  }

  // ----- a PE32+ file -----

  datatype Directory = Directory(rva: nat, size: nat)

  datatype SectionRow = SectionRow(name: nat, virtualSize: nat, section: L.Section, rest: nat)

  // What a writer chooses. The fields gap1 to gap4 and info hold what the loader does not read.
  datatype File = File(dos: nat, stub: seq<byte>, info: nat, flags: nat,
                       gap1: nat, entry: nat, gap2: nat, base: nat, gap3: nat, size: nat, headers: nat, gap4: nat,
                       dirs: seq<Directory>, sections: seq<SectionRow>, body: seq<byte>)

  ghost predicate FileOk(f: File) {
    && 64 + |f.stub| < U32 && |f.sections| < U16 && 112 + 8 * |f.dirs| < U16
    && f.entry < U32 && f.base < U64 && f.size < U32 && f.headers < U32
    && (forall i :: 0 <= i < |f.dirs| ==> f.dirs[i].rva < U32 && f.dirs[i].size < U32)
    && (forall i :: 0 <= i < |f.sections| ==> SectionOk(f.sections[i].section))
  }

  ghost predicate SectionOk(s: L.Section) { s.address < U32 && s.rawSize < U32 && s.rawAt < U32 }

  function DosFields(f: File): Fields { [(2, 0x5A4D), (58, f.dos), (4, 64 + |f.stub|)] }

  function CoffFields(f: File): Fields {
    [(4, 0x4550), (2, 0x8664), (2, |f.sections|), (12, f.info), (2, 112 + 8 * |f.dirs|), (2, f.flags)]
  }

  function OptFields(f: File): Fields {
    [(2, 0x20B), (14, f.gap1), (4, f.entry), (4, f.gap2), (8, f.base), (24, f.gap3), (4, f.size), (4, f.headers),
     (44, f.gap4), (4, |f.dirs|)]
  }

  function DirFields(d: Directory): Fields { [(4, d.rva), (4, d.size)] }

  function SectionFields(s: SectionRow): Fields {
    var r := s.section;
    [(8, s.name), (4, s.virtualSize), (4, r.address), (4, r.rawSize), (4, r.rawAt), (16, s.rest)]
  }

  function DirRecords(f: File): seq<seq<byte>> {
    seq(|f.dirs|, i requires 0 <= i < |f.dirs| => Pack(DirFields(f.dirs[i])))
  }

  function SectionRecords(f: File): seq<seq<byte>> {
    seq(|f.sections|, i requires 0 <= i < |f.sections| => Pack(SectionFields(f.sections[i])))
  }

  function FileBytes(f: File): seq<byte> {
    (Pack(DosFields(f)) + f.stub)
    + (Pack(CoffFields(f)) + (Pack(OptFields(f)) + (Flat(DirRecords(f)) + (Flat(SectionRecords(f)) + f.body))))
  }

  // ----- the parts, read back -----

  lemma DosWords(f: File)
    requires FileOk(f)
    ensures var p := Pack(DosFields(f)); |p| == 64 && Get(p, 0, 2) == 0x5A4D && Get(p, 0x3C, 4) == 64 + |f.stub|
  {
    WordSizes();
    PackLength(DosFields(f), 3);
    GetField(DosFields(f), 0, 0, 2, 0x5A4D);
    GetField(DosFields(f), 2, 60, 4, 64 + |f.stub|);
  }

  lemma CoffWords(f: File)
    requires FileOk(f)
    ensures var p := Pack(CoffFields(f));
      && |p| == 24 && Get(p, 0, 4) == 0x4550 && Get(p, 4, 2) == 0x8664 && Get(p, 6, 2) == |f.sections|
      && Get(p, 20, 2) == 112 + 8 * |f.dirs|
  {
    WordSizes();
    PackLength(CoffFields(f), 6);
    GetField(CoffFields(f), 0, 0, 4, 0x4550);
    GetField(CoffFields(f), 1, 4, 2, 0x8664);
    GetField(CoffFields(f), 2, 6, 2, |f.sections|);
    GetField(CoffFields(f), 4, 20, 2, 112 + 8 * |f.dirs|);
  }

  lemma OptWords(f: File)
    requires FileOk(f)
    ensures var p := Pack(OptFields(f));
      && |p| == 112 && Get(p, 0, 2) == 0x20B && Get(p, 16, 4) == f.entry && Get(p, 24, 8) == f.base
      && Get(p, 56, 4) == f.size && Get(p, 60, 4) == f.headers && Get(p, 108, 4) == |f.dirs|
  {
    WordSizes();
    PackLength(OptFields(f), 10);
    GetField(OptFields(f), 0, 0, 2, 0x20B);
    GetField(OptFields(f), 2, 16, 4, f.entry);
    GetField(OptFields(f), 4, 24, 8, f.base);
    GetField(OptFields(f), 6, 56, 4, f.size);
    GetField(OptFields(f), 7, 60, 4, f.headers);
    GetField(OptFields(f), 9, 108, 4, |f.dirs|);
  }

  lemma DirWords(d: Directory)
    requires d.rva < U32 && d.size < U32
    ensures var p := Pack(DirFields(d)); |p| == 8 && Get(p, 0, 4) == d.rva && Get(p, 4, 4) == d.size
  {
    WordSizes();
    PackLength(DirFields(d), 2);
    GetField(DirFields(d), 0, 0, 4, d.rva);
    GetField(DirFields(d), 1, 4, 4, d.size);
  }

  lemma SectionWords(s: SectionRow)
    requires SectionOk(s.section)
    ensures var p := Pack(SectionFields(s));
      && |p| == 40 && Get(p, 12, 4) == s.section.address && Get(p, 16, 4) == s.section.rawSize
      && Get(p, 20, 4) == s.section.rawAt
  {
    WordSizes();
    PackLength(SectionFields(s), 6);
    GetField(SectionFields(s), 2, 12, 4, s.section.address);
    GetField(SectionFields(s), 3, 16, 4, s.section.rawSize);
    GetField(SectionFields(s), 4, 20, 4, s.section.rawAt);
  }

  // The pieces of a file: front, COFF header, optional header, directories, sections, body
  ghost predicate Pieces(m: seq<byte>, a: seq<byte>, c: seq<byte>, o: seq<byte>, d: seq<byte>, s: seq<byte>,
                         body: seq<byte>)
  {
    m == a + (c + (o + (d + (s + body))))
  }

  // Where the parts of a file are: the COFF header at l, directories and sections behind
  ghost predicate HeadersRead(m: seq<byte>, f: File, l: nat) {
    && l + 136 <= |m| && l >= 64
    && Get(m, 0, 2) == 0x5A4D && Get(m, 0x3C, 4) == l
    && Get(m, l, 4) == 0x4550 && Get(m, l + 4, 2) == 0x8664 && Get(m, l + 6, 2) == |f.sections|
    && Get(m, l + 20, 2) == 112 + 8 * |f.dirs|
    && Get(m, l + 24, 2) == 0x20B && Get(m, l + 24 + 16, 4) == f.entry && Get(m, l + 24 + 24, 8) == f.base
    && Get(m, l + 24 + 56, 4) == f.size && Get(m, l + 24 + 60, 4) == f.headers && Get(m, l + 24 + 108, 4) == |f.dirs|
  }

  ghost predicate DirRead(m: seq<byte>, d: Directory, at: nat) {
    at + 8 <= |m| && Get(m, at, 4) == d.rva && Get(m, at + 4, 4) == d.size
  }

  ghost predicate SectionRead(m: seq<byte>, s: L.Section, at: nat) {
    && at + 40 <= |m|
    && Get(m, at + 12, 4) == s.address && Get(m, at + 16, 4) == s.rawSize && Get(m, at + 20, 4) == s.rawAt
  }

  lemma FilePieces(f: File)
    requires FileOk(f)
    ensures Pieces(FileBytes(f), Pack(DosFields(f)) + f.stub, Pack(CoffFields(f)), Pack(OptFields(f)),
                   Flat(DirRecords(f)), Flat(SectionRecords(f)), f.body)
    ensures |Pack(DosFields(f))| == 64 && |Pack(CoffFields(f))| == 24 && |Pack(OptFields(f))| == 112
    ensures |Flat(DirRecords(f))| == 8 * |f.dirs| && Uniform(DirRecords(f), 8)
    ensures |Flat(SectionRecords(f))| == 40 * |f.sections| && Uniform(SectionRecords(f), 40)
  {
    DosWords(f);
    CoffWords(f);
    OptWords(f);
    forall i | 0 <= i < |f.dirs| ensures |DirRecords(f)[i]| == 8 { DirWords(f.dirs[i]); }
    forall i | 0 <= i < |f.sections| ensures |SectionRecords(f)[i]| == 40 { SectionWords(f.sections[i]); }
    FlatLength(DirRecords(f), 8);
    FlatLength(SectionRecords(f), 40);
  }

  lemma FileHeaders(f: File, l: nat)
    requires FileOk(f) && l == 64 + |f.stub|
    ensures HeadersRead(FileBytes(f), f, l)
    ensures |FileBytes(f)| == l + 136 + 8 * |f.dirs| + 40 * |f.sections| + |f.body|
  {
    FilePieces(f);
    DosWords(f);
    CoffWords(f);
    OptWords(f);
    HeadersAre(FileBytes(f), f, l, Pack(DosFields(f)), Pack(CoffFields(f)), Pack(OptFields(f)),
               Flat(DirRecords(f)), Flat(SectionRecords(f)));
  }

  lemma HeadersAre(m: seq<byte>, f: File, l: nat, a: seq<byte>, c: seq<byte>, o: seq<byte>, d: seq<byte>, s: seq<byte>)
    requires l == 64 + |f.stub| && |a| == 64 && |c| == 24 && |o| == 112
    requires Pieces(m, a + f.stub, c, o, d, s, f.body)
    requires Get(a, 0, 2) == 0x5A4D && Get(a, 0x3C, 4) == l
    requires Get(c, 0, 4) == 0x4550 && Get(c, 4, 2) == 0x8664 && Get(c, 6, 2) == |f.sections|
    requires Get(c, 20, 2) == 112 + 8 * |f.dirs|
    requires Get(o, 0, 2) == 0x20B && Get(o, 16, 4) == f.entry && Get(o, 24, 8) == f.base
    requires Get(o, 56, 4) == f.size && Get(o, 60, 4) == f.headers && Get(o, 108, 4) == |f.dirs|
    ensures HeadersRead(m, f, l) && |m| == l + 136 + |d| + |s| + |f.body|
  {
    GetLeft(a, f.stub, 0, 2);
    GetLeft(a, f.stub, 0x3C, 4);
    FrontWords(a + f.stub, c, o + (d + (s + f.body)));
    OptionalWords(a + f.stub, c, o, d + (s + f.body));
  }

  lemma FrontWords(b: seq<byte>, c: seq<byte>, rest: seq<byte>)
    requires |b| >= 64 && |c| == 24
    ensures var m := b + (c + rest);
      && Get(m, 0, 2) == Get(b, 0, 2) && Get(m, 0x3C, 4) == Get(b, 0x3C, 4)
      && Get(m, |b|, 4) == Get(c, 0, 4) && Get(m, |b| + 4, 2) == Get(c, 4, 2)
      && Get(m, |b| + 6, 2) == Get(c, 6, 2) && Get(m, |b| + 20, 2) == Get(c, 20, 2)
  {
    GetLeft(b, c + rest, 0, 2);
    GetLeft(b, c + rest, 0x3C, 4);
    WordAt(b, c, rest, 0, 4);
    WordAt(b, c, rest, 4, 2);
    WordAt(b, c, rest, 6, 2);
    WordAt(b, c, rest, 20, 2);
  }

  lemma OptionalWords(b: seq<byte>, c: seq<byte>, o: seq<byte>, rest: seq<byte>)
    requires |c| == 24 && |o| == 112
    ensures var (m, p) := (b + (c + (o + rest)), |b| + 24);
      && Get(m, p, 2) == Get(o, 0, 2) && Get(m, p + 16, 4) == Get(o, 16, 4) && Get(m, p + 24, 8) == Get(o, 24, 8)
      && Get(m, p + 56, 4) == Get(o, 56, 4) && Get(m, p + 60, 4) == Get(o, 60, 4)
      && Get(m, p + 108, 4) == Get(o, 108, 4)
  {
    WordBehind(b, c, o, rest, 0, 2);
    WordBehind(b, c, o, rest, 16, 4);
    WordBehind(b, c, o, rest, 24, 8);
    WordBehind(b, c, o, rest, 56, 4);
    WordBehind(b, c, o, rest, 60, 4);
    WordBehind(b, c, o, rest, 108, 4);
  }

  lemma WordBehind(b: seq<byte>, c: seq<byte>, o: seq<byte>, rest: seq<byte>, at: nat, n: nat)
    requires at + n <= |o|
    ensures Get(b + (c + (o + rest)), |b| + |c| + at, n) == Get(o, at, n)
  {
    GetRight(b, c + (o + rest), |c| + at, n);
    WordAt(c, o, rest, at, n);
  }

  // Word o of row i of a table of w-byte rows that lies behind front
  lemma RowWord(m: seq<byte>, front: nat, rs: seq<seq<byte>>, w: nat, i: nat, o: nat, n: nat)
    requires Uniform(rs, w) && i < |rs| && o + n <= w && front + |Flat(rs)| <= |m|
    requires forall at, k {:trigger Get(Flat(rs), at, k)} :: 0 <= at && 0 <= k && at + k <= |Flat(rs)| ==>
      Get(m, front + at, k) == Get(Flat(rs), at, k)
    ensures front + w * i + o + n <= |m| && Get(m, front + w * i + o, n) == Get(rs[i], o, n)
  {
    GetRecord(rs, w, i, o, n);
    assert front + (i * w + o) == front + w * i + o;
  }

  lemma DirWord(f: File, i: nat, o: nat, n: nat)
    requires FileOk(f) && i < |f.dirs| && o + n <= 8
    ensures |DirRecords(f)[i]| == 8 && 64 + |f.stub| + 136 + 8 * i + o + n <= |FileBytes(f)|
    ensures Get(FileBytes(f), 64 + |f.stub| + 136 + 8 * i + o, n) == Get(DirRecords(f)[i], o, n)
  {
    FilePieces(f);
    DirsIn(FileBytes(f), Pack(DosFields(f)) + f.stub, Pack(CoffFields(f)), Pack(OptFields(f)),
           Flat(DirRecords(f)), Flat(SectionRecords(f)), f.body, 64 + |f.stub| + 136);
    RowWord(FileBytes(f), 64 + |f.stub| + 136, DirRecords(f), 8, i, o, n);
  }

  lemma DirsIn(m: seq<byte>, a: seq<byte>, c: seq<byte>, o: seq<byte>, d: seq<byte>, s: seq<byte>, body: seq<byte>,
               front: nat)
    requires Pieces(m, a, c, o, d, s, body) && front == |a| + |c| + |o|
    ensures front + |d| <= |m|
    ensures forall at, k {:trigger Get(d, at, k)} :: 0 <= at && 0 <= k && at + k <= |d| ==>
      Get(m, front + at, k) == Get(d, at, k)
  {
    forall at, k {:trigger Get(d, at, k)} | 0 <= at && 0 <= k && at + k <= |d|
      ensures Get(m, front + at, k) == Get(d, at, k)
    {
      GetRight(a, c + (o + (d + (s + body))), |c| + |o| + at, k);
      WordBehind(c, o, d, s + body, at, k);
    }
  }

  lemma SectionWord(f: File, i: nat, o: nat, n: nat)
    requires FileOk(f) && i < |f.sections| && o + n <= 40
    ensures |SectionRecords(f)[i]| == 40
    ensures 64 + |f.stub| + 136 + 8 * |f.dirs| + 40 * i + o + n <= |FileBytes(f)|
    ensures Get(FileBytes(f), 64 + |f.stub| + 136 + 8 * |f.dirs| + 40 * i + o, n) == Get(SectionRecords(f)[i], o, n)
  {
    FilePieces(f);
    SectionsIn(FileBytes(f), Pack(DosFields(f)) + f.stub, Pack(CoffFields(f)), Pack(OptFields(f)),
               Flat(DirRecords(f)), Flat(SectionRecords(f)), f.body, 64 + |f.stub| + 136 + 8 * |f.dirs|);
    RowWord(FileBytes(f), 64 + |f.stub| + 136 + 8 * |f.dirs|, SectionRecords(f), 40, i, o, n);
  }

  lemma SectionsIn(m: seq<byte>, a: seq<byte>, c: seq<byte>, o: seq<byte>, d: seq<byte>, s: seq<byte>, body: seq<byte>,
                   front: nat)
    requires Pieces(m, a, c, o, d, s, body) && front == |a| + |c| + |o| + |d|
    ensures front + |s| <= |m|
    ensures forall at, k {:trigger Get(s, at, k)} :: 0 <= at && 0 <= k && at + k <= |s| ==>
      Get(m, front + at, k) == Get(s, at, k)
  {
    forall at, k {:trigger Get(s, at, k)} | 0 <= at && 0 <= k && at + k <= |s|
      ensures Get(m, front + at, k) == Get(s, at, k)
    {
      GetRight(a, c + (o + (d + (s + body))), |c| + |o| + |d| + at, k);
      GetRight(c, o + (d + (s + body)), |o| + |d| + at, k);
      WordBehind(o, d, s, body, at, k);
    }
  }

  lemma FileDir(f: File, i: nat)
    requires FileOk(f) && i < |f.dirs|
    ensures DirRead(FileBytes(f), f.dirs[i], 64 + |f.stub| + 136 + 8 * i)
  {
    DirWords(f.dirs[i]);
    DirWord(f, i, 0, 8);
    DirWord(f, i, 0, 4);
    DirWord(f, i, 4, 4);
  }

  lemma FileSection(f: File, i: nat)
    requires FileOk(f) && i < |f.sections|
    ensures SectionRead(FileBytes(f), f.sections[i].section, 64 + |f.stub| + 136 + 8 * |f.dirs| + 40 * i)
  {
    SectionWords(f.sections[i]);
    SectionWord(f, i, 0, 40);
    SectionWord(f, i, 12, 4);
    SectionWord(f, i, 16, 4);
    SectionWord(f, i, 20, 4);
  }

  // ----- what the loader makes of it -----

  // The sixth directory, if there are so many and both its halves say something
  function RelocPair(f: File): Option<(nat, nat)> {
    if |f.dirs| < 6 || f.dirs[5].rva == 0 || f.dirs[5].size == 0 then None else Some((f.dirs[5].rva, f.dirs[5].size))
  }

  lemma HeadersAccepted(m: seq<byte>, f: File, l: nat)
    requires HeadersRead(m, f, l) && l + 136 + 8 * |f.dirs| + 40 * |f.sections| <= |m|
    ensures L.HeadersPresent(m) && L.SectionsPresent(m) && L.DirectoriesPresent(m)
    ensures L.Verdict(m) == L.Accepted(L.Info(f.entry, f.base, f.size, f.headers, |f.sections|))
    ensures L.SectionsAt(m) == l + 136 + 8 * |f.dirs| && L.SectionCount(m) == |f.sections|
  {
  }

  lemma RelocFound(m: seq<byte>, f: File, l: nat)
    requires HeadersRead(m, f, l) && L.DirectoriesPresent(m)
    requires |f.dirs| >= 6 ==> DirRead(m, f.dirs[5], l + 136 + 8 * 5)
    ensures L.RelocDir(m) == RelocPair(f)
  {
  }

  lemma SectionFound(m: seq<byte>, i: nat, at: nat, s: L.Section)
    requires L.CoffPresent(m) && L.SectionsAt(m) == at && SectionRead(m, s, at + 40 * i)
    ensures L.SectionOf(m, i) == s
  {
  }

  function InfoOf(f: File): L.Info { L.Info(f.entry, f.base, f.size, f.headers, |f.sections|) }

  // The loader accepts m and finds the fields and tables of f in it.
  ghost predicate ReadsAs(m: seq<byte>, f: File) {
    && L.HeadersPresent(m) && L.SectionsPresent(m) && L.DirectoriesPresent(m)
    && L.Verdict(m) == L.Accepted(InfoOf(f))
    && L.SectionCount(m) == |f.sections|
    && (forall i :: 0 <= i < |f.sections| ==> L.SectionOf(m, i) == f.sections[i].section)
    && L.RelocDir(m) == RelocPair(f)
  }

  // Round trip: every file so laid out is accepted with the fields written; the section and
  // directory tables are found behind whatever number of directories there is, row by row; the
  // relocation directory is the one numbered 5, counted from 0.
  lemma FileBack(f: File)
    requires FileOk(f)
    ensures ReadsAs(FileBytes(f), f)
  {
    var (m, l) := (FileBytes(f), 64 + |f.stub|);
    FileHeaders(f, l);
    forall i | 0 <= i < |f.dirs| ensures DirRead(m, f.dirs[i], l + 136 + 8 * i) { FileDir(f, i); }
    forall i | 0 <= i < |f.sections| ensures SectionRead(m, f.sections[i].section, l + 136 + 8 * |f.dirs| + 40 * i) {
      FileSection(f, i);
    }
    TablesFound(m, f, l);
  }

  lemma TablesFound(m: seq<byte>, f: File, l: nat)
    requires HeadersRead(m, f, l) && l + 136 + 8 * |f.dirs| + 40 * |f.sections| <= |m|
    requires forall i :: 0 <= i < |f.dirs| ==> DirRead(m, f.dirs[i], l + 136 + 8 * i)
    requires forall i :: 0 <= i < |f.sections| ==>
      SectionRead(m, f.sections[i].section, l + 136 + 8 * |f.dirs| + 40 * i)
    ensures ReadsAs(m, f)
  {
    HeadersAccepted(m, f, l);
    RelocFound(m, f, l);
    forall i | 0 <= i < |f.sections| ensures L.SectionOf(m, i) == f.sections[i].section {
      SectionFound(m, i, l + 136 + 8 * |f.dirs|, f.sections[i].section);
    }
  }

  // Section i has contents that lie in the file and an address range in the image over byte b.
  ghost predicate Over(f: File, fileSize: nat, i: nat, b: nat)
    requires i < |f.sections|
  {
    var s := f.sections[i].section;
    && s.rawSize > 0 && s.rawAt > 0 && s.rawAt + s.rawSize <= fileSize && s.address + s.rawSize <= f.size
    && s.address <= b < s.address + s.rawSize
  }

  ghost predicate NoneOver(f: File, fileSize: nat, from: nat, n: nat, b: nat)
    requires n <= |f.sections|
  {
    forall j :: from <= j < n ==> !Over(f, fileSize, j, b)
  }

  lemma MapsOverIs(f: File, m: seq<byte>, i: nat, b: nat)
    requires ReadsAs(m, f) && i < |f.sections|
    ensures L.MapsOver(m, i, f.size, b) <==> Over(f, |m|, i, b)
  {
  }

  lemma {:induction false} ByteFrom(f: File, m: seq<byte>, copy: nat, n: nat, i: nat, b: nat)
    requires ReadsAs(m, f) && copy <= |m|
    requires i < n <= |f.sections| && Over(f, |m|, i, b) && NoneOver(f, |m|, i + 1, n, b)
    ensures L.ByteOf(m, f.size, copy, n, b) == m[f.sections[i].section.rawAt + (b - f.sections[i].section.address)]
    decreases n
  {
    MapsOverIs(f, m, n - 1, b);
    if i == n - 1 {
    } else {
      ByteFrom(f, m, copy, n - 1, i, b);
    }
  }

  lemma {:induction false} ByteBehind(f: File, m: seq<byte>, copy: nat, n: nat, b: nat)
    requires ReadsAs(m, f) && copy <= |m| && n <= |f.sections| && NoneOver(f, |m|, 0, n, b)
    ensures L.ByteOf(m, f.size, copy, n, b) == if b < copy then m[b] else 0
    decreases n
  {
    if n == 0 {
    } else {
      MapsOverIs(f, m, n - 1, b);
      ByteBehind(f, m, copy, n - 1, b);
    }
  }

  // The image before relocation
  function Image(m: seq<byte>, f: File): seq<byte>
    requires ReadsAs(m, f)
  {
    L.MappedImage(m, InfoOf(f))
  }

  // A byte of the image comes from the last section over it ...
  lemma ByteOfSection(f: File, m: seq<byte>, i: nat, b: nat)
    requires ReadsAs(m, f) && b < f.size && i < |f.sections|
    requires Over(f, |m|, i, b) && NoneOver(f, |m|, i + 1, |f.sections|, b)
    ensures |Image(m, f)| == f.size
    ensures var s := f.sections[i].section; Image(m, f)[b] == m[s.rawAt + (b - s.address)]
  {
    ByteFrom(f, m, L.HeaderCopy(InfoOf(f), |m|), |f.sections|, i, b);
  }

  // ... and with none over it from the start of the file, as far as the headers are said to go,
  // and else it is zero.
  lemma ByteOfHeaders(f: File, m: seq<byte>, b: nat)
    requires ReadsAs(m, f) && b < f.size && NoneOver(f, |m|, 0, |f.sections|, b)
    ensures |Image(m, f)| == f.size
    ensures Image(m, f)[b] == if b < f.headers && b < |m| then m[b] else 0
  {
    ByteBehind(f, m, L.HeaderCopy(InfoOf(f), |m|), |f.sections|, b);
  }

  // ----- loading it -----

  // If there is a relocation directory, it is well formed in the mapped image.
  ghost predicate Runnable(m: seq<byte>, f: File)
    requires ReadsAs(m, f)
  {
    RelocPair(f).Some? ==> R.WellFormed(Image(m, f), f.dirs[5].rva, f.dirs[5].size)
  }

  lemma LoadedIs(f: File, m: seq<byte>, base: nat)
    requires ReadsAs(m, f) && RelocPair(f).Some? && Runnable(m, f)
    ensures L.Loadable(m)
    ensures L.LoadedImage(m, base) == R.Rebased(Image(m, f), f.dirs[5].rva, f.dirs[5].size, base - f.base)
  {
  }

  // At every base the file is loaded as mapped, and relocated by the distance from its preferred
  // base over exactly directory 5; if either half of that pair is zero, it stays as mapped.
  lemma LoadedBack(f: File, m: seq<byte>, base: nat)
    requires ReadsAs(m, f) && Runnable(m, f)
    ensures L.Loadable(m)
    ensures RelocPair(f).None? ==> L.LoadedImage(m, base) == Image(m, f)
    ensures RelocPair(f).Some? ==>
      R.Relocation(Image(m, f), L.LoadedImage(m, base), f.dirs[5].rva, f.dirs[5].size, base - f.base)
  {
    if RelocPair(f).Some? {
      LoadedIs(f, m, base);
      R.RebasedIs(Image(m, f), f.dirs[5].rva, f.dirs[5].size, base - f.base);
    }
  }

  ghost predicate IsDirectory(image: seq<byte>, dir: nat, bs: seq<Block>) {
    && (forall k :: 0 <= k < |bs| ==> BlockOk(bs[k]))
    && |DirBytes(bs)| < U32 && R.IsDir(image, DirBytes(bs), dir)
  }

  // The words that the blocks of a directory ask for lie in the image, outside the directory, and
  // apart from each other.
  ghost predicate BlocksFit(image: seq<byte>, dir: nat, size: nat, bs: seq<Block>) {
    && IsDirectory(image, dir, bs) && size == |DirBytes(bs)|
    && R.InImage(AllWanted(bs), |image|, dir, size) && R.Disjoint(AllWanted(bs))
  }

  lemma BlocksRebased(image: seq<byte>, dir: nat, size: nat, bs: seq<Block>, delta: int)
    requires BlocksFit(image, dir, size, bs)
    ensures R.WellFormed(image, dir, size)
    ensures R.Relocated(image, R.Rebased(image, dir, size, delta), AllWanted(bs), delta)
  {
    assert R.Dir(image, dir, size) == DirBytes(bs);
    DirectoryBack(image, dir, bs);
    R.RebasedIs(image, dir, size, delta);
  }

  lemma MovedAddress(x: nat, from: nat, to: nat)
    requires to + x < U64
    ensures R.Moved(from + x, to - from, 8) == to + x
  {
    WordSizes();
    R.ModIs(from + x + (to - from), U64, 0, to + x);
  }

  lemma WordMoves(m: seq<byte>, m': seq<byte>, ts: seq<R.Target>, k: nat, t: R.Target, delta: int)
    requires R.Relocated(m, m', ts, delta) && k < |ts| && ts[k] == t
    ensures |m'| == |m| && R.MovedAt(m, m', t, delta)
  {
    assert R.MovedAt(m, m', ts[k], delta);
  }

  lemma PointerMoves(m: seq<byte>, m': seq<byte>, ts: seq<R.Target>, k: nat, t: R.Target, x: nat, from: nat, to: nat)
    requires R.Relocated(m, m', ts, to - from) && k < |ts| && ts[k] == t && t.width == 8
    requires t.at + 8 <= |m| && Get(m, t.at, t.width) == from + x && to + x < U64
    ensures |m'| == |m| && Get(m', t.at, t.width) == to + x
  {
    WordMoves(m, m', ts, k, t, to - from);
    MovedAddress(x, from, to);
  }

  // A fixup of the blocks names the eight-byte word at the address.
  ghost predicate Names(bs: seq<Block>, i: nat, j: nat, at: nat) {
    i < |bs| && j < |bs[i].fixups| && bs[i].fixups[j].kind == 10 && at == bs[i].rva + bs[i].fixups[j].off
  }

  // Directory 5 of the mapped image consists of these blocks: the file can be loaded, the words
  // that their fixups ask for have moved, and no other byte has changed.
  lemma LoadedOver(f: File, m: seq<byte>, base: nat, bs: seq<Block>)
    requires ReadsAs(m, f) && RelocPair(f).Some? && BlocksFit(Image(m, f), f.dirs[5].rva, f.dirs[5].size, bs)
    ensures L.Loadable(m) && R.Relocated(Image(m, f), L.LoadedImage(m, base), AllWanted(bs), base - f.base)
  {
    BlocksRebased(Image(m, f), f.dirs[5].rva, f.dirs[5].size, bs, base - f.base);
    LoadedIs(f, m, base);
  }

  // Pointers follow: in an image so relocated, an eight-byte word that a fixup names and that held
  // the address of the byte at x for the preferred base holds its address for the base used.
  lemma PointersFollow(m: seq<byte>, m': seq<byte>, bs: seq<Block>, i: nat, j: nat, at: nat, x: nat, from: nat,
                       to: nat)
    requires R.Relocated(m, m', AllWanted(bs), to - from) && Names(bs, i, j, at)
    requires at + 8 <= |m| && Get(m, at, 8) == from + x && to + x < U64
    ensures |m'| == |m| && Get(m', at, 8) == to + x
  {
    var k := AllWantedHas(bs, i, j);
    PointerMoves(m, m', AllWanted(bs), k, R.Target(at, 8), x, from, to);
  }
}
