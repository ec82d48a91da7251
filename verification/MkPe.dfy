/** The sample builder: a minimal PE32+ file around a code blob, and what the loader makes of
    it. */
module MkPe {
  import opened Bytes
  import opened Packing
  import L = Loader
  import R = Relocation

  const FILE_ALIGN: nat := 0x200
  const SECT_ALIGN: nat := 0x1000
  const IMAGE_BASE: nat := 0x1_4000_0000
  const PE_AT: nat := 0x80        // e_lfanew
  const OPT_SIZE: nat := 0xF0     // 16 data directories
  const CODE_RVA: nat := 0x1000

  function AlignUp(v: nat, a: nat): nat
    requires a > 0
  {
    (v + a - 1) / a * a
  }

  // AlignUp gives the least multiple of a that is not below v.
  lemma AlignUpIs(v: nat, a: nat, k: nat)
    requires a > 0
    ensures AlignUp(v, a) % a == 0 && v <= AlignUp(v, a) < v + a
    ensures (k - 1) * a < v <= k * a ==> AlignUp(v, a) == k * a
  {
    var q := (v + a - 1) / a;
    assert v + a - 1 == q * a + (v + a - 1) % a;
    ModUnique(q * a, a, q, 0);
    if (k - 1) * a < v <= k * a {
      ModUnique(v + a - 1, a, k, v - 1 - (k - 1) * a) by { assert (k - 1) * a == k * a - a; }
    }
  }

  function RawSize(code: seq<byte>): nat { AlignUp(|code|, FILE_ALIGN) }

  function ImageSize(code: seq<byte>): nat { AlignUp(CODE_RVA + RawSize(code), SECT_ALIGN) }

  function HeaderSize(): nat { AlignUp(PE_AT + 4 + 20 + OPT_SIZE + 40, FILE_ALIGN) }

  // ----- the parts of the file -----

  // "MZ" and e_lfanew in 128 zeroed bytes
  function StubFields(): Fields { [(2, 0x5A4D), (58, 0), (4, PE_AT), (64, 0)] }

  function Stub(): seq<byte> { Pack(StubFields()) }

  function CoffFields(): Fields {
    [(4, 0x4550), (2, 0x8664), (2, 1), (4, 0), (4, 0), (4, 0), (2, OPT_SIZE), (2, 0x22)]
  }

  function Coff(): seq<byte> { Pack(CoffFields()) }

  // The packed pieces of the optional header, by the offset they are written at. The piece at
  // 68 is meant for offset 70: it wipes the subsystem that the piece at 64 ends with, and what
  // follows is two bytes early.
  function Opt0(): Fields { [(2, 0x20B), (1, 14), (1, 0)] }
  function Opt4(raw: nat): Fields { [(4, raw), (4, 0), (4, 0)] }
  function Opt16(): Fields { [(4, CODE_RVA), (4, 0x1000)] }
  function Opt24(): Fields { [(8, IMAGE_BASE)] }
  function Opt32(): Fields { [(4, SECT_ALIGN), (4, FILE_ALIGN)] }
  function Opt40(): Fields {
    [(2, 6), (2, 0), (2, 0), (2, 1), (2, 3), (2, 0)]
  }
  function Opt52(): Fields { [(4, 0)] }
  function Opt56(image: nat, headers: nat): Fields { [(4, image), (4, headers)] }
  function Opt64(): Fields { [(4, 0), (2, 3)] }
  function Opt68(): Fields { [(2, 0)] }
  function Opt70(): Fields { [(8, 0x100000), (8, 0x1000), (8, 0x100000), (8, 0x1000)] }
  function Opt102(): Fields { [(4, 0), (4, 16)] }

  function OptHead(raw: nat): seq<byte> {
    Pack(Opt0()) + (Pack(Opt4(raw)) + (Pack(Opt16()) + (Pack(Opt24()) + (Pack(Opt32()) + Pack(Opt40())))))
  }

  function OptTail(image: nat, headers: nat): seq<byte> {
    PackLength(Opt64(), 2);
    Pack(Opt52()) + (Pack(Opt56(image, headers)) + (Pack(Opt64())[..4] + (Pack(Opt68()) + (Pack(Opt70())
    + (Pack(Opt102()) + Zeros(130))))))
  }

  function SectionFields(size: nat, raw: nat, headers: nat): Fields {
    [(4, size), (4, CODE_RVA), (4, raw), (4, headers), (4, 0), (4, 0), (2, 0), (2, 0), (4, 0x60000020)]
  }

  const NAME: seq<byte> := [0x2E, 0x74, 0x65, 0x78, 0x74, 0, 0, 0]   // ".text"

  function SectionHeader(size: nat, raw: nat, headers: nat): seq<byte> {
    NAME + Pack(SectionFields(size, raw, headers))
  }

  function Headers(size: nat, raw: nat, image: nat, headers: nat): seq<byte> {
    Stub() + (Coff() + (OptHead(raw) + (OptTail(image, headers) + (SectionHeader(size, raw, headers) + Zeros(0x50)))))
  }

  // The file with the sizes given
  function FileOf(code: seq<byte>, raw: nat, image: nat, headers: nat): seq<byte> {
    Headers(|code|, raw, image, headers) + (code + Zeros(if |code| <= raw then raw - |code| else 0))
  }

  function PeFile(code: seq<byte>): seq<byte> { FileOf(code, RawSize(code), ImageSize(code), HeaderSize()) }

  // ----- the parts, read back -----

  lemma StubIs()
    ensures |Stub()| == 128 && Get(Stub(), 0, 2) == L.MZ && Get(Stub(), 0x3C, 4) == PE_AT
  {
    WordSizes();
    PackLength(StubFields(), 4);
    GetField(StubFields(), 0, 0, 2, 0x5A4D);
    GetField(StubFields(), 2, 60, 4, PE_AT);
  }

  lemma CoffIs()
    ensures |Coff()| == 24
    ensures Get(Coff(), 0, 4) == L.PE && Get(Coff(), 4, 2) == L.AMD64 && Get(Coff(), 6, 2) == 1
    ensures Get(Coff(), 20, 2) == OPT_SIZE
  {
    WordSizes();
    PackLength(CoffFields(), 8);
    GetField(CoffFields(), 0, 0, 4, 0x4550);
    GetField(CoffFields(), 1, 4, 2, 0x8664);
    GetField(CoffFields(), 2, 6, 2, 1);
    GetField(CoffFields(), 6, 20, 2, OPT_SIZE);
  }

  lemma OptHeadIs(raw: nat)
    ensures |OptHead(raw)| == 52
    ensures Get(OptHead(raw), 0, 2) == L.PE32PLUS && Get(OptHead(raw), 16, 4) == CODE_RVA
    ensures Get(OptHead(raw), 24, 8) == IMAGE_BASE
  {
    HeadPiecesAre(raw);
    HeadWords(Pack(Opt0()), Pack(Opt4(raw)), Pack(Opt16()), Pack(Opt24()), Pack(Opt32()) + Pack(Opt40()));
  }

  lemma HeadPiecesAre(raw: nat)
    ensures HeadLengths(raw)
    ensures Get(Pack(Opt0()), 0, 2) == L.PE32PLUS && Get(Pack(Opt16()), 0, 4) == CODE_RVA
    ensures Get(Pack(Opt24()), 0, 8) == IMAGE_BASE
  {
    HeadLengthsAre(raw);
    HeadFieldsAre();
  }

  lemma HeadFieldsAre()
    ensures |Pack(Opt0())| >= 2 && |Pack(Opt16())| >= 4 && |Pack(Opt24())| >= 8
    ensures Get(Pack(Opt0()), 0, 2) == L.PE32PLUS && Get(Pack(Opt16()), 0, 4) == CODE_RVA
    ensures Get(Pack(Opt24()), 0, 8) == IMAGE_BASE
  {
    WordSizes();
    GetField(Opt0(), 0, 0, 2, 0x20B);
    GetField(Opt16(), 0, 0, 4, CODE_RVA);
    GetField(Opt24(), 0, 0, 8, IMAGE_BASE);
  }

  ghost predicate HeadLengths(raw: nat) {
    && |Pack(Opt0())| == 4 && |Pack(Opt4(raw))| == 12 && |Pack(Opt16())| == 8 && |Pack(Opt24())| == 8
    && |Pack(Opt32())| == 8 && |Pack(Opt40())| == 12
  }

  lemma HeadLengthsAre(raw: nat)
    ensures HeadLengths(raw)
  {
    PackLength(Opt0(), 3);
    PackLength(Opt4(raw), 3);
    PackLength(Opt16(), 2);
    PackLength(Opt24(), 1);
    PackLength(Opt32(), 2);
    PackLength(Opt40(), 6);
  }

  lemma HeadWords(a: seq<byte>, b: seq<byte>, c: seq<byte>, d: seq<byte>, e: seq<byte>)
    requires |a| == 4 && |b| == 12 && |c| == 8 && |d| == 8
    ensures var m := a + (b + (c + (d + e)));
      Get(m, 0, 2) == Get(a, 0, 2) && Get(m, 16, 4) == Get(c, 0, 4) && Get(m, 24, 8) == Get(d, 0, 8)
  {
    var t16 := c + (d + e);
    GetLeft(a, b + t16, 0, 2);
    GetRight(a, b + t16, 12, 4);
    GetRight(b, t16, 0, 4);
    GetLeft(c, d + e, 0, 4);
    GetRight(a, b + t16, 20, 8);
    GetRight(b, t16, 8, 8);
    GetRight(c, d + e, 0, 8);
    GetLeft(d, e, 0, 8);
  }

  lemma OptTailIs(image: nat, headers: nat)
    requires image < U32 && headers < U32
    ensures |OptTail(image, headers)| == 188
    ensures Get(OptTail(image, headers), 4, 4) == image && Get(OptTail(image, headers), 8, 4) == headers
    ensures Get(OptTail(image, headers), 16, 2) == 0 && Get(OptTail(image, headers), 56, 4) == 0
  {
    PiecesAre(image, headers);
    var (a, b, c) := (Pack(Opt52()), Pack(Opt56(image, headers)), Pack(Opt64())[..4]);
    var (d, e) := (Pack(Opt68()), Pack(Opt70()));
    TailWords(a, b, c, d, e + (Pack(Opt102()) + Zeros(130)));
    CountAt(a, b, c, d, e);
  }

  lemma PiecesAre(image: nat, headers: nat)
    requires image < U32 && headers < U32
    ensures |Pack(Opt52())| == 4 && |Pack(Opt64())| == 6 && |Pack(Opt68())| == 2 && |Pack(Opt70())| == 32
    ensures |Pack(Opt56(image, headers))| == 8
    ensures Get(Pack(Opt56(image, headers)), 0, 4) == image && Get(Pack(Opt56(image, headers)), 4, 4) == headers
    ensures Get(Pack(Opt68()), 0, 2) == 0
  {
    WordSizes();
    PackLength(Opt52(), 1);
    PackLength(Opt56(image, headers), 2);
    PackLength(Opt64(), 2);
    PackLength(Opt68(), 1);
    PackLength(Opt70(), 4);
    GetField(Opt56(image, headers), 0, 0, 4, image);
    GetField(Opt56(image, headers), 1, 4, 4, headers);
    GetField(Opt68(), 0, 0, 2, 0);
  }

  lemma TailWords(a: seq<byte>, b: seq<byte>, c: seq<byte>, d: seq<byte>, e: seq<byte>)
    requires |a| == 4 && |b| == 8 && |c| == 4 && |d| == 2
    ensures var m := a + (b + (c + (d + e)));
      Get(m, 4, 4) == Get(b, 0, 4) && Get(m, 8, 4) == Get(b, 4, 4) && Get(m, 16, 2) == Get(d, 0, 2)
  {
    var t64 := c + (d + e);
    GetRight(a, b + t64, 0, 4);
    GetLeft(b, t64, 0, 4);
    GetRight(a, b + t64, 4, 4);
    GetLeft(b, t64, 4, 4);
    GetRight(a, b + t64, 12, 2);
    GetRight(b, t64, 4, 2);
    GetRight(c, d + e, 0, 2);
    GetLeft(d, e, 0, 2);
  }

  // Where the loader looks for the number of directories it finds the upper half of the number
  // written two bytes early, and zeros.
  lemma CountAt(a: seq<byte>, b: seq<byte>, c: seq<byte>, d: seq<byte>, e: seq<byte>)
    requires |a| == 4 && |b| == 8 && |c| == 4 && |d| == 2 && |e| == 32
    ensures var m := a + (b + (c + (d + (e + (Pack(Opt102()) + Zeros(130))))));
      |m| == 188 && Get(m, 56, 4) == 0
  {
    PackLength(Opt102(), 2);
    var t := Pack(Opt102()) + Zeros(130);
    CountBytes();
    GetZeros(t, 6, 4);
    GetRight(e, t, 6, 4);
    GetRight(d, e + t, 38, 4);
    GetRight(c, d + (e + t), 40, 4);
    GetRight(b, c + (d + (e + t)), 44, 4);
    GetRight(a, b + (c + (d + (e + t))), 52, 4);
  }

  lemma CountBytes()
    ensures |Pack(Opt102())| == 8 && Pack(Opt102())[6] == 0 && Pack(Opt102())[7] == 0
  {
    var f := Opt102();
    assert PackTo(f, 1) == [] + Encode(0, 4);
    assert Pack(f) == PackTo(f, 1) + Encode(16, 4);
    assert Encode(16, 4) == [16] + Encode(0, 3);
    EncodeZero(3);
  }

  lemma SectionHeaderIs(size: nat, raw: nat, headers: nat)
    requires raw < U32 && headers < U32
    ensures |SectionHeader(size, raw, headers)| == 40
    ensures Get(SectionHeader(size, raw, headers), 12, 4) == CODE_RVA
    ensures Get(SectionHeader(size, raw, headers), 16, 4) == raw
    ensures Get(SectionHeader(size, raw, headers), 20, 4) == headers
  {
    SectionFieldsAre(size, raw, headers);
    SectionWords(NAME, Pack(SectionFields(size, raw, headers)));
  }

  lemma SectionFieldsAre(size: nat, raw: nat, headers: nat)
    requires raw < U32 && headers < U32
    ensures var p := Pack(SectionFields(size, raw, headers));
      |p| == 32 && Get(p, 4, 4) == CODE_RVA && Get(p, 8, 4) == raw && Get(p, 12, 4) == headers
  {
    WordSizes();
    var f := SectionFields(size, raw, headers);
    PackLength(f, 9);
    GetField(f, 1, 4, 4, CODE_RVA);
    GetField(f, 2, 8, 4, raw);
    GetField(f, 3, 12, 4, headers);
  }

  lemma SectionWords(name: seq<byte>, p: seq<byte>)
    requires |name| == 8 && |p| == 32
    ensures Get(name + p, 12, 4) == Get(p, 4, 4) && Get(name + p, 16, 4) == Get(p, 8, 4)
    ensures Get(name + p, 20, 4) == Get(p, 12, 4)
  {
    GetRight(name, p, 4, 4);
    GetRight(name, p, 8, 4);
    GetRight(name, p, 12, 4);
  }

  // The words the loader reads, in the headers
  ghost predicate HeaderWords(m: seq<byte>, raw: nat, image: nat, headers: nat) {
    && |m| == 0x200
    && Get(m, 0, 2) == L.MZ && Get(m, 0x3C, 4) == PE_AT
    && Get(m, 128, 4) == L.PE && Get(m, 132, 2) == L.AMD64 && Get(m, 134, 2) == 1 && Get(m, 148, 2) == OPT_SIZE
    && Get(m, 152, 2) == L.PE32PLUS && Get(m, 168, 4) == CODE_RVA && Get(m, 176, 8) == IMAGE_BASE
    && Get(m, 208, 4) == image && Get(m, 212, 4) == headers && Get(m, 220, 2) == 0 && Get(m, 260, 4) == 0
    && Get(m, 404, 4) == CODE_RVA && Get(m, 408, 4) == raw && Get(m, 412, 4) == headers
  }

  lemma HeadersAre(size: nat, raw: nat, image: nat, headers: nat)
    requires raw < U32 && image < U32 && headers < U32
    ensures HeaderWords(Headers(size, raw, image, headers), raw, image, headers)
  {
    StubIs();
    CoffIs();
    OptHeadIs(raw);
    OptTailIs(image, headers);
    SectionHeaderIs(size, raw, headers);
    FrontWords(Stub(), Coff(), OptHead(raw), OptTail(image, headers), SectionHeader(size, raw, headers), Zeros(0x50));
    BackWords(Stub(), Coff(), OptHead(raw), OptTail(image, headers), SectionHeader(size, raw, headers), Zeros(0x50));
    LastWords(Stub(), Coff(), OptHead(raw), OptTail(image, headers), SectionHeader(size, raw, headers), Zeros(0x50));
  }

  lemma FrontWords(a: seq<byte>, b: seq<byte>, c: seq<byte>, d: seq<byte>, e: seq<byte>, z: seq<byte>)
    requires |a| == 128 && |b| == 24 && |c| == 52 && |d| == 188 && |e| == 40 && |z| == 80
    ensures var m := a + (b + (c + (d + (e + z))));
      && |m| == 0x200
      && Get(m, 0, 2) == Get(a, 0, 2) && Get(m, 0x3C, 4) == Get(a, 0x3C, 4)
      && Get(m, 128, 4) == Get(b, 0, 4) && Get(m, 132, 2) == Get(b, 4, 2) && Get(m, 134, 2) == Get(b, 6, 2)
      && Get(m, 148, 2) == Get(b, 20, 2)
  {
    WordIn(a, b, c, d, e, z, 0, 2);
    WordIn(a, b, c, d, e, z, 0x3C, 4);
    WordIn(a, b, c, d, e, z, 0, 4);
    WordIn(a, b, c, d, e, z, 4, 2);
    WordIn(a, b, c, d, e, z, 6, 2);
    WordIn(a, b, c, d, e, z, 20, 2);
  }

  lemma BackWords(a: seq<byte>, b: seq<byte>, c: seq<byte>, d: seq<byte>, e: seq<byte>, z: seq<byte>)
    requires |a| == 128 && |b| == 24 && |c| == 52 && |d| == 188 && |e| == 40 && |z| == 80
    ensures var m := a + (b + (c + (d + (e + z))));
      && |m| == 0x200
      && Get(m, 152, 2) == Get(c, 0, 2) && Get(m, 168, 4) == Get(c, 16, 4) && Get(m, 176, 8) == Get(c, 24, 8)
      && Get(m, 208, 4) == Get(d, 4, 4) && Get(m, 212, 4) == Get(d, 8, 4) && Get(m, 220, 2) == Get(d, 16, 2)
      && Get(m, 260, 4) == Get(d, 56, 4)
  {
    WordIn(a, b, c, d, e, z, 0, 2);
    WordIn(a, b, c, d, e, z, 16, 4);
    WordIn(a, b, c, d, e, z, 24, 8);
    WordIn(a, b, c, d, e, z, 4, 4);
    WordIn(a, b, c, d, e, z, 8, 4);
    WordIn(a, b, c, d, e, z, 16, 2);
    WordIn(a, b, c, d, e, z, 56, 4);
  }

  lemma LastWords(a: seq<byte>, b: seq<byte>, c: seq<byte>, d: seq<byte>, e: seq<byte>, z: seq<byte>)
    requires |a| == 128 && |b| == 24 && |c| == 52 && |d| == 188 && |e| == 40 && |z| == 80
    ensures var m := a + (b + (c + (d + (e + z))));
      && |m| == 0x200
      && Get(m, 404, 4) == Get(e, 12, 4) && Get(m, 408, 4) == Get(e, 16, 4) && Get(m, 412, 4) == Get(e, 20, 4)
  {
    WordIn(a, b, c, d, e, z, 12, 4);
    WordIn(a, b, c, d, e, z, 16, 4);
    WordIn(a, b, c, d, e, z, 20, 4);
  }

  lemma WordIn(a: seq<byte>, b: seq<byte>, c: seq<byte>, d: seq<byte>, e: seq<byte>, z: seq<byte>, o: nat, n: nat)
    requires |a| == 128 && |b| == 24 && |c| == 52 && |d| == 188 && |e| == 40 && |z| == 80
    ensures var m := a + (b + (c + (d + (e + z))));
      && |m| == 0x200
      && (o + n <= 128 ==> Get(m, o, n) == Get(a, o, n))
      && (o + n <= 24 ==> Get(m, 128 + o, n) == Get(b, o, n))
      && (o + n <= 52 ==> Get(m, 152 + o, n) == Get(c, o, n))
      && (o + n <= 188 ==> Get(m, 204 + o, n) == Get(d, o, n))
      && (o + n <= 40 ==> Get(m, 392 + o, n) == Get(e, o, n))
  {
    var m3, m2 := d + (e + z), c + (d + (e + z));
    var m1 := b + m2;
    if o + n <= 128 { GetLeft(a, m1, o, n); }
    if o + n <= 24 { GetRight(a, m1, o, n); GetLeft(b, m2, o, n); }
    if o + n <= 52 { GetRight(a, m1, 24 + o, n); GetRight(b, m2, o, n); GetLeft(c, m3, o, n); }
    if o + n <= 188 {
      GetRight(a, m1, 76 + o, n);
      GetRight(b, m2, 52 + o, n);
      GetRight(c, m3, o, n);
      GetLeft(d, e + z, o, n);
    }
    if o + n <= 40 {
      GetRight(a, m1, 264 + o, n);
      GetRight(b, m2, 240 + o, n);
      GetRight(c, m3, 188 + o, n);
      GetRight(d, e + z, o, n);
      GetLeft(e, z, o, n);
    }
  }

  // ----- the words that the loader does not read -----

  // The rest of the COFF header, at its offsets
  ghost predicate CoffRest(m: seq<byte>) {
    && |m| == 24
    && Get(m, 8, 4) == 0 && Get(m, 12, 4) == 0 && Get(m, 16, 4) == 0 && Get(m, 22, 2) == 0x22
  }

  // The linker version, code size and base, alignments and versions
  ghost predicate HeadRest(m: seq<byte>, raw: nat) {
    && |m| == 52
    && Get(m, 2, 1) == 14 && Get(m, 3, 1) == 0 && Get(m, 4, 4) == raw && Get(m, 8, 4) == 0 && Get(m, 12, 4) == 0
    && Get(m, 20, 4) == 0x1000 && Get(m, 32, 4) == 0x1000 && Get(m, 36, 4) == 0x200
    && Get(m, 40, 2) == 6 && Get(m, 42, 2) == 0 && Get(m, 44, 2) == 0 && Get(m, 46, 2) == 1 && Get(m, 48, 2) == 3
    && Get(m, 50, 2) == 0
  }

  // From offset 52 of the optional header on: the reserves and what follows start two bytes early.
  ghost predicate TailRest(m: seq<byte>) {
    && |m| == 188
    && Get(m, 0, 4) == 0 && Get(m, 12, 4) == 0
    && Get(m, 18, 8) == 0x10_0000 && Get(m, 26, 8) == 0x1000 && Get(m, 34, 8) == 0x10_0000 && Get(m, 42, 8) == 0x1000
    && Get(m, 50, 4) == 0 && Get(m, 54, 4) == 16 && forall i :: 58 <= i < 188 ==> m[i] == 0
  }

  ghost predicate SectionRest(m: seq<byte>, size: nat) {
    && |m| == 40 && m[..8] == [0x2E, 0x74, 0x65, 0x78, 0x74, 0, 0, 0]
    && Get(m, 8, 4) == size && Get(m, 24, 4) == 0 && Get(m, 28, 4) == 0 && Get(m, 32, 2) == 0 && Get(m, 34, 2) == 0
    && Get(m, 36, 4) == 0x6000_0020
  }

  lemma CoffRestIs()
    ensures CoffRest(Coff())
  {
    WordSizes();
    PackLength(CoffFields(), 8);
    GetField(CoffFields(), 3, 8, 4, 0);
    GetField(CoffFields(), 4, 12, 4, 0);
    GetField(CoffFields(), 5, 16, 4, 0);
    GetField(CoffFields(), 7, 22, 2, 0x22);
  }

  // Six pieces of these lengths, at their places
  lemma HeadPieces(a: seq<byte>, b: seq<byte>, c: seq<byte>, d: seq<byte>, e: seq<byte>, f: seq<byte>)
    requires |a| == 4 && |b| == 12 && |c| == 8 && |d| == 8 && |e| == 8 && |f| == 12
    ensures var m := a + (b + (c + (d + (e + f))));
      |m| == 52 && m[0..4] == a && m[4..16] == b && m[16..24] == c && m[32..40] == e && m[40..52] == f
  {
  }

  lemma HeadRestIs(raw: nat)
    requires raw < U32
    ensures HeadRest(OptHead(raw), raw)
  {
    var m := OptHead(raw);
    HeadLengthsAre(raw);
    HeadPieces(Pack(Opt0()), Pack(Opt4(raw)), Pack(Opt16()), Pack(Opt24()), Pack(Opt32()), Pack(Opt40()));
    SizesIn(m, raw);
    AlignsIn(m);
    VersionsIn(m);
  }

  lemma SizesIn(m: seq<byte>, raw: nat)
    requires |m| == 52 && m[0..4] == Pack(Opt0()) && m[4..16] == Pack(Opt4(raw)) && raw < U32
    ensures Get(m, 2, 1) == 14 && Get(m, 3, 1) == 0
    ensures Get(m, 4, 4) == raw && Get(m, 8, 4) == 0 && Get(m, 12, 4) == 0
  {
    WordSizes();
    PieceWord(m, 0, Opt0(), 1, 2, 1, 14);
    PieceWord(m, 0, Opt0(), 2, 3, 1, 0);
    PieceWord(m, 4, Opt4(raw), 0, 0, 4, raw);
    PieceWord(m, 4, Opt4(raw), 1, 4, 4, 0);
    PieceWord(m, 4, Opt4(raw), 2, 8, 4, 0);
  }

  lemma AlignsIn(m: seq<byte>)
    requires |m| == 52 && m[16..24] == Pack(Opt16()) && m[32..40] == Pack(Opt32())
    ensures Get(m, 20, 4) == 0x1000 && Get(m, 32, 4) == 0x1000 && Get(m, 36, 4) == 0x200
  {
    WordSizes();
    PieceWord(m, 16, Opt16(), 1, 4, 4, 0x1000);
    PieceWord(m, 32, Opt32(), 0, 0, 4, 0x1000);
    PieceWord(m, 32, Opt32(), 1, 4, 4, 0x200);
  }

  lemma VersionsIn(m: seq<byte>)
    requires |m| == 52 && |Pack(Opt40())| == 12 && m[40..52] == Pack(Opt40())
    ensures Get(m, 40, 2) == 6 && Get(m, 42, 2) == 0 && Get(m, 44, 2) == 0
    ensures Get(m, 46, 2) == 1 && Get(m, 48, 2) == 3 && Get(m, 50, 2) == 0
  {
    FirstVersions(m, Opt40());
    LastVersions(m, Opt40());
  }

  lemma FirstVersions(m: seq<byte>, f: Fields)
    requires |m| == 52 && f == Opt40() && |Pack(f)| == 12 && m[40..52] == Pack(f)
    ensures Get(m, 40, 2) == 6 && Get(m, 42, 2) == 0 && Get(m, 44, 2) == 0
  {
    WordSizes();
    PieceWord(m, 40, f, 0, 0, 2, 6);
    PieceWord(m, 40, f, 1, 2, 2, 0);
    PieceWord(m, 40, f, 2, 4, 2, 0);
  }

  lemma LastVersions(m: seq<byte>, f: Fields)
    requires |m| == 52 && f == Opt40() && |Pack(f)| == 12 && m[40..52] == Pack(f)
    ensures Get(m, 46, 2) == 1 && Get(m, 48, 2) == 3 && Get(m, 50, 2) == 0
  {
    WordSizes();
    PieceWord(m, 40, f, 3, 6, 2, 1);
    PieceWord(m, 40, f, 4, 8, 2, 3);
    PieceWord(m, 40, f, 5, 10, 2, 0);
  }

  // Field k of a piece that lies in m at position at
  lemma PieceWord(m: seq<byte>, at: nat, f: Fields, k: nat, o: nat, n: nat, v: nat)
    requires at + |Pack(f)| <= |m| && m[at..at + |Pack(f)|] == Pack(f)
    requires k < |f| && o == Off(f, k) && f[k] == (n, v) && v < Pow256(n)
    ensures at + o + n <= |m| && Get(m, at + o, n) == v
  {
    GetField(f, k, o, n, v);
    GetInside(m, at, Pack(f), o, n);
  }

  lemma TailSlices(a: seq<byte>, b: seq<byte>, c: seq<byte>, d: seq<byte>, e: seq<byte>, f: seq<byte>, z: seq<byte>)
    requires |a| == 4 && |b| == 8 && |c| == 4 && |d| == 2 && |e| == 32 && |f| == 8 && |z| == 130
    ensures var m := a + (b + (c + (d + (e + (f + z)))));
      && |m| == 188 && m[0..4] == a && m[12..16] == c && m[18..50] == e && m[50..58] == f && m[58..188] == z
  {
  }

  lemma TailRestIs(image: nat, headers: nat)
    ensures TailRest(OptTail(image, headers))
  {
    var m := OptTail(image, headers);
    PackLength(Opt52(), 1);
    PackLength(Opt56(image, headers), 2);
    PackLength(Opt64(), 2);
    PackLength(Opt68(), 1);
    PackLength(Opt70(), 4);
    PackLength(Opt102(), 2);
    TailSlices(Pack(Opt52()), Pack(Opt56(image, headers)), Pack(Opt64())[..4], Pack(Opt68()), Pack(Opt70()),
               Pack(Opt102()), Zeros(130));
    ReservesIn(m);
    TailEndsIn(m);
  }

  lemma ReservesIn(m: seq<byte>)
    requires |m| == 188 && m[18..50] == Pack(Opt70()) && m[50..58] == Pack(Opt102())
    ensures Get(m, 18, 8) == 0x10_0000 && Get(m, 26, 8) == 0x1000 && Get(m, 34, 8) == 0x10_0000
    ensures Get(m, 42, 8) == 0x1000 && Get(m, 50, 4) == 0 && Get(m, 54, 4) == 16
  {
    WordSizes();
    PieceWord(m, 18, Opt70(), 0, 0, 8, 0x10_0000);
    PieceWord(m, 18, Opt70(), 1, 8, 8, 0x1000);
    PieceWord(m, 18, Opt70(), 2, 16, 8, 0x10_0000);
    PieceWord(m, 18, Opt70(), 3, 24, 8, 0x1000);
    PieceWord(m, 50, Opt102(), 0, 0, 4, 0);
    PieceWord(m, 50, Opt102(), 1, 4, 4, 16);
  }

  lemma TailEndsIn(m: seq<byte>)
    requires |m| == 188 && m[0..4] == Pack(Opt52()) && |Pack(Opt64())| == 6 && m[12..16] == Pack(Opt64())[..4]
    requires m[58..188] == Zeros(130)
    ensures Get(m, 0, 4) == 0 && Get(m, 12, 4) == 0 && forall i :: 58 <= i < 188 ==> m[i] == 0
  {
    WordSizes();
    PieceWord(m, 0, Opt52(), 0, 0, 4, 0);
    GetField(Opt64(), 0, 0, 4, 0);
    GetFrame(Pack(Opt64())[..4], Pack(Opt64()), 0, 4);
    GetInside(m, 12, Pack(Opt64())[..4], 0, 4);
    forall i | 58 <= i < 188 ensures m[i] == 0 { assert m[i] == m[58..188][i - 58]; }
  }

  lemma SectionRestIs(size: nat, raw: nat, headers: nat)
    requires size < U32
    ensures SectionRest(SectionHeader(size, raw, headers), size)
  {
    WordSizes();
    var f := SectionFields(size, raw, headers);
    PackLength(f, 9);
    GetField(f, 0, 0, 4, size);
    GetField(f, 4, 16, 4, 0);
    GetField(f, 5, 20, 4, 0);
    GetField(f, 6, 24, 2, 0);
    GetField(f, 7, 26, 2, 0);
    GetField(f, 8, 28, 4, 0x6000_0020);
    SectionGets(NAME, Pack(f));
  }

  lemma SectionGets(name: seq<byte>, p: seq<byte>)
    requires |name| == 8 && |p| == 32
    ensures var m := name + p;
      && m[..8] == name && Get(m, 8, 4) == Get(p, 0, 4) && Get(m, 24, 4) == Get(p, 16, 4)
      && Get(m, 28, 4) == Get(p, 20, 4) && Get(m, 32, 2) == Get(p, 24, 2) && Get(m, 34, 2) == Get(p, 26, 2)
      && Get(m, 36, 4) == Get(p, 28, 4)
  {
    GetRight(name, p, 0, 4);
    GetRight(name, p, 16, 4);
    GetRight(name, p, 20, 4);
    GetRight(name, p, 24, 2);
    GetRight(name, p, 26, 2);
    GetRight(name, p, 28, 4);
  }

  // The parts of the headers, in order, hold these words and, with those that the loader reads, no
  // others: what is left of them is zero.
  lemma HeadersRest(size: nat, raw: nat, image: nat, headers: nat)
    requires size < U32 && raw < U32 && image < U32 && headers < U32
    ensures var m := Headers(size, raw, image, headers);
      && |m| == 0x200 && CoffRest(m[128..152]) && HeadRest(m[152..204], raw) && TailRest(m[204..392])
      && SectionRest(m[392..432], size) && forall i :: 432 <= i < 0x200 ==> m[i] == 0
  {
    StubIs();
    CoffIs();
    CoffRestIs();
    HeadRestIs(raw);
    TailRestIs(image, headers);
    SectionRestIs(size, raw, headers);
    PartsAre(Stub(), Coff(), OptHead(raw), OptTail(image, headers), SectionHeader(size, raw, headers), Zeros(0x50));
  }

  lemma PartsAre(a: seq<byte>, b: seq<byte>, c: seq<byte>, d: seq<byte>, e: seq<byte>, z: seq<byte>)
    requires |a| == 128 && |b| == 24 && |c| == 52 && |d| == 188 && |e| == 40 && |z| == 80
    requires forall i :: 0 <= i < |z| ==> z[i] == 0
    ensures var m := a + (b + (c + (d + (e + z))));
      && |m| == 0x200 && m[128..152] == b && m[152..204] == c && m[204..392] == d && m[392..432] == e
      && forall i :: 432 <= i < 0x200 ==> m[i] == 0
  {
  }

  // ----- what the loader makes of the file -----

  lemma SizesAre(code: seq<byte>)
    ensures HeaderSize() == 0x200 && SizesOk(code, RawSize(code), ImageSize(code))
  {
    AlignUpIs(|code|, FILE_ALIGN, 0);
    AlignUpIs(CODE_RVA + RawSize(code), SECT_ALIGN, 1);
    AlignUpIs(PE_AT + 4 + 20 + OPT_SIZE + 40, FILE_ALIGN, 1);
  }

  ghost predicate SizesOk(code: seq<byte>, raw: nat, image: nat) {
    && |code| <= raw && (raw == 0 <==> code == []) && CODE_RVA + raw <= image
    && (code == [] ==> image == CODE_RVA)
  }

  lemma FileWords(code: seq<byte>, raw: nat, image: nat)
    requires SizesOk(code, raw, image) && image < U32
    ensures |FileOf(code, raw, image, 0x200)| == 0x200 + raw
    ensures HeaderWords(FileOf(code, raw, image, 0x200)[..0x200], raw, image, 0x200)
  {
    var h := Headers(|code|, raw, image, 0x200);
    HeadersAre(|code|, raw, image, 0x200);
    assert FileOf(code, raw, image, 0x200)[..0x200] == h;
  }

  // What the loader reads in any file that starts with such headers
  lemma HeadersRead(m: seq<byte>, raw: nat, image: nat)
    requires |m| >= 0x200 && HeaderWords(m[..0x200], raw, image, 0x200)
    ensures ReadsAs(m, raw, image)
  {
    var h := m[..0x200];
    assert h + m[0x200..] == m;
    GetLeft(h, m[0x200..], 0, 2);
    GetLeft(h, m[0x200..], 0x3C, 4);
    GetLeft(h, m[0x200..], 128, 4);
    GetLeft(h, m[0x200..], 132, 2);
    GetLeft(h, m[0x200..], 134, 2);
    GetLeft(h, m[0x200..], 148, 2);
    GetLeft(h, m[0x200..], 152, 2);
    GetLeft(h, m[0x200..], 168, 4);
    GetLeft(h, m[0x200..], 176, 8);
    GetLeft(h, m[0x200..], 208, 4);
    GetLeft(h, m[0x200..], 212, 4);
    GetLeft(h, m[0x200..], 220, 2);
    GetLeft(h, m[0x200..], 260, 4);
    GetLeft(h, m[0x200..], 404, 4);
    GetLeft(h, m[0x200..], 408, 4);
    GetLeft(h, m[0x200..], 412, 4);
  }

  // The loader accepts the file, finds the fields written and one section, and no relocation
  // directory; the subsystem is lost.
  ghost predicate ReadsAs(m: seq<byte>, raw: nat, image: nat) {
    && L.HeadersPresent(m) && L.SectionsPresent(m) && L.DirectoriesPresent(m)
    && L.Verdict(m) == L.Accepted(L.Info(CODE_RVA, IMAGE_BASE, image, 0x200, 1))
    && L.RelocDir(m) == None && L.Opt(m, 68, 2) == 0
    && L.SectionCount(m) == 1 && L.SectionOf(m, 0) == L.Section(CODE_RVA, raw, 0x200)
  }

  lemma BuiltAccepted(code: seq<byte>)
    requires ImageSize(code) < U32
    ensures L.Loadable(PeFile(code)) && ReadsAs(PeFile(code), RawSize(code), ImageSize(code))
    ensures CODE_RVA < ImageSize(code) <==> code != []
  {
    SizesAre(code);
    FileWords(code, RawSize(code), ImageSize(code));
    HeadersRead(PeFile(code), RawSize(code), ImageSize(code));
  }

  // The mapped image is the headers, zeros to the code's address, the code, and zeros to the
  // end; it is the same at every base.
  lemma BuiltMapped(code: seq<byte>, base: nat)
    requires ImageSize(code) < U32
    ensures L.Loadable(PeFile(code)) && L.Verdict(PeFile(code)).Accepted?
    ensures IsImage(code, ImageSize(code), PeFile(code), L.LoadedImage(PeFile(code), base))
  {
    BuiltAccepted(code);
    LoadedPlain(PeFile(code), RawSize(code), ImageSize(code), base);
    BuiltImage(code);
  }

  // Without a relocation directory the image loaded is the image mapped.
  lemma LoadedPlain(f: seq<byte>, raw: nat, image: nat, base: nat)
    requires L.Loadable(f) && ReadsAs(f, raw, image)
    ensures L.LoadedImage(f, base) == L.MappedImage(f, L.Info(CODE_RVA, IMAGE_BASE, image, 0x200, 1))
  {
  }

  lemma BuiltImage(code: seq<byte>)
    requires ImageSize(code) < U32 && ReadsAs(PeFile(code), RawSize(code), ImageSize(code))
    ensures IsImage(code, ImageSize(code), PeFile(code),
                    L.MappedImage(PeFile(code), L.Info(CODE_RVA, IMAGE_BASE, ImageSize(code), 0x200, 1)))
  {
    SizesAre(code);
    SizedImage(code, RawSize(code), ImageSize(code), PeFile(code));
  }

  lemma SizedImage(code: seq<byte>, raw: nat, image: nat, f: seq<byte>)
    requires SizesOk(code, raw, image) && image < U32 && ReadsAs(f, raw, image) && f == FileOf(code, raw, image, 0x200)
    ensures IsImage(code, image, f, L.MappedImage(f, L.Info(CODE_RVA, IMAGE_BASE, image, 0x200, 1)))
  {
    FileParts(code, raw, image);
    MappedOf(f, Headers(|code|, raw, image, 0x200), code, raw, image);
  }

  ghost predicate IsImage(code: seq<byte>, size: nat, file: seq<byte>, m: seq<byte>) {
    && |m| == size && CODE_RVA + |code| <= size && 0x200 <= |file|
    && m[..0x200] == file[..0x200]
    && m[CODE_RVA..CODE_RVA + |code|] == code
    && (forall b :: 0x200 <= b < CODE_RVA || CODE_RVA + |code| <= b < size ==> m[b] == 0)
  }

  lemma HeadersLength(size: nat, raw: nat, image: nat, headers: nat)
    requires raw < U32 && image < U32 && headers < U32
    ensures |Headers(size, raw, image, headers)| == 0x200
  {
    HeadersAre(size, raw, image, headers);
  }

  ghost predicate Parts(f: seq<byte>, h: seq<byte>, code: seq<byte>, raw: nat) {
    |code| <= raw && |h| == 0x200 && f == h + (code + Zeros(raw - |code|))
  }

  lemma FileParts(code: seq<byte>, raw: nat, image: nat)
    requires SizesOk(code, raw, image) && image < U32
    ensures Parts(FileOf(code, raw, image, 0x200), Headers(|code|, raw, image, 0x200), code, raw)
  {
    HeadersLength(|code|, raw, image, 0x200);
  }

  lemma MappedOf(f: seq<byte>, h: seq<byte>, code: seq<byte>, raw: nat, image: nat)
    ensures SizesOk(code, raw, image) && ReadsAs(f, raw, image) && Parts(f, h, code, raw) ==>
      IsImage(code, image, f, L.MappedImage(f, L.Info(CODE_RVA, IMAGE_BASE, image, 0x200, 1)))
  {
    if SizesOk(code, raw, image) && ReadsAs(f, raw, image) && Parts(f, h, code, raw) {
      var m := L.MappedImage(f, L.Info(CODE_RVA, IMAGE_BASE, image, 0x200, 1));
      ImageBytes(f, h, code, Zeros(raw - |code|), image, m);
    }
  }

  lemma FileBytes(f: seq<byte>, h: seq<byte>, code: seq<byte>, z: seq<byte>)
    requires f == h + (code + z) && |h| == 0x200 && (forall i :: 0 <= i < |z| ==> z[i] == 0)
    ensures forall b :: 0 <= b < 0x200 ==> f[b] == h[b]
    ensures |f| == 0x200 + |code| + |z|
    ensures forall b :: 0x200 <= b < 0x200 + |code| ==> f[b] == code[b - 0x200]
    ensures forall b :: 0x200 + |code| <= b < |f| ==> f[b] == 0
  {
  }

  // A file of headers, code and padding, mapped by its one section
  lemma ImageBytes(f: seq<byte>, h: seq<byte>, code: seq<byte>, z: seq<byte>, size: nat, m: seq<byte>)
    requires f == h + (code + z) && |h| == 0x200 && (forall i :: 0 <= i < |z| ==> z[i] == 0)
    requires CODE_RVA + |code| + |z| <= size && (|code| + |z| == 0 ==> code == [])
    requires ReadsAs(f, |code| + |z|, size)
    requires m == L.MappedImage(f, L.Info(CODE_RVA, IMAGE_BASE, size, 0x200, 1))
    ensures IsImage(code, size, f, m)
  {
    forall b: nat | b < size ensures m[b] == ImageByte(h, code, b) {
      assert m[b] == L.ByteOf(f, size, 0x200, 1, b);
      ImageByteIs(f, h, code, z, size, b);
    }
    assert forall b :: 0 <= b < 0x200 ==> f[b] == h[b];
  }

  lemma ImageByteIs(f: seq<byte>, h: seq<byte>, code: seq<byte>, z: seq<byte>, size: nat, b: nat)
    requires f == h + (code + z) && |h| == 0x200 && (forall i :: 0 <= i < |z| ==> z[i] == 0)
    requires CODE_RVA + |code| + |z| <= size && ReadsAs(f, |code| + |z|, size) && b < size
    ensures 0x200 <= |f| && L.ByteOf(f, size, 0x200, 1, b) == ImageByte(h, code, b)
  {
    FileBytes(f, h, code, z);
    OneSection(f, |code| + |z|, size, b);
  }

  // The byte of an image with that one section
  lemma OneSection(f: seq<byte>, raw: nat, size: nat, b: nat)
    requires ReadsAs(f, raw, size) && CODE_RVA + raw <= size && |f| == 0x200 + raw && b < size
    ensures L.ByteOf(f, size, 0x200, 1, b) ==
      if b < 0x200 then f[b] else if CODE_RVA <= b < CODE_RVA + raw then f[0x200 + (b - CODE_RVA)] else 0
  {
    assert L.ByteOf(f, size, 0x200, 0, b) == if b < 0x200 then f[b] else 0;
    assert L.MapsOver(f, 0, size, b) <==> CODE_RVA <= b < CODE_RVA + raw;
  }

  function ImageByte(h: seq<byte>, code: seq<byte>, b: nat): byte
    requires |h| == 0x200
  {
    if b < 0x200 then h[b] else if CODE_RVA <= b < CODE_RVA + |code| then code[b - CODE_RVA] else 0
  }

  // ----- the code blob -----

  const LEA1: nat := 15     // where the first lea's displacement is
  const LEA2: nat := 28
  const CODE_LEN: nat := 39

  // The instructions before, between and behind the two displacements
  const PART1: seq<byte> := [0x55, 0x48, 0x89, 0xE5, 0x53, 0x48, 0x89, 0xFB, 0x48, 0x8B, 0x43, 0x08, 0x48, 0x8D, 0x3D]
  const PART2: seq<byte> := [0xFF, 0xD0, 0x48, 0x8B, 0x43, 0x10, 0x48, 0x8D, 0x3D]
  const PART3: seq<byte> := [0xFF, 0xD0, 0x31, 0xC0, 0x5B, 0x5D, 0xC3]

  // The blob before its displacements are patched in
  function Draft(msg: seq<byte>, msg2: seq<byte>): (r: seq<byte>)
    ensures |r| == CODE_LEN + |msg| + 1 + |msg2| + 1
  {
    PART1 + Zeros(4) + PART2 + Zeros(4) + PART3 + (msg + [0]) + (msg2 + [0])
  }

  function PatchLea(code: seq<byte>, at: nat, target: nat): (r: seq<byte>)
    requires at + 4 <= target && at + 4 <= |code|
    ensures |r| == |code|
  {
    Put(code, at, 4, target - (at + 4))
  }

  function CodeOf(msg: seq<byte>, msg2: seq<byte>): seq<byte> {
    PatchLea(PatchLea(Draft(msg, msg2), LEA1, CODE_LEN), LEA2, CODE_LEN + |msg| + 1)
  }

  // The displacement at a lea, counted from the end of the instruction, leads to a text and
  // its terminator.
  ghost predicate Leads(m: seq<byte>, lea: nat, text: seq<byte>) {
    && lea + 4 <= |m|
    && var t := lea + 4 + Get(m, lea, 4);
      Get(m, lea, 4) < 0x8000_0000 && t + |text| < |m| && m[t..t + |text|] == text && m[t + |text|] == 0
  }

  // Both displacements lead to their messages, if the first is short enough for a signed
  // 32-bit displacement to pass it.
  lemma CodeLeads(msg: seq<byte>, msg2: seq<byte>)
    requires |msg| + 8 < 0x8000_0000
    ensures Leads(CodeOf(msg, msg2), LEA1, msg) && Leads(CodeOf(msg, msg2), LEA2, msg2)
  {
    WordSizes();
    var d := Draft(msg, msg2);
    var c1 := PatchLea(d, LEA1, CODE_LEN);
    var c := CodeOf(msg, msg2);
    GetPutFits(d, LEA1, 4, 20);
    GetPutFits(c1, LEA2, 4, 8 + |msg|);
    GetFrame(c1, c, LEA1, 4);
    var t1, t2 := CODE_LEN, CODE_LEN + |msg| + 1;
    assert c[t1..t1 + |msg|] == msg && c[t1 + |msg|] == 0;
    assert c[t2..t2 + |msg2|] == msg2 && c[t2 + |msg2|] == 0;
  }

  // The loader runs the file from its first code byte, and in the image at that base the two
  // displacements lead to the two messages.
  ghost predicate Greets(f: seq<byte>, base: nat, msg: seq<byte>, msg2: seq<byte>) {
    && L.Loadable(f) && L.Verdict(f).Accepted?
    && L.Verdict(f).info.entryRva == CODE_RVA < L.Verdict(f).info.sizeOfImage
    && Leads(L.LoadedImage(f, base), CODE_RVA + LEA1, msg)
    && Leads(L.LoadedImage(f, base), CODE_RVA + LEA2, msg2)
  }

  // The whole way: the blob built around two messages, put in a file and loaded at any base,
  // finds its messages from where it is.
  lemma LoadedGreets(msg: seq<byte>, msg2: seq<byte>, base: nat)
    requires |msg| + 8 < 0x8000_0000 && ImageSize(CodeOf(msg, msg2)) < U32
    ensures Greets(PeFile(CodeOf(msg, msg2)), base, msg, msg2)
  {
    var code := CodeOf(msg, msg2);
    CodeLeads(msg, msg2);
    BuiltAccepted(code);
    BuiltMapped(code, base);
    LeadsLoaded(code, PeFile(code), L.LoadedImage(PeFile(code), base), msg, msg2);
  }

  lemma LeadsLoaded(code: seq<byte>, file: seq<byte>, m: seq<byte>, msg: seq<byte>, msg2: seq<byte>)
    requires IsImage(code, ImageSize(code), file, m) && Leads(code, LEA1, msg) && Leads(code, LEA2, msg2)
    ensures Leads(m, CODE_RVA + LEA1, msg) && Leads(m, CODE_RVA + LEA2, msg2)
  {
    LeadsInside(m, code, LEA1, msg);
    LeadsInside(m, code, LEA2, msg2);
  }

  lemma LeadsInside(m: seq<byte>, code: seq<byte>, lea: nat, text: seq<byte>)
    requires Leads(code, lea, text) && CODE_RVA + |code| <= |m| && m[CODE_RVA..CODE_RVA + |code|] == code
    ensures Leads(m, CODE_RVA + lea, text)
  {
    forall i | 0 <= i < |code| ensures code[i] == m[CODE_RVA + i] {
      assert m[CODE_RVA..CODE_RVA + |code|][i] == m[CODE_RVA + i];
    }
    assert R.IsDir(m, code, CODE_RVA);
    R.GetInDir(m, code, CODE_RVA, lea, 4);
    var t := lea + 4 + Get(code, lea, 4);
    assert m[CODE_RVA + t..CODE_RVA + t + |text|] == code[t..t + |text|];
  }

  // ----- the program -----

  // struct.pack_into, and assignment to a slice of the same length
  method WriteAt(buf: array<byte>, at: nat, s: seq<byte>)
    requires at + |s| <= buf.Length
    modifies buf
    ensures buf[..] == old(buf[..at]) + s + old(buf[at + |s|..])
  {
    for i := 0 to |s|
      invariant buf[..] == old(buf[..at]) + s[..i] + old(buf[at + i..])
    {
      buf[at + i] := s[i];
    }
    assert s[..|s|] == s;
  }

  // bytearray(n)
  method NewBuffer(n: nat) returns (buf: array<byte>)
    ensures fresh(buf) && buf[..] == Zeros(n)
  {
    buf := new byte[n](i => 0);
  }

  // A write right behind what has been written, into the zeros that are left
  method Extend(buf: array<byte>, ghost done: seq<byte>, s: seq<byte>, at: nat)
    requires at == |done| && at + |s| <= buf.Length && buf[..] == done + Zeros(buf.Length - at)
    modifies buf
    ensures buf[..] == done + s + Zeros(buf.Length - at - |s|)
  {
    WriteAt(buf, at, s);
  }

  // The two bytes of d over the last two of c
  method OverEnd(buf: array<byte>, ghost head: seq<byte>, c: seq<byte>, d: seq<byte>)
    requires |head| == 64 && |c| == 6 && |d| == 2 && buf[..] == head + c + Zeros(170)
    modifies buf
    ensures buf[..] == head + c[..4] + d + Zeros(170)
  {
    WriteAt(buf, 68, d);
  }

  lemma Assoc3<T>(s: seq<T>, e: seq<T>, f: seq<T>, z: seq<T>)
    ensures s + e + f + z == s + (e + (f + z))
  {
  }

  method BuildCode(msg: seq<byte>, msg2: seq<byte>) returns (code: seq<byte>)
    requires |msg| + 8 < 0x8000_0000
    ensures code == CodeOf(msg, msg2)
    ensures Leads(code, LEA1, msg) && Leads(code, LEA2, msg2)
  {
    code := EmitCode(msg, msg2);
    CodeLeads(msg, msg2);
  }

  method EmitCode(msg: seq<byte>, msg2: seq<byte>) returns (code: seq<byte>)
    ensures code == CodeOf(msg, msg2)
  {
    code := PART1;
    var lea1 := |code|;
    code := code + Zeros(4) + PART2;
    var lea2 := |code|;
    code := code + Zeros(4) + PART3;
    var msgOff := |code|;
    code := code + (msg + [0]);
    var msg2Off := |code|;
    code := code + (msg2 + [0]);
    code := PatchLea(code, lea1, msgOff);
    code := PatchLea(code, lea2, msg2Off);
  }

  lemma StubBytes()
    ensures Stub() == [0x4D, 0x5A] + Zeros(58) + Pack([(4, PE_AT)]) + Zeros(64)
  {
    var f := StubFields();
    EncodeZero(58);
    EncodeZero(64);
    assert Encode(0x5A4D, 2) == [0x4D] + Encode(0x5A, 1) && Encode(0x5A, 1) == [0x5A] + Encode(0, 0);
    assert PackTo(f, 1) == [] + Encode(0x5A4D, 2);
    assert PackTo(f, 2) == PackTo(f, 1) + Zeros(58);
    assert PackTo(f, 3) == PackTo(f, 2) + Encode(PE_AT, 4);
    assert Stub() == PackTo(f, 3) + Zeros(64);
    assert PackTo([(4, PE_AT)], 0) == [] && Pack([(4, PE_AT)]) == [] + Encode(PE_AT, 4);
  }

  method BuildStub() returns (stub: array<byte>)
    ensures fresh(stub) && stub[..] == Stub()
  {
    PackLength([(4, PE_AT)], 1);
    stub := WriteStub(Pack([(4, PE_AT)]));
    StubBytes();
  }

  method WriteStub(lfanew: seq<byte>) returns (stub: array<byte>)
    requires |lfanew| == 4
    ensures fresh(stub) && stub[..] == [0x4D, 0x5A] + Zeros(58) + lfanew + Zeros(64)
  {
    var dos := WriteDos(lfanew);
    stub := NewBuffer(0x80);
    Extend(stub, [], dos[..], 0);
    NothingBefore(dos[..], Zeros(64));
  }

  // The 64 bytes of the DOS header
  method WriteDos(lfanew: seq<byte>) returns (dos: array<byte>)
    requires |lfanew| == 4
    ensures fresh(dos) && dos[..] == [0x4D, 0x5A] + Zeros(58) + lfanew
  {
    dos := NewBuffer(64);
    Extend(dos, [], [0x4D, 0x5A], 0);
    ZerosCut([0x4D, 0x5A], 58, 4);
    Extend(dos, [0x4D, 0x5A] + Zeros(58), lfanew, 0x3C);
    NothingAfter([0x4D, 0x5A] + Zeros(58) + lfanew);
  }

  lemma NothingBefore<T>(s: seq<T>, t: seq<T>)
    ensures [] + s + t == s + t
  {
  }

  lemma NothingAfter(s: seq<byte>)
    ensures s + Zeros(0) == s
  {
  }

  lemma ZerosCut(s: seq<byte>, a: nat, b: nat)
    ensures [] + s + Zeros(a + b) == (s + Zeros(a)) + Zeros(b)
  {
  }

  lemma Assoc<T>(a: seq<T>, b: seq<T>, c: seq<T>, d: seq<T>, e: seq<T>, f: seq<T>)
    ensures a + b + c + d + e + f == a + (b + (c + (d + (e + f))))
  {
  }

  // The pieces before offset 52
  method WriteHead(buf: array<byte>, a: seq<byte>, b: seq<byte>, c: seq<byte>, d: seq<byte>, e: seq<byte>, f: seq<byte>)
    requires |a| == 4 && |b| == 12 && |c| == 8 && |d| == 8 && |e| == 8 && |f| == 12 && buf[..] == Zeros(OPT_SIZE)
    modifies buf
    ensures buf[..] == a + (b + (c + (d + (e + f)))) + Zeros(188)
  {
    assert buf[..] == [] + Zeros(OPT_SIZE);
    Extend(buf, [], a, 0);
    assert [] + a == a;
    Extend(buf, a, b, 4);
    Extend(buf, a + b, c, 16);
    Extend(buf, a + b + c, d, 24);
    Extend(buf, a + b + c + d, e, 32);
    Extend(buf, a + b + c + d + e, f, 40);
    Assoc(a, b, c, d, e, f);
  }

  // The pieces from offset 52 on, the one at 68 over the end of the one at 64
  method WriteTail(buf: array<byte>, ghost head: seq<byte>, a: seq<byte>, b: seq<byte>, c: seq<byte>, d: seq<byte>,
                   e: seq<byte>, f: seq<byte>)
    requires |a| == 4 && |b| == 8 && |c| == 6 && |d| == 2 && |e| == 32 && |f| == 8
    requires |head| == 52 && buf[..] == head + Zeros(188)
    modifies buf
    ensures buf[..] == head + (a + (b + (c[..4] + (d + (e + (f + Zeros(130)))))))
  {
    Extend(buf, head, a, 52);
    Extend(buf, head + a, b, 56);
    Extend(buf, head + a + b, c, 64);
    OverEnd(buf, head + a + b, c, d);
    Extend(buf, head + a + b + c[..4] + d, e, 70);
    Extend(buf, head + a + b + c[..4] + d + e, f, 102);
    Assoc3(head + a + b + c[..4] + d, e, f, Zeros(130));
    Assoc(head, a, b, c[..4], d, e + (f + Zeros(130)));
  }

  method BuildOptional(raw: nat, image: nat, headers: nat) returns (optional: array<byte>)
    requires image < U32 && headers < U32
    ensures fresh(optional) && optional[..] == OptHead(raw) + OptTail(image, headers)
  {
    HeadLengthsAre(raw);
    PiecesAre(image, headers);
    PackLength(Opt102(), 2);
    optional := NewBuffer(OPT_SIZE);
    WriteHead(optional, Pack(Opt0()), Pack(Opt4(raw)), Pack(Opt16()), Pack(Opt24()), Pack(Opt32()), Pack(Opt40()));
    OptHeadIs(raw);
    WriteTail(optional, OptHead(raw), Pack(Opt52()), Pack(Opt56(image, headers)), Pack(Opt64()), Pack(Opt68()),
              Pack(Opt70()), Pack(Opt102()));
  }

  lemma Regroup<T>(a: seq<T>, b: seq<T>, c: seq<T>, d: seq<T>, e: seq<T>, f: seq<T>)
    ensures a + (b + (c + d) + e) + f == a + (b + (c + (d + (e + f))))
  {
  }

  method BuildPe(code: seq<byte>) returns (raw: array<byte>)
    requires ImageSize(code) < U32
    ensures fresh(raw) && raw[..] == PeFile(code)
    ensures L.Loadable(raw[..]) && ReadsAs(raw[..], RawSize(code), ImageSize(code))
  {
    raw := BuildSized(code);
    BuiltAccepted(code);
  }

  method BuildSized(code: seq<byte>) returns (raw: array<byte>)
    requires ImageSize(code) < U32
    ensures fresh(raw) && raw[..] == PeFile(code)
  {
    SizesAre(code);
    raw := BuildParts(code, RawSize(code), ImageSize(code), HeaderSize());
  }

  // build_pe, the three sizes computed
  method BuildParts(code: seq<byte>, sizeOfCode: nat, sizeOfImage: nat, sizeOfHeaders: nat) returns (raw: array<byte>)
    requires |code| <= sizeOfCode < U32 && sizeOfImage < U32 && sizeOfHeaders == 0x200
    ensures fresh(raw) && raw[..] == FileOf(code, sizeOfCode, sizeOfImage, sizeOfHeaders)
  {
    var stub := BuildStub();
    var optional := BuildOptional(sizeOfCode, sizeOfImage, sizeOfHeaders);
    var section := SectionHeader(|code|, sizeOfCode, sizeOfHeaders);
    FileGrouped(code, sizeOfCode, sizeOfImage, sizeOfHeaders, Coff() + optional[..] + section);
    raw := Assemble(code, stub[..], Coff() + optional[..] + section, sizeOfHeaders, sizeOfCode);
  }

  lemma FileGrouped(code: seq<byte>, raw: nat, image: nat, headers: nat, blob: seq<byte>)
    requires |code| <= raw < U32 && image < U32 && headers == 0x200
    requires blob == Coff() + (OptHead(raw) + OptTail(image, headers)) + SectionHeader(|code|, raw, headers)
    ensures |Stub()| == PE_AT && |blob| == 304
    ensures (Stub() + blob + Zeros(headers - PE_AT - |blob|)) + (code + Zeros(raw - |code|))
         == FileOf(code, raw, image, headers)
  {
    HeadersGrouped(|code|, raw, image, headers);
  }

  lemma HeadersGrouped(size: nat, raw: nat, image: nat, headers: nat)
    requires raw < U32 && image < U32 && headers < U32
    ensures var blob := Coff() + (OptHead(raw) + OptTail(image, headers)) + SectionHeader(size, raw, headers);
      |Stub()| == PE_AT && |blob| == 304 && Stub() + blob + Zeros(0x50) == Headers(size, raw, image, headers)
  {
    StubIs();
    CoffIs();
    OptHeadIs(raw);
    OptTailIs(image, headers);
    SectionHeaderIs(size, raw, headers);
    Regroup(Stub(), Coff(), OptHead(raw), OptTail(image, headers), SectionHeader(size, raw, headers), Zeros(0x50));
  }

  // The headers and the code, each written into zeros
  method Assemble(code: seq<byte>, stub: seq<byte>, blob: seq<byte>, sizeOfHeaders: nat, rawSize: nat)
    returns (raw: array<byte>)
    requires |stub| == PE_AT && PE_AT + |blob| <= sizeOfHeaders && |code| <= rawSize
    ensures fresh(raw)
    ensures raw[..] == (stub + blob + Zeros(sizeOfHeaders - PE_AT - |blob|)) + (code + Zeros(rawSize - |code|))
  {
    var headers := NewBuffer(sizeOfHeaders);
    WriteAt(headers, 0, stub);
    assert headers[..] == stub + Zeros(sizeOfHeaders - PE_AT);
    WriteAt(headers, PE_AT, blob);
    ghost var h := stub + blob + Zeros(sizeOfHeaders - PE_AT - |blob|);
    assert headers[..] == h;
    raw := NewBuffer(sizeOfHeaders + rawSize);
    WriteAt(raw, 0, headers[..]);
    assert raw[..] == h + Zeros(rawSize);
    WriteAt(raw, sizeOfHeaders, code);
  }
}
