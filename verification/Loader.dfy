/** The PE32+ loader: header probing, and the mapping of headers and sections into a zeroed
    image, followed by base relocation. */
module Loader {
  import opened Bytes
  import R = Relocation

  const DOS: nat := 64          // sizeof(dos_header_t)
  const COFF: nat := 24         // sizeof(coff_header_t), signature included
  const OPTIONAL: nat := 112    // sizeof(pe32plus_optional_t)
  const SECTION: nat := 40      // sizeof(section_header_t)
  const DIRECTORY: nat := 8     // sizeof(data_dir_t)
  const MZ: nat := 0x5A4D
  const PE: nat := 0x4550
  const AMD64: nat := 0x8664
  const PE32PLUS: nat := 0x20B

  datatype Reason = TooSmall | NotMZ | BadLfanew | NoSignature | NotAmd64 | OptionalTooSmall | NotPe32Plus

  datatype Info = Info(entryRva: nat, imageBase: nat, sizeOfImage: nat, sizeOfHeaders: nat, sections: nat)

  datatype Probe = Rejected(reason: Reason) | Accepted(info: Info)

  // ----- the header fields the loader reads -----

  function Lfanew(data: seq<byte>): nat requires |data| >= DOS { Get(data, 0x3C, 4) }

  function OptionalAt(data: seq<byte>): nat requires |data| >= DOS { Lfanew(data) + COFF }

  predicate CoffPresent(data: seq<byte>) { |data| >= DOS && OptionalAt(data) <= |data| }

  predicate OptionalPresent(data: seq<byte>) { CoffPresent(data) && OptionalAt(data) + OPTIONAL <= |data| }

  function Machine(data: seq<byte>): nat requires CoffPresent(data) { Get(data, Lfanew(data) + 4, 2) }

  function SectionCount(data: seq<byte>): nat requires CoffPresent(data) { Get(data, Lfanew(data) + 6, 2) }

  function OptionalSize(data: seq<byte>): nat requires CoffPresent(data) { Get(data, Lfanew(data) + 20, 2) }

  function SectionsAt(data: seq<byte>): nat requires CoffPresent(data) { OptionalAt(data) + OptionalSize(data) }

  // A field of the optional header
  function Opt(data: seq<byte>, o: nat, n: nat): nat
    requires OptionalPresent(data) && o + n <= OPTIONAL
  {
    Get(data, OptionalAt(data) + o, n)
  }

  function InfoOf(data: seq<byte>): Info
    requires OptionalPresent(data)
  {
    Info(Opt(data, 16, 4), Opt(data, 24, 8), Opt(data, 56, 4), Opt(data, 60, 4), SectionCount(data))
  }

  // The checks in the order they are made; the size check leaves four spare bytes behind the
  // COFF header.
  function Verdict(data: seq<byte>): Probe
    requires HeadersPresent(data)
  {
    if |data| < DOS then Rejected(TooSmall)
    else if Get(data, 0, 2) != MZ then Rejected(NotMZ)
    else if Lfanew(data) == 0 || OptionalAt(data) + 4 > |data| then Rejected(BadLfanew)
    else if Get(data, Lfanew(data), 4) != PE then Rejected(NoSignature)
    else if Machine(data) != AMD64 then Rejected(NotAmd64)
    else if OptionalSize(data) < OPTIONAL then Rejected(OptionalTooSmall)
    else if Opt(data, 0, 2) != PE32PLUS then Rejected(NotPe32Plus)
    else Accepted(InfoOf(data))
  }

  // A file that announces an optional header of full size holds it.
  predicate HeadersPresent(data: seq<byte>) {
    CoffPresent(data) && OptionalSize(data) >= OPTIONAL ==> OptionalAt(data) + OPTIONAL <= |data|
  }

  // A file is accepted exactly when these bytes are where they should be.
  lemma AcceptedIff(data: seq<byte>)
    requires HeadersPresent(data)
    ensures Verdict(data).Accepted? <==>
      && |data| >= DOS && data[..2] == [0x4D, 0x5A]
      && var l := Lfanew(data);
      && l != 0 && l + 28 <= |data| && data[l..l + 4] == [0x50, 0x45, 0, 0] && data[l + 4..l + 6] == [0x64, 0x86]
      && OptionalSize(data) >= OPTIONAL && data[l + 24..l + 26] == [0x0B, 0x02]
  {
    if |data| >= DOS {
      HalfWord(data, 0, 0x4D, 0x5A);
      var l := Lfanew(data);
      if l + 28 <= |data| {
        Signature(data, l);
        HalfWord(data, l + 4, 0x64, 0x86);
        HalfWord(data, l + 24, 0x0B, 0x02);
      }
    }
  }

  // And the reason given otherwise is the first of the checks that fails, in this order.
  lemma RejectedFor(data: seq<byte>)
    requires HeadersPresent(data)
    ensures var v := Verdict(data);
      if |data| < 64 then v == Rejected(TooSmall)
      else if data[..2] != [0x4D, 0x5A] then v == Rejected(NotMZ)
      else
        var l := Lfanew(data);
        if l == 0 || l + 28 > |data| then v == Rejected(BadLfanew)
        else if data[l..l + 4] != [0x50, 0x45, 0, 0] then v == Rejected(NoSignature)
        else if data[l + 4..l + 6] != [0x64, 0x86] then v == Rejected(NotAmd64)
        else if OptionalSize(data) < 112 then v == Rejected(OptionalTooSmall)
        else v == Rejected(NotPe32Plus) <==> data[l + 24..l + 26] != [0x0B, 0x02]
  {
    if |data| >= DOS {
      HalfWord(data, 0, 0x4D, 0x5A);
      var l := Lfanew(data);
      if l + 28 <= |data| {
        Signature(data, l);
        HalfWord(data, l + 4, 0x64, 0x86);
        HalfWord(data, l + 24, 0x0B, 0x02);
      }
    }
  }

  lemma HalfWord(m: seq<byte>, o: nat, lo: nat, hi: nat)
    requires o + 2 <= |m| && lo < 256 && hi < 256
    ensures Get(m, o, 2) == lo + 256 * hi <==> m[o..o + 2] == [lo, hi]
  {
    assert Get(m, o + 2, 0) == 0;
    assert Get(m, o + 1, 1) == m[o + 1];
    assert m[o..o + 2] == [m[o], m[o + 1]];
  }

  lemma Signature(m: seq<byte>, o: nat)
    requires o + 4 <= |m|
    ensures Get(m, o, 4) == PE <==> m[o..o + 4] == [0x50, 0x45, 0, 0]
  {
    assert Get(m, o + 4, 0) == 0;
    assert Get(m, o + 3, 1) == m[o + 3];
    assert Get(m, o + 2, 2) == m[o + 2] + 256 * Get(m, o + 3, 1);
    assert Get(m, o + 1, 3) == m[o + 1] + 256 * Get(m, o + 2, 2);
    assert m[o..o + 4] == [m[o], m[o + 1], m[o + 2], m[o + 3]];
  }

  // ----- sections -----

  datatype Section = Section(address: nat, rawSize: nat, rawAt: nat)

  predicate SectionsPresent(data: seq<byte>) {
    CoffPresent(data) && SectionsAt(data) + SECTION * SectionCount(data) <= |data|
  }

  function SectionOf(data: seq<byte>, i: nat): Section
    requires CoffPresent(data) && SectionsAt(data) + SECTION * i + SECTION <= |data|
  {
    var s := SectionsAt(data) + SECTION * i;
    Section(Get(data, s + 12, 4), Get(data, s + 16, 4), Get(data, s + 20, 4))
  }

  // The section is mapped: it has contents, they lie in the file, and they fit the image.
  predicate Mapped(s: Section, fileSize: nat, imageSize: nat) {
    s.rawSize != 0 && s.rawAt != 0 && s.rawAt + s.rawSize <= fileSize && s.address + s.rawSize <= imageSize
  }

  predicate Covers(s: Section, i: int) { s.address <= i < s.address + s.rawSize }

  // Section i is mapped over byte b of an image.
  predicate MapsOver(data: seq<byte>, i: nat, imageSize: nat, b: nat)
    requires SectionsPresent(data) && i < SectionCount(data)
  {
    Mapped(SectionOf(data, i), |data|, imageSize) && Covers(SectionOf(data, i), b)
  }

  function Min(a: nat, b: nat): nat { if a <= b then a else b }

  function HeaderCopy(info: Info, fileSize: nat): nat {
    Min(Min(info.sizeOfHeaders, fileSize), info.sizeOfImage)
  }

  // Byte b of the unrelocated image, with n sections counted: it comes from the last of them
  // mapped over it, else from the headers, else it is zero.
  function ByteOf(data: seq<byte>, imageSize: nat, copy: nat, n: nat, b: nat): byte
    requires SectionsPresent(data) && n <= SectionCount(data) && copy <= |data|
  {
    if n == 0 then if b < copy then data[b] else 0
    else if MapsOver(data, n - 1, imageSize, b) then
      var s := SectionOf(data, n - 1);
      data[s.rawAt + (b - s.address)]
    else ByteOf(data, imageSize, copy, n - 1, b)
  }

  function MappedImage(data: seq<byte>, info: Info): (r: seq<byte>)
    requires SectionsPresent(data)
  {
    var (size, copy) := (info.sizeOfImage, HeaderCopy(info, |data|));
    seq(size, b requires 0 <= b < size => ByteOf(data, size, copy, SectionCount(data), b))
  }

  // ----- relocation -----

  // The data directories are in the file if they are announced.
  predicate DirectoriesPresent(data: seq<byte>) {
    OptionalPresent(data) && (Opt(data, 108, 4) >= 6 ==> OptionalAt(data) + OPTIONAL + 6 * DIRECTORY <= |data|)
  }

  // Where the relocation directory is and how long, if there is one
  function RelocDir(data: seq<byte>): Option<(nat, nat)>
    requires DirectoriesPresent(data)
  {
    if Opt(data, 108, 4) < 6 then None
    else
      var d := OptionalAt(data) + OPTIONAL + 5 * DIRECTORY;
      var (at, size) := (Get(data, d, 4), Get(data, d + 4, 4));
      if at == 0 || size == 0 then None else Some((at, size))
  }

  // An accepted file whose announced parts are there, with a well-formed relocation directory
  ghost predicate Loadable(data: seq<byte>) {
    && HeadersPresent(data)
    && (Verdict(data).Accepted? ==>
          && SectionsPresent(data) && DirectoriesPresent(data)
          && (RelocDir(data).Some? ==>
                R.WellFormed(MappedImage(data, Verdict(data).info), RelocDir(data).value.0, RelocDir(data).value.1)))
  }

  // The image of an accepted file loaded at a base
  function LoadedImage(data: seq<byte>, base: nat): seq<byte>
    requires Loadable(data) && Verdict(data).Accepted?
  {
    var (info, m) := (Verdict(data).info, MappedImage(data, Verdict(data).info));
    match RelocDir(data)
    case None => m
    case Some((dir, size)) => R.Rebased(m, dir, size, base - info.imageBase)
  }

  // Moving an image from base a to base b gives the image loaded at b.
  lemma LoadedElsewhere(data: seq<byte>, a: nat, b: nat)
    requires Loadable(data) && Verdict(data).Accepted?
    ensures RelocDir(data) == None ==> LoadedImage(data, b) == LoadedImage(data, a)
    ensures RelocDir(data).Some? ==>
      var (dir, size) := RelocDir(data).value;
      R.Relocation(LoadedImage(data, a), LoadedImage(data, b), dir, size, b - a)
  {
    if RelocDir(data).Some? {
      var (dir, size) := RelocDir(data).value;
      var info := Verdict(data).info;
      MoveImage(MappedImage(data, info), LoadedImage(data, a), LoadedImage(data, b), dir, size, info.imageBase, a, b);
    }
  }

  lemma MoveImage(m: seq<byte>, ma: seq<byte>, mb: seq<byte>, dir: nat, size: nat, p: nat, a: nat, b: nat)
    requires R.WellFormed(m, dir, size)
    requires ma == R.Rebased(m, dir, size, a - p) && mb == R.Rebased(m, dir, size, b - p)
    ensures R.Relocation(ma, mb, dir, size, b - a)
  {
    R.RebasedIs(m, dir, size, a - p);
    R.RebasedIs(m, dir, size, b - p);
    R.RelocationKeepsDir(m, ma, dir, size, a - p);
    MoveFrom(m, ma, mb, dir, size, p, a, b);
  }

  lemma MoveFrom(m: seq<byte>, ma: seq<byte>, mb: seq<byte>, dir: nat, size: nat, p: nat, a: nat, b: nat)
    requires R.WellFormed(m, dir, size) && R.WellFormed(ma, dir, size)
    requires R.Relocation(m, ma, dir, size, a - p) && R.Relocation(m, mb, dir, size, b - p)
    ensures R.Relocation(ma, mb, dir, size, b - a)
  {
    R.RebasedIs(ma, dir, size, b - a);
    MoveVia(m, ma, R.Rebased(ma, dir, size, b - a), mb, dir, size, p, a, b);
  }

  // Relocated from p to a and on to b, the image is the one relocated from p to b.
  lemma MoveVia(m: seq<byte>, ma: seq<byte>, mc: seq<byte>, mb: seq<byte>, dir: nat, size: nat, p: nat, a: nat, b: nat)
    requires R.WellFormed(m, dir, size)
    requires R.Relocation(m, ma, dir, size, a - p) && R.Relocation(ma, mc, dir, size, b - a)
    requires R.Relocation(m, mb, dir, size, b - p)
    ensures mc == mb
  {
    R.RelocationComposes(m, ma, mc, dir, size, p, a, b);
    R.RelocationUnique(m, mc, mb, dir, size, b - p);
  }

  // ----- the program -----

  lemma BaseFits(data: seq<byte>)
    requires OptionalPresent(data)
    ensures InfoOf(data).imageBase < U64
  {
    GetBound(data, OptionalAt(data) + 24, 8);
    WordSizes();
  }

  // memcpy of n bytes of the file
  method CopyIn(image: array<byte>, at: nat, data: seq<byte>, from: nat, n: nat)
    requires at + n <= image.Length && from + n <= |data|
    modifies image
    ensures forall b :: 0 <= b < image.Length ==>
      image[b] == if at <= b < at + n then data[from + (b - at)] else old(image[b])
  {
    for k := 0 to n
      invariant forall b :: 0 <= b < image.Length ==>
        image[b] == if at <= b < at + k then data[from + (b - at)] else old(image[b])
    {
      image[at + k] := data[from + k];
    }
  }

  // The zeroing, header copy and section loop of pe_run
  method MapImage(data: seq<byte>, info: Info, image: array<byte>)
    requires SectionsPresent(data) && image.Length == info.sizeOfImage
    modifies image
    ensures image[..] == MappedImage(data, info)
  {
    var (fileSize, imageSize) := (|data|, image.Length);
    for k := 0 to imageSize
      invariant forall b :: 0 <= b < k ==> image[b] == 0
    {
      image[k] := 0;
    }
    var copy := info.sizeOfHeaders;
    if copy > fileSize { copy := fileSize; }
    if copy > info.sizeOfImage { copy := info.sizeOfImage; }
    CopyIn(image, 0, data, 0, copy);
    for i := 0 to SectionCount(data)
      invariant forall b: nat :: b < imageSize ==> image[b] == ByteOf(data, imageSize, copy, i, b)
    {
      var s := SectionOf(data, i);
      if s.rawSize == 0 || s.rawAt == 0 { continue; }
      if s.rawAt + s.rawSize > fileSize { continue; }
      if s.address + s.rawSize > imageSize { continue; }
      CopyIn(image, s.address, data, s.rawAt, s.rawSize);
    }
  }

  // Relocate the image just mapped, if the file has a directory for it.
  method Relocate(data: seq<byte>, base: nat, image: R.Image)
    requires Loadable(data) && base < U64 && Verdict(data).Accepted?
    requires image.bytes[..] == MappedImage(data, Verdict(data).info)
    modifies image.bytes
    ensures image.bytes[..] == LoadedImage(data, base)
  {
    BaseFits(data);
    match RelocDir(data) {
      case None =>
      case Some((dir, size)) => image.ApplyRelocations(base, Verdict(data).info.imageBase, dir, size);
    }
  }

  // pe_run up to the call of the entry point: None if it refuses, else the address to call.
  // The image is the memory found for it at base; base 0 says that none was found.
  method Load(data: seq<byte>, base: nat, image: R.Image) returns (entry: Option<nat>)
    requires Loadable(data) && base < U64
    requires Verdict(data).Accepted? ==> image.bytes.Length == Verdict(data).info.sizeOfImage
    modifies image.bytes
    ensures entry.Some? <==>
      && Verdict(data).Accepted? && base != 0
      && Verdict(data).info.entryRva < Verdict(data).info.sizeOfImage
    ensures entry.Some? ==>
      entry.value == base + Verdict(data).info.entryRva && image.bytes[..] == LoadedImage(data, base)
  {
    var r := Verdict(data);
    if r.Rejected? { return None; }
    var info := r.info;
    if info.sizeOfImage == 0 { return None; }
    if base == 0 { return None; }
    MapImage(data, info, image.bytes);
    Relocate(data, base, image);
    if info.entryRva >= info.sizeOfImage { return None; }
    return Some(base + info.entryRva);
  }
}
