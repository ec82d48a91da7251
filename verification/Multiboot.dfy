/** The Multiboot2 information structure, as bytes (Multiboot2 Specification, section 3.6). */
module Multiboot {
  import opened Bytes
  import opened Packing

  const TAG_END: nat := 0
  const TAG_MMAP: nat := 6
  const AVAILABLE: nat := 1

  function Align8(n: nat): nat { (n + 7) / 8 * 8 }

  // The next tag starts at the first multiple of eight at or behind the end of this one.
  lemma Align8Is(n: nat, k: nat)
    ensures Align8(n) % 8 == 0 && n <= Align8(n)
    ensures n <= 8 * k ==> Align8(n) <= 8 * k
  {
    ModUnique((n + 7) / 8 * 8, 8, (n + 7) / 8, 0);
  }

  function TotalSize(info: seq<byte>): nat
    requires |info| >= 4
  { Get(info, 0, 4) }

  function TagType(info: seq<byte>, pos: nat): nat
    requires pos + 8 <= |info|
  { Get(info, pos, 4) }

  function TagSize(info: seq<byte>, pos: nat): nat
    requires pos + 8 <= |info|
  { Get(info, pos + 4, 4) }

  // From pos on, the tags lie inside the structure and each is long enough to make progress.
  predicate TagsOk(info: seq<byte>, pos: nat)
    requires |info| >= 4
    decreases |info| - pos
  {
    && TotalSize(info) <= |info|
    && (pos < TotalSize(info) ==>
      && pos + 8 <= TotalSize(info)
      && (TagType(info, pos) != TAG_END ==>
        && 8 <= TagSize(info, pos) && pos + TagSize(info, pos) <= TotalSize(info)
        && (pos + Align8(TagSize(info, pos)) <= |info| ==> TagsOk(info, pos + Align8(TagSize(info, pos))))))
  }

  // The offset of the first tag of the given type at or after pos and before the end tag
  function FindTag(info: seq<byte>, pos: nat, kind: nat): (r: Option<nat>)
    requires |info| >= 4 && TagsOk(info, pos)
    ensures r.Some? ==> pos <= r.value && r.value + 8 <= TotalSize(info) <= |info|
    ensures r.Some? ==> TagType(info, r.value) == kind && kind != TAG_END
    ensures r.Some? ==> r.value + TagSize(info, r.value) <= TotalSize(info)
    decreases |info| - pos
  {
    if pos >= TotalSize(info) || TagType(info, pos) == TAG_END then None
    else if TagType(info, pos) == kind then Some(pos)
    else if pos + Align8(TagSize(info, pos)) > |info| then None
    else FindTag(info, pos + Align8(TagSize(info, pos)), kind)
  }

  method Mb2Find(info: Option<seq<byte>>, kind: nat) returns (tag: Option<nat>)
    requires info.Some? ==> 8 <= |info.value| && TagsOk(info.value, 8)
    ensures tag == if info.None? then None else FindTag(info.value, 8, kind)
  {
    if info.None? { return None; }
    var bytes := info.value;
    var ptr := 8;
    var end := TotalSize(bytes);
    while ptr < end
      invariant 8 <= ptr
      invariant ptr <= |bytes| ==> TagsOk(bytes, ptr) && FindTag(bytes, ptr, kind) == FindTag(bytes, 8, kind)
      invariant ptr > |bytes| ==> FindTag(bytes, 8, kind) == None
      decreases |bytes| - ptr
    {
      if TagType(bytes, ptr) == TAG_END { break; }
      if TagType(bytes, ptr) == kind { return Some(ptr); }
      ptr := ptr + Align8(TagSize(bytes, ptr));
    }
    tag := None;
  }

  // ----- the producer's side: a structure built from a list of tags -----

  datatype Tag = Tag(kind: nat, payload: seq<byte>)

  // Tags start at multiples of eight.
  function TagBytes(t: Tag): (s: seq<byte>)
    ensures |s| == Align8(8 + |t.payload|)
  {
    Encode(t.kind, 4) + Encode(8 + |t.payload|, 4) + t.payload
    + Zeros(Align8(8 + |t.payload|) - 8 - |t.payload|)
  }

  function TagList(ts: seq<Tag>): seq<byte> {
    if ts == [] then Encode(TAG_END, 4) + Encode(8, 4)
    else TagBytes(ts[0]) + TagList(ts[1..])
  }

  function BootInfo(ts: seq<Tag>): seq<byte> {
    Encode(8 + |TagList(ts)|, 4) + Encode(0, 4) + TagList(ts)
  }

  ghost predicate Buildable(ts: seq<Tag>) {
    && 8 + |TagList(ts)| < U32
    && (forall i :: 0 <= i < |ts| ==> ts[i].kind != TAG_END && ts[i].kind < U32)
  }

  // Offset, within the tag list, of tag number k
  ghost function OffsetOf(ts: seq<Tag>, k: nat): nat
    requires k <= |ts|
  {
    if k == 0 then 0 else |TagBytes(ts[0])| + OffsetOf(ts[1..], k - 1)
  }

  ghost function FirstOfKind(ts: seq<Tag>, kind: nat): (k: nat)
    ensures k <= |ts| && (k < |ts| ==> ts[k].kind == kind)
    ensures forall i :: 0 <= i < k ==> ts[i].kind != kind
  {
    if ts == [] then 0 else if ts[0].kind == kind then 0 else 1 + FirstOfKind(ts[1..], kind)
  }

  lemma EncodedWord(pre: seq<byte>, v: nat, post: seq<byte>)
    requires v < U32
    ensures Get(pre + Encode(v, 4) + post, |pre|, 4) == v
  {
    var s := pre + Encode(v, 4) + post;
    assert s[|pre|..|pre| + 4] == Encode(v, 4);
    GetIsDecode(s, |pre|, 4);
    DecodeEncode(v, 4);
    WordSizes();
  }

  lemma TagAt(info: seq<byte>, pre: seq<byte>, t: Tag, post: seq<byte>)
    requires info == pre + TagBytes(t) + post
    requires t.kind < U32 && |info| < U32
    ensures TagType(info, |pre|) == t.kind && TagSize(info, |pre|) == 8 + |t.payload|
    ensures info[|pre| + 8..|pre| + 8 + |t.payload|] == t.payload
  {
    var a, b := Encode(t.kind, 4), Encode(8 + |t.payload|, 4);
    var z := Zeros(Align8(8 + |t.payload|) - 8 - |t.payload|);
    assert info == pre + a + (b + t.payload + z + post);
    EncodedWord(pre, t.kind, b + t.payload + z + post);
    assert info == (pre + a) + b + (t.payload + z + post);
    EncodedWord(pre + a, 8 + |t.payload|, t.payload + z + post);
  }

  // The search started at base, where the encoded list ts begins, finds its first tag of the kind.
  ghost predicate Finds(info: seq<byte>, base: nat, ts: seq<Tag>, kind: nat)
    requires |info| >= 4
  {
    var k := FirstOfKind(ts, kind);
    && TagsOk(info, base)
    && FindTag(info, base, kind) == (if k == |ts| then None else Some(base + OffsetOf(ts, k)))
    && (k < |ts| ==> HasPayload(info, base + OffsetOf(ts, k), ts[k].payload))
  }

  ghost predicate HasPayload(info: seq<byte>, o: nat, payload: seq<byte>) {
    && o + 8 + |payload| <= |info|
    && TagSize(info, o) == 8 + |payload|
    && info[o + 8..o + 8 + |payload|] == payload
  }

  lemma FindStep(info: seq<byte>, base: nat, ts: seq<Tag>, kind: nat)
    requires ts != [] && |info| >= 4 && TotalSize(info) == |info| && kind != TAG_END
    requires base + |TagBytes(ts[0])| <= |info|
    requires TagType(info, base) == ts[0].kind != TAG_END
    requires HasPayload(info, base, ts[0].payload)
    requires Finds(info, base + |TagBytes(ts[0])|, ts[1..], kind)
    ensures Finds(info, base, ts, kind)
  {
    var next := base + |TagBytes(ts[0])|;
    assert next == base + Align8(TagSize(info, base));
    assert TagsOk(info, base);
    if ts[0].kind == kind {
      assert OffsetOf(ts, 0) == 0;
    } else {
      var k := FirstOfKind(ts[1..], kind);
      assert FirstOfKind(ts, kind) == k + 1;
      assert OffsetOf(ts, k + 1) == |TagBytes(ts[0])| + OffsetOf(ts[1..], k);
      if k < |ts[1..]| { assert ts[k + 1] == ts[1..][k]; }
    }
  }

  lemma {:induction false} FindInList(info: seq<byte>, pre: seq<byte>, ts: seq<Tag>, kind: nat)
    requires info == pre + TagList(ts) && 8 <= |pre| && |info| < U32
    requires TotalSize(info) == |info| && kind != TAG_END
    requires forall i :: 0 <= i < |ts| ==> ts[i].kind != TAG_END && ts[i].kind < U32
    ensures Finds(info, |pre|, ts, kind)
    decreases |ts|
  {
    if ts == [] {
      EndTag(info, pre);
    } else {
      var head := pre + TagBytes(ts[0]);
      ListSplit(info, pre, ts);
      FindInList(info, head, ts[1..], kind);
      FindNext(info, pre, head, ts, kind);
    }
  }

  lemma FindNext(info: seq<byte>, pre: seq<byte>, head: seq<byte>, ts: seq<Tag>, kind: nat)
    requires ts != [] && head == pre + TagBytes(ts[0]) && info == head + TagList(ts[1..]) && |info| < U32
    requires |info| >= 4 && TotalSize(info) == |info| && kind != TAG_END && ts[0].kind != TAG_END && ts[0].kind < U32
    requires Finds(info, |head|, ts[1..], kind)
    ensures Finds(info, |pre|, ts, kind)
  {
    TagAt(info, pre, ts[0], TagList(ts[1..]));
    FindStep(info, |pre|, ts, kind);
  }

  lemma EndTag(info: seq<byte>, pre: seq<byte>)
    requires info == pre + TagList([])
    ensures |info| == |pre| + 8 && TagType(info, |pre|) == TAG_END
  {
    assert info == pre + Encode(TAG_END, 4) + Encode(8, 4);
    EncodedWord(pre, TAG_END, Encode(8, 4));
  }

  lemma ListSplit(info: seq<byte>, pre: seq<byte>, ts: seq<Tag>)
    requires ts != [] && info == pre + TagList(ts)
    ensures info == pre + TagBytes(ts[0]) + TagList(ts[1..])
  {
    assert TagList(ts) == TagBytes(ts[0]) + TagList(ts[1..]);
  }

  // Round trip: in the structure built from a tag list, the search finds the first tag of the
  // wanted kind, with its payload behind its header, and nothing when there is none.
  lemma FindInBootInfo(ts: seq<Tag>, kind: nat)
    requires Buildable(ts) && kind != TAG_END
    ensures Finds(BootInfo(ts), 8, ts, kind)
  {
    var info := BootInfo(ts);
    var pre := Encode(8 + |TagList(ts)|, 4) + Encode(0, 4);
    assert info == pre + TagList(ts);
    assert info == [] + Encode(8 + |TagList(ts)|, 4) + (Encode(0, 4) + TagList(ts));
    EncodedWord([], 8 + |TagList(ts)|, Encode(0, 4) + TagList(ts));
    FindInList(info, pre, ts, kind);
  }

  // ----- the memory-map tag -----

  datatype Entry = Entry(addr: nat, len: nat, kind: nat)

  // Section 3.6.8, "Memory map": entry_size at offset 8 and entries from offset 16 of the tag
  predicate MmapOk(info: seq<byte>, tag: nat) {
    && tag + 16 <= |info|
    && 16 <= TagSize(info, tag) && tag + TagSize(info, tag) <= |info|
    && 24 <= Get(info, tag + 8, 4)
  }

  function EntryCount(info: seq<byte>, tag: nat): nat
    requires MmapOk(info, tag)
  {
    (TagSize(info, tag) - 16) / Get(info, tag + 8, 4)
  }

  lemma EntryInside(info: seq<byte>, tag: nat, i: nat)
    requires MmapOk(info, tag) && i < EntryCount(info, tag)
    ensures tag + 16 + i * Get(info, tag + 8, 4) + 24 <= |info|
  {
    var n, w := EntryCount(info, tag), Get(info, tag + 8, 4);
    MulGap(i, n, w);
    assert n * w <= TagSize(info, tag) - 16;
  }

  function EntryAt(info: seq<byte>, tag: nat, i: nat): Entry
    requires MmapOk(info, tag) && i < EntryCount(info, tag)
  {
    EntryInside(info, tag, i);
    var o := tag + 16 + i * Get(info, tag + 8, 4);
    Entry(Get(info, o, 8), Get(info, o + 8, 8), Get(info, o + 16, 4))
  }

  // ----- the producer's side of the memory map -----

  ghost predicate EntryOk(e: Entry) { e.addr < U64 && e.len < U64 && e.kind < U32 }

  // An entry in w bytes: what follows the reserved word is of no concern to this version.
  function EntryFields(e: Entry, w: nat): Fields
    requires w >= 24
  {
    [(8, e.addr), (8, e.len), (4, e.kind), (w - 20, 0)]
  }

  function EntryBytes(e: Entry, w: nat): (r: seq<byte>)
    requires w >= 24
    ensures |r| == w
  {
    PackLength(EntryFields(e, w), 4);
    Pack(EntryFields(e, w))
  }

  function Records(es: seq<Entry>, w: nat): seq<seq<byte>>
    requires w >= 24
  {
    seq(|es|, i requires 0 <= i < |es| => EntryBytes(es[i], w))
  }

  // entry_size, entry_version, entries
  function MapPayload(es: seq<Entry>, w: nat, version: nat): seq<byte>
    requires w >= 24
  {
    Pack([(4, w), (4, version)]) + Flat(Records(es, w))
  }

  lemma EntryWords(e: Entry, w: nat)
    requires w >= 24 && EntryOk(e)
    ensures var b := EntryBytes(e, w);
      Get(b, 0, 8) == e.addr && Get(b, 8, 8) == e.len && Get(b, 16, 4) == e.kind
  {
    WordSizes();
    var f := EntryFields(e, w);
    GetField(f, 0, 0, 8, e.addr);
    GetField(f, 1, 8, 8, e.len);
    GetField(f, 2, 16, 4, e.kind);
  }

  lemma PayloadWords(es: seq<Entry>, w: nat, version: nat)
    requires 24 <= w < U32
    ensures var p := MapPayload(es, w, version); |p| == 8 + |es| * w && Get(p, 0, 4) == w
  {
    WordSizes();
    var f: Fields := [(4, w), (4, version)];
    PackLength(f, 2);
    GetField(f, 0, 0, 4, w);
    GetLeft(Pack(f), Flat(Records(es, w)), 0, 4);
    FlatLength(Records(es, w), w);
  }

  lemma PayloadEntry(es: seq<Entry>, w: nat, version: nat, i: nat, d: nat, o: nat, n: nat)
    requires 24 <= w && i < |es| && o + n <= w && d == i * w
    ensures 8 + (d + o) + n <= |MapPayload(es, w, version)|
    ensures Get(MapPayload(es, w, version), 8 + (d + o), n) == Get(EntryBytes(es[i], w), o, n)
  {
    PackLength([(4, w), (4, version)], 2);
    BehindHead(Pack([(4, w), (4, version)]), Records(es, w), w, i, d, o, n);
  }

  lemma BehindHead(head: seq<byte>, rs: seq<seq<byte>>, w: nat, i: nat, d: nat, o: nat, n: nat)
    requires |head| == 8 && Uniform(rs, w) && i < |rs| && o + n <= w && d == i * w
    ensures 8 + (d + o) + n <= |head + Flat(rs)|
    ensures Get(head + Flat(rs), 8 + (d + o), n) == Get(rs[i], o, n)
  {
    GetRecord(rs, w, i, o, n);
    GetRight(head, Flat(rs), d + o, n);
  }

  // Where a tag carries a map, its entries are read back, each with its own words, and no more.
  lemma EntriesBack(info: seq<byte>, tag: nat, es: seq<Entry>, w: nat, version: nat)
    requires 24 <= w < U32 && (forall i :: 0 <= i < |es| ==> EntryOk(es[i]))
    requires HasPayload(info, tag, MapPayload(es, w, version))
    ensures MmapOk(info, tag) && EntryCount(info, tag) == |es|
    ensures forall i :: 0 <= i < |es| ==> EntryAt(info, tag, i) == es[i]
  {
    var p := MapPayload(es, w, version);
    PayloadWords(es, w, version);
    GetInside(info, tag + 8, p, 0, 4);
    ModUnique(|es| * w, w, |es|, 0);
    forall i | 0 <= i < |es| ensures EntryAt(info, tag, i) == es[i] {
      EntryBack(info, tag, es, w, version, i, i * w);
    }
  }

  lemma EntryBack(info: seq<byte>, tag: nat, es: seq<Entry>, w: nat, version: nat, i: nat, d: nat)
    requires 24 <= w < U32 && i < |es| && d == i * w && EntryOk(es[i])
    requires HasPayload(info, tag, MapPayload(es, w, version))
    requires MmapOk(info, tag) && i < EntryCount(info, tag) && Get(info, tag + 8, 4) == w
    ensures EntryAt(info, tag, i) == es[i]
  {
    EntryWords(es[i], w);
    WordBack(info, tag, es, w, version, i, d, 0, 24);
    WordBack(info, tag, es, w, version, i, d, 0, 8);
    WordBack(info, tag, es, w, version, i, d, 8, 8);
    WordBack(info, tag, es, w, version, i, d, 16, 4);
    EntryIs(info, tag, i, w, tag + 16 + d, es[i]);
  }

  lemma EntryIs(info: seq<byte>, tag: nat, i: nat, w: nat, o: nat, e: Entry)
    requires MmapOk(info, tag) && i < EntryCount(info, tag) && w == Get(info, tag + 8, 4) && o == tag + 16 + i * w
    requires o + 24 <= |info|
    requires Get(info, o, 8) == e.addr && Get(info, o + 8, 8) == e.len && Get(info, o + 16, 4) == e.kind
    ensures EntryAt(info, tag, i) == e
  {
  }

  lemma WordBack(info: seq<byte>, tag: nat, es: seq<Entry>, w: nat, version: nat, i: nat, d: nat, o: nat, n: nat)
    requires 24 <= w && i < |es| && o + n <= w && d == i * w
    requires HasPayload(info, tag, MapPayload(es, w, version))
    ensures tag + 16 + d + o + n <= |info|
    ensures Get(info, tag + 16 + d + o, n) == Get(EntryBytes(es[i], w), o, n)
  {
    PayloadEntry(es, w, version, i, d, o, n);
    GetInside(info, tag + 8, MapPayload(es, w, version), 8 + (d + o), n);
    assert tag + 8 + (8 + (d + o)) == tag + 16 + d + o;
  }
}
