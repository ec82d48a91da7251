/** Running the sample program: the x86-64 instructions the builder's blob is made of (Intel SDM,
    volume 2), and what they do when the loader has put it anywhere and calls it. */
module Blob {
  import opened Bytes
  import L = Loader
  import M = MkPe
  import R = Relocation

  datatype Instr =
    | PushRbp | PushRbx | PopRbx | PopRbp | Ret | ZeroEax | CallRax | MovRbpRsp | MovRbxRdi
    | LoadRax(disp: nat)   // mov rax, [rbx + disp]
    | LeaRdi(disp: nat)    // lea rdi, [rip + disp]

  datatype Fetched = Bad | Op(instr: Instr, len: nat)

  // The bytes x, y, z at offset o
  predicate Three(m: seq<byte>, o: nat, x: nat, y: nat, z: nat) {
    o + 3 <= |m| && m[o] == x && m[o + 1] == y && m[o + 2] == z
  }

  predicate Two(m: seq<byte>, o: nat, x: nat, y: nat) { o + 2 <= |m| && m[o] == x && m[o + 1] == y }

  // The instruction at offset o; displacements are taken where they are not negative.
  function Fetch(m: seq<byte>, o: nat): Fetched {
    if o >= |m| then Bad
    else if m[o] == 0x55 then Op(PushRbp, 1)
    else if m[o] == 0x53 then Op(PushRbx, 1)
    else if m[o] == 0x5B then Op(PopRbx, 1)
    else if m[o] == 0x5D then Op(PopRbp, 1)
    else if m[o] == 0xC3 then Op(Ret, 1)
    else if Two(m, o, 0x31, 0xC0) then Op(ZeroEax, 2)
    else if Two(m, o, 0xFF, 0xD0) then Op(CallRax, 2)
    else if Three(m, o, 0x48, 0x89, 0xE5) then Op(MovRbpRsp, 3)
    else if Three(m, o, 0x48, 0x89, 0xFB) then Op(MovRbxRdi, 3)
    else if Three(m, o, 0x48, 0x8B, 0x43) && o + 4 <= |m| && m[o + 3] < 0x80 then Op(LoadRax(m[o + 3]), 4)
    else if Three(m, o, 0x48, 0x8D, 0x3D) && o + 7 <= |m| && Get(m, o + 3, 4) < 0x8000_0000 then
      Op(LeaRdi(Get(m, o + 3, 4)), 7)
    else Bad
  }

  // ----- the machine -----

  datatype Call = Call(target: nat, arg: nat)

  // at is the offset of the next instruction in the image; calls are those made so far.
  datatype Cpu = Cpu(at: nat, rax: nat, rbx: nat, rbp: int, rdi: nat, stack: seq<int>, calls: seq<Call>)

  // The image and its address, the function table and its address, where the stack starts, and
  // what the functions called leave in the registers they need not keep
  datatype World = World(m: seq<byte>, base: nat, api: nat, table: seq<nat>, top: int, left: seq<Left>)

  datatype Left = Left(rax: nat, rdi: nat)

  datatype Next = Running(s: Cpu) | Returned(s: Cpu) | Fault

  // The word of the table at an address
  function TableWord(w: World, a: nat): Option<nat> {
    if w.api <= a && (a - w.api) % 8 == 0 && (a - w.api) / 8 < |w.table| then Some(w.table[(a - w.api) / 8]) else None
  }

  function Do(w: World, s: Cpu, i: Instr, next: nat): Next {
    var t := s.(at := next);
    match i
    case PushRbp => Running(t.(stack := s.stack + [s.rbp]))
    case PushRbx => Running(t.(stack := s.stack + [s.rbx]))
    case PopRbx =>
      if s.stack == [] || s.stack[|s.stack| - 1] < 0 then Fault
      else Running(t.(rbx := s.stack[|s.stack| - 1], stack := s.stack[..|s.stack| - 1]))
    case PopRbp =>
      if s.stack == [] then Fault
      else Running(t.(rbp := s.stack[|s.stack| - 1], stack := s.stack[..|s.stack| - 1]))
    case Ret => Returned(t)
    case ZeroEax => Running(t.(rax := 0))
    case CallRax =>
      var k := |s.calls|;
      if k >= |w.left| then Fault
      else Running(t.(rax := w.left[k].rax, rdi := w.left[k].rdi, calls := s.calls + [Call(s.rax, s.rdi)]))
    case MovRbpRsp => Running(t.(rbp := w.top - 8 * |s.stack|))
    case MovRbxRdi => Running(t.(rbx := s.rdi))
    case LoadRax(d) => (match TableWord(w, s.rbx + d) case None => Fault case Some(v) => Running(t.(rax := v)))
    case LeaRdi(d) => Running(t.(rdi := (w.base + next + d) % U64))
  }

  function Step(w: World, s: Cpu): Next {
    match Fetch(w.m, s.at)
    case Bad => Fault
    case Op(i, len) => Do(w, s, i, s.at + len)
  }

  function Run(w: World, s: Cpu, n: nat): Next
    decreases n
  {
    if n == 0 then Running(s)
    else match Step(w, s)
      case Running(t) => Run(w, t, n - 1)
      case Returned(t) => Returned(t)
      case Fault => Fault
  }

  lemma Then(w: World, s: Cpu, t: Cpu, n: nat, r: Cpu)
    requires Step(w, s) == Running(t) && Run(w, t, n) == Returned(r)
    ensures Run(w, s, n + 1) == Returned(r)
  {
  }

  // ----- the blob's instructions -----

  // The instructions of the blob at offset o, with displacements d1 and d2
  ghost predicate Program(m: seq<byte>, o: nat, d1: nat, d2: nat) { Front(m, o, d1) && Back(m, o, d2) }

  ghost predicate Front(m: seq<byte>, o: nat, d1: nat) {
    && Fetch(m, o) == Op(PushRbp, 1) && Fetch(m, o + 1) == Op(MovRbpRsp, 3) && Fetch(m, o + 4) == Op(PushRbx, 1)
    && Fetch(m, o + 5) == Op(MovRbxRdi, 3)
    && Fetch(m, o + 8) == Op(LoadRax(8), 4) && Fetch(m, o + 12) == Op(LeaRdi(d1), 7)
    && Fetch(m, o + 19) == Op(CallRax, 2)
  }

  ghost predicate Back(m: seq<byte>, o: nat, d2: nat) {
    && Fetch(m, o + 21) == Op(LoadRax(16), 4) && Fetch(m, o + 25) == Op(LeaRdi(d2), 7)
    && Fetch(m, o + 32) == Op(CallRax, 2) && Fetch(m, o + 34) == Op(ZeroEax, 2)
    && Fetch(m, o + 36) == Op(PopRbx, 1) && Fetch(m, o + 37) == Op(PopRbp, 1) && Fetch(m, o + 38) == Op(Ret, 1)
  }

  // The last four instructions
  lemma Epilogue(w: World, o: nat, d2: nat, s: Cpu, rbx: nat, rbp: int, st: seq<int>) returns (r: Cpu, n: nat)
    requires Back(w.m, o, d2) && s.at == o + 34 && s.stack == st + [rbp, rbx]
    ensures Run(w, s, n) == Returned(r)
    ensures r.rax == 0 && r.rbx == rbx && r.rbp == rbp && r.stack == st && r.calls == s.calls
  {
    var a := s.(at := o + 36, rax := 0);
    var b := a.(at := o + 37, rbx := rbx, stack := st + [rbp]);
    var c := b.(at := o + 38, rbp := rbp, stack := st);
    r := c.(at := o + 39);
    assert Step(w, s) == Running(a);
    assert (st + [rbp, rbx])[..|st| + 1] == st + [rbp];
    assert Step(w, a) == Running(b);
    assert (st + [rbp])[..|st|] == st;
    assert Step(w, b) == Running(c);
    assert Step(w, c) == Returned(r);
    n := 1;
    assert Run(w, c, n) == Returned(r);
    Then(w, b, c, n, r);
    n := n + 1;
    Then(w, a, b, n, r);
    n := n + 1;
    Then(w, s, a, n, r);
    n := n + 1;
  }

  // Load, lea and call: the function at word k of the table is called with the address of the byte
  // that the displacement leads to.
  lemma CallsOut(w: World, s: Cpu, k: nat, d: nat, t: Cpu, n: nat, r: Cpu) returns (n': nat)
    requires Fetch(w.m, s.at) == Op(LoadRax(8 * k), 4) && Fetch(w.m, s.at + 4) == Op(LeaRdi(d), 7)
    requires Fetch(w.m, s.at + 11) == Op(CallRax, 2)
    requires s.rbx == w.api && k < |w.table| && |s.calls| < |w.left| && w.base + s.at + 11 + d < U64
    requires t == s.(at := s.at + 13, rax := w.left[|s.calls|].rax, rdi := w.left[|s.calls|].rdi,
                     calls := s.calls + [Call(w.table[k], w.base + s.at + 11 + d)])
    requires Run(w, t, n) == Returned(r)
    ensures Run(w, s, n') == Returned(r)
  {
    var a := s.(at := s.at + 4, rax := w.table[k]);
    var b := a.(at := s.at + 11, rdi := w.base + s.at + 11 + d);
    WordAt(w, k);
    assert Step(w, s) == Running(a);
    ModUnique(w.base + s.at + 11 + d, U64, 0, w.base + s.at + 11 + d);
    assert Step(w, a) == Running(b);
    assert Step(w, b) == Running(t);
    Then(w, b, t, n, r);
    Then(w, a, b, n + 1, r);
    Then(w, s, a, n + 2, r);
    n' := n + 3;
  }

  lemma WordAt(w: World, k: nat)
    requires k < |w.table|
    ensures TableWord(w, w.api + 8 * k) == Some(w.table[k])
  {
    ModUnique(8 * k, 8, k, 0);
  }

  // The first four instructions
  lemma Prologue(w: World, o: nat, d1: nat, s: Cpu, t: Cpu, n: nat, r: Cpu) returns (n': nat)
    requires Front(w.m, o, d1) && s.at == o
    requires t == s.(at := o + 8, rbp := w.top - 8 * (|s.stack| + 1), rbx := s.rdi, stack := s.stack + [s.rbp, s.rbx])
    requires Run(w, t, n) == Returned(r)
    ensures Run(w, s, n') == Returned(r)
  {
    var b := s.(at := o + 4, rbp := w.top - 8 * (|s.stack| + 1), stack := s.stack + [s.rbp]);
    n' := KeepRbx(w, o, d1, b, t, n, r) by { assert s.stack + [s.rbp] + [s.rbx] == s.stack + [s.rbp, s.rbx]; }
    n' := EnterFrame(w, o, d1, s, b, n', r);
  }

  lemma KeepRbx(w: World, o: nat, d1: nat, b: Cpu, t: Cpu, n: nat, r: Cpu) returns (n': nat)
    requires Front(w.m, o, d1) && b.at == o + 4 && t == b.(at := o + 8, rbx := b.rdi, stack := b.stack + [b.rbx])
    requires Run(w, t, n) == Returned(r)
    ensures Run(w, b, n') == Returned(r)
  {
    var c := b.(at := o + 5, stack := b.stack + [b.rbx]);
    assert Step(w, b) == Running(c) && Step(w, c) == Running(t);
    Then(w, c, t, n, r);
    Then(w, b, c, n + 1, r);
    n' := n + 2;
  }

  lemma EnterFrame(w: World, o: nat, d1: nat, s: Cpu, b: Cpu, n: nat, r: Cpu) returns (n': nat)
    requires Front(w.m, o, d1) && s.at == o
    requires b == s.(at := o + 4, rbp := w.top - 8 * (|s.stack| + 1), stack := s.stack + [s.rbp])
    requires Run(w, b, n) == Returned(r)
    ensures Run(w, s, n') == Returned(r)
  {
    var a := s.(at := o + 1, stack := s.stack + [s.rbp]);
    assert Step(w, s) == Running(a) && Step(w, a) == Running(b);
    Then(w, a, b, n, r);
    Then(w, s, a, n + 1, r);
    n' := n + 2;
  }

  // Called with the table's address, the program calls the table's second function with the address
  // its first displacement leads to and the third with that of the other, whatever these leave in
  // rax and rdi, and returns 0 with rbx, rbp and the stack as they were.
  lemma ProgramRuns(w: World, o: nat, d1: nat, d2: nat, s: Cpu) returns (r: Cpu, n: nat)
    requires Program(w.m, o, d1, d2) && s.at == o && s.rdi == w.api && s.calls == []
    requires |w.table| >= 3 && |w.left| >= 2 && w.base + o + 19 + d1 < U64 && w.base + o + 32 + d2 < U64
    ensures Run(w, s, n) == Returned(r)
    ensures r.rax == 0 && r.rbx == s.rbx && r.rbp == s.rbp && r.stack == s.stack
    ensures r.calls == [Call(w.table[1], w.base + o + 19 + d1), Call(w.table[2], w.base + o + 32 + d2)]
  {
    var (c1, c2) := (Call(w.table[1], w.base + o + 19 + d1), Call(w.table[2], w.base + o + 32 + d2));
    var p := s.(at := o + 8, rbp := w.top - 8 * (|s.stack| + 1), rbx := s.rdi, stack := s.stack + [s.rbp, s.rbx]);
    var q := p.(at := o + 21, rax := w.left[0].rax, rdi := w.left[0].rdi, calls := [c1]);
    var u := q.(at := o + 34, rax := w.left[1].rax, rdi := w.left[1].rdi, calls := [c1, c2]);
    r, n := Epilogue(w, o, d2, u, s.rbx, s.rbp, s.stack);
    n := CallsOut(w, q, 2, d2, u, n, r);
    n := CallsOut(w, p, 1, d1, q, n, r);
    n := Prologue(w, o, d1, s, p, n, r);
  }

  // ----- the blob, in a file, loaded -----

  // The blob but for its displacements
  lemma BlobBytes(msg: seq<byte>, msg2: seq<byte>)
    requires |msg| + 8 < 0x8000_0000
    ensures var c := M.CodeOf(msg, msg2);
      && |c| == 41 + |msg| + |msg2|
      && c[0..15] == [0x55, 0x48, 0x89, 0xE5, 0x53, 0x48, 0x89, 0xFB, 0x48, 0x8B, 0x43, 0x08, 0x48, 0x8D, 0x3D]
      && c[19..28] == [0xFF, 0xD0, 0x48, 0x8B, 0x43, 0x10, 0x48, 0x8D, 0x3D]
      && c[32..39] == [0xFF, 0xD0, 0x31, 0xC0, 0x5B, 0x5D, 0xC3]
      && Get(c, 15, 4) == 20 && Get(c, 28, 4) == 8 + |msg|
      && c[39..39 + |msg|] == msg && c[39 + |msg|] == 0
      && c[40 + |msg|..40 + |msg| + |msg2|] == msg2 && c[40 + |msg| + |msg2|] == 0
  {
    WordSizes();
    var d := M.Draft(msg, msg2);
    var c1 := M.PatchLea(d, M.LEA1, M.CODE_LEN);
    var c := M.CodeOf(msg, msg2);
    GetPutFits(d, M.LEA1, 4, 20);
    GetPutFits(c1, M.LEA2, 4, 8 + |msg|);
    GetFrame(c1, c, M.LEA1, 4);
    DraftBytes(msg, msg2);
    Same(d, c, 0, 15);
    Same(d, c, 19, 28);
    Same(d, c, 32, |d|);
  }

  lemma Same(a: seq<byte>, b: seq<byte>, i: nat, j: nat)
    requires i <= j <= |a| == |b| && forall k :: i <= k < j ==> a[k] == b[k]
    ensures forall x, y :: i <= x <= y <= j ==> a[x..y] == b[x..y]
  {
  }

  lemma DraftBytes(msg: seq<byte>, msg2: seq<byte>)
    ensures var d := M.Draft(msg, msg2);
      && d[0..15] == M.PART1 && d[19..28] == M.PART2 && d[32..39] == M.PART3
      && d[39..39 + |msg|] == msg && d[39 + |msg|] == 0
      && d[40 + |msg|..40 + |msg| + |msg2|] == msg2 && d[40 + |msg| + |msg2|] == 0
  {
  }

  // The blob's instructions are those of the program.
  lemma BlobFetched(msg: seq<byte>, msg2: seq<byte>)
    requires |msg| + 8 < 0x8000_0000
    ensures Program(M.CodeOf(msg, msg2), 0, 20, 8 + |msg|)
  {
    BlobBytes(msg, msg2);
    FrontFetched(M.CodeOf(msg, msg2));
    BackFetched(M.CodeOf(msg, msg2), 8 + |msg|);
  }

  lemma FrontFetched(c: seq<byte>)
    requires 41 <= |c| && c[0..15] == M.PART1 && c[19..28] == M.PART2 && Get(c, 15, 4) == 20
    ensures Front(c, 0, 20)
  {
    Cut(c, 0, M.PART1);
    Cut(c, 19, M.PART2);
  }

  lemma BackFetched(c: seq<byte>, d2: nat)
    requires 41 <= |c| && c[19..28] == M.PART2 && c[32..39] == M.PART3 && Get(c, 28, 4) == d2 < 0x8000_0000
    ensures Back(c, 0, d2)
  {
    Cut(c, 19, M.PART2);
    Cut(c, 32, M.PART3);
  }

  lemma Cut(c: seq<byte>, o: nat, s: seq<byte>)
    requires o + |s| <= |c| && c[o..o + |s|] == s
    ensures forall k {:trigger c[k]} :: o <= k < o + |s| ==> c[k] == s[k - o]
  {
    forall k | o <= k < o + |s| ensures c[k] == s[k - o] {
      assert c[o..o + |s|][k - o] == c[k];
    }
  }

  // An instruction is the same wherever its bytes are.
  lemma FetchMoves(m: seq<byte>, o: nat, c: seq<byte>, i: nat)
    requires R.IsDir(m, c, o) && Fetch(c, i) != Bad
    ensures Fetch(m, o + i) == Fetch(c, i)
  {
    if i + 7 <= |c| { R.GetInDir(m, c, o, i + 3, 4); }
    assert forall k :: i <= k < |c| ==> m[o + k] == c[k];
  }

  lemma BlobMoves(m: seq<byte>, o: nat, c: seq<byte>, d1: nat, d2: nat)
    requires R.IsDir(m, c, o) && Program(c, 0, d1, d2)
    ensures Program(m, o, d1, d2)
  {
    FetchMoves(m, o, c, 0);
    FetchMoves(m, o, c, 1);
    FetchMoves(m, o, c, 4);
    FetchMoves(m, o, c, 5);
    FetchMoves(m, o, c, 8);
    FetchMoves(m, o, c, 12);
    FetchMoves(m, o, c, 19);
    FetchMoves(m, o, c, 21);
    FetchMoves(m, o, c, 25);
    FetchMoves(m, o, c, 32);
    FetchMoves(m, o, c, 34);
    FetchMoves(m, o, c, 36);
    FetchMoves(m, o, c, 37);
    FetchMoves(m, o, c, 38);
  }

  // A text and its terminator at offset o
  ghost predicate Text(m: seq<byte>, o: nat, text: seq<byte>) {
    o + |text| < |m| && m[o..o + |text|] == text && m[o + |text|] == 0
  }

  lemma TextMoves(m: seq<byte>, o: nat, c: seq<byte>, i: nat, text: seq<byte>)
    requires R.IsDir(m, c, o) && Text(c, i, text)
    ensures Text(m, o + i, text)
  {
    forall k | 0 <= k < |text| ensures m[o + i + k] == text[k] {
      assert c[i..i + |text|][k] == c[i + k];
    }
  }

  // The image holds the blob where the entry point is.
  lemma BlobLoaded(msg: seq<byte>, msg2: seq<byte>, base: nat)
    requires |msg| + 8 < 0x8000_0000 && M.ImageSize(M.CodeOf(msg, msg2)) < U32
    ensures var f := M.PeFile(M.CodeOf(msg, msg2));
      L.Loadable(f) && L.Verdict(f).Accepted? && L.Verdict(f).info.entryRva == M.CODE_RVA
      && R.IsDir(L.LoadedImage(f, base), M.CodeOf(msg, msg2), M.CODE_RVA)
  {
    var code := M.CodeOf(msg, msg2);
    M.BuiltMapped(code, base);
    M.LoadedGreets(msg, msg2, base);
    Inside(L.LoadedImage(M.PeFile(code), base), code);
  }

  lemma Inside(m: seq<byte>, c: seq<byte>)
    requires M.CODE_RVA + |c| <= |m| && m[M.CODE_RVA..M.CODE_RVA + |c|] == c
    ensures R.IsDir(m, c, M.CODE_RVA)
  {
    forall i {:trigger c[i]} | 0 <= i < |c| ensures c[i] == m[M.CODE_RVA + i] {
      assert m[M.CODE_RVA..M.CODE_RVA + |c|][i] == m[M.CODE_RVA + i];
    }
  }

  // What the program has done: each text handed over in turn, and everything else as it was
  ghost predicate Greeted(w: World, s: Cpu, r: Cpu, msg: seq<byte>, msg2: seq<byte>) {
    && r.rax == 0 && r.rbx == s.rbx && r.rbp == s.rbp && r.stack == s.stack
    && |r.calls| == 2 && |w.table| >= 3 && w.base <= r.calls[0].arg && w.base <= r.calls[1].arg
    && r.calls[0].target == w.table[1] && Text(w.m, r.calls[0].arg - w.base, msg)
    && r.calls[1].target == w.table[2] && Text(w.m, r.calls[1].arg - w.base, msg2)
  }

  // The whole way again, now run: the file built around two texts, loaded at any base and entered
  // where the loader enters it, calls the table's write with the first text and its writeln with
  // the second, and returns 0.
  lemma LoadedRuns(msg: seq<byte>, msg2: seq<byte>, w: World, s: Cpu) returns (r: Cpu, n: nat)
    requires |msg| + 8 < 0x8000_0000 && M.ImageSize(M.CodeOf(msg, msg2)) < U32
    requires w.base + |w.m| <= U64 && |w.table| >= 3 && |w.left| >= 2
    requires var f := M.PeFile(M.CodeOf(msg, msg2));
      L.Loadable(f) && L.Verdict(f).Accepted? && w.m == L.LoadedImage(f, w.base) && s.at == L.Verdict(f).info.entryRva
    requires s.rdi == w.api && s.calls == []
    ensures Run(w, s, n) == Returned(r) && Greeted(w, s, r, msg, msg2)
  {
    BlobLoaded(msg, msg2, w.base);
    r, n := RunsHere(M.CodeOf(msg, msg2), msg, msg2, w, s);
  }

  lemma RunsHere(c: seq<byte>, msg: seq<byte>, msg2: seq<byte>, w: World, s: Cpu) returns (r: Cpu, n: nat)
    requires |msg| + 8 < 0x8000_0000 && c == M.CodeOf(msg, msg2) && R.IsDir(w.m, c, M.CODE_RVA) && s.at == M.CODE_RVA
    requires w.base + |w.m| <= U64 && |w.table| >= 3 && |w.left| >= 2 && s.rdi == w.api && s.calls == []
    ensures Run(w, s, n) == Returned(r) && Greeted(w, s, r, msg, msg2)
  {
    BlobFetched(msg, msg2);
    BlobMoves(w.m, M.CODE_RVA, c, 20, 8 + |msg|);
    BlobBytes(msg, msg2);
    TextMoves(w.m, M.CODE_RVA, c, 39, msg);
    TextMoves(w.m, M.CODE_RVA, c, 40 + |msg|, msg2);
    r, n := ProgramRuns(w, M.CODE_RVA, 20, 8 + |msg|, s);
  }
}
