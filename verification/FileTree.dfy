/** The file system's namespace operations as functions on the node array and the working
    directory, and the simpler machine they refine: a map from component paths to kinds. */
module FileTree {
  import opened Bytes
  import opened Paths
  import opened Tree

  datatype Fs = Fs(nodes: Nodes, cwd: string)

  // ----- path resolution -----

  // One component: the directory itself, its parent, or a named child
  function Move(ns: Nodes, cur: nat, part: string): (r: Option<nat>)
    requires cur < |ns|
    ensures r.Some? ==> r.value < |ns|
  {
    if part == "." then Some(cur)
    else if part == ".." then
      Some(if ns[cur].parent.Some? && ns[cur].parent.value < |ns| then ns[cur].parent.value else cur)
    else FindIn(ns, ns[cur].child, part)
  }

  function Walk(ns: Nodes, cur: nat, parts: seq<string>): (r: Option<nat>)
    requires cur < |ns|
    ensures r.Some? ==> r.value < |ns|
    decreases |parts|
  {
    if parts == [] then Some(cur)
    else match Move(ns, cur, parts[0])
      case None => None
      case Some(next) => Walk(ns, next, parts[1..])
  }

  // The buffers of normalize_path and ensure_parent hold the path; longer ones overflow.
  predicate PathOk(cwd: string, path: string) {
    && Absolute(cwd) && |cwd| < PATH_MAX
    && (!Absolute(path) ==> |cwd| + 1 + |path| < PATH_MAX)
  }

  function Components(cwd: string, path: string): seq<string>
    requires PathOk(cwd, path)
  {
    Parts(Normalize(cwd, path)[1..])
  }

  function Resolve(fs: Fs, path: string): (r: Option<nat>)
    requires |fs.nodes| > 0 && PathOk(fs.cwd, path)
    ensures r.Some? ==> r.value < |fs.nodes|
  {
    Walk(fs.nodes, 0, Components(fs.cwd, path))
  }

  // ----- walking composes -----

  lemma {:induction false} WalkConcat(ns: Nodes, cur: nat, a: seq<string>, b: seq<string>)
    requires cur < |ns|
    ensures Walk(ns, cur, a + b) == match Walk(ns, cur, a) case None => None case Some(d) => Walk(ns, d, b)
    decreases |a|
  {
    if a == [] {
      NilLeft(b);
    } else {
      HeadTail(a, b);
      var next := Move(ns, cur, a[0]);
      if next.Some? { WalkConcat(ns, next.value, a[1..], b); }
    }
  }

  lemma HeadTail<T>(a: seq<T>, b: seq<T>)
    requires a != []
    ensures a + b != [] && (a + b)[0] == a[0] && (a + b)[1..] == a[1..] + b
  {
  }

  // A relative path leads where walking it from the working directory's node leads.
  lemma ResolveRelative(fs: Fs, path: string)
    requires |fs.nodes| > 0 && PathOk(fs.cwd, path) && !Absolute(path)
    ensures PathOk(fs.cwd, fs.cwd)
    ensures Resolve(fs, path) ==
      match Resolve(fs, fs.cwd) case None => None case Some(d) => Walk(fs.nodes, d, Parts(path))
  {
    PartsRelative(fs.cwd, path);
    WalkConcat(fs.nodes, 0, Parts(fs.cwd[1..]), Parts(path));
  }

  // An absolute path of 256 characters or more is read as its first 255.
  lemma LongPath(fs: Fs, path: string)
    requires |fs.nodes| > 0 && PathOk(fs.cwd, path) && Absolute(path) && |path| >= 256
    ensures PathOk(fs.cwd, path[..255]) && Resolve(fs, path) == Resolve(fs, path[..255])
  {
    assert Normalize(fs.cwd, path) == path[..255] == Normalize(fs.cwd, path[..255]);
  }

  // ----- the abstract file system -----

  // The kinds of all paths that exist, how many nodes were ever made, the working directory
  datatype Space = Space(entries: imap<seq<string>, Kind>, made: nat, cwd: string)

  function Step1(q: seq<string>, part: string): seq<string> {
    if part == "." then q
    else if part == ".." then (if q == [] then [] else q[..|q| - 1])
    else q + [part]
  }

  // Component by component, the path reached, as long as everything on the way exists
  ghost function Travel(e: imap<seq<string>, Kind>, q: seq<string>, parts: seq<string>): Option<seq<string>>
    decreases |parts|
  {
    if parts == [] then Some(q)
    else if Step1(q, parts[0]) in e then Travel(e, Step1(q, parts[0]), parts[1..])
    else None
  }

  ghost predicate Denotes(ns: Nodes, e: imap<seq<string>, Kind>) {
    forall q :: (q in e <==> Lookup(ns, q).Some?) && (q in e ==> e[q] == ns[Lookup(ns, q).value].kind)
  }

  lemma MoveDenotes(ns: Nodes, e: imap<seq<string>, Kind>, i: nat, part: string)
    requires Wf(ns) && Denotes(ns, e) && Reached(ns, i)
    ensures var q := Step1(PathOf(ns, i), part);
      match Move(ns, i, part)
      case None => q !in e
      case Some(j) => q in e && Reached(ns, j) && PathOf(ns, j) == q
  {
    var P := PathOf(ns, i);
    assert LinkOk(ns, i);
    ReachedLookup(ns, i);
    if part == "." {
    } else if part == ".." {
      if i > 0 {
        var p := ns[i].parent.value;
        ReachedLookup(ns, p);
        SnocInv(PathOf(ns, p), ns[i].name);
      }
    } else {
      LookupSnoc(ns, P, part);
      if Move(ns, i, part).Some? { LookupReached(ns, P + [part]); }
    }
  }

  // Walking the node array and travelling the map agree, `..` included.
  lemma {:induction false} WalkDenotes(ns: Nodes, e: imap<seq<string>, Kind>, i: nat, parts: seq<string>)
    requires Wf(ns) && Denotes(ns, e) && Reached(ns, i)
    ensures match Walk(ns, i, parts)
      case None => Travel(e, PathOf(ns, i), parts) == None
      case Some(j) => Reached(ns, j) && Travel(e, PathOf(ns, i), parts) == Some(PathOf(ns, j))
    decreases |parts|
  {
    if parts == [] {
    } else {
      MoveDenotes(ns, e, i, parts[0]);
      var next := Move(ns, i, parts[0]);
      if next.Some? { WalkDenotes(ns, e, next.value, parts[1..]); }
    }
  }

  // ----- making and removing entries -----

  // ensure_parent: the directory part resolved, and the last component
  function EnsureParent(fs: Fs, path: string): (r: (Option<nat>, string))
    requires |fs.nodes| > 0 && PathOk(fs.cwd, path)
    ensures r.0.Some? ==> r.0.value < |fs.nodes|
  {
    var full := Normalize(fs.cwd, path);
    var k := LastSlash(full);
    if k == 0 then (Some(0), full[1..]) else (Resolve(fs, full[..k]), full[k + 1..])
  }

  function Leaf(cwd: string, path: string): string
    requires PathOk(cwd, path)
  {
    LeafOf(Normalize(cwd, path))
  }

  function LeafOf(full: string): string
    requires Absolute(full)
  {
    full[LastSlash(full) + 1..]
  }

  // vfs_mkdir and vfs_create
  function Make(fs: Fs, path: string, kind: Kind, mode: nat): (r: (Fs, Option<nat>))
    requires |fs.nodes| > 0 && PathOk(fs.cwd, path)
    ensures |fs.nodes| <= |r.0.nodes| <= |fs.nodes| + 1 && (r.1.Some? ==> r.1.value < |r.0.nodes|)
  {
    var (parent, leaf) := EnsureParent(fs, path);
    MakeIn(fs, parent, leaf, kind, mode)
  }

  function MakeIn(fs: Fs, parent: Option<nat>, leaf: string, kind: Kind, mode: nat): (r: (Fs, Option<nat>))
    requires parent.Some? ==> parent.value < |fs.nodes|
    ensures |fs.nodes| <= |r.0.nodes| <= |fs.nodes| + 1 && (r.1.Some? ==> r.1.value < |r.0.nodes|)
  {
    if parent.None? || fs.nodes[parent.value].kind != Dir || leaf == "" then (fs, None)
    else
      var c := FindIn(fs.nodes, fs.nodes[parent.value].child, leaf);
      if c.Some? then (fs, c)
      else if |fs.nodes| >= MAX_NODES then (fs, None)
      else (fs.(nodes := Link(fs.nodes, parent.value, leaf, kind, mode)), Some(|fs.nodes|))
  }

  // vfs_unlink
  function Remove(fs: Fs, path: string): (r: (Fs, bool))
    requires |fs.nodes| > 0 && PathOk(fs.cwd, path)
    ensures |r.0.nodes| == |fs.nodes|
  {
    match Resolve(fs, path)
    case None => (fs, false)
    case Some(n) => if n == 0 then (fs, false) else (fs.(nodes := Unlink(fs.nodes, n)), true)
  }

  // The components before the last one of a path that is to be made
  ghost function DirParts(cwd: string, path: string): seq<string>
    requires PathOk(cwd, path)
  {
    DirOf(Normalize(cwd, path))
  }

  ghost function DirOf(full: string): seq<string>
    requires Absolute(full)
  {
    if LastSlash(full) == 0 then [] else Parts(full[1..LastSlash(full)])
  }

  ghost function AMake(a: Space, path: string, kind: Kind): Space
    requires PathOk(a.cwd, path)
  {
    AMakeIn(a, Travel(a.entries, [], DirParts(a.cwd, path)), Leaf(a.cwd, path), kind)
  }

  ghost function AMakeIn(a: Space, P: Option<seq<string>>, leaf: string, kind: Kind): Space {
    if P.None? || P.value !in a.entries || a.entries[P.value] != Dir || leaf == "" then a
    else if P.value + [leaf] in a.entries || a.made >= MAX_NODES then a
    else a.(entries := a.entries[P.value + [leaf] := kind], made := a.made + 1)
  }

  ghost function ARemove(a: Space, path: string): Space
    requires PathOk(a.cwd, path)
  {
    match Travel(a.entries, [], Components(a.cwd, path))
    case None => a
    case Some(q) =>
      if q == [] then a else a.(entries := imap r | r in a.entries && !(q <= r) :: a.entries[r])
  }

  ghost predicate Rep(fs: Fs, a: Space) {
    Wf(fs.nodes) && Denotes(fs.nodes, a.entries) && a.made == |fs.nodes| && a.cwd == fs.cwd
  }

  lemma NormalizeOk(cwd: string, path: string)
    requires PathOk(cwd, path)
    ensures Absolute(Normalize(cwd, path)) && |Normalize(cwd, path)| < PATH_MAX
  {
  }

  lemma ParentDenotes(fs: Fs, a: Space, path: string)
    requires Rep(fs, a) && PathOk(fs.cwd, path)
    ensures var (p, leaf) := EnsureParent(fs, path);
      var P := Travel(a.entries, [], DirParts(a.cwd, path));
      && leaf == Leaf(fs.cwd, path)
      && (p.None? ==> P.None?)
      && (p.Some? ==> Reached(fs.nodes, p.value) && P == Some(PathOf(fs.nodes, p.value)))
  {
    var full := Normalize(fs.cwd, path);
    NormalizeOk(fs.cwd, path);
    var k := LastSlash(full);
    RootReached(fs.nodes);
    if k > 0 {
      assert PathOk(fs.cwd, full[..k]) && Normalize(fs.cwd, full[..k]) == full[..k];
      assert full[..k][1..] == full[1..k];
      WalkDenotes(fs.nodes, a.entries, 0, Parts(full[1..k]));
    }
  }

  lemma RootReached(ns: Nodes)
    requires Wf(ns)
    ensures Reached(ns, 0) && PathOf(ns, 0) == []
  {
    assert LinkOk(ns, 0);
  }

  lemma LeafPlain(cwd: string, path: string)
    requires PathOk(cwd, path) && |Leaf(cwd, path)| < NAME_MAX
    ensures Leaf(cwd, path) == "" || Plain(Leaf(cwd, path))
  {
  }

  // Making an entry adds exactly one path to the map, or finds the entry there, or fails and
  // changes nothing, as the map says.
  lemma MakeRefines(fs: Fs, a: Space, path: string, kind: Kind, mode: nat)
    requires Rep(fs, a) && PathOk(fs.cwd, path) && |Leaf(fs.cwd, path)| < NAME_MAX
    ensures Rep(Make(fs, path, kind, mode).0, AMake(a, path, kind))
  {
    ParentDenotes(fs, a, path);
    LeafPlain(fs.cwd, path);
    var (parent, leaf) := EnsureParent(fs, path);
    if parent.Some? { MakeInRefines(fs, a, parent.value, leaf, kind, mode); }
  }

  lemma MakeInRefines(fs: Fs, a: Space, p: nat, leaf: string, kind: Kind, mode: nat)
    requires Rep(fs, a) && Reached(fs.nodes, p) && (leaf == "" || Plain(leaf))
    ensures Rep(MakeIn(fs, Some(p), leaf, kind, mode).0, AMakeIn(a, Some(PathOf(fs.nodes, p)), leaf, kind))
  {
    var ns := fs.nodes;
    ReachedLookup(ns, p);
    LookupSnoc(ns, PathOf(ns, p), leaf);
    assert PathOf(ns, p) in a.entries && a.entries[PathOf(ns, p)] == ns[p].kind;
    if ns[p].kind == Dir && leaf != "" && FindIn(ns, ns[p].child, leaf).None? && |ns| < MAX_NODES {
      LinkDenotes(ns, a.entries, p, leaf, kind, mode);
    }
  }

  lemma LinkDenotes(ns: Nodes, e: imap<seq<string>, Kind>, p: nat, leaf: string, kind: Kind, mode: nat)
    requires Wf(ns) && Denotes(ns, e) && Reached(ns, p) && |ns| < MAX_NODES && ns[p].kind == Dir
    requires Plain(leaf) && FindIn(ns, ns[p].child, leaf).None?
    ensures Wf(Link(ns, p, leaf, kind, mode)) && |Link(ns, p, leaf, kind, mode)| == |ns| + 1
    ensures Denotes(Link(ns, p, leaf, kind, mode), e[PathOf(ns, p) + [leaf] := kind])
  {
    LinkWf(ns, p, leaf, kind, mode);
    forall q ensures Lookup(Link(ns, p, leaf, kind, mode), q) ==
      if q == PathOf(ns, p) + [leaf] then Some(|ns|) else Lookup(ns, q)
    {
      LinkRefines(ns, p, leaf, kind, mode, q);
    }
  }

  // What mkdir and create return: nothing if the directory part names no directory, or the last
  // component is empty; otherwise the node that is found at the path afterwards, whether it was
  // there before, of whatever kind, or is new, and then it is an empty one of the kind and mode
  // asked for. The path is missing afterwards only if it was before and every slot is taken.
  lemma MakeReturns(fs: Fs, a: Space, path: string, kind: Kind, mode: nat)
    requires Rep(fs, a) && PathOk(fs.cwd, path) && |Leaf(fs.cwd, path)| < NAME_MAX
    ensures var ((fs', r), P) := (Make(fs, path, kind, mode), Travel(a.entries, [], DirParts(a.cwd, path)));
      if P.None? || P.value !in a.entries || a.entries[P.value] != Dir || Leaf(a.cwd, path) == ""
      then r.None? && fs' == fs
      else Returned(fs.nodes, fs'.nodes, P.value + [Leaf(a.cwd, path)], r, kind, mode)
  {
    ParentDenotes(fs, a, path);
    LeafPlain(fs.cwd, path);
    var (parent, leaf) := EnsureParent(fs, path);
    if parent.Some? {
      ReachedLookup(fs.nodes, parent.value);
      if fs.nodes[parent.value].kind == Dir && leaf != "" { MadeIn(fs, parent.value, leaf, kind, mode); }
    }
  }

  ghost predicate Returned(ns: Nodes, ns': Nodes, q: seq<string>, r: Option<nat>, kind: Kind, mode: nat) {
    && r == Lookup(ns', q)
    && (Lookup(ns, q).Some? ==> ns' == ns)
    && (Lookup(ns, q).None? ==> (r.Some? <==> |ns| < 256) && (r.None? ==> ns' == ns))
    && (Lookup(ns, q).None? && r.Some? ==>
          var n := ns'[r.value];
          |ns'| == |ns| + 1 && r.value == |ns| && n.kind == kind && n.mode == mode && n.size == 0 && n.data == 0)
  }

  lemma MadeIn(fs: Fs, p: nat, leaf: string, kind: Kind, mode: nat)
    requires Wf(fs.nodes) && Reached(fs.nodes, p) && fs.nodes[p].kind == Dir && Plain(leaf)
    ensures var (fs', r) := MakeIn(fs, Some(p), leaf, kind, mode);
      Returned(fs.nodes, fs'.nodes, PathOf(fs.nodes, p) + [leaf], r, kind, mode)
  {
    var ns := fs.nodes;
    ReachedLookup(ns, p);
    LookupSnoc(ns, PathOf(ns, p), leaf);
    if FindIn(ns, ns[p].child, leaf).None? && |ns| < MAX_NODES {
      LinkRefines(ns, p, leaf, kind, mode, PathOf(ns, p) + [leaf]);
    }
  }

  // Removing an entry removes exactly the subtree at the path resolved; the root stays.
  lemma RemoveRefines(fs: Fs, a: Space, path: string)
    requires Rep(fs, a) && PathOk(fs.cwd, path)
    ensures Rep(Remove(fs, path).0, ARemove(a, path))
  {
    RootReached(fs.nodes);
    WalkDenotes(fs.nodes, a.entries, 0, Components(fs.cwd, path));
    match Resolve(fs, path)
    case None =>
    case Some(n) =>
      if n > 0 {
        assert LinkOk(fs.nodes, n) && PathOf(fs.nodes, n) != [];
        UnlinkDenotes(fs.nodes, a.entries, n);
      }
  }

  // unlink reports success exactly for a path that leads somewhere other than the root; what is
  // left resolves no more at the path, and a failure changes nothing.
  lemma RemoveReturns(fs: Fs, a: Space, path: string)
    requires Rep(fs, a) && PathOk(fs.cwd, path)
    ensures var ((fs', ok), q) := (Remove(fs, path), Travel(a.entries, [], Components(a.cwd, path)));
      && (ok <==> q.Some? && q.value != [])
      && (!ok ==> fs' == fs)
      && (ok ==> Lookup(fs'.nodes, q.value) == None && Resolve(fs, path) == Lookup(fs.nodes, q.value))
  {
    RootReached(fs.nodes);
    WalkDenotes(fs.nodes, a.entries, 0, Components(fs.cwd, path));
    match Resolve(fs, path)
    case None =>
    case Some(n) =>
      assert LinkOk(fs.nodes, n);
      if n > 0 {
        ReachedLookup(fs.nodes, n);
        UnlinkRefines(fs.nodes, n, PathOf(fs.nodes, n));
      }
  }

  lemma UnlinkDenotes(ns: Nodes, e: imap<seq<string>, Kind>, n: nat)
    requires Wf(ns) && Denotes(ns, e) && Reached(ns, n) && n > 0
    ensures Wf(Unlink(ns, n)) && |Unlink(ns, n)| == |ns|
    ensures Denotes(Unlink(ns, n), imap r | r in e && !(PathOf(ns, n) <= r) :: e[r])
  {
    UnlinkWf(ns, n);
    UnlinkShape(ns, n);
    forall q ensures Lookup(Unlink(ns, n), q) == if PathOf(ns, n) <= q then None else Lookup(ns, q) {
      UnlinkRefines(ns, n, q);
    }
  }

  // ----- finding what was made -----

  lemma SpaceOf(ns: Nodes) returns (e: imap<seq<string>, Kind>)
    requires |ns| > 0
    ensures Denotes(ns, e)
  {
    e := imap q: seq<string> | Lookup(ns, q).Some? :: ns[Lookup(ns, q).value].kind;
  }

  lemma {:induction false} TravelMono(e: imap<seq<string>, Kind>, e': imap<seq<string>, Kind>,
                                      q: seq<string>, parts: seq<string>)
    requires Travel(e, q, parts).Some? && forall r :: r in e ==> r in e'
    ensures Travel(e', q, parts) == Travel(e, q, parts)
    decreases |parts|
  {
    if parts == [] {
    } else {
      TravelMono(e, e', Step1(q, parts[0]), parts[1..]);
    }
  }

  // Making an entry leaves its directory where it was.
  lemma ParentFound(fs: Fs, path: string, kind: Kind, mode: nat)
    requires Wf(fs.nodes) && PathOk(fs.cwd, path) && |Leaf(fs.cwd, path)| < NAME_MAX
    requires Make(fs, path, kind, mode).1.Some?
    ensures EnsureParent(fs, path).0.Some? && Reached(fs.nodes, EnsureParent(fs, path).0.value)
    ensures var ns' := Make(fs, path, kind, mode).0.nodes;
      && Wf(ns') && Walk(ns', 0, DirParts(fs.cwd, path)).Some?
      && Lookup(ns', PathOf(fs.nodes, EnsureParent(fs, path).0.value)) == Walk(ns', 0, DirParts(fs.cwd, path))
  {
    var e := SpaceOf(fs.nodes);
    var a := Space(e, |fs.nodes|, fs.cwd);
    ParentDenotes(fs, a, path);
    MakeRefines(fs, a, path, kind, mode);
    var ns', a' := Make(fs, path, kind, mode).0.nodes, AMake(a, path, kind);
    var dirs := DirParts(fs.cwd, path);
    TravelMono(e, a'.entries, [], dirs);
    RootReached(ns');
    WalkDenotes(ns', a'.entries, 0, dirs);
    ReachedLookup(ns', Walk(ns', 0, dirs).value);
  }

  lemma ParentStays(fs: Fs, path: string, kind: Kind, mode: nat)
    requires Wf(fs.nodes) && PathOk(fs.cwd, path) && |Leaf(fs.cwd, path)| < NAME_MAX
    requires Make(fs, path, kind, mode).1.Some?
    ensures var (p, ns') := (EnsureParent(fs, path).0, Make(fs, path, kind, mode).0.nodes);
      && p.Some? && |ns'| >= |fs.nodes| && Wf(ns')
      && Walk(ns', 0, DirParts(fs.cwd, path)) == p && LinkOk(ns', p.value)
      && FindIn(ns', ns'[p.value].child, Leaf(fs.cwd, path)) == Make(fs, path, kind, mode).1
  {
    ParentFound(fs, path, kind, mode);
    var (fs', n) := Make(fs, path, kind, mode);
    var p, leaf := EnsureParent(fs, path).0.value, Leaf(fs.cwd, path);
    var P := PathOf(fs.nodes, p);
    ReachedLookup(fs.nodes, p);
    LeafIs(fs, path);
    if fs' != fs {
      LeafPlain(fs.cwd, path);
      LinkFind(fs.nodes, p, leaf, kind, mode, p, leaf);
      LinkRefines(fs.nodes, p, leaf, kind, mode, P);
      SnocLonger(P, leaf);
    }
  }

  // Whatever could be reached before an entry is made can be reached after it.
  lemma MakeKeepsLookup(fs: Fs, path: string, kind: Kind, mode: nat, q: seq<string>)
    requires Wf(fs.nodes) && PathOk(fs.cwd, path) && |Leaf(fs.cwd, path)| < NAME_MAX && Lookup(fs.nodes, q).Some?
    ensures Lookup(Make(fs, path, kind, mode).0.nodes, q) == Lookup(fs.nodes, q)
  {
    var e := SpaceOf(fs.nodes);
    ParentDenotes(fs, Space(e, |fs.nodes|, fs.cwd), path);
    LeafPlain(fs.cwd, path);
    if Make(fs, path, kind, mode).0 != fs {
      var p, leaf := EnsureParent(fs, path).0.value, Leaf(fs.cwd, path);
      ReachedLookup(fs.nodes, p);
      LookupSnoc(fs.nodes, PathOf(fs.nodes, p), leaf);
      LinkRefines(fs.nodes, p, leaf, kind, mode, q);
    }
  }

  lemma MakeKeepsPath(fs: Fs, made: string, kind: Kind, mode: nat, path: string)
    requires Wf(fs.nodes) && PathOk(fs.cwd, made) && |Leaf(fs.cwd, made)| < NAME_MAX
    requires PathOk(fs.cwd, path) && Resolve(fs, path).Some?
    ensures Make(fs, made, kind, mode).0.cwd == fs.cwd
    ensures Resolve(Make(fs, made, kind, mode).0, path) == Resolve(fs, path)
  {
    MakeWf(fs, made, kind, mode);
    var (ns, ns', parts) := (fs.nodes, Make(fs, made, kind, mode).0.nodes, Components(fs.cwd, path));
    var e := SpaceOf(ns);
    var e' := SpaceOf(ns');
    RootReached(ns);
    RootReached(ns');
    WalkDenotes(ns, e, 0, parts);
    forall q | q in e ensures q in e' { MakeKeepsLookup(fs, made, kind, mode, q); }
    TravelMono(e, e', [], parts);
    WalkDenotes(ns', e', 0, parts);
    var i := Walk(ns, 0, parts).value;
    ReachedLookup(ns, i);
    MakeKeepsLookup(fs, made, kind, mode, PathOf(ns, i));
    ReachedLookup(ns', Walk(ns', 0, parts).value);
  }

  lemma LeafIs(fs: Fs, path: string)
    requires |fs.nodes| > 0 && PathOk(fs.cwd, path)
    ensures EnsureParent(fs, path).1 == Leaf(fs.cwd, path)
  {
  }

  lemma SnocLonger<T>(q: seq<T>, x: T)
    ensures q != q + [x]
  {
    assert |q + [x]| == |q| + 1;
  }

  lemma PathSplit(cwd: string, path: string)
    requires PathOk(cwd, path) && Plain(Leaf(cwd, path))
    ensures Components(cwd, path) == DirParts(cwd, path) + [Leaf(cwd, path)]
  {
    NormalizeOk(cwd, path);
    SplitFull(Normalize(cwd, path));
  }

  lemma SplitFull(full: string)
    requires Absolute(full) && Plain(LeafOf(full))
    ensures Parts(full[1..]) == DirOf(full) + [LeafOf(full)]
  {
    PartsLeaf(full);
  }

  // After mkdir or create returns a node, resolving the same path returns that node exactly
  // when the last component is neither `.` nor `..`.
  lemma MakeThenResolve(fs: Fs, path: string, kind: Kind, mode: nat)
    requires Wf(fs.nodes) && PathOk(fs.cwd, path) && |Leaf(fs.cwd, path)| < NAME_MAX
    requires Make(fs, path, kind, mode).1.Some?
    ensures Make(fs, path, kind, mode).0.cwd == fs.cwd && |Make(fs, path, kind, mode).0.nodes| > 0
    ensures Resolve(Make(fs, path, kind, mode).0, path) == Make(fs, path, kind, mode).1 <==>
      Leaf(fs.cwd, path) != "." && Leaf(fs.cwd, path) != ".."
  {
    var (fs', n) := Make(fs, path, kind, mode);
    var leaf, dirs := Leaf(fs.cwd, path), DirParts(fs.cwd, path);
    ParentStays(fs, path, kind, mode);
    LeafPlain(fs.cwd, path);
    LeafNonEmpty(fs, path, kind, mode);
    PathSplit(fs.cwd, path);
    WalkConcat(fs'.nodes, 0, dirs, [leaf]);
    var p := EnsureParent(fs, path).0.value;
    WalkOne(fs'.nodes, p, leaf);
    MoveToKid(fs'.nodes, p, leaf, n.value);
  }

  // A kid is reached by its name unless that is a dot name.
  lemma MoveToKid(ns: Nodes, p: nat, leaf: string, n: nat)
    requires (forall i :: 0 <= i < |ns| ==> LinkOk(ns, i)) && p < |ns| && FindIn(ns, ns[p].child, leaf) == Some(n)
    ensures Move(ns, p, leaf) == Some(n) <==> leaf != "." && leaf != ".."
  {
    KidParent(ns, p, n);
    assert LinkOk(ns, p);
  }

  lemma LeafNonEmpty(fs: Fs, path: string, kind: Kind, mode: nat)
    requires |fs.nodes| > 0 && PathOk(fs.cwd, path) && Make(fs, path, kind, mode).1.Some?
    ensures Leaf(fs.cwd, path) != ""
  {
  }

  lemma WalkOne(ns: Nodes, i: nat, part: string)
    requires i < |ns|
    ensures Walk(ns, i, [part]) == Move(ns, i, part)
  {
    assert [part][1..] == [];
  }

  // No path, read in any working directory, leads to a node below an entry named `.` or `..`.
  lemma DotsUnreachable(ns: Nodes, cwd: string, path: string, i: nat)
    requires Wf(ns) && i < |ns| && PathOk(cwd, path) && !NoDots(PathOf(ns, i))
    ensures Resolve(Fs(ns, cwd), path) != Some(i)
  {
    var e := SpaceOf(ns);
    RootReached(ns);
    WalkDenotes(ns, e, 0, Components(cwd, path));
    if Resolve(Fs(ns, cwd), path).Some? { TravelNoDots(e, [], Components(cwd, path)); }
  }

  // A directory entry named `.` is made in the root, and no path ever leads to it.
  lemma MkdirDotUnreachable(cwd: string, path: string)
    requires PathOk(cwd, path)
    ensures var fs := Fs([Node("/", Dir, 0, 0, 0, None, None, None)], "/");
      && PathOk("/", "/.") && Make(fs, "/.", Dir, 0).1 == Some(1)
      && var ns := Make(fs, "/.", Dir, 0).0.nodes;
      && |ns| == 2 && ns[1].name == "." && ns[1].parent == Some(0) && ns[0].child == Some(1)
      && Resolve(Fs(ns, cwd), path) != Some(1)
  {
    var fs := Fs([Node("/", Dir, 0, 0, 0, None, None, None)], "/");
    assert LastSlashUpTo("/.", 1) == 0;
    assert "/."[1..] == ".";
    InitRep(0);
    MakeWf(fs, "/.", Dir, 0);
    var ns := Make(fs, "/.", Dir, 0).0.nodes;
    assert ns == Link(fs.nodes, 0, ".", Dir, 0);
    assert PathOf(ns, 0) == [] && PathOf(ns, 1) == PathOf(ns, 0) + ["."];
    assert PathOf(ns, 1)[0] == ".";
    DotsUnreachable(ns, cwd, path, 1);
  }

  // ----- the working directory -----

  const DEPTH: nat := 32   // rows of the parts table in vfs_chdir

  function LastOf<T>(q: seq<T>, k: nat): seq<T> {
    if |q| <= k then q else q[|q| - k..]
  }

  function LastParts(q: seq<string>): seq<string> {
    LastOf(q, DEPTH)
  }

  // The string vfs_chdir rebuilds for node n
  function Rebuilt(ns: Nodes, n: nat): string
    requires n < |ns|
  {
    Join(LastParts(PathOf(ns, n)))
  }

  function Chdir(fs: Fs, path: string): (Fs, bool)
    requires |fs.nodes| > 0 && PathOk(fs.cwd, path)
  {
    match Resolve(fs, path)
    case None => (fs, false)
    case Some(n) => if fs.nodes[n].kind != Dir then (fs, false) else (fs.(cwd := Rebuilt(fs.nodes, n)), true)
  }

  ghost predicate NoDots(q: seq<string>) {
    forall i :: 0 <= i < |q| ==> q[i] != "." && q[i] != ".."
  }

  lemma {:induction false} TravelNoDots(e: imap<seq<string>, Kind>, q: seq<string>, parts: seq<string>)
    requires NoDots(q) && Travel(e, q, parts).Some?
    ensures NoDots(Travel(e, q, parts).value)
    decreases |parts|
  {
    if parts == [] {
    } else {
      TravelNoDots(e, Step1(q, parts[0]), parts[1..]);
    }
  }

  // Travelling ordinary names appends them.
  lemma {:induction false} TravelPlain(e: imap<seq<string>, Kind>, q: seq<string>, parts: seq<string>)
    requires NoDots(parts)
    ensures Travel(e, q, parts).Some? ==> Travel(e, q, parts).value == q + parts
    decreases |parts|
  {
    if parts == [] {
      assert q + parts == q;
    } else {
      TravelPlain(e, q + [parts[0]], parts[1..]);
      assert (q + [parts[0]]) + parts[1..] == q + parts;
    }
  }

  // Walking a hanging node's own path leads to it.
  lemma {:induction false} WalkPath(ns: Nodes, q: seq<string>)
    requires Wf(ns) && Lookup(ns, q).Some? && NoDots(q)
    ensures Walk(ns, 0, q) == Lookup(ns, q)
    decreases |q|
  {
    if q == [] {
    } else {
      var p, x := q[..|q| - 1], q[|q| - 1];
      WalkPath(ns, p);
      Snoc(q);
      WalkConcat(ns, 0, p, [x]);
      WalkOne(ns, Lookup(ns, p).value, x);
    }
  }

  lemma {:induction false} ReachedPlain(ns: Nodes, i: nat)
    requires Wf(ns) && Reached(ns, i)
    ensures forall k :: 0 <= k < |PathOf(ns, i)| ==> Plain(PathOf(ns, i)[k])
    decreases i
  {
    assert LinkOk(ns, i);
    if i == 0 {
    } else {
      assert NamesOk(ns, ns[i].parent.value);
      ReachedPlain(ns, ns[i].parent.value);
    }
  }

  // chdir succeeds exactly for a path that leads to a directory, and else changes nothing.
  lemma ChdirSucceeds(fs: Fs, a: Space, path: string)
    requires Rep(fs, a) && PathOk(fs.cwd, path)
    ensures var ((fs', ok), q) := (Chdir(fs, path), Travel(a.entries, [], Components(a.cwd, path)));
      && (ok <==> q.Some? && q.value in a.entries && a.entries[q.value] == Dir)
      && (!ok ==> fs' == fs) && fs'.nodes == fs.nodes
  {
    RootReached(fs.nodes);
    WalkDenotes(fs.nodes, a.entries, 0, Components(fs.cwd, path));
    if Resolve(fs, path).Some? { ReachedLookup(fs.nodes, Resolve(fs, path).value); }
  }

  // After a successful chdir the working directory, resolved, is the directory chosen exactly
  // when it lies at most 32 levels deep; then the string is its canonical path.
  lemma ChdirExact(fs: Fs, path: string)
    requires Wf(fs.nodes) && PathOk(fs.cwd, path) && Chdir(fs, path).1
    requires ChdirFits(fs, path)
    ensures var (fs', n) := (Chdir(fs, path).0, Resolve(fs, path).value);
      && PathOk(fs'.cwd, fs'.cwd) && fs'.nodes == fs.nodes
      && (Resolve(fs', fs'.cwd) == Some(n) <==> |PathOf(fs.nodes, n)| <= 32)
      && (|PathOf(fs.nodes, n)| <= 32 ==> fs'.cwd == Join(PathOf(fs.nodes, n)))
  {
    var fs', n := Chdir(fs, path).0, Resolve(fs, path).value;
    var ns := fs.nodes;
    var e := SpaceOf(ns);
    RootReached(ns);
    WalkDenotes(ns, e, 0, Components(fs.cwd, path));
    TravelNoDots(e, [], Components(fs.cwd, path));
    var full := PathOf(ns, n);
    var q := LastParts(full);
    ReachedPlain(ns, n);
    PartsJoin(q);
    assert Components(fs'.cwd, fs'.cwd) == q;
    if |full| <= DEPTH {
      ReachedLookup(ns, n);
      WalkPath(ns, full);
    } else {
      WalkDenotes(ns, e, 0, q);
      TravelPlain(e, [], q);
      NilLeft(q);
    }
  }

  // The string is made of the names on the way to the directory, the last 32 if there are more.
  lemma ChdirString(fs: Fs, path: string)
    requires |fs.nodes| > 0 && PathOk(fs.cwd, path) && Chdir(fs, path).1
    ensures var q := PathOf(fs.nodes, Resolve(fs, path).value);
      Chdir(fs, path).0.cwd == Join(if |q| <= 32 then q else q[|q| - 32..])
  {
  }

  // From then on a relative path leads where walking it from that directory leads.
  lemma ChdirThenRelative(fs: Fs, path: string, rel: string)
    requires Wf(fs.nodes) && PathOk(fs.cwd, path) && Chdir(fs, path).1 && !Absolute(rel)
    requires ChdirFits(fs, path) && |Chdir(fs, path).0.cwd| + 1 + |rel| < PATH_MAX
    requires |PathOf(fs.nodes, Resolve(fs, path).value)| <= 32
    ensures Resolve(Chdir(fs, path).0, rel) == Walk(fs.nodes, Resolve(fs, path).value, Parts(rel))
  {
    ChdirExact(fs, path);
    ResolveRelative(Chdir(fs, path).0, rel);
  }

  // ----- every run -----

  datatype Op = MkdirOp(path: string, mode: nat) | CreateOp(path: string, mode: nat)
              | UnlinkOp(path: string) | ChdirOp(path: string)

  // The path fits the buffers of the code.
  ghost predicate Legal(fs: Fs, op: Op)
    requires |fs.nodes| > 0
  {
    && PathOk(fs.cwd, op.path)
    && (op.MkdirOp? || op.CreateOp? ==> |Leaf(fs.cwd, op.path)| < NAME_MAX)
    && (op.ChdirOp? ==> ChdirFits(fs, op.path))
  }

  // The names copied are shorter than their rows and the string is shorter than the buffer.
  ghost predicate ChdirFits(fs: Fs, path: string)
    requires |fs.nodes| > 0 && PathOk(fs.cwd, path)
  {
    Chdir(fs, path).1 ==>
      && |Chdir(fs, path).0.cwd| < PATH_MAX
      && forall i :: 0 <= i < |LastParts(PathOf(fs.nodes, Resolve(fs, path).value))| ==>
           |LastParts(PathOf(fs.nodes, Resolve(fs, path).value))[i]| < NAME_MAX - 1
  }

  ghost function Step(fs: Fs, op: Op): (r: Fs)
    requires |fs.nodes| > 0 && Legal(fs, op)
    ensures |r.nodes| >= |fs.nodes|
  {
    match op
    case MkdirOp(path, mode) => Make(fs, path, Dir, mode).0
    case CreateOp(path, mode) => Make(fs, path, File, mode).0
    case UnlinkOp(path) => Remove(fs, path).0
    case ChdirOp(path) => Chdir(fs, path).0
  }

  ghost function AChdir(a: Space, path: string): Space
    requires PathOk(a.cwd, path)
  {
    match Travel(a.entries, [], Components(a.cwd, path))
    case None => a
    case Some(q) => if q in a.entries && a.entries[q] == Dir then a.(cwd := Join(LastParts(q))) else a
  }

  // A path that is too long does nothing here; no run uses one.
  ghost function AStep(a: Space, op: Op): Space {
    if !PathOk(a.cwd, op.path) then a
    else match op
    case MkdirOp(path, mode) => AMake(a, path, Dir)
    case CreateOp(path, mode) => AMake(a, path, File)
    case UnlinkOp(path) => ARemove(a, path)
    case ChdirOp(path) => AChdir(a, path)
  }

  lemma StepRefines(fs: Fs, a: Space, op: Op)
    requires Rep(fs, a) && Legal(fs, op)
    ensures Rep(Step(fs, op), AStep(a, op))
  {
    match op
    case MkdirOp(path, mode) => MakeRefines(fs, a, path, Dir, mode);
    case CreateOp(path, mode) => MakeRefines(fs, a, path, File, mode);
    case UnlinkOp(path) => RemoveRefines(fs, a, path);
    case ChdirOp(path) =>
      RootReached(fs.nodes);
      WalkDenotes(fs.nodes, a.entries, 0, Components(fs.cwd, path));
      var n := Resolve(fs, path);
      if n.Some? { ReachedLookup(fs.nodes, n.value); }
  }

  ghost predicate Run(fs: Fs, a: Space, ops: seq<Op>, fs': Fs, a': Space)
    requires |fs.nodes| > 0
    decreases |ops|
  {
    if ops == [] then fs' == fs && a' == a
    else
      && Legal(fs, ops[0])
      && Run(Step(fs, ops[0]), AStep(a, ops[0]), ops[1..], fs', a')
  }

  // In every run the node array denotes exactly the map the abstract operations build, and
  // its chains stay finite and their names distinct.
  lemma {:induction false} RunRefines(fs: Fs, a: Space, ops: seq<Op>, fs': Fs, a': Space)
    requires Rep(fs, a) && Run(fs, a, ops, fs', a')
    ensures Rep(fs', a')
    decreases |ops|
  {
    if ops == [] {
    } else {
      StepRefines(fs, a, ops[0]);
      RunRefines(Step(fs, ops[0]), AStep(a, ops[0]), ops[1..], fs', a');
    }
  }

  // vfs_init before its seed directories: the root alone
  lemma InitRep(mode: nat)
    ensures Rep(Fs([Node("/", Dir, mode, 0, 0, None, None, None)], "/"), Space(imap[[] := Dir], 1, "/"))
  {
    var ns := [Node("/", Dir, mode, 0, 0, None, None, None)];
    forall q ensures Lookup(ns, q).Some? <==> q == [] {
      if q != [] { RootOnly(ns, q); }
    }
  }

  lemma {:induction false} RootOnly(ns: Nodes, q: seq<string>)
    requires |ns| == 1 && ns[0].child == None && q != []
    ensures Lookup(ns, q) == None
    decreases |q|
  {
    if |q| <= 1 {
    } else {
      RootOnly(ns, q[..|q| - 1]);
    }
  }

  // One turn of the component loop
  lemma WalkStep(ns: Nodes, cur: nat, part: string, rest: seq<string>)
    requires cur < |ns|
    ensures Walk(ns, cur, [part] + rest) ==
      match Move(ns, cur, part) case None => None case Some(d) => Walk(ns, d, rest)
  {
    WalkConcat(ns, cur, [part], rest);
    WalkOne(ns, cur, part);
  }

  lemma MakeWf(fs: Fs, path: string, kind: Kind, mode: nat)
    requires Wf(fs.nodes) && PathOk(fs.cwd, path) && |Leaf(fs.cwd, path)| < NAME_MAX
    ensures Wf(Make(fs, path, kind, mode).0.nodes) && Make(fs, path, kind, mode).0.cwd == fs.cwd
  {
    var e := SpaceOf(fs.nodes);
    MakeRefines(fs, Space(e, |fs.nodes|, fs.cwd), path, kind, mode);
  }

  lemma RemoveWf(fs: Fs, path: string)
    requires Wf(fs.nodes) && PathOk(fs.cwd, path)
    ensures Wf(Remove(fs, path).0.nodes) && Remove(fs, path).0.cwd == fs.cwd
  {
    var e := SpaceOf(fs.nodes);
    RemoveRefines(fs, Space(e, |fs.nodes|, fs.cwd), path);
  }

  lemma ResolveReached(fs: Fs, path: string)
    requires Wf(fs.nodes) && PathOk(fs.cwd, path) && Resolve(fs, path).Some?
    ensures Reached(fs.nodes, Resolve(fs, path).value)
  {
    var e := SpaceOf(fs.nodes);
    RootReached(fs.nodes);
    WalkDenotes(fs.nodes, e, 0, Components(fs.cwd, path));
  }
}
