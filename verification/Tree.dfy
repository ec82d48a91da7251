/** The node array of the virtual file system as a value: first-child/next-sibling chains,
    and the map from component paths to nodes that they denote. */
module Tree {
  import opened Bytes
  import opened Paths

  const MAX_NODES: nat := 256   // VFS_MAX_NODES

  datatype Kind = File | Dir

  // data is the heap address of the contents, 0 for none.
  datatype Node = Node(name: string, kind: Kind, mode: nat, size: nat, data: nat,
                       parent: Option<nat>, child: Option<nat>, sibling: Option<nat>)

  type Nodes = seq<Node>

  // ----- chains -----

  // The nodes from start on, along the sibling links
  function Chain(ns: Nodes, start: Option<nat>): (k: seq<nat>)
    ensures forall c :: c in k ==> start.Some? && c <= start.value < |ns|
    ensures start.Some? && start.value < |ns| ==> k != [] && k[0] == start.value
    decreases if start.Some? then start.value + 1 else 0
  {
    if start.None? || start.value >= |ns| then []
    else
      var s := ns[start.value].sibling;
      [start.value] + if s.Some? && s.value < start.value then Chain(ns, s) else []
  }

  function Kids(ns: Nodes, d: nat): seq<nat>
    requires d < |ns|
  {
    Chain(ns, ns[d].child)
  }

  // find_child: the first node of the chain with the name
  function FindIn(ns: Nodes, start: Option<nat>, name: string): (r: Option<nat>)
    ensures r.Some? ==> r.value in Chain(ns, start) && r.value < |ns| && ns[r.value].name == name
    ensures r.None? ==> forall c :: c in Chain(ns, start) ==> ns[c].name != name
    decreases if start.Some? then start.value + 1 else 0
  {
    if start.None? || start.value >= |ns| then None
    else if ns[start.value].name == name then start
    else
      var s := ns[start.value].sibling;
      if s.Some? && s.value < start.value then FindIn(ns, s, name) else None
  }

  // ----- the invariant -----

  // Parents come before their children and siblings of a chain before each other, so every
  // chain is finite; a child hangs below a directory and its siblings share its parent.
  ghost predicate LinkOk(ns: Nodes, i: nat)
    requires i < |ns|
  {
    var n := ns[i];
    && (n.parent.None? <==> i == 0)
    && (n.parent.Some? ==> n.parent.value < i)
    && (n.child.Some? ==> i < n.child.value < |ns| && ns[n.child.value].parent == Some(i) && n.kind == Dir)
    && (n.sibling.Some? ==> n.sibling.value < i && ns[n.sibling.value].parent == n.parent && i > 0)
  }

  // Names in one directory are usable components and all different.
  ghost predicate NamesOk(ns: Nodes, d: nat)
    requires d < |ns|
  {
    && (forall c :: c in Kids(ns, d) ==> Plain(ns[c].name))
    && (forall b, c :: b in Kids(ns, d) && c in Kids(ns, d) && b != c ==> ns[b].name != ns[c].name)
  }

  ghost predicate Wf(ns: Nodes) {
    && 0 < |ns| <= MAX_NODES && ns[0].kind == Dir
    && (forall i :: 0 <= i < |ns| ==> LinkOk(ns, i))
    && (forall d :: 0 <= d < |ns| ==> NamesOk(ns, d))
  }

  lemma {:induction false} ChainParents(ns: Nodes, start: Option<nat>, c: nat)
    requires (forall i :: 0 <= i < |ns| ==> LinkOk(ns, i)) && c in Chain(ns, start)
    ensures ns[c].parent == ns[start.value].parent
    decreases if start.Some? then start.value + 1 else 0
  {
    if c == start.value {
    } else {
      assert LinkOk(ns, start.value);
      ChainParents(ns, ns[start.value].sibling, c);
    }
  }

  lemma KidParent(ns: Nodes, d: nat, c: nat)
    requires (forall i :: 0 <= i < |ns| ==> LinkOk(ns, i)) && d < |ns| && c in Kids(ns, d)
    ensures c < |ns| && ns[c].parent == Some(d) && d < c
  {
    ChainParents(ns, ns[d].child, c);
    assert LinkOk(ns, d) && LinkOk(ns, c);
  }

  // A kid is found by its name.
  lemma FindKid(ns: Nodes, d: nat, c: nat)
    requires d < |ns| && NamesOk(ns, d) && c in Kids(ns, d)
    ensures FindIn(ns, ns[d].child, ns[c].name) == Some(c)
  {
  }

  // ----- the map from paths to nodes -----

  // The node at a component path; by definition a prefix of a path that leads somewhere does too.
  function Lookup(ns: Nodes, q: seq<string>): (r: Option<nat>)
    ensures r.Some? ==> r.value < |ns|
  {
    if |ns| == 0 then None
    else if q == [] then Some(0)
    else match Lookup(ns, q[..|q| - 1])
      case None => None
      case Some(d) => FindIn(ns, ns[d].child, q[|q| - 1])
  }

  // The names from the root down to node i, along the parent links
  function PathOf(ns: Nodes, i: nat): seq<string>
    requires i < |ns|
  {
    if ns[i].parent.Some? && ns[i].parent.value < i then PathOf(ns, ns[i].parent.value) + [ns[i].name] else []
  }

  // Node i hangs in the tree (an unlinked node keeps its slot but is not reached).
  ghost predicate Reached(ns: Nodes, i: nat) {
    && i < |ns|
    && (i == 0 || (ns[i].parent.Some? && ns[i].parent.value < i && i in Kids(ns, ns[i].parent.value)
                   && Reached(ns, ns[i].parent.value)))
  }

  lemma {:induction false} LookupReached(ns: Nodes, q: seq<string>)
    requires Wf(ns) && Lookup(ns, q).Some?
    ensures Reached(ns, Lookup(ns, q).value) && PathOf(ns, Lookup(ns, q).value) == q
    decreases |q|
  {
    assert LinkOk(ns, 0);
    if q == [] {
    } else {
      var p := q[..|q| - 1];
      LookupReached(ns, p);
      KidParent(ns, Lookup(ns, p).value, Lookup(ns, q).value);
      Snoc(q);
    }
  }

  lemma {:induction false} ReachedLookup(ns: Nodes, i: nat)
    requires Wf(ns) && Reached(ns, i)
    ensures Lookup(ns, PathOf(ns, i)) == Some(i)
    decreases i
  {
    assert LinkOk(ns, i);
    if i == 0 {
    } else {
      var p := ns[i].parent.value;
      ReachedLookup(ns, p);
      LookupSnoc(ns, PathOf(ns, p), ns[i].name);
      assert NamesOk(ns, p);
      FindKid(ns, p, i);
    }
  }

  lemma LookupSnoc(ns: Nodes, q: seq<string>, x: string)
    requires |ns| > 0
    ensures Lookup(ns, q + [x]) ==
      match Lookup(ns, q) case None => None case Some(d) => FindIn(ns, ns[d].child, x)
  {
    SnocInv(q, x);
  }

  lemma SnocInv<T>(q: seq<T>, x: T)
    ensures (q + [x])[..|q + [x]| - 1] == q && (q + [x])[|q + [x]| - 1] == x
  {
  }

  // Paths and hanging nodes correspond one to one.
  lemma LookupIff(ns: Nodes, q: seq<string>, i: nat)
    requires Wf(ns)
    ensures Lookup(ns, q) == Some(i) <==> Reached(ns, i) && PathOf(ns, i) == q
  {
    if Lookup(ns, q) == Some(i) { LookupReached(ns, q); }
    if Reached(ns, i) { ReachedLookup(ns, i); }
  }

  // ----- hanging a new node -----

  // alloc_node and link_child
  function Link(ns: Nodes, p: nat, name: string, kind: Kind, mode: nat): Nodes
    requires p < |ns|
  {
    ns[p := ns[p].(child := Some(|ns|))] + [Node(name, kind, mode, 0, 0, Some(p), None, ns[p].child)]
  }

  // Chains only follow sibling links, so equal links below start give equal chains.
  lemma {:induction false} ChainFrame(ns: Nodes, ns': Nodes, start: Option<nat>)
    requires start.Some? ==> start.value < |ns| && start.value < |ns'|
    requires start.Some? ==> forall i :: 0 <= i <= start.value ==> ns'[i].sibling == ns[i].sibling
    ensures Chain(ns', start) == Chain(ns, start)
    decreases if start.Some? then start.value + 1 else 0
  {
    if start.None? {
    } else {
      var s := ns[start.value].sibling;
      if s.Some? && s.value < start.value { ChainFrame(ns, ns', s); }
    }
  }

  lemma LinkKids(ns: Nodes, p: nat, name: string, kind: Kind, mode: nat, d: nat)
    requires Wf(ns) && p < |ns| && ns[p].kind == Dir && d <= |ns|
    ensures var ns' := Link(ns, p, name, kind, mode);
      Kids(ns', d) == if d == |ns| then [] else if d == p then [|ns|] + Kids(ns, p) else Kids(ns, d)
  {
    var ns' := Link(ns, p, name, kind, mode);
    if d < |ns| {
      assert LinkOk(ns, d) && LinkOk(ns, p);
      ChainFrame(ns, ns', ns[d].child);
    }
  }

  lemma LinkLinks(ns: Nodes, p: nat, name: string, kind: Kind, mode: nat)
    requires Wf(ns) && p < |ns| && ns[p].kind == Dir
    ensures var ns' := Link(ns, p, name, kind, mode); forall i :: 0 <= i < |ns'| ==> LinkOk(ns', i)
  {
    var ns' := Link(ns, p, name, kind, mode);
    forall i | 0 <= i < |ns'| ensures LinkOk(ns', i) {
      if i < |ns| { assert LinkOk(ns, i); }
      assert LinkOk(ns, p);
    }
  }

  lemma LinkNames(ns: Nodes, p: nat, name: string, kind: Kind, mode: nat, d: nat)
    requires Wf(ns) && p < |ns| && ns[p].kind == Dir && d <= |ns|
    requires Plain(name) && FindIn(ns, ns[p].child, name).None?
    ensures NamesOk(Link(ns, p, name, kind, mode), d)
  {
    LinkKids(ns, p, name, kind, mode, d);
    if d < |ns| { assert NamesOk(ns, d); }
  }

  lemma LinkWf(ns: Nodes, p: nat, name: string, kind: Kind, mode: nat)
    requires Wf(ns) && p < |ns| < MAX_NODES && ns[p].kind == Dir
    requires Plain(name) && FindIn(ns, ns[p].child, name).None?
    ensures Wf(Link(ns, p, name, kind, mode))
  {
    LinkLinks(ns, p, name, kind, mode);
    forall d | 0 <= d <= |ns| { LinkNames(ns, p, name, kind, mode, d); }
  }

  lemma LinkFind(ns: Nodes, p: nat, name: string, kind: Kind, mode: nat, d: nat, x: string)
    requires Wf(ns) && p < |ns| < MAX_NODES && ns[p].kind == Dir && d <= |ns|
    requires Plain(name) && FindIn(ns, ns[p].child, name).None?
    ensures var ns' := Link(ns, p, name, kind, mode);
      FindIn(ns', ns'[d].child, x) ==
        if d == |ns| then None else if d == p && x == name then Some(|ns|) else FindIn(ns, ns[d].child, x)
  {
    var ns' := Link(ns, p, name, kind, mode);
    LinkWf(ns, p, name, kind, mode);
    LinkKids(ns, p, name, kind, mode, d);
    assert NamesOk(ns', d);
    if d == p && x == name {
      FindKid(ns', d, |ns|);
    } else if d < |ns| && FindIn(ns, ns[d].child, x).Some? {
      FindKid(ns', d, FindIn(ns, ns[d].child, x).value);
    }
  }

  // Hanging a node adds exactly one path, that of its parent followed by its name.
  lemma {:induction false} LinkRefines(ns: Nodes, p: nat, name: string, kind: Kind, mode: nat, q: seq<string>)
    requires Wf(ns) && Reached(ns, p) && |ns| < MAX_NODES && ns[p].kind == Dir
    requires Plain(name) && FindIn(ns, ns[p].child, name).None?
    ensures Lookup(Link(ns, p, name, kind, mode), q) ==
      if q == PathOf(ns, p) + [name] then Some(|ns|) else Lookup(ns, q)
    decreases |q|
  {
    var ns', P := Link(ns, p, name, kind, mode), PathOf(ns, p);
    if q != [] {
      var q0, x := q[..|q| - 1], q[|q| - 1];
      LinkRefines(ns, p, name, kind, mode, q0);
      Snoc(q);
      SnocInv(P, name);
      ReachedLookup(ns, p);
      LookupSnoc(ns, P, name);
      var d := Lookup(ns, q0);
      if q0 == P + [name] {
        LinkFind(ns, p, name, kind, mode, |ns|, x);
      } else if d.Some? {
        LinkFind(ns, p, name, kind, mode, d.value, x);
        LookupIff(ns, q0, p);
      }
    }
  }

  // ----- unlinking a node -----

  // The node of the chain whose sibling is n, if any
  function Before(ns: Nodes, start: Option<nat>, n: nat): (r: Option<nat>)
    ensures r.Some? ==> r.value in Chain(ns, start) && ns[r.value].sibling == Some(n)
    decreases if start.Some? then start.value + 1 else 0
  {
    if start.None? || start.value >= |ns| then None
    else if ns[start.value].sibling == Some(n) then start
    else
      var s := ns[start.value].sibling;
      if s.Some? && s.value < start.value then Before(ns, s, n) else None
  }

  // The chain of p without n
  function Unchain(ns: Nodes, p: nat, n: nat): Nodes
    requires p < |ns| && n < |ns|
  {
    if ns[p].child == Some(n) then ns[p := ns[p].(child := ns[n].sibling)]
    else match Before(ns, ns[p].child, n)
      case None => ns
      case Some(c) => ns[c := ns[c].(sibling := ns[n].sibling)]
  }

  // What vfs_unlink does to node n once it is resolved
  function Unlink(ns: Nodes, n: nat): Nodes
    requires n < |ns|
  {
    if ns[n].parent.None? || ns[n].parent.value >= |ns| then ns
    else
      var m := Unchain(ns, ns[n].parent.value, n);
      m[n := m[n].(name := "", size := 0, data := 0)]
  }

  function Without(k: seq<nat>, n: nat): (r: seq<nat>)
    ensures forall c :: c in r <==> c in k && c != n
  {
    if k == [] then [] else (if k[0] == n then [] else [k[0]]) + Without(k[1..], n)
  }

  lemma {:induction false} WithoutAbsent(k: seq<nat>, n: nat)
    requires n !in k
    ensures Without(k, n) == k
  {
    if k == [] {
    } else {
      WithoutAbsent(k[1..], n);
    }
  }

  // Below the first link that changes, a chain is as before.
  lemma {:induction false} ChainSkip(ns: Nodes, ns': Nodes, start: nat, n: nat)
    requires start < |ns| == |ns'| && n in Chain(ns, Some(start)) && n != start
    requires forall i :: 0 <= i < |ns| ==> LinkOk(ns, i)
    requires Before(ns, Some(start), n).Some?
    requires var c := Before(ns, Some(start), n).value;
      forall i :: 0 <= i < |ns| ==> ns'[i].sibling == if i == c then ns[n].sibling else ns[i].sibling
    ensures Chain(ns', Some(start)) == Without(Chain(ns, Some(start)), n)
    decreases start
  {
    assert LinkOk(ns, start) && LinkOk(ns, n);
    var s := ns[start].sibling;
    var rest := Chain(ns, s);
    ConsWithout(start, rest, n);
    assert Chain(ns, Some(start)) == [start] + rest;
    if s == Some(n) {
      ChainFrame(ns, ns', ns[n].sibling);
      WithoutAbsent(Chain(ns, ns[n].sibling), n);
      ConsSame(n, Chain(ns, ns[n].sibling));
    } else {
      ChainSkip(ns, ns', s.value, n);
    }
  }

  lemma ConsWithout(x: nat, k: seq<nat>, n: nat)
    requires x != n
    ensures Without([x] + k, n) == [x] + Without(k, n)
  {
    assert ([x] + k)[1..] == k;
  }

  lemma ConsSame(n: nat, k: seq<nat>)
    ensures Without([n] + k, n) == Without(k, n)
  {
    assert ([n] + k)[1..] == k;
    NilLeft(Without(k, n));
  }

  lemma {:induction false} BeforeExists(ns: Nodes, start: nat, n: nat)
    requires start < |ns| && n in Chain(ns, Some(start)) && n != start
    ensures Before(ns, Some(start), n).Some?
    decreases start
  {
    if ns[start].sibling == Some(n) {
    } else {
      BeforeExists(ns, ns[start].sibling.value, n);
    }
  }

  // How two arrays may differ when n was taken out of p's chain
  ghost predicate Unchained(ns: Nodes, m: Nodes, p: nat) {
    && |m| == |ns|
    && (forall i :: 0 <= i < |ns| ==> m[i].parent == ns[i].parent && m[i].kind == ns[i].kind)
    && (forall i :: 0 <= i < |ns| && ns[i].parent != Some(p) ==> m[i].sibling == ns[i].sibling)
    && (forall i :: 0 <= i < |ns| && i != p ==> m[i].child == ns[i].child)
  }

  lemma UnchainShape(ns: Nodes, p: nat, n: nat)
    requires (forall i :: 0 <= i < |ns| ==> LinkOk(ns, i)) && p < |ns| && n < |ns|
    ensures Unchained(ns, Unchain(ns, p, n), p)
    ensures forall i :: 0 <= i < |ns| ==> Unchain(ns, p, n)[i].name == ns[i].name
  {
    match Before(ns, ns[p].child, n)
    case None =>
    case Some(c) => KidParent(ns, p, c);
  }

  lemma UnlinkShape(ns: Nodes, n: nat)
    requires Wf(ns) && 0 < n < |ns|
    ensures ns[n].parent.Some? && ns[n].parent.value < n
    ensures var m := Unchain(ns, ns[n].parent.value, n);
      Unlink(ns, n) == m[n := m[n].(name := "", size := 0, data := 0)]
    ensures Unchained(ns, Unlink(ns, n), ns[n].parent.value)
    ensures forall i :: 0 <= i < |ns| && i != n ==> Unlink(ns, n)[i].name == ns[i].name
  {
    assert LinkOk(ns, n);
    UnchainShape(ns, ns[n].parent.value, n);
  }

  lemma UnlinkKidsSame(ns: Nodes, n: nat, d: nat)
    requires Wf(ns) && 0 < n < |ns| && d < |ns| && Some(d) != ns[n].parent
    ensures |Unlink(ns, n)| == |ns| && Kids(Unlink(ns, n), d) == Kids(ns, d)
  {
    UnlinkShape(ns, n);
    assert LinkOk(ns, d);
    OtherChain(ns, Unlink(ns, n), ns[d].child, ns[n].parent.value, d);
  }

  lemma {:induction false} OtherChain(ns: Nodes, ns': Nodes, start: Option<nat>, p: nat, d: nat)
    requires (forall i :: 0 <= i < |ns| ==> LinkOk(ns, i)) && |ns'| == |ns| && d != p
    requires start.Some? ==> start.value < |ns| && ns[start.value].parent == Some(d)
    requires forall i :: 0 <= i < |ns| && ns[i].parent != Some(p) ==> ns'[i].sibling == ns[i].sibling
    ensures Chain(ns', start) == Chain(ns, start)
    decreases if start.Some? then start.value + 1 else 0
  {
    if start.None? {
    } else {
      assert LinkOk(ns, start.value);
      OtherChain(ns, ns', ns[start.value].sibling, p, d);
    }
  }

  // n is the first kid: the chain starts one later.
  lemma UnlinkKidsFirst(ns: Nodes, ns': Nodes, p: nat, n: nat)
    requires p < |ns| && n < |ns| == |ns'| && ns[p].child == Some(n) && LinkOk(ns, n)
    requires ns'[p].child == ns[n].sibling && forall i :: 0 <= i < |ns| ==> ns'[i].sibling == ns[i].sibling
    ensures Kids(ns', p) == Without(Kids(ns, p), n)
  {
    var rest := Chain(ns, ns[n].sibling);
    ChainFrame(ns, ns', ns[n].sibling);
    WithoutAbsent(rest, n);
    assert Kids(ns, p) == [n] + rest;
    assert ([n] + rest)[1..] == rest;
  }

  // n comes later: the kid before it skips it.
  lemma UnlinkKidsLater(ns: Nodes, ns': Nodes, p: nat, n: nat)
    requires p < |ns| && n < |ns| == |ns'| && ns[p].child.Some? && ns[p].child.value != n && n in Kids(ns, p)
    requires forall i :: 0 <= i < |ns| ==> LinkOk(ns, i)
    requires ns'[p].child == ns[p].child
    requires var c := Before(ns, ns[p].child, n);
      c.Some? ==> forall i :: 0 <= i < |ns| ==> ns'[i].sibling == if i == c.value then ns[n].sibling else ns[i].sibling
    ensures Kids(ns', p) == Without(Kids(ns, p), n)
  {
    BeforeExists(ns, ns[p].child.value, n);
    ChainSkip(ns, ns', ns[p].child.value, n);
  }

  // What leaves p's chain when n is taken out: the head moves on, or one sibling link skips n.
  ghost predicate SkipsN(ns: Nodes, ns': Nodes, p: nat, n: nat) {
    && p < |ns| == |ns'| && n < |ns|
    && (if ns[p].child == Some(n) then
          ns'[p].child == ns[n].sibling && forall i :: 0 <= i < |ns| ==> ns'[i].sibling == ns[i].sibling
        else
          && ns'[p].child == ns[p].child
          && (Before(ns, ns[p].child, n).Some? ==> SkipsAt(ns, ns', Before(ns, ns[p].child, n).value, n)))
  }

  ghost predicate SkipsAt(ns: Nodes, ns': Nodes, c: nat, n: nat)
    requires |ns'| == |ns| && n < |ns|
  {
    forall i :: 0 <= i < |ns| ==> ns'[i].sibling == if i == c then ns[n].sibling else ns[i].sibling
  }

  lemma UnchainSkips(ns: Nodes, p: nat, n: nat)
    requires p < |ns| && n < |ns|
    ensures SkipsN(ns, Unchain(ns, p, n), p, n)
  {
  }

  lemma UnlinkSkips(ns: Nodes, n: nat)
    requires Wf(ns) && 0 < n < |ns|
    ensures ns[n].parent.Some? && SkipsN(ns, Unlink(ns, n), ns[n].parent.value, n)
  {
    UnlinkShape(ns, n);
    UnchainSkips(ns, ns[n].parent.value, n);
  }

  lemma UnlinkKidsOwn(ns: Nodes, n: nat)
    requires Wf(ns) && Reached(ns, n) && n > 0
    ensures |Unlink(ns, n)| == |ns|
    ensures Kids(Unlink(ns, n), ns[n].parent.value) == Without(Kids(ns, ns[n].parent.value), n)
  {
    UnlinkSkips(ns, n);
    SkippedKids(ns, Unlink(ns, n), ns[n].parent.value, n);
  }

  lemma SkippedKids(ns: Nodes, ns': Nodes, p: nat, n: nat)
    requires SkipsN(ns, ns', p, n) && n in Kids(ns, p)
    requires forall i :: 0 <= i < |ns| ==> LinkOk(ns, i)
    ensures Kids(ns', p) == Without(Kids(ns, p), n)
  {
    if ns[p].child == Some(n) { UnlinkKidsFirst(ns, ns', p, n); } else { UnlinkKidsLater(ns, ns', p, n); }
  }

  // Unlinking takes the node out of its directory and touches no other.
  lemma UnlinkKids(ns: Nodes, n: nat, d: nat)
    requires Wf(ns) && Reached(ns, n) && n > 0 && d < |ns|
    ensures |Unlink(ns, n)| == |ns|
    ensures Kids(Unlink(ns, n), d) == if Some(d) == ns[n].parent then Without(Kids(ns, d), n) else Kids(ns, d)
  {
    if Some(d) == ns[n].parent { UnlinkKidsOwn(ns, n); } else { UnlinkKidsSame(ns, n, d); }
  }

  lemma RelinkOk(ns: Nodes, c: nat, next: Option<nat>, i: nat)
    requires (forall j :: 0 <= j < |ns| ==> LinkOk(ns, j)) && 0 < c < |ns| && i < |ns|
    requires next.Some? ==> next.value < c && ns[next.value].parent == ns[c].parent
    ensures LinkOk(ns[c := ns[c].(sibling := next)], i)
  {
    assert LinkOk(ns, i) && LinkOk(ns, c);
  }

  lemma RechildOk(ns: Nodes, p: nat, first: Option<nat>, i: nat)
    requires (forall j :: 0 <= j < |ns| ==> LinkOk(ns, j)) && p < |ns| && i < |ns| && ns[p].kind == Dir
    requires first.Some? ==> p < first.value < |ns| && ns[first.value].parent == Some(p)
    ensures LinkOk(ns[p := ns[p].(child := first)], i)
  {
    assert LinkOk(ns, i) && LinkOk(ns, p);
  }

  // The node after n in its chain
  lemma NextOf(ns: Nodes, n: nat, p: nat)
    requires (forall j :: 0 <= j < |ns| ==> LinkOk(ns, j)) && 0 < n < |ns| && ns[n].parent == Some(p)
    ensures ns[n].sibling.Some? ==> p < ns[n].sibling.value < n && ns[ns[n].sibling.value].parent == Some(p)
  {
    assert LinkOk(ns, n);
    if ns[n].sibling.Some? { assert LinkOk(ns, ns[n].sibling.value); }
  }

  lemma UnchainLinks(ns: Nodes, p: nat, n: nat, i: nat)
    requires (forall j :: 0 <= j < |ns| ==> LinkOk(ns, j)) && 0 < n < |ns| && i < |ns|
    requires ns[n].parent == Some(p) && p < n && ns[p].kind == Dir
    ensures |Unchain(ns, p, n)| == |ns| && LinkOk(Unchain(ns, p, n), i)
  {
    NextOf(ns, n, p);
    if ns[p].child == Some(n) {
      RechildOk(ns, p, ns[n].sibling, i);
    } else {
      match Before(ns, ns[p].child, n)
      case None => assert LinkOk(ns, i);
      case Some(c) =>
        KidParent(ns, p, c);
        NextOf(ns, c, p);
        RelinkOk(ns, c, ns[n].sibling, i);
    }
  }

  lemma UnlinkLinks(ns: Nodes, n: nat, i: nat)
    requires Wf(ns) && Reached(ns, n) && n > 0 && i < |ns|
    ensures |Unlink(ns, n)| == |ns| && LinkOk(Unlink(ns, n), i)
  {
    var p := ns[n].parent.value;
    UnlinkShape(ns, n);
    assert LinkOk(ns, p);
    KidParent(ns, p, n);
    UnchainLinks(ns, p, n, i);
  }

  lemma UnlinkNames(ns: Nodes, n: nat, d: nat)
    requires Wf(ns) && Reached(ns, n) && n > 0 && d < |ns|
    ensures |Unlink(ns, n)| == |ns| && NamesOk(Unlink(ns, n), d)
  {
    UnlinkShape(ns, n);
    UnlinkKids(ns, n, d);
    assert NamesOk(ns, d);
    NotAKidUnless(ns, n, d);
    FewerNames(ns, Unlink(ns, n), n, d);
  }

  // Fewer kids with the names they had are as good.
  lemma FewerNames(ns: Nodes, ns': Nodes, n: nat, d: nat)
    requires |ns'| == |ns| && d < |ns| && NamesOk(ns, d)
    requires forall c :: c in Kids(ns', d) ==> c in Kids(ns, d) && c != n
    requires forall i :: 0 <= i < |ns| && i != n ==> ns'[i].name == ns[i].name
    ensures NamesOk(ns', d)
  {
  }

  lemma UnlinkWf(ns: Nodes, n: nat)
    requires Wf(ns) && Reached(ns, n) && n > 0
    ensures Wf(Unlink(ns, n)) && |Unlink(ns, n)| == |ns|
  {
    UnlinkShape(ns, n);
    forall i | 0 <= i < |ns| { UnlinkLinks(ns, n, i); }
    forall d | 0 <= d < |ns| { UnlinkNames(ns, n, d); }
  }

  lemma UnlinkFind(ns: Nodes, n: nat, d: nat, x: string)
    requires Wf(ns) && Reached(ns, n) && n > 0 && d < |ns|
    ensures var ns' := Unlink(ns, n);
      |ns'| == |ns| && FindIn(ns', ns'[d].child, x) ==
        if Some(d) == ns[n].parent && x == ns[n].name then None else FindIn(ns, ns[d].child, x)
  {
    var ns' := Unlink(ns, n);
    UnlinkWf(ns, n);
    UnlinkShape(ns, n);
    UnlinkKids(ns, n, d);
    NotAKidUnless(ns, n, d);
    assert NamesOk(ns, d) && NamesOk(ns', d);
    var c := FindIn(ns, ns[d].child, x);
    if c.Some? && c.value != n { FindKid(ns', d, c.value); }
  }

  lemma NotAKidUnless(ns: Nodes, n: nat, d: nat)
    requires Wf(ns) && n < |ns| && d < |ns|
    ensures n in Kids(ns, d) ==> Some(d) == ns[n].parent
  {
    if n in Kids(ns, d) { KidParent(ns, d, n); }
  }

  // Unlinking removes exactly the paths at and below the node's.
  lemma {:induction false} UnlinkRefines(ns: Nodes, n: nat, q: seq<string>)
    requires Wf(ns) && Reached(ns, n) && n > 0
    ensures Lookup(Unlink(ns, n), q) == if PathOf(ns, n) <= q then None else Lookup(ns, q)
    decreases |q|
  {
    var ns', N := Unlink(ns, n), PathOf(ns, n);
    var p := ns[n].parent.value;
    UnlinkWf(ns, n);
    if q == [] {
    } else {
      var q0, x := q[..|q| - 1], q[|q| - 1];
      UnlinkRefines(ns, n, q0);
      Snoc(q);
      PrefixSnoc(N, q0, x);
      SnocInv(PathOf(ns, p), ns[n].name);
      ReachedLookup(ns, p);
      var d := Lookup(ns, q0);
      if !(N <= q0) && d.Some? {
        UnlinkFind(ns, n, d.value, x);
        LookupIff(ns, q0, p);
      }
    }
  }

  lemma PrefixSnoc<T>(a: seq<T>, q: seq<T>, x: T)
    ensures a <= q + [x] <==> a <= q || a == q + [x]
  {
    if a <= q + [x] && |a| <= |q| { assert a <= q; }
    if a <= q { assert (q + [x])[..|a|] == q[..|a|]; }
    if a <= q + [x] && |a| > |q| { assert a == q + [x]; }
  }

  // ----- contents -----

  // Only the data pointer and size of node i differ.
  ghost predicate SameButContents(ns: Nodes, ns': Nodes, i: nat) {
    && |ns'| == |ns| && i < |ns|
    && ns' == ns[i := ns[i].(data := ns'[i].data, size := ns'[i].size)]
  }

  // Changing contents leaves the tree alone.
  lemma ContentsKeepTree(ns: Nodes, ns': Nodes, i: nat)
    requires SameButContents(ns, ns', i) && Wf(ns)
    ensures Wf(ns') && forall q :: Lookup(ns', q) == Lookup(ns, q)
  {
    forall d: nat | d < |ns| ensures Kids(ns', d) == Kids(ns, d) {
      assert LinkOk(ns, d);
      ChainFrame(ns, ns', ns[d].child);
    }
    forall j | 0 <= j < |ns| ensures LinkOk(ns', j) && NamesOk(ns', j) { assert LinkOk(ns, j) && NamesOk(ns, j); }
    forall q ensures Lookup(ns', q) == Lookup(ns, q) { SameLookup(ns, ns', q); }
  }

  lemma {:induction false} SameFind(ns: Nodes, ns': Nodes, start: Option<nat>, x: string)
    requires |ns'| == |ns| && forall i :: 0 <= i < |ns| ==> ns'[i].name == ns[i].name && ns'[i].sibling == ns[i].sibling
    ensures FindIn(ns', start, x) == FindIn(ns, start, x)
    decreases if start.Some? then start.value + 1 else 0
  {
    if start.Some? && start.value < |ns| {
      var s := ns[start.value].sibling;
      if s.Some? && s.value < start.value { SameFind(ns, ns', s, x); }
    }
  }

  lemma {:induction false} SameLookup(ns: Nodes, ns': Nodes, q: seq<string>)
    requires |ns'| == |ns| && forall i :: 0 <= i < |ns| ==>
      ns'[i].name == ns[i].name && ns'[i].sibling == ns[i].sibling && ns'[i].child == ns[i].child
    ensures Lookup(ns', q) == Lookup(ns, q)
    decreases |q|
  {
    if q != [] && |ns| > 0 {
      SameLookup(ns, ns', q[..|q| - 1]);
      var d := Lookup(ns, q[..|q| - 1]);
      if d.Some? { SameFind(ns, ns', ns[d.value].child, q[|q| - 1]); }
    }
  }
}
