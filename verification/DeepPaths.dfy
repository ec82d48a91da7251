/** A directory 33 levels deep, and the working directory that entering it leaves. */
module DeepPaths {
  import opened Bytes
  import opened Paths
  import opened Tree
  import FT = FileTree

  // n components, each the letter d, and the path they make up
  function Names(n: nat): seq<string> { if n == 0 then [] else Names(n - 1) + ["d"] }

  function Path(n: nat): string
    requires n > 0
  {
    if n == 1 then "/d" else Path(n - 1) + "/d"
  }

  lemma {:induction false} NamesAre(n: nat)
    ensures |Names(n)| == n && forall i :: 0 <= i < n ==> Names(n)[i] == "d"
  {
    if n == 0 {
    } else {
      NamesAre(n - 1);
    }
  }

  lemma {:induction false} PathEnds(n: nat)
    requires n > 0
    ensures |Path(n)| == 2 * n && Path(n)[2 * n - 2] == '/' && Path(n)[2 * n - 1] == 'd'
    decreases n
  {
    if n == 1 {
    } else {
      PathEnds(n - 1);
    }
  }

  lemma {:induction false} PathJoins(n: nat)
    requires n > 0
    ensures Path(n) == Join(Names(n))
    decreases n
  {
    NamesAre(n - 1);
    if n == 1 {
      assert Names(1) == ["d"];
    } else {
      PathJoins(n - 1);
      BodyMore(Names(n - 1), "d");
      Slashed(Body(Names(n - 1)));
    }
  }

  lemma Slashed(s: string)
    ensures ['/'] + (s + ['/'] + "d") == (['/'] + s) + "/d"
  {
  }

  lemma PathIs(n: nat)
    requires n > 0
    ensures Path(n) == Join(Names(n)) && |Path(n)| == 2 * n && Path(n)[2 * n - 2] == '/' && Path(n)[2 * n - 1] == 'd'
    ensures |Names(n)| == n && forall i :: 0 <= i < n ==> Names(n)[i] == "d"
  {
    NamesAre(n);
    PathEnds(n);
    PathJoins(n);
  }

  lemma BodyMore(q: seq<string>, x: string)
    requires q != []
    ensures Body(q + [x]) == Body(q) + ['/'] + x
  {
    assert (q + [x])[..|q|] == q;
  }

  // fs is what mkdir makes of the root alone, level by level.
  ghost predicate MadeBy(fs: FT.Fs, n: nat)
    decreases n
  {
    if n == 0 then fs == FT.Fs([Node("/", Dir, 0x1ED, 0, 0, None, None, None)], "/")
    else exists f0: FT.Fs :: MadeBy(f0, n - 1) && MadeFrom(f0, fs, n)
  }

  ghost predicate MadeFrom(f0: FT.Fs, fs: FT.Fs, n: nat)
    requires n > 0
  {
    |f0.nodes| > 0 && FT.PathOk(f0.cwd, Path(n)) && fs == FT.Make(f0, Path(n), Dir, 0x1ED).0
  }

  // Node n is the deepest directory, n levels down.
  ghost predicate Deep(fs: FT.Fs, n: nat) {
    && Wf(fs.nodes) && |fs.nodes| == n + 1 && fs.cwd == "/" && Reached(fs.nodes, n)
    && PathOf(fs.nodes, n) == Names(n) && fs.nodes[n].child == None && fs.nodes[n].kind == Dir
  }

  lemma {:induction false} DeepMade(n: nat) returns (fs: FT.Fs)
    requires n <= 100
    ensures MadeBy(fs, n) && Deep(fs, n)
    decreases n
  {
    if n == 0 {
      fs := FT.Fs([Node("/", Dir, 0x1ED, 0, 0, None, None, None)], "/");
      FT.InitRep(0x1ED);
      FT.RootReached(fs.nodes);
    } else {
      var f0 := DeepMade(n - 1);
      DeepStep(f0, n);
      fs := FT.Make(f0, Path(n), Dir, 0x1ED).0;
      assert MadeFrom(f0, fs, n);
    }
  }

  // The last slash of the path of n levels
  lemma PathCut(n: nat)
    requires n > 0
    ensures Absolute(Path(n)) && LastSlash(Path(n)) == 2 * n - 2 && FT.LeafOf(Path(n)) == "d"
    ensures n > 1 ==> Path(n)[..2 * n - 2] == Path(n - 1)
  {
    PathIs(n);
    var k := LastSlash(Path(n));
    assert k == 2 * n - 2;
    assert Path(n)[k + 1..] == "d";
    if n > 1 { PathIs(n - 1); }
  }

  lemma ParentIs(fs: FT.Fs, n: nat)
    requires 0 < n <= 100 && Deep(fs, n - 1)
    ensures FT.PathOk(fs.cwd, Path(n)) && FT.EnsureParent(fs, Path(n)) == (Some(n - 1), "d")
  {
    PathIs(n);
    PathCut(n);
    if n > 1 { Walked(fs, n - 1); }
    ParentFrom(fs, Path(n), LastSlash(Path(n)), n - 1);
  }

  lemma ParentFrom(fs: FT.Fs, path: string, k: nat, p: nat)
    requires |fs.nodes| > 0 && fs.cwd == "/" && Absolute(path) && |path| < PATH_MAX && k == LastSlash(path)
    requires if k == 0 then p == 0 else FT.PathOk(fs.cwd, path[..k]) && FT.Resolve(fs, path[..k]) == Some(p)
    ensures FT.PathOk(fs.cwd, path) && FT.EnsureParent(fs, path) == (Some(p), FT.LeafOf(path))
  {
    Absolutes(fs, path);
  }

  // An absolute path is taken as it is.
  lemma Absolutes(fs: FT.Fs, path: string)
    requires |fs.nodes| > 0 && fs.cwd == "/" && Absolute(path) && |path| < PATH_MAX
    ensures FT.PathOk(fs.cwd, path) && Normalize(fs.cwd, path) == path
    ensures var k := LastSlash(path);
      && (k == 0 ==> FT.EnsureParent(fs, path) == (Some(0), FT.LeafOf(path)))
      && (k > 0 ==> FT.PathOk(fs.cwd, path[..k])
                    && FT.EnsureParent(fs, path) == (FT.Resolve(fs, path[..k]), FT.LeafOf(path)))
  {
    assert Absolute(path[..LastSlash(path) + 1]);
  }

  // The path of n levels leads to the node n levels down.
  lemma Walked(fs: FT.Fs, n: nat)
    requires Deep(fs, n) && 0 < n <= 100
    ensures FT.PathOk(fs.cwd, Path(n)) && FT.Resolve(fs, Path(n)) == Some(n)
  {
    PathIs(n);
    assert Normalize(fs.cwd, Path(n)) == Path(n);
    assert "d"[0] != '.';
    PartsJoin(Names(n));
    ReachedLookup(fs.nodes, n);
    FT.WalkPath(fs.nodes, Names(n));
  }

  lemma DeepStep(fs: FT.Fs, n: nat)
    requires 0 < n <= 100 && Deep(fs, n - 1)
    ensures FT.PathOk(fs.cwd, Path(n)) && Deep(FT.Make(fs, Path(n), Dir, 0x1ED).0, n)
  {
    ParentIs(fs, n);
    LinkDeep(fs.nodes, n - 1);
    assert FT.Make(fs, Path(n), Dir, 0x1ED).0 == FT.Fs(Link(fs.nodes, n - 1, "d", Dir, 0x1ED), "/");
  }

  lemma LinkDeep(ns: Nodes, p: nat)
    requires p < 100 && Deep(FT.Fs(ns, "/"), p)
    ensures Deep(FT.Fs(Link(ns, p, "d", Dir, 0x1ED), "/"), p + 1)
  {
    LinkPath(ns, p);
    LinkShape(ns, p);
  }

  // A node just hung has its parent's path and its own name.
  lemma LinkedPath(ns: Nodes, p: nat, name: string, mode: nat)
    requires Wf(ns) && Reached(ns, p) && |ns| < MAX_NODES && ns[p].kind == Dir
    requires Plain(name) && FindIn(ns, ns[p].child, name).None?
    ensures var ns' := Link(ns, p, name, Dir, mode);
      Wf(ns') && Reached(ns', |ns|) && PathOf(ns', |ns|) == PathOf(ns, p) + [name]
  {
    LinkWf(ns, p, name, Dir, mode);
    LinkRefines(ns, p, name, Dir, mode, PathOf(ns, p) + [name]);
    LookupIff(Link(ns, p, name, Dir, mode), PathOf(ns, p) + [name], |ns|);
  }

  lemma LinkPath(ns: Nodes, p: nat)
    requires p < 100 && Deep(FT.Fs(ns, "/"), p)
    ensures var ns' := Link(ns, p, "d", Dir, 0x1ED);
      Wf(ns') && Reached(ns', p + 1) && PathOf(ns', p + 1) == Names(p + 1)
  {
    LinkedPath(ns, p, "d", 0x1ED);
  }

  lemma LinkShape(ns: Nodes, p: nat)
    requires |ns| == p + 1
    ensures var ns' := Link(ns, p, "d", Dir, 0x1ED);
      |ns'| == p + 2 && ns'[p + 1].child == None && ns'[p + 1].kind == Dir
  {
  }

  // Entering a level below the 32nd succeeds and leaves a working directory that leads
  // elsewhere ...
  lemma ChdirDeep(fs: FT.Fs, n: nat)
    requires FT.DEPTH < n <= 100 && Deep(fs, n)
    ensures FT.PathOk(fs.cwd, Path(n)) && FT.Resolve(fs, Path(n)) == Some(n)
    ensures var (fs', ok) := FT.Chdir(fs, Path(n));
      ok && FT.PathOk(fs'.cwd, fs'.cwd) && fs'.nodes == fs.nodes && FT.Resolve(fs', fs'.cwd) != Some(n)
  {
    Walked(fs, n);
    PathIs(n);
    PathIs(FT.DEPTH);
    assert FT.LastParts(Names(n)) == Names(FT.DEPTH);
    FT.ChdirExact(fs, Path(n));
  }

  // ... and there are such levels: 33 calls of mkdir make the first of them.
  lemma ChdirTooDeep() returns (fs: FT.Fs)
    ensures MadeBy(fs, 33) && FT.PathOk(fs.cwd, Path(33)) && FT.Resolve(fs, Path(33)) == Some(33)
    ensures var (fs', ok) := FT.Chdir(fs, Path(33));
      ok && FT.PathOk(fs'.cwd, fs'.cwd) && fs'.nodes == fs.nodes && FT.Resolve(fs', fs'.cwd) != Some(33)
  {
    fs := DeepMade(33);
    ChdirDeep(fs, 33);
  }
}
