/** Path strings of the virtual file system: how a path is made absolute, cut into
    components, and printed back. Strings carry no terminating zero. */
module Paths {
  import opened Bytes

  const NAME_MAX: nat := 128   // VFS_NAME_MAX, terminator included
  const PATH_MAX: nat := 256   // VFS_PATH_MAX, terminator included

  // Length of the first word: up to the next slash, but at most cap characters
  function WordLen(s: string, cap: nat): (n: nat)
    ensures n <= |s| && n <= cap && forall i :: 0 <= i < n ==> s[i] != '/'
    ensures n < |s| && n < cap ==> s[n] == '/'
  {
    if s == "" || cap == 0 || s[0] == '/' then 0 else 1 + WordLen(s[1..], cap - 1)
  }

  function SkipSlashes(s: string): (r: string)
    ensures |r| <= |s| && (s != "" && s[0] == '/' ==> |r| < |s|)
    ensures r != "" ==> r[0] != '/'
  {
    if s != "" && s[0] == '/' then SkipSlashes(s[1..]) else s
  }

  // The components of a path, as vfs_resolve reads them; a word of more than 127
  // characters is read in pieces.
  function Parts(s: string): seq<string>
    decreases |s|
  {
    if s == "" then []
    else
      var n := WordLen(s, NAME_MAX - 1);
      var rest := SkipSlashes(s[n..]);
      if n == 0 then Parts(rest) else [s[..n]] + Parts(rest)
  }

  predicate Absolute(p: string) { p != "" && p[0] == '/' }

  function Clip(s: string): string {
    if |s| < PATH_MAX then s else s[..PATH_MAX - 1]
  }

  // normalize_path
  function Normalize(cwd: string, path: string): string
    requires Absolute(cwd)
  {
    if Absolute(path) then Clip(path)
    else Clip(cwd + (if cwd[|cwd| - 1] != '/' then ['/'] else []) + path)
  }

  function LastSlashUpTo(s: string, n: nat): (i: nat)
    requires Absolute(s) && n < |s|
    ensures i <= n && s[i] == '/' && forall j :: i < j <= n ==> s[j] != '/'
  {
    if s[n] == '/' then n else LastSlashUpTo(s, n - 1)
  }

  function LastSlash(s: string): (i: nat)
    requires Absolute(s)
    ensures i < |s| && s[i] == '/' && forall j :: i < j < |s| ==> s[j] != '/'
  {
    LastSlashUpTo(s, |s| - 1)
  }

  // A component a directory entry can carry
  ghost predicate Plain(c: string) {
    0 < |c| < NAME_MAX && forall i :: 0 <= i < |c| ==> c[i] != '/'
  }

  // The components separated by single slashes
  function Body(q: seq<string>): string {
    if q == [] then "" else if |q| == 1 then q[0] else Body(q[..|q| - 1]) + ['/'] + q[|q| - 1]
  }

  // The absolute path with the given components
  function Join(q: seq<string>): (s: string)
    ensures Absolute(s) && s[1..] == Body(q)
  {
    ['/'] + Body(q)
  }

  // ----- cutting is undone by joining -----

  lemma Cut<T>(s: seq<T>, k: nat)
    requires k < |s|
    ensures s == s[..k] + [s[k]] + s[k + 1..]
  {
  }

  lemma Tail<T>(a: seq<T>, b: seq<T>, c: seq<T>)
    requires |a| > 0
    ensures (a + b + c)[1..] == a[1..] + b + c
  {
  }

  lemma Snoc<T>(q: seq<T>)
    requires q != []
    ensures q == q[..|q| - 1] + [q[|q| - 1]]
  {
  }

  lemma TailSlices<T>(s: seq<T>, k: nat)
    requires 0 < k < |s|
    ensures s[1..][..k - 1] == s[1..k] && s[1..][k..] == s[k + 1..] && s[1..][k - 1] == s[k]
  {
  }

  lemma {:induction false} WordLenAppend(s: string, t: string, cap: nat)
    requires t != "" && t[0] == '/'
    ensures WordLen(s + t, cap) == WordLen(s, cap)
  {
    if s == "" {
      assert s + t == t;
    } else if cap > 0 && s[0] != '/' {
      assert (s + t)[1..] == s[1..] + t;
      WordLenAppend(s[1..], t, cap - 1);
    }
  }

  lemma {:induction false} SkipAppend(s: string, t: string)
    ensures SkipSlashes(s + t) == if SkipSlashes(s) == "" then SkipSlashes(t) else SkipSlashes(s) + t
  {
    if s == "" {
      assert s + t == t;
    } else if s[0] == '/' {
      assert (s + t)[1..] == s[1..] + t;
      SkipAppend(s[1..], t);
    }
  }

  lemma PartsSkip(s: string)
    ensures Parts(SkipSlashes(s)) == Parts(s)
  {
    if s != "" && s[0] == '/' {
      assert WordLen(s, NAME_MAX - 1) == 0;
      assert s[0..] == s;
    }
  }

  // What remains after the first word of s
  function Rest(s: string): string { SkipSlashes(s[WordLen(s, NAME_MAX - 1)..]) }

  lemma RestAppend(s: string, u: string)
    requires s != "" && u != "" && u[0] == '/'
    ensures Rest(s + u) == if Rest(s) == "" then SkipSlashes(u) else Rest(s) + u
    ensures WordLen(s + u, NAME_MAX - 1) == WordLen(s, NAME_MAX - 1)
  {
    var n := WordLen(s, NAME_MAX - 1);
    WordLenAppend(s, u, NAME_MAX - 1);
    assert (s + u)[n..] == s[n..] + u;
    SkipAppend(s[n..], u);
  }

  // The first word of s, as a list of at most one component
  function Head(s: string): seq<string> {
    var n := WordLen(s, NAME_MAX - 1);
    if n == 0 then [] else [s[..n]]
  }

  lemma PartsUnfold(s: string)
    requires s != ""
    ensures Parts(s) == Head(s) + Parts(Rest(s))
  {
  }

  lemma HeadAppend(s: string, u: string)
    requires s != "" && u != "" && u[0] == '/'
    ensures Head(s + u) == Head(s)
  {
    WordLenAppend(s, u, NAME_MAX - 1);
    var n := WordLen(s, NAME_MAX - 1);
    assert (s + u)[..n] == s[..n];
  }

  lemma Assoc<T>(a: seq<T>, b: seq<T>, c: seq<T>)
    ensures a + (b + c) == (a + b) + c
  {
  }

  // A string that starts with a slash adds its components to whatever precedes it.
  lemma {:induction false} PartsAppend(s: string, u: string)
    requires u != "" && u[0] == '/'
    ensures Parts(s + u) == Parts(s) + Parts(u)
    decreases |s|
  {
    if s == "" {
      assert s + u == u;
    } else {
      RestShorter(s);
      RestAppend(s, u);
      HeadAppend(s, u);
      PartsUnfold(s);
      PartsUnfold(s + u);
      PartsAppend(Rest(s), u);
      PartsSkip(u);
      EmptyAppend(u);
      assert Parts(Rest(s + u)) == Parts(Rest(s)) + Parts(u);
      Assoc(Head(s), Parts(Rest(s)), Parts(u));
    }
  }

  lemma EmptyAppend(u: string)
    ensures "" + u == u && Parts("") == [] && Parts("") + Parts(u) == Parts(u)
  {
  }

  lemma RestShorter(s: string)
    requires s != ""
    ensures |Rest(s)| < |s|
  {
  }

  lemma PartsSlash(t: string)
    ensures Parts(['/'] + t) == Parts(t)
  {
    var u := ['/'] + t;
    assert u[1..] == t;
    PartsSkip(u);
    PartsSkip(t);
    assert SkipSlashes(u) == SkipSlashes(t);
  }

  // A slash between two strings separates their components, whatever they are.
  lemma PartsConcat(s: string, t: string)
    ensures Parts(s + ['/'] + t) == Parts(s) + Parts(t)
  {
    assert s + ['/'] + t == s + (['/'] + t);
    PartsAppend(s, ['/'] + t);
    PartsSlash(t);
  }

  lemma {:induction false} WordLenPlain(c: string, cap: nat)
    requires |c| <= cap && forall i :: 0 <= i < |c| ==> c[i] != '/'
    ensures WordLen(c, cap) == |c|
  {
    if c == "" {
    } else {
      WordLenPlain(c[1..], cap - 1);
    }
  }

  lemma PartsWord(c: string)
    requires Plain(c)
    ensures Parts(c) == [c]
  {
    WordLenPlain(c, NAME_MAX - 1);
    assert c[..|c|] == c && c[|c|..] == "";
  }

  // Round trip: cutting the printed path gives back its components.
  lemma {:induction false} PartsJoin(q: seq<string>)
    requires forall i :: 0 <= i < |q| ==> Plain(q[i])
    ensures Parts(Join(q)[1..]) == q
    decreases |q|
  {
    if |q| == 1 {
      PartsWord(q[0]);
    } else if |q| > 1 {
      var p, c := q[..|q| - 1], q[|q| - 1];
      PartsJoin(p);
      PartsConcat(Body(p), c);
      PartsWord(c);
      Snoc(q);
    }
  }

  // A component of 128 characters or more is not refused: its first 127 are read as one component,
  // and what follows as the next.
  lemma LongWord(s: string)
    requires WordLen(s, |s|) >= 128
    ensures Parts(s) == [s[..127]] + Parts(s[127..])
    ensures Plain(s[127..]) ==> Parts(s) == [s[..127], s[127..]]
  {
    LongStep(s);
    if Plain(s[127..]) { PartsWord(s[127..]); }
  }

  lemma LongStep(s: string)
    requires WordLen(s, |s|) >= 128
    ensures Parts(s) == [s[..127]] + Parts(s[127..])
  {
    assert s[127] != '/';
    assert SkipSlashes(s[127..]) == s[127..] && WordLen(s, 127) == 127;
  }

  // Splitting an absolute path at its last slash splits off its last component.
  lemma PartsLeaf(full: string)
    requires Absolute(full) && Plain(full[LastSlash(full) + 1..])
    ensures var k := LastSlash(full);
      Parts(full[1..]) == (if k == 0 then [] else Parts(full[1..k])) + [full[k + 1..]]
  {
    LeafAt(full, LastSlash(full));
  }

  lemma LeafAt(full: string, k: nat)
    requires k < |full| && full[k] == '/' && Plain(full[k + 1..])
    ensures Parts(full[1..]) == (if k == 0 then [] else Parts(full[1..k])) + [full[k + 1..]]
  {
    PartsWord(full[k + 1..]);
    if k > 0 {
      SplitInner(full, k);
    } else {
      NilLeft([full[1..]]);
    }
  }

  lemma SplitInner(full: string, k: nat)
    requires 0 < k < |full| && full[k] == '/'
    ensures Parts(full[1..]) == Parts(full[1..k]) + Parts(full[k + 1..])
  {
    TailSlices(full, k);
    SplitAt(full[1..], k - 1);
  }

  lemma NilLeft<T>(b: seq<T>)
    ensures [] + b == b
  {
  }

  lemma SplitAt(s: string, k: nat)
    requires k < |s| && s[k] == '/'
    ensures Parts(s) == Parts(s[..k]) + Parts(s[k + 1..])
  {
    Cut(s, k);
    PartsConcat(s[..k], s[k + 1..]);
  }

  lemma EndsWithSlash(cwd: string, path: string)
    requires Absolute(cwd) && |cwd| > 1 && cwd[|cwd| - 1] == '/'
    ensures Parts((cwd + path)[1..]) == Parts(cwd[1..]) + Parts(path)
  {
    var c := cwd[1..|cwd| - 1];
    TailSlices(cwd, |cwd| - 1);
    SplitAt(cwd[1..], |cwd| - 2);
    PartsConcat(c, path);
    Inner(cwd, path);
    Assoc(Parts(c), [], Parts(path));
  }

  lemma Inner<T>(a: seq<T>, b: seq<T>)
    requires |a| > 1
    ensures (a + b)[1..] == a[1..|a| - 1] + [a[|a| - 1]] + b
    ensures a[|a|..] == []
  {
  }

  // Reading a relative path reads the working directory's components first.
  lemma PartsRelative(cwd: string, path: string)
    requires Absolute(cwd) && !Absolute(path) && |cwd| + 1 + |path| < PATH_MAX
    ensures Absolute(Normalize(cwd, path))
    ensures Parts(Normalize(cwd, path)[1..]) == Parts(cwd[1..]) + Parts(path)
  {
    Joined(cwd, path);
    if cwd[|cwd| - 1] != '/' {
      PartsConcat(cwd[1..], path);
    } else if |cwd| == 1 {
      EmptyAppend(path);
    } else {
      EndsWithSlash(cwd, path);
    }
  }

  lemma Joined(cwd: string, path: string)
    requires Absolute(cwd) && !Absolute(path) && |cwd| + 1 + |path| < PATH_MAX
    ensures Absolute(Normalize(cwd, path))
    ensures Normalize(cwd, path)[1..] == if cwd[|cwd| - 1] != '/' then cwd[1..] + ['/'] + path
                                         else if |cwd| == 1 then "" + path else (cwd + path)[1..]
    ensures |cwd| == 1 ==> cwd[1..] == ""
  {
    Tail(cwd, ['/'], path);
    assert cwd + [] + path == cwd + path;
  }
}
