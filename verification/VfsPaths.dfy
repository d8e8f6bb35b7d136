/**
  Paths: the resolver against slash-separated segments, the printed path of a directory, and
  why resolving the printed path leads back to the directory.
 */
module VfsPaths {
  import opened Bytes
  import opened VfsModel
  import opened VfsRuns

  // ---------- pieces and segments ----------

  lemma RunLengthWhole(name: seq<byte>)
    requires SLASH !in name
    ensures RunLength(name) == |name|
  {
  }

  lemma {:induction false} RunLengthConcat(a: seq<byte>, b: seq<byte>)
    ensures RunLength(a + [SLASH] + b) == RunLength(a)
  {
    var whole := a + [SLASH] + b;
    if a == [] {
      assert whole[0] == SLASH;
    } else if a[0] != SLASH {
      RunLengthConcat(a[1..], b);
      assert whole[1..] == a[1..] + [SLASH] + b;
    }
  }

  /** A slash separates: the pieces of both sides are resolved one after the other. */
  lemma {:induction false} PiecesConcat(a: seq<byte>, b: seq<byte>)
    ensures Pieces(a + [SLASH] + b) == Pieces(a) + Pieces(b)
    decreases |a|
  {
    var whole := a + [SLASH] + b;
    if a == [] {
      assert whole[1..] == b;
    } else if a[0] == SLASH {
      PiecesConcat(a[1..], b);
      assert whole[1..] == a[1..] + [SLASH] + b;
    } else {
      PiecesConcat(a[Min(RunLength(a), MAX_NAME_LEN - 1)..], b);
      PiecesConcatStep(a, b);
    }
  }

  lemma PiecesConcatStep(a: seq<byte>, b: seq<byte>)
    requires a != [] && a[0] != SLASH
    requires var rest := a[Min(RunLength(a), MAX_NAME_LEN - 1)..];
      Pieces(rest + [SLASH] + b) == Pieces(rest) + Pieces(b)
    ensures Pieces(a + [SLASH] + b) == Pieces(a) + Pieces(b)
  {
    RunLengthConcat(a, b);
    var n := Min(RunLength(a), MAX_NAME_LEN - 1);
    CutConcat(a, b, n);
    PiecesCut(a + [SLASH] + b, n);
    PiecesCut(a, n);
  }

  lemma CutConcat(a: seq<byte>, b: seq<byte>, n: nat)
    requires n <= |a|
    ensures (a + [SLASH] + b)[..n] == a[..n] && (a + [SLASH] + b)[n..] == a[n..] + [SLASH] + b
  {
  }

  lemma PiecesCut(path: seq<byte>, n: nat)
    requires path != [] && path[0] != SLASH && n == Min(RunLength(path), MAX_NAME_LEN - 1)
    ensures Pieces(path) == [path[..n]] + Pieces(path[n..])
  {
  }

  /** The resolver cuts a path exactly at its slashes if and only if no segment exceeds 31 bytes. */
  lemma {:induction false} PiecesAreSegments(path: seq<byte>)
    ensures Pieces(path) == Segments(path)
      <==> forall i :: 0 <= i < |Segments(path)| ==> |Segments(path)[i]| < MAX_NAME_LEN
  {
    if forall i :: 0 <= i < |Segments(path)| ==> |Segments(path)[i]| < MAX_NAME_LEN {
      ShortSegments(path);
    }
  }

  lemma {:induction false} ShortSegments(path: seq<byte>)
    requires forall i :: 0 <= i < |Segments(path)| ==> |Segments(path)[i]| < MAX_NAME_LEN
    ensures Pieces(path) == Segments(path)
    decreases |path|
  {
    if path == [] {
    } else if path[0] == SLASH {
      assert Segments(path) == Segments(path[1..]);
      ShortSegments(path[1..]);
    } else {
      var n := RunLength(path);
      var rest := Segments(path[n..]);
      assert Segments(path) == [path[..n]] + rest;
      assert |Segments(path)[0]| < MAX_NAME_LEN;
      forall i | 0 <= i < |rest|
        ensures |rest[i]| < MAX_NAME_LEN
      {
        assert rest[i] == Segments(path)[i + 1];
      }
      ShortSegments(path[n..]);
    }
  }

  /** Trailing slashes do not matter. */
  lemma TrailingSlash(s: Fs, a: seq<byte>)
    requires FsOk(s) && a != []
    ensures Find(s, a + [SLASH]) == Find(s, a)
  {
    PiecesConcat(a, []);
    assert a + [SLASH] + [] == a + [SLASH];
    assert Pieces(a) + [] == Pieces(a);
  }

  /** Nor do doubled ones. */
  lemma DoubledSlash(s: Fs, a: seq<byte>, b: seq<byte>)
    requires FsOk(s) && a != []
    ensures Find(s, a + [SLASH] + ([SLASH] + b)) == Find(s, a + [SLASH] + b)
  {
    PiecesConcat(a, b);
    PiecesConcat(a, [SLASH] + b);
    assert ([SLASH] + b)[1..] == b;
    assert (a + [SLASH] + b)[0] == a[0] == (a + [SLASH] + ([SLASH] + b))[0];
  }

  lemma {:induction false} ResolveConcat(nodes: seq<Node>, cur: nat, xs: seq<seq<byte>>, ys: seq<seq<byte>>)
    requires PoolOk(nodes) && cur < |nodes|
    ensures Resolve(nodes, cur, xs + ys) ==
      match Resolve(nodes, cur, xs) case None => None case Some(m) => Resolve(nodes, m, ys)
    decreases |xs|
  {
    if xs == [] {
      assert xs + ys == ys;
    } else {
      assert (xs + ys)[1..] == xs[1..] + ys;
      var next := Step(nodes, cur, xs[0]);
      if next.Some? {
        ResolveConcat(nodes, next.value, xs[1..], ys);
      }
    }
  }

  // ---------- the printed path ----------

  /** Names from below the root down to `n`, at most the last `fuel` of them. */
  function NamesUp(nodes: seq<Node>, n: nat, fuel: nat): seq<seq<byte>>
    requires PoolOk(nodes) && n < |nodes|
    decreases fuel
  {
    if fuel == 0 || n == 0 then [] else NamesUp(nodes, ParentOf(nodes, n), fuel - 1) + [nodes[n].name]
  }

  function Joined(names: seq<seq<byte>>): seq<byte> {
    if names == [] then [] else Joined(names[..|names| - 1]) + [SLASH] + names[|names| - 1]
  }

  const PATH_DEPTH := 16

  /** What vfs_getcwd prints given room: "/" at the root, else up to 16 levels of names. */
  function Cwd(s: Fs): seq<byte>
    requires FsOk(s)
  {
    if s.cwd == 0 then [SLASH] else Joined(NamesUp(s.nodes, s.cwd, PATH_DEPTH))
  }

  function Depth(nodes: seq<Node>, n: nat): nat
    requires PoolOk(nodes) && n < |nodes|
    decreases n
  {
    if n == 0 then 0 else 1 + Depth(nodes, ParentOf(nodes, n))
  }

  /** A name that resolves as a child name: not empty, no slash, neither "." nor "..". */
  predicate Legal(name: seq<byte>) {
    name != [] && SLASH !in name && name != DOT_NAME && name != DOTDOT_NAME
  }

  ghost predicate LegalUp(nodes: seq<Node>, n: nat)
    requires PoolOk(nodes) && n < |nodes|
    decreases n
  {
    n == 0 || (Legal(nodes[n].name) && LegalUp(nodes, ParentOf(nodes, n)))
  }

  lemma PiecesOfName(name: seq<byte>)
    requires Legal(name) && |name| < MAX_NAME_LEN
    ensures Pieces(name) == [name]
  {
    RunLengthWhole(name);
    assert name[..|name|] == name;
  }

  lemma {:induction false} PiecesOfJoined(nodes: seq<Node>, n: nat, fuel: nat)
    requires PoolOk(nodes) && n < |nodes| && LegalUp(nodes, n)
    ensures Pieces(Joined(NamesUp(nodes, n, fuel))) == NamesUp(nodes, n, fuel)
    decreases fuel
  {
    if fuel > 0 && n > 0 {
      var up := NamesUp(nodes, ParentOf(nodes, n), fuel - 1);
      PiecesOfJoined(nodes, ParentOf(nodes, n), fuel - 1);
      assert (up + [nodes[n].name])[..|up|] == up;
      PiecesConcat(Joined(up), nodes[n].name);
      assert NodeOk(nodes, n);
      PiecesOfName(nodes[n].name);
    }
  }

  lemma FirstNamedIsUnique(nodes: seq<Node>, kids: seq<nat>, n: nat)
    requires forall i :: 0 <= i < |kids| ==> kids[i] < |nodes|
    requires n in kids && forall a, b :: 0 <= a < b < |kids| ==> nodes[kids[a]].name != nodes[kids[b]].name
    ensures var p := FirstNamed(nodes, kids, nodes[n].name); p < |kids| && kids[p] == n
  {
    hide *;
    var q :| 0 <= q < |kids| && kids[q] == n;
    var p := FirstNamed(nodes, kids, nodes[n].name);
    assert p <= q;
  }

  lemma {:induction false} ResolveNames(nodes: seq<Node>, n: nat, fuel: nat)
    requires PoolOk(nodes) && n < |nodes| && Attached(nodes, n) && LegalUp(nodes, n) && SiblingsUnique(nodes)
    requires Depth(nodes, n) <= fuel
    ensures Resolve(nodes, 0, NamesUp(nodes, n, fuel)) == Some(n)
    decreases fuel
  {
    if n > 0 {
      var up := ParentOf(nodes, n);
      ResolveNames(nodes, up, fuel - 1);
      ResolveConcat(nodes, 0, NamesUp(nodes, up, fuel - 1), [nodes[n].name]);
      assert UniqueIn(nodes, up);
      FirstNamedIsUnique(nodes, KidsOf(nodes, up), n);
    }
  }

  lemma JoinedStartsWithSlash(names: seq<seq<byte>>)
    requires names != []
    ensures Joined(names) != [] && Joined(names)[0] == SLASH
  {
  }

  /**
    Path round trip: resolving the printed path of the current directory, from anywhere, leads
    to the current directory, if it lies at most 16 levels deep.
   */
  lemma CwdRoundTrip(s: Fs, from: nat)
    requires FsOk(s) && from < |s.nodes|
    requires SiblingsUnique(s.nodes) && LegalUp(s.nodes, s.cwd) && Depth(s.nodes, s.cwd) <= 16
    ensures Find(s.(cwd := from), Cwd(s)) == Some(s.cwd)
  {
    if s.cwd == 0 {
      assert Pieces([SLASH]) == [] by { assert [SLASH][1..] == []; }
    } else {
      var names := NamesUp(s.nodes, s.cwd, PATH_DEPTH);
      JoinedStartsWithSlash(names);
      PiecesOfJoined(s.nodes, s.cwd, PATH_DEPTH);
      ResolveNames(s.nodes, s.cwd, PATH_DEPTH);
    }
  }

  // ---------- the tree ----------

  /** A way down from the root along child links. */
  ghost predicate IsDescent(nodes: seq<Node>, way: seq<nat>)
    requires PoolOk(nodes)
  {
    && |way| > 0 && way[0] == 0 && (forall i :: 0 <= i < |way| ==> way[i] < |nodes|)
    && (forall i :: 0 <= i < |way| - 1 ==> way[i + 1] in KidsOf(nodes, way[i]))
  }

  /** The links form a tree: no node is reached in two ways. */
  lemma {:induction false} DescentUnique(nodes: seq<Node>, a: seq<nat>, b: seq<nat>)
    requires PoolOk(nodes) && IsDescent(nodes, a) && IsDescent(nodes, b) && a[|a| - 1] == b[|b| - 1]
    ensures a == b
    decreases |a|
  {
    var m, n := |a| - 1, |b| - 1;
    assert m > 0 ==> a[m - 1 + 1] in KidsOf(nodes, a[m - 1]);
    assert n > 0 ==> b[n - 1 + 1] in KidsOf(nodes, b[n - 1]);
    if m > 0 && n > 0 {
      assert nodes[a[m]].parent == a[m - 1] == b[n - 1];
      DescentUnique(nodes, a[..m], b[..n]);
      assert a == a[..m] + [a[m]] && b == b[..n] + [b[n]];
    }
  }

  /** The attached nodes are exactly those some descent reaches. */
  lemma AttachedIffReached(nodes: seq<Node>, n: nat)
    requires PoolOk(nodes) && n < |nodes|
    ensures Attached(nodes, n) <==> exists way :: IsDescent(nodes, way) && way[|way| - 1] == n
  {
    if Attached(nodes, n) {
      var way := DescentTo(nodes, n);
    }
    if way :| IsDescent(nodes, way) && way[|way| - 1] == n {
      DescentEndAttached(nodes, way);
    } else {
    }
  }

  lemma {:induction false} DescentTo(nodes: seq<Node>, n: nat) returns (way: seq<nat>)
    requires PoolOk(nodes) && n < |nodes| && Attached(nodes, n)
    ensures IsDescent(nodes, way) && way[|way| - 1] == n
    decreases n
  {
    if n == 0 {
      way := [0];
    } else {
      var up := DescentTo(nodes, ParentOf(nodes, n));
      way := up + [n];
    }
  }

  lemma {:induction false} DescentEndAttached(nodes: seq<Node>, way: seq<nat>)
    requires PoolOk(nodes) && IsDescent(nodes, way)
    ensures Attached(nodes, way[|way| - 1])
    decreases |way|
  {
    var m := |way| - 1;
    if m > 0 {
      DescentEndAttached(nodes, way[..m]);
      assert way[m - 1 + 1] in KidsOf(nodes, way[m - 1]);
      assert nodes[way[m]].parent == way[m - 1];
    }
  }

  // ---------- sibling names ----------

  lemma AddNodeUniqueIn(nodes: seq<Node>, name: seq<byte>, kind: Kind, parent: nat, i: nat)
    requires PoolOk(nodes) && parent < |nodes| && i < |nodes| && UniqueIn(nodes, i)
    requires |nodes[parent].kids| < MAX_CHILDREN && PoolOk(AddNode(nodes, name, kind, parent))
    requires forall k :: k in KidsOf(nodes, parent) ==> nodes[k].name != Trunc(name)
    ensures UniqueIn(AddNode(nodes, name, kind, parent), i)
  {
    var r := AddNode(nodes, name, kind, parent);
    var kids := KidsOf(nodes, i);
    var kids' := KidsOf(r, i);
    assert kids' == if i == parent then kids + [|nodes|] else kids;
    forall a, b | 0 <= a < b < |kids'|
      ensures r[kids'[a]].name != r[kids'[b]].name
    {
      assert kids'[a] == kids[a] && kids[a] in kids;
      if b < |kids| {
        assert nodes[kids[a]].name != nodes[kids[b]].name;
      }
    }
  }

  /** Adding a node keeps sibling names apart exactly if no sibling has the name as stored. */
  lemma AddNodeUnique(nodes: seq<Node>, name: seq<byte>, kind: Kind, parent: nat)
    requires PoolOk(nodes) && parent < |nodes| && nodes[parent].kind == FsDir && 0 !in name
    requires SiblingsUnique(nodes) && |nodes[parent].kids| < MAX_CHILDREN
    requires PoolOk(AddNode(nodes, name, kind, parent))
    ensures SiblingsUnique(AddNode(nodes, name, kind, parent))
      <==> forall k :: k in KidsOf(nodes, parent) ==> nodes[k].name != Trunc(name)
  {
    var r := AddNode(nodes, name, kind, parent);
    var kids := KidsOf(nodes, parent);
    assert KidsOf(r, parent) == kids + [|nodes|];
    if k :| k in kids && nodes[k].name == Trunc(name) {
      var a :| 0 <= a < |kids| && kids[a] == k;
      var kids' := KidsOf(r, parent);
      assert r[kids'[a]].name == r[kids'[|kids|]].name;
      assert !UniqueIn(r, parent);
    } else {
      forall i: nat | i < |r|
        ensures UniqueIn(r, i)
      {
        if i < |nodes| {
          AddNodeUniqueIn(nodes, name, kind, parent, i);
        }
      }
    }
  }

  lemma TouchInUnique(nodes: seq<Node>, dir: nat, name: seq<byte>, data: Option<seq<byte>>)
    requires PoolOk(nodes) && dir < |nodes| && nodes[dir].kind == FsDir && SiblingsUnique(nodes)
    requires |name| < MAX_NAME_LEN && 0 !in name
    ensures var r := TouchIn(nodes, dir, name, data).0; PoolOk(r) && SiblingsUnique(r)
  {
    var kids := KidsOf(nodes, dir);
    var p := FirstNamed(nodes, kids, name);
    if p < |kids| {
      SetDataUnique(nodes, kids[p], data);
    } else if |kids| < MAX_CHILDREN && |nodes| < MAX_NODES {
      AddNodePool(nodes, name, FsFile, dir);
      forall k | k in kids
        ensures nodes[k].name != Trunc(name)
      {
        var a :| 0 <= a < |kids| && kids[a] == k;
      }
      AddNodeUnique(nodes, name, FsFile, dir);
      SetDataUnique(AddNode(nodes, name, FsFile, dir), |nodes|, data);
    }
  }

  lemma SetDataUnique(nodes: seq<Node>, n: nat, data: Option<seq<byte>>)
    requires PoolOk(nodes) && n < |nodes| && SiblingsUnique(nodes)
    ensures var r := SetData(nodes, n, data); PoolOk(r) && SiblingsUnique(r)
  {
    var r := SetData(nodes, n, data);
    assert forall i :: 0 <= i < |r| ==> r[i] == nodes[i].(data := r[i].data);
    forall i: nat | i < |r|
      ensures NodeOk(r, i)
    {
      assert NodeOk(nodes, i);
    }
    forall i: nat | i < |r|
      ensures UniqueIn(r, i)
    {
      assert UniqueIn(nodes, i);
      SameNamesUnique(nodes, r, i);
    }
  }

  lemma SameNamesUnique(nodes: seq<Node>, r: seq<Node>, i: nat)
    requires PoolOk(nodes) && PoolOk(r) && |r| == |nodes| && i < |nodes| && UniqueIn(nodes, i)
    requires r[i].kids == nodes[i].kids && forall k :: 0 <= k < |r| ==> r[k].name == nodes[k].name
    ensures UniqueIn(r, i)
  {
    var kids := KidsOf(r, i);
    assert kids == KidsOf(nodes, i);
    forall a, b | 0 <= a < b < |kids|
      ensures r[kids[a]].name != r[kids[b]].name
    {
      assert nodes[kids[a]].name != nodes[kids[b]].name;
    }
  }

  lemma RemoveUniqueIn(nodes: seq<Node>, i: nat, p: nat)
    requires PoolOk(nodes) && i < |nodes| && UniqueIn(nodes, i) && p < |nodes[i].kids|
    requires var kids := nodes[i].kids; PoolOk(WithKids(nodes, i, kids[..p] + kids[p + 1..]))
    ensures var kids := nodes[i].kids; UniqueIn(WithKids(nodes, i, kids[..p] + kids[p + 1..]), i)
  {
    var kids := nodes[i].kids;
    var kids' := kids[..p] + kids[p + 1..];
    assert kids == KidsOf(nodes, i);
    assert forall a :: 0 <= a < |kids'| ==> kids'[a] == kids[if a < p then a else a + 1];
  }

  lemma RemoveUnique(s: Fs, name: seq<byte>)
    requires FsOk(s) && SiblingsUnique(s.nodes)
    ensures PoolOk(Remove(s, name).0.nodes) && SiblingsUnique(Remove(s, name).0.nodes)
  {
    RemoveKeeps(s, name);
    var kids := KidsOf(s.nodes, s.cwd);
    var p := FirstNamed(s.nodes, kids, name);
    if name != [] && p < |kids| {
      var r := Remove(s, name).0.nodes;
      forall i: nat | i < |r|
        ensures UniqueIn(r, i)
      {
        assert UniqueIn(s.nodes, i);
        if i == s.cwd {
          RemoveUniqueIn(s.nodes, i, p);
        } else {
          SameNamesUnique(s.nodes, r, i);
        }
      }
    }
  }

  /** mkdir keeps sibling names apart exactly if no sibling has the first 31 bytes of the name as its name. */
  lemma MkdirUnique(s: Fs, name: seq<byte>)
    requires FsOk(s) && SiblingsUnique(s.nodes) && 0 !in name && Mkdir(s, name).1 == 0
    ensures PoolOk(Mkdir(s, name).0.nodes)
    ensures SiblingsUnique(Mkdir(s, name).0.nodes)
      <==> forall k :: k in KidsOf(s.nodes, s.cwd) ==> s.nodes[k].name != Trunc(name)
    ensures |name| < MAX_NAME_LEN ==> SiblingsUnique(Mkdir(s, name).0.nodes)
  {
    AddNodePool(s.nodes, name, FsDir, s.cwd);
    AddNodeUnique(s.nodes, name, FsDir, s.cwd);
    var kids := KidsOf(s.nodes, s.cwd);
    forall k | k in kids && |name| < MAX_NAME_LEN
      ensures s.nodes[k].name != Trunc(name)
    {
      var a :| 0 <= a < |kids| && kids[a] == k;
    }
  }

  /** A longer name is not noticed when it is made again: the copy gets the same stored name. */
  lemma LongNamesClash(s: Fs, name: seq<byte>)
    requires FsOk(s) && SiblingsUnique(s.nodes) && 0 !in name && |name| >= MAX_NAME_LEN
    requires |KidsOf(s.nodes, s.cwd)| + 2 <= MAX_CHILDREN && |s.nodes| + 2 <= MAX_NODES
    ensures var once := Mkdir(s, name); once.1 == 0 && FsOk(once.0)
    ensures var twice := Mkdir(Mkdir(s, name).0, name); twice.1 == 0 && FsOk(twice.0) && !SiblingsUnique(twice.0.nodes)
  {
    NoKidNamed(s, name);
    var once := Mkdir(s, name).0;
    MkdirKeeps(s, name);
    NoKidNamed(once, name);
    MkdirKeeps(once, name);
    var twice := Mkdir(once, name).0;
    var kids := KidsOf(twice.nodes, s.cwd);
    assert kids == KidsOf(s.nodes, s.cwd) + [|s.nodes|, |s.nodes| + 1];
    assert twice.nodes[|s.nodes|].name == twice.nodes[|s.nodes| + 1].name == Trunc(name);
    assert twice.nodes[kids[|kids| - 2]].name == twice.nodes[kids[|kids| - 1]].name;
    assert !UniqueIn(twice.nodes, s.cwd);
  }

  lemma NoKidNamed(s: Fs, name: seq<byte>)
    requires FsOk(s) && |name| >= MAX_NAME_LEN
    ensures FirstNamed(s.nodes, KidsOf(s.nodes, s.cwd), name) == |KidsOf(s.nodes, s.cwd)|
  {
    var kids := KidsOf(s.nodes, s.cwd);
    var p := FirstNamed(s.nodes, kids, name);
    assert p < |kids| ==> NodeOk(s.nodes, kids[p]);
  }

  ghost predicate ShortNames(op: Op) {
    op.OpMkdir? ==> |op.name| < MAX_NAME_LEN
  }

  lemma ApplyUnique(s: Fs, op: Op)
    requires FsOk(s) && SiblingsUnique(s.nodes) && op.IsText() && ShortNames(op)
    ensures FsOk(Apply(s, op).0) && SiblingsUnique(Apply(s, op).0.nodes)
  {
    ApplyKeeps(s, op);
    match op
    case OpMkdir(n) =>
      if Mkdir(s, n).1 == 0 {
        MkdirUnique(s, n);
      }
    case OpTouch(p, d) =>
      if p != [] && TouchDir(s, p).Some? {
        TouchNameHasNoNul(p);
        TouchInUnique(s.nodes, TouchDir(s, p).value, TouchName(p), d);
      }
    case OpChdir(p) =>
    case OpRemove(n) => RemoveUnique(s, n);
  }

  /** Sibling names stay apart along every run whose mkdir names have at most 31 bytes. */
  lemma {:induction false} RunKeepsUnique(ss: seq<Fs>, ops: seq<Op>, n: nat)
    requires IsRun(ss, ops) && FsOk(ss[0]) && SiblingsUnique(ss[0].nodes) && n <= |ops|
    requires forall i :: 0 <= i < |ops| ==> ops[i].IsText() && ShortNames(ops[i])
    ensures FsOk(ss[n]) && SiblingsUnique(ss[n].nodes)
  {
    if n > 0 {
      RunKeepsUnique(ss, ops, n - 1);
      ApplyUnique(ss[n - 1], ops[n - 1]);
    }
  }

  // ---------- touching a path ----------

  lemma LastSlashIs(path: seq<byte>, k: nat)
    requires k < |path| && path[k] == SLASH && forall j :: k < j < |path| ==> path[j] != SLASH
    ensures LastSlash(path) == k
  {
  }

  /** Touching `a/name` finds its directory exactly when `a` is not empty and leads to one, so `/x` always fails. */
  lemma TouchFindsDirectory(s: Fs, a: seq<byte>, name: seq<byte>, data: Option<seq<byte>>)
    requires FsOk(s) && SLASH !in name && |a| < DIR_PATH_SIZE
    ensures Touch(s, a + [SLASH] + name, data).1 != -1
      <==> a != [] && (match Find(s, a) case None => false case Some(d) => s.nodes[d].kind == FsDir)
    ensures a == [] ==> Touch(s, a + [SLASH] + name, data) == (s, -1)
  {
    var path := a + [SLASH] + name;
    assert forall j :: |a| < j < |path| ==> path[j] == name[j - |a| - 1];
    assert path[..|a|] == a;
    LastSlashIs(path, |a|);
  }
}
