/**
  What each operation does to the tree, said without the functions that compute it: which node is found, made,
  filled or taken out, what stays, and which text a path leads to in the end.
 */
module VfsLaws {
  import opened Bytes
  import opened VfsModel
  import opened VfsRuns
  import opened VfsPaths

  // ---------- children by name ----------

  /** Position `p` holds the first child of `dir` called `name`. */
  ghost predicate FirstAt(nodes: seq<Node>, dir: nat, name: seq<byte>, p: nat)
    requires PoolOk(nodes) && dir < |nodes|
  {
    var kids := KidsOf(nodes, dir);
    p < |kids| && nodes[kids[p]].name == name && forall q :: 0 <= q < p ==> nodes[kids[q]].name != name
  }

  ghost predicate NoChild(nodes: seq<Node>, dir: nat, name: seq<byte>)
    requires PoolOk(nodes) && dir < |nodes|
  {
    forall k :: k in KidsOf(nodes, dir) ==> nodes[k].name != name
  }

  lemma ChildByName(nodes: seq<Node>, dir: nat, name: seq<byte>)
    requires PoolOk(nodes) && dir < |nodes|
    ensures var kids := KidsOf(nodes, dir); var p := FirstNamed(nodes, kids, name);
      if p < |kids| then FirstAt(nodes, dir, name, p) && !NoChild(nodes, dir, name) else NoChild(nodes, dir, name)
  {
    var kids := KidsOf(nodes, dir);
    var p := FirstNamed(nodes, kids, name);
    if p < |kids| {
      assert kids[p] in kids;
    } else {
      forall k | k in kids
        ensures nodes[k].name != name
      {
        var q :| 0 <= q < |kids| && kids[q] == k;
      }
    }
  }

  lemma FirstAtIs(nodes: seq<Node>, dir: nat, name: seq<byte>, p: nat)
    requires PoolOk(nodes) && dir < |nodes| && FirstAt(nodes, dir, name, p)
    ensures FirstNamed(nodes, KidsOf(nodes, dir), name) == p
  {
    var kids := KidsOf(nodes, dir);
    var q := FirstNamed(nodes, kids, name);
    assert q <= p;
  }

  lemma OneSegment(s: Fs, name: seq<byte>)
    requires PoolOk(s.nodes) && s.cwd < |s.nodes| && name != [] && SLASH !in name && |name| <= 31
    ensures Find(s, name) == Step(s.nodes, s.cwd, name)
  {
    RunLengthWhole(name);
    assert name[..|name|] == name;
    assert Pieces(name) == [name];
    assert name[0] in name && [name][1..] == [];
    var next := Step(s.nodes, s.cwd, name);
    assert next.Some? ==> Resolve(s.nodes, next.value, []) == next;
  }

  /** A name of at most 31 bytes, used as a path, leads to the first child that has it. */
  lemma ChildFound(s: Fs, name: seq<byte>)
    requires PoolOk(s.nodes) && s.cwd < |s.nodes| && Legal(name) && |name| <= 31
    ensures NoChild(s.nodes, s.cwd, name) <==> Find(s, name) == None
    ensures forall p: nat :: FirstAt(s.nodes, s.cwd, name, p) ==> Find(s, name) == Some(KidsOf(s.nodes, s.cwd)[p])
  {
    OneSegment(s, name);
    ChildByName(s.nodes, s.cwd, name);
    forall p: nat | FirstAt(s.nodes, s.cwd, name, p)
      ensures Find(s, name) == Some(KidsOf(s.nodes, s.cwd)[p])
    {
      FirstAtIs(s.nodes, s.cwd, name, p);
    }
  }

  // ---------- paths ----------

  /** `p/q` leads where `q` leads from where `p` leads. */
  lemma PathComposes(s: Fs, p: seq<byte>, q: seq<byte>)
    requires FsOk(s) && p != [] && q != [] && q[0] != 47
    ensures Find(s, p + [47] + q) == match Find(s, p) case None => None case Some(n) => Find(s.(cwd := n), q)
  {
    PiecesConcat(p, q);
    assert (p + [SLASH] + q)[0] == p[0];
    ResolveConcat(s.nodes, if p[0] == SLASH then 0 else s.cwd, Pieces(p), Pieces(q));
  }

  /** `p/.` leads where `p` leads, `p/..` to its parent; the root is above itself. */
  lemma DotsFollowed(s: Fs, p: seq<byte>)
    requires FsOk(s) && p != []
    ensures Find(s, p + [47] + [46]) == Find(s, p)
    ensures Find(s, p + [47] + [46, 46]) == match Find(s, p) case None => None
      case Some(n) => if n == 0 then Some(0) else (assert NodeOk(s.nodes, n); Some(s.nodes[n].parent))
  {
    PathComposes(s, p, [46]);
    PathComposes(s, p, [46, 46]);
    var r := Find(s, p);
    if r.Some? {
      DotsFrom(s.(cwd := r.value));
      assert NodeOk(s.nodes, r.value);
    }
  }

  lemma DotsFrom(s: Fs)
    requires PoolOk(s.nodes) && s.cwd < |s.nodes|
    ensures Find(s, [46]) == Some(s.cwd) && Find(s, [46, 46]) == Some(ParentOf(s.nodes, s.cwd))
  {
    OneSegment(s, [46]);
    OneSegment(s, [46, 46]);
  }

  // ---------- making a directory ----------

  /** `dir` has a new last child with this name, kind and text; nothing else changed. */
  ghost predicate Added(nodes: seq<Node>, dir: nat, name: seq<byte>, kind: Kind, text: seq<byte>, nodes': seq<Node>)
    requires dir < |nodes|
  {
    && |nodes'| == |nodes| + 1 && nodes'[|nodes|] == Node(name, kind, text, dir, [])
    && nodes'[dir] == nodes[dir].(kids := nodes[dir].kids + [|nodes|])
    && forall i :: 0 <= i < |nodes| && i != dir ==> nodes'[i] == nodes[i]
  }

  /** The outcome of vfs_mkdir. */
  ghost predicate Made(s: Fs, name: seq<byte>, s': Fs, ret: int)
    requires FsOk(s)
  {
    if name == [] then ret == -1 && s' == s
    else if |s.nodes[s.cwd].kids| >= 16 then ret == -2 && s' == s
    else if !NoChild(s.nodes, s.cwd, name) then ret == -3 && s' == s
    else if |s.nodes| >= 128 then ret == -4 && s' == s
    else ret == 0 && s'.cwd == s.cwd && Added(s.nodes, s.cwd, name[..Min(|name|, 31)], FsDir, [], s'.nodes)
  }

  lemma MkdirMakes(s: Fs, name: seq<byte>)
    requires FsOk(s)
    ensures Made(s, name, Mkdir(s, name).0, Mkdir(s, name).1)
  {
    ChildByName(s.nodes, s.cwd, name);
  }

  /** A directory made under a name of at most 31 bytes is found by it and is empty. */
  lemma MadeIsFound(s: Fs, name: seq<byte>)
    requires FsOk(s) && 0 !in name && Legal(name) && |name| <= 31 && Mkdir(s, name).1 == 0
    ensures var s' := Mkdir(s, name).0;
      && FsOk(s') && |s'.nodes| == |s.nodes| + 1 && Find(s', name) == Some(|s.nodes|)
      && s'.nodes[|s.nodes|] == Node(name, FsDir, [], s.cwd, [])
  {
    MkdirKeeps(s, name);
    MkdirMakes(s, name);
    var s' := Mkdir(s, name).0;
    assert name[..|name|] == name;
    AddedIsFirst(s.nodes, s.cwd, name, FsDir, [], s'.nodes);
    ChildFound(s', name);
  }

  /** If no child had the name, the new one is the first to have it. */
  lemma AddedIsFirst(nodes: seq<Node>, dir: nat, name: seq<byte>, kind: Kind, text: seq<byte>, nodes': seq<Node>)
    requires PoolOk(nodes) && PoolOk(nodes') && dir < |nodes| && NoChild(nodes, dir, name)
    requires Added(nodes, dir, name, kind, text, nodes')
    ensures FirstAt(nodes', dir, name, |nodes[dir].kids|)
    ensures KidsOf(nodes', dir) == KidsOf(nodes, dir) + [|nodes|]
  {
    var kids := KidsOf(nodes, dir);
    forall q | 0 <= q < |kids|
      ensures nodes'[KidsOf(nodes', dir)[q]].name != name
    {
      assert kids[q] in kids;
    }
  }

  // ---------- changing the directory ----------

  /** The outcome of vfs_chdir; no path and "~" mean "/home", or the root without such a directory. */
  ghost predicate Entered(s: Fs, path: seq<byte>, s': Fs, ret: int)
    requires FsOk(s)
  {
    && s'.nodes == s.nodes
    && if path == [] || path == [126] then
         var home := Find(s, [47, 104, 111, 109, 101]);
         ret == 0 && s'.cwd == if home.Some? && s.nodes[home.value].kind == FsDir then home.value else 0
       else
         var r := Find(s, path);
         && (ret == -1 <==> r == None) && (ret == -2 <==> r.Some? && s.nodes[r.value].kind == FsFile)
         && (ret == 0 <==> r.Some? && s.nodes[r.value].kind == FsDir)
         && (if ret == 0 then Some(s'.cwd) == r else s'.cwd == s.cwd)
  }

  lemma ChdirEnters(s: Fs, path: seq<byte>)
    requires FsOk(s)
    ensures Entered(s, path, Chdir(s, path).0, Chdir(s, path).1)
  {
    assert HOME == [47, 104, 111, 109, 101];
    assert TILDE == [126];
  }

  /** Into a child and back up. */
  lemma ThereAndBack(s: Fs, name: seq<byte>)
    requires FsOk(s) && Legal(name) && |name| <= 31 && name != [126] && Chdir(s, name).1 == 0
    ensures FsOk(Chdir(s, name).0) && Chdir(Chdir(s, name).0, [46, 46]) == (s, 0)
  {
    ChdirKeeps(s, name);
    ChdirEnters(s, name);
    var s' := Chdir(s, name).0;
    OneSegment(s, name);
    ChildByName(s.nodes, s.cwd, name);
    assert s'.cwd in KidsOf(s.nodes, s.cwd);
    DotsFrom(s');
    assert TILDE == [126];
    assert ParentOf(s'.nodes, s'.cwd) == s.cwd;
  }

  // ---------- removing ----------

  /** The outcome of vfs_remove: the first child of the name leaves the list of the current directory. */
  ghost predicate Removed(s: Fs, name: seq<byte>, s': Fs, ret: int)
    requires FsOk(s)
  {
    if name == [] || NoChild(s.nodes, s.cwd, name) then ret == -1 && s' == s
    else
      && ret == 0 && s'.cwd == s.cwd && |s'.nodes| == |s.nodes|
      && (forall i :: 0 <= i < |s.nodes| && i != s.cwd ==> s'.nodes[i] == s.nodes[i])
      && s'.nodes[s.cwd] == s.nodes[s.cwd].(kids := s'.nodes[s.cwd].kids)
      && exists p: nat :: FirstAt(s.nodes, s.cwd, name, p) && WithoutAt(s.nodes[s.cwd].kids, p, s'.nodes[s.cwd].kids)
  }

  /** The same list in the same order without position `p`. */
  ghost predicate WithoutAt(kids: seq<nat>, p: nat, kids': seq<nat>) {
    && p < |kids| == |kids'| + 1
    && kids'[..p] == kids[..p] && kids'[p..] == kids[p + 1..]
  }

  lemma RemoveRemoves(s: Fs, name: seq<byte>)
    requires FsOk(s)
    ensures Removed(s, name, Remove(s, name).0, Remove(s, name).1)
  {
    ChildByName(s.nodes, s.cwd, name);
    var kids := KidsOf(s.nodes, s.cwd);
    var p := FirstNamed(s.nodes, kids, name);
    if name != [] && p < |kids| {
      assert FirstAt(s.nodes, s.cwd, name, p) && WithoutAt(kids, p, Remove(s, name).0.nodes[s.cwd].kids);
    }
  }

  lemma WithoutMembers(kids: seq<nat>, p: nat, kids': seq<nat>, k: nat)
    requires WithoutAt(kids, p, kids') && forall a, b :: 0 <= a < b < |kids| ==> kids[a] != kids[b]
    ensures k in kids' <==> k in kids && k != kids[p]
  {
    assert kids == kids[..p] + [kids[p]] + kids[p + 1..] && kids' == kids'[..p] + kids'[p..];
    assert kids[p] !in kids[..p] && kids[p] !in kids[p + 1..];
  }

  /** Among children with different names the one at position `p` is the only one of its name. */
  lemma OnlyOneNamed(nodes: seq<Node>, dir: nat, name: seq<byte>, p: nat, k: nat)
    requires PoolOk(nodes) && dir < |nodes| && UniqueIn(nodes, dir) && FirstAt(nodes, dir, name, p)
    requires k in KidsOf(nodes, dir)
    ensures nodes[k].name == name <==> k == KidsOf(nodes, dir)[p]
  {
    hide PoolOk;
    var kids := KidsOf(nodes, dir);
    var j :| 0 <= j < |kids| && kids[j] == k;
    assert j < p || j == p || p < j;
  }

  /** Where names are unique, exactly the children of other names stay. */
  lemma RemoveKeepsOthers(s: Fs, name: seq<byte>, k: nat)
    requires FsOk(s) && UniqueIn(s.nodes, s.cwd) && Remove(s, name).1 == 0
    ensures FsOk(Remove(s, name).0)
    ensures k in KidsOf(Remove(s, name).0.nodes, s.cwd) <==> k in KidsOf(s.nodes, s.cwd) && s.nodes[k].name != name
  {
    hide UniqueIn, FirstAt, WithoutAt, NoChild, Remove;
    RemoveKeeps(s, name);
    RemoveRemoves(s, name);
    var kids, kids' := KidsOf(s.nodes, s.cwd), Remove(s, name).0.nodes[s.cwd].kids;
    var p: nat :| FirstAt(s.nodes, s.cwd, name, p) && WithoutAt(kids, p, kids');
    assert NodeOk(s.nodes, s.cwd);
    WithoutMembers(kids, p, kids', k);
    if k in kids {
      OnlyOneNamed(s.nodes, s.cwd, name, p, k);
    }
  }

  /** Afterwards the name leads nowhere, if it was unique, and every other child is found as before. */
  lemma RemovedIsGone(s: Fs, name: seq<byte>, k: nat)
    requires FsOk(s) && UniqueIn(s.nodes, s.cwd) && Remove(s, name).1 == 0
    requires Legal(name) && |name| <= 31 && k in KidsOf(s.nodes, s.cwd) && Legal(s.nodes[k].name)
    ensures var s' := Remove(s, name).0;
      && FsOk(s') && Find(s', name) == None
      && Find(s', s.nodes[k].name) == if s.nodes[k].name == name then None else Some(k)
  {
    var s' := Remove(s, name).0;
    forall i: nat
      ensures PoolOk(s'.nodes) && FsOk(s') && s'.cwd < |s'.nodes|
      ensures i in KidsOf(s'.nodes, s.cwd) <==> i in KidsOf(s.nodes, s.cwd) && s.nodes[i].name != name
    {
      RemoveKeepsOthers(s, name, i);
    }
    RemoveRemoves(s, name);
    ChildFound(s', name);
    assert NodeOk(s.nodes, k);
    if s.nodes[k].name != name {
      OtherFound(s, s', k);
    }
  }

  lemma OtherFound(s: Fs, s': Fs, k: nat)
    requires FsOk(s) && FsOk(s') && UniqueIn(s.nodes, s.cwd) && s'.cwd == s.cwd && |s'.nodes| == |s.nodes|
    requires forall i :: 0 <= i < |s.nodes| ==> s'.nodes[i].name == s.nodes[i].name
    requires forall i :: i in KidsOf(s'.nodes, s.cwd) ==> i in KidsOf(s.nodes, s.cwd)
    requires k in KidsOf(s'.nodes, s.cwd) && Legal(s.nodes[k].name) && |s.nodes[k].name| <= 31
    ensures Find(s', s.nodes[k].name) == Some(k)
  {
    var name := s.nodes[k].name;
    ChildFound(s', name);
    ChildByName(s'.nodes, s.cwd, name);
    var kids, kids' := KidsOf(s.nodes, s.cwd), KidsOf(s'.nodes, s.cwd);
    var m := kids'[FirstNamed(s'.nodes, kids', name)];
    assert m in kids' && s.nodes[m].name == name;
    var a :| 0 <= a < |kids| && kids[a] == m;
    var b :| 0 <= b < |kids| && kids[b] == k;
    assert a == b;
  }

  // ---------- touching ----------

  ghost predicate LastSlashAt(path: seq<byte>, cut: int) {
    -1 <= cut < |path| && (cut == -1 || path[cut] == 47) && forall i :: cut < i < |path| ==> path[i] != 47
  }

  /** The directory a path names a file in: what stands before the last slash, of it 255 bytes, leads there. */
  ghost function DirectoryOf(s: Fs, path: seq<byte>, cut: int): (dir: Option<nat>)
    requires FsOk(s) && LastSlashAt(path, cut)
    ensures dir.Some? ==> dir.value < |s.nodes|
  {
    if cut < 0 then Some(s.cwd)
    else
      var r := Find(s, path[..Min(cut, 255)]);
      if r.Some? && s.nodes[r.value].kind == FsDir then r else None
  }

  /** What stands behind the last slash, of it 31 bytes. */
  ghost function NameBehind(path: seq<byte>, cut: int): (name: seq<byte>)
    requires LastSlashAt(path, cut)
    ensures |name| <= 31
  {
    path[cut + 1..Min(|path|, cut + 32)]
  }

  /** The text a node has after it was touched. */
  function TextOf(before: seq<byte>, data: Option<seq<byte>>): seq<byte> {
    if data.Some? then data.value[..Min(|data.value|, 1023)] else before
  }

  /** Node `n` has a new text, unless `data` is None; nothing else changed. */
  ghost predicate Overwritten(nodes: seq<Node>, n: nat, data: Option<seq<byte>>, nodes': seq<Node>) {
    && n < |nodes| == |nodes'| && nodes'[n] == nodes[n].(data := TextOf(nodes[n].data, data))
    && forall i :: 0 <= i < |nodes| && i != n ==> nodes'[i] == nodes[i]
  }

  /** The outcome of vfs_touch for the file `name` of the directory `dir`. */
  ghost predicate TouchedIn(nodes: seq<Node>, dir: nat, name: seq<byte>, data: Option<seq<byte>>,
                            nodes': seq<Node>, ret: int)
    requires PoolOk(nodes) && dir < |nodes|
  {
    if !NoChild(nodes, dir, name) then
      && ret == 0
      && exists p: nat :: FirstAt(nodes, dir, name, p) && Overwritten(nodes, KidsOf(nodes, dir)[p], data, nodes')
    else if |nodes[dir].kids| >= 16 then ret == -2 && nodes' == nodes
    else if |nodes| >= 128 then ret == -4 && nodes' == nodes
    else ret == 0 && Added(nodes, dir, name, FsFile, TextOf([], data), nodes')
  }

  /** The outcome of vfs_touch, the last slash of the path at `cut`. */
  ghost predicate Touched(s: Fs, path: seq<byte>, cut: int, data: Option<seq<byte>>, s': Fs, ret: int)
    requires FsOk(s) && LastSlashAt(path, cut)
  {
    var dir := DirectoryOf(s, path, cut);
    if path == [] || dir == None then ret == -1 && s' == s
    else s'.cwd == s.cwd && TouchedIn(s.nodes, dir.value, NameBehind(path, cut), data, s'.nodes, ret)
  }

  lemma TouchInTouches(nodes: seq<Node>, dir: nat, name: seq<byte>, data: Option<seq<byte>>)
    requires PoolOk(nodes) && dir < |nodes| && |name| <= 31
    ensures TouchedIn(nodes, dir, name, data, TouchIn(nodes, dir, name, data).0, TouchIn(nodes, dir, name, data).1)
  {
    ChildByName(nodes, dir, name);
    var kids := KidsOf(nodes, dir);
    var p := FirstNamed(nodes, kids, name);
    var nodes' := TouchIn(nodes, dir, name, data).0;
    if p < |kids| {
      assert FirstAt(nodes, dir, name, p) && Overwritten(nodes, kids[p], data, nodes');
    } else if |kids| < 16 && |nodes| < 128 {
      assert name[..|name|] == name;
    }
  }

  lemma LastSlashFound(path: seq<byte>)
    ensures LastSlashAt(path, LastSlash(path))
  {
  }

  lemma LastSlashIsAt(path: seq<byte>, cut: int)
    requires LastSlashAt(path, cut)
    ensures LastSlash(path) == cut
  {
  }

  lemma DirectoryIs(s: Fs, path: seq<byte>, cut: int)
    requires FsOk(s) && LastSlashAt(path, cut)
    ensures TouchDir(s, path) == DirectoryOf(s, path, cut)
  {
    LastSlashIsAt(path, cut);
  }

  lemma NameBehindIs(path: seq<byte>, cut: int)
    requires LastSlashAt(path, cut)
    ensures NameBehind(path, cut) == TouchName(path)
  {
    LastSlashIsAt(path, cut);
  }

  lemma TouchTouches(s: Fs, path: seq<byte>, cut: int, data: Option<seq<byte>>)
    requires FsOk(s) && LastSlashAt(path, cut)
    ensures Touched(s, path, cut, data, Touch(s, path, data).0, Touch(s, path, data).1)
  {
    hide TouchedIn, DirectoryOf, TouchDir, TouchIn, PoolOk, LastSlashAt, NameBehind, TouchName;
    DirectoryIs(s, path, cut);
    NameBehindIs(path, cut);
    if path != [] && TouchDir(s, path).Some? {
      TouchInTouches(s.nodes, TouchDir(s, path).value, TouchName(path), data);
    }
  }

  // ---------- paths while the tree grows ----------

  /** Nodes keep name, kind and parent, and lists of children grow at their ends. */
  ghost predicate Grown(nodes: seq<Node>, nodes': seq<Node>) {
    |nodes| <= |nodes'| && forall i :: 0 <= i < |nodes| ==> GrownNode(nodes[i], nodes'[i])
  }

  ghost predicate GrownNode(n: Node, n': Node) {
    n'.name == n.name && n'.kind == n.kind && n'.parent == n.parent && n.kids <= n'.kids
  }

  lemma FirstAtGrown(nodes: seq<Node>, nodes': seq<Node>, dir: nat, name: seq<byte>, p: nat)
    requires PoolOk(nodes) && PoolOk(nodes') && Grown(nodes, nodes') && dir < |nodes| && FirstAt(nodes, dir, name, p)
    ensures FirstAt(nodes', dir, name, p) && KidsOf(nodes', dir)[p] == KidsOf(nodes, dir)[p]
  {
    hide PoolOk;
    var kids, kids' := KidsOf(nodes, dir), KidsOf(nodes', dir);
    assert GrownNode(nodes[dir], nodes'[dir]);
    forall q | 0 <= q <= p
      ensures kids'[q] == kids[q] && nodes'[kids'[q]].name == nodes[kids[q]].name
    {
      assert GrownNode(nodes[kids[q]], nodes'[kids[q]]);
    }
  }

  lemma StepGrown(nodes: seq<Node>, nodes': seq<Node>, cur: nat, seg: seq<byte>)
    requires PoolOk(nodes) && PoolOk(nodes') && Grown(nodes, nodes') && cur < |nodes| && Step(nodes, cur, seg).Some?
    ensures Step(nodes', cur, seg) == Step(nodes, cur, seg)
  {
    hide PoolOk, FirstAt, NoChild;
    assert GrownNode(nodes[cur], nodes'[cur]);
    if seg != DOT_NAME && seg != DOTDOT_NAME {
      ChildByName(nodes, cur, seg);
      var p := FirstNamed(nodes, KidsOf(nodes, cur), seg);
      FirstAtGrown(nodes, nodes', cur, seg, p);
      FirstAtIs(nodes', cur, seg, p);
      ChildByName(nodes', cur, seg);
    }
  }

  lemma {:induction false} ResolveGrown(nodes: seq<Node>, nodes': seq<Node>, cur: nat, segs: seq<seq<byte>>)
    requires PoolOk(nodes) && PoolOk(nodes') && Grown(nodes, nodes') && cur < |nodes| && Resolve(nodes, cur, segs).Some?
    ensures Resolve(nodes', cur, segs) == Resolve(nodes, cur, segs)
    decreases |segs|
  {
    hide PoolOk, Step;
    if segs != [] {
      StepGrown(nodes, nodes', cur, segs[0]);
      ResolveGrown(nodes, nodes', Step(nodes, cur, segs[0]).value, segs[1..]);
    }
  }

  /** A path that leads somewhere leads there when the tree has grown. */
  lemma FindGrown(s: Fs, s': Fs, path: seq<byte>)
    requires PoolOk(s.nodes) && PoolOk(s'.nodes) && Grown(s.nodes, s'.nodes) && s.cwd < |s.nodes| && s'.cwd < |s'.nodes|
    requires Find(s, path).Some? && (path[0] == 47 || s'.cwd == s.cwd)
    ensures Find(s', path) == Find(s, path)
  {
    ResolveGrown(s.nodes, s'.nodes, if path[0] == SLASH then 0 else s.cwd, Pieces(path));
  }

  lemma TouchGrows(s: Fs, path: seq<byte>, cut: int, data: Option<seq<byte>>)
    requires FsOk(s) && LastSlashAt(path, cut)
    ensures Grown(s.nodes, Touch(s, path, data).0.nodes) && Touch(s, path, data).0.cwd == s.cwd
  {
    hide PoolOk, DirectoryOf, Touch, TouchedIn, LastSlashAt;
    TouchTouches(s, path, cut, data);
    var dir, r := DirectoryOf(s, path, cut), Touch(s, path, data);
    if path != [] && dir.Some? {
      InGrows(s.nodes, dir.value, NameBehind(path, cut), data, r.0.nodes, r.1);
    }
  }

  lemma InGrows(nodes: seq<Node>, dir: nat, name: seq<byte>, data: Option<seq<byte>>, nodes': seq<Node>, ret: int)
    requires PoolOk(nodes) && dir < |nodes| && TouchedIn(nodes, dir, name, data, nodes', ret)
    ensures Grown(nodes, nodes')
  {
    hide PoolOk, FirstAt, NoChild, TextOf;
  }

  // ---------- the text a path leads to ----------

  /** Touching the path finds or makes node `n`. */
  ghost predicate TouchesNode(s: Fs, path: seq<byte>, cut: int, n: nat)
    requires FsOk(s) && LastSlashAt(path, cut)
  {
    var dir := DirectoryOf(s, path, cut);
    path != [] && dir.Some? && IsFile(s.nodes, dir.value, NameBehind(path, cut), n)
  }

  /** `n` is the first child of the name, or the node that a new one gets. */
  ghost predicate IsFile(nodes: seq<Node>, dir: nat, name: seq<byte>, n: nat)
    requires PoolOk(nodes) && dir < |nodes|
  {
    if NoChild(nodes, dir, name) then n == |nodes| < 128 && |nodes[dir].kids| < 16
    else exists p: nat :: FirstAt(nodes, dir, name, p) && n == KidsOf(nodes, dir)[p]
  }

  lemma FileTouched(nodes: seq<Node>, dir: nat, name: seq<byte>, data: Option<seq<byte>>,
                    nodes': seq<Node>, ret: int, n: nat)
    requires PoolOk(nodes) && PoolOk(nodes') && dir < |nodes| && IsFile(nodes, dir, name, n)
    requires TouchedIn(nodes, dir, name, data, nodes', ret)
    ensures ret == 0 && n < |nodes'| && exists p: nat :: FirstAt(nodes', dir, name, p) && n == KidsOf(nodes', dir)[p]
    ensures nodes'[n].data == TextOf(if n < |nodes| then nodes[n].data else [], data)
    ensures forall i :: 0 <= i < |nodes| && i != n ==> nodes'[i].data == nodes[i].data
  {
    hide PoolOk, TextOf;
    InGrows(nodes, dir, name, data, nodes', ret);
    if NoChild(nodes, dir, name) {
      AddedIsFirst(nodes, dir, name, FsFile, TextOf([], data), nodes');
    } else {
      var p: nat :| FirstAt(nodes, dir, name, p) && n == KidsOf(nodes, dir)[p];
      FirstAtIs(nodes, dir, name, p);
      var q: nat :| FirstAt(nodes, dir, name, q) && Overwritten(nodes, KidsOf(nodes, dir)[q], data, nodes');
      FirstAtIs(nodes, dir, name, q);
      FirstAtGrown(nodes, nodes', dir, name, p);
    }
  }

  lemma WhichFile(nodes: seq<Node>, dir: nat, name: seq<byte>, data: Option<seq<byte>>, nodes': seq<Node>, ret: int)
    returns (n: nat)
    requires PoolOk(nodes) && dir < |nodes| && TouchedIn(nodes, dir, name, data, nodes', ret)
    ensures if ret == 0 then IsFile(nodes, dir, name, n) else nodes' == nodes
  {
    hide PoolOk;
    n := |nodes|;
    if !NoChild(nodes, dir, name) {
      var p: nat :| FirstAt(nodes, dir, name, p) && Overwritten(nodes, KidsOf(nodes, dir)[p], data, nodes');
      n := KidsOf(nodes, dir)[p];
    }
  }

  lemma TouchDone(s: Fs, path: seq<byte>, cut: int, data: Option<seq<byte>>, n: nat)
    requires FsOk(s) && 0 !in path && LastSlashAt(path, cut) && TouchesNode(s, path, cut, n)
    ensures Touch(s, path, data).1 == 0
    ensures var s' := Touch(s, path, data).0; var dir := DirectoryOf(s, path, cut).value;
      && FsOk(s') && s'.cwd == s.cwd && dir < |s.nodes| <= |s'.nodes| && n < |s'.nodes|
      && s'.nodes[n].data == TextOf(if n < |s.nodes| then s.nodes[n].data else [], data)
      && exists p: nat :: FirstAt(s'.nodes, dir, NameBehind(path, cut), p) && n == KidsOf(s'.nodes, dir)[p]
  {
    hide PoolOk, DirectoryOf, Touch, TouchedIn, LastSlashAt, IsFile, NameBehind, TextOf, FirstAt;
    TouchKeeps(s, path, data);
    TouchGrows(s, path, cut, data);
    TouchTouches(s, path, cut, data);
    var dir, r := DirectoryOf(s, path, cut).value, Touch(s, path, data);
    FileTouched(s.nodes, dir, NameBehind(path, cut), data, r.0.nodes, r.1, n);
  }

  /** A touch succeeds exactly when there is a node for the file or room for one. */
  lemma TouchSucceedsExactlyWhen(s: Fs, path: seq<byte>, cut: int, data: Option<seq<byte>>)
    requires FsOk(s) && 0 !in path && LastSlashAt(path, cut)
    ensures Touch(s, path, data).1 == 0 <==> exists n: nat :: TouchesNode(s, path, cut, n)
  {
    hide PoolOk, Touch, TouchedIn, IsFile, LastSlashAt, NameBehind, DirectoryOf;
    TouchTouches(s, path, cut, data);
    var dir, r := DirectoryOf(s, path, cut), Touch(s, path, data);
    if r.1 == 0 {
      var n := WhichFile(s.nodes, dir.value, NameBehind(path, cut), data, r.0.nodes, r.1);
      assert TouchesNode(s, path, cut, n);
    }
    if n: nat :| TouchesNode(s, path, cut, n) {
      TouchDone(s, path, cut, data, n);
    }
  }

  /** A touched file whose name needs no cut is found by its path and has the text. */
  lemma TouchedIsFound(s: Fs, path: seq<byte>, cut: int, data: Option<seq<byte>>, n: nat)
    requires FsOk(s) && 0 !in path && LastSlashAt(path, cut) && TouchesNode(s, path, cut, n)
    requires cut <= 255 && |path| - cut - 1 <= 31 && Legal(path[cut + 1..])
    ensures Touch(s, path, data).1 == 0
    ensures var s' := Touch(s, path, data).0;
      && FsOk(s') && Find(s', path) == Some(n)
      && s'.nodes[n].data == TextOf(if n < |s.nodes| then s.nodes[n].data else [], data)
  {
    hide PoolOk, Touch, FirstAt, NoChild, IsFile, TextOf, Grown;
    TouchDone(s, path, cut, data, n);
    TouchGrows(s, path, cut, data);
    var s' := Touch(s, path, data).0;
    var name := path[cut + 1..];
    assert NameBehind(path, cut) == name;
    if cut < 0 {
      assert path == name;
      ChildFound(s', path);
    } else {
      SplitAtSlash(path, cut);
      FindGrown(s, s', path[..cut]);
      PathComposes(s', path[..cut], name);
      ChildFound(s'.(cwd := DirectoryOf(s, path, cut).value), name);
    }
  }

  lemma SplitAtSlash(path: seq<byte>, cut: int)
    requires LastSlashAt(path, cut) && 0 <= cut
    ensures path == path[..cut] + [47] + path[cut + 1..]
  {
  }

  // ---------- the text last touched ----------

  /** The operation gives node `n` a text. */
  ghost predicate Writes(s: Fs, op: Op, n: nat)
    requires FsOk(s)
  {
    op.OpTouch? && op.data.Some? && exists cut: int :: LastSlashAt(op.path, cut) && TouchesNode(s, op.path, cut, n)
  }

  lemma TouchKeepsText(s: Fs, path: seq<byte>, data: Option<seq<byte>>, n: nat)
    requires FsOk(s) && 0 !in path && n < |s.nodes| && !Writes(s, OpTouch(path, data), n)
    ensures var s' := Touch(s, path, data).0; n < |s'.nodes| && s'.nodes[n].data == s.nodes[n].data
  {
    hide PoolOk, TouchedIn, IsFile, Touch, LastSlashAt, NameBehind, DirectoryOf;
    var cut := LastSlash(path);
    LastSlashFound(path);
    TouchTouches(s, path, cut, data);
    TouchKeeps(s, path, data);
    TouchGrows(s, path, cut, data);
    var dir, r := DirectoryOf(s, path, cut), Touch(s, path, data);
    if path != [] && dir.Some? {
      var m := WhichFile(s.nodes, dir.value, NameBehind(path, cut), data, r.0.nodes, r.1);
      if r.1 == 0 {
        assert TouchesNode(s, path, cut, m);
        FileTouched(s.nodes, dir.value, NameBehind(path, cut), data, r.0.nodes, r.1, m);
      }
    }
  }

  /** No other operation changes the text of a node. */
  lemma TextKept(s: Fs, op: Op, n: nat)
    requires FsOk(s) && op.IsText() && n < |s.nodes| && !Writes(s, op, n)
    ensures var s' := Apply(s, op).0; n < |s'.nodes| && s'.nodes[n].data == s.nodes[n].data
  {
    hide PoolOk, FirstAt, NoChild;
    match op
    case OpMkdir(name) => MkdirMakes(s, name);
    case OpTouch(path, data) => TouchKeepsText(s, path, data, n);
    case OpChdir(path) => ChdirEnters(s, path);
    case OpRemove(name) => RemoveRemoves(s, name);
  }

  /** The text of a node is the one last given to it, whatever is made, entered, touched or removed meanwhile. */
  lemma {:induction false} RunKeepsText(ss: seq<Fs>, ops: seq<Op>, m: nat, n: nat, k: nat)
    requires IsRun(ss, ops) && m <= n <= |ops| && FsOk(ss[m]) && k < |ss[m].nodes|
    requires forall i :: 0 <= i < |ops| ==> ops[i].IsText()
    requires forall i :: m <= i < n && FsOk(ss[i]) ==> !Writes(ss[i], ops[i], k)
    ensures FsOk(ss[n]) && k < |ss[n].nodes| && ss[n].nodes[k].data == ss[m].nodes[k].data
  {
    hide FsOk, Writes, Apply;
    if m < n {
      RunKeepsText(ss, ops, m, n - 1, k);
      ApplyKeeps(ss[n - 1], ops[n - 1]);
      TextKept(ss[n - 1], ops[n - 1], k);
    }
  }

  lemma ApplyGrows(s: Fs, op: Op)
    requires FsOk(s) && op.IsText() && !op.OpRemove?
    ensures Grown(s.nodes, Apply(s, op).0.nodes)
  {
    hide PoolOk;
    match op
    case OpMkdir(name) => MkdirMakes(s, name);
    case OpTouch(path, data) =>
      LastSlashFound(path);
      TouchGrows(s, path, LastSlash(path), data);
    case OpChdir(path) =>
  }

  /** Until something is removed, an absolute path leads where it led. */
  lemma {:induction false} RunKeepsPath(ss: seq<Fs>, ops: seq<Op>, m: nat, n: nat, path: seq<byte>)
    requires IsRun(ss, ops) && m <= n <= |ops| && FsOk(ss[m]) && path != [] && path[0] == 47
    requires forall i :: 0 <= i < |ops| ==> ops[i].IsText()
    requires forall i :: m <= i < n ==> !ops[i].OpRemove?
    requires Find(ss[m], path).Some?
    ensures FsOk(ss[n]) && Find(ss[n], path) == Find(ss[m], path)
  {
    hide PoolOk, Apply, Grown, Find;
    if m < n {
      RunKeepsPath(ss, ops, m, n - 1, path);
      ApplyKeeps(ss[n - 1], ops[n - 1]);
      ApplyGrows(ss[n - 1], ops[n - 1]);
      FindGrown(ss[n - 1], ss[n], path);
    }
  }

  /**
    In any run: after a file was touched with a text, and until something is removed, its absolute path leads to
    a node whose text is the first 1023 bytes of that text, as long as no later touch writes that node.
   */
  lemma RunShowsLastText(ss: seq<Fs>, ops: seq<Op>, m: nat, n: nat, cut: int, k: nat)
    requires IsRun(ss, ops) && m < n <= |ops| && FsOk(ss[m]) && forall i :: 0 <= i < |ops| ==> ops[i].IsText()
    requires ops[m].OpTouch? && ops[m].data.Some? && LastSlashAt(ops[m].path, cut)
    requires ops[m].path != [] && ops[m].path[0] == 47 && TouchesNode(ss[m], ops[m].path, cut, k)
    requires cut <= 255 && |ops[m].path| - cut - 1 <= 31 && Legal(ops[m].path[cut + 1..])
    requires forall i :: m < i < n ==> !ops[i].OpRemove? && (FsOk(ss[i]) ==> !Writes(ss[i], ops[i], k))
    ensures FsOk(ss[n]) && Find(ss[n], ops[m].path) == Some(k)
    ensures var d := ops[m].data.value; ss[n].nodes[k].data == d[..Min(|d|, 1023)]
  {
    hide PoolOk, Touch, Writes, TouchesNode, Find, LastSlashAt, Legal;
    TouchedIsFound(ss[m], ops[m].path, cut, ops[m].data, k);
    RunKeepsPath(ss, ops, m + 1, n, ops[m].path);
    RunKeepsText(ss, ops, m + 1, n, k);
  }
}
