/** What every operation keeps, and hence what holds after any sequence of them. */
module VfsRuns {
  import opened Bytes
  import opened VfsModel

  // ---------- adding a node ----------

  lemma AddNodePool(nodes: seq<Node>, name: seq<byte>, kind: Kind, parent: nat)
    requires PoolOk(nodes) && parent < |nodes| && nodes[parent].kind == FsDir && 0 !in name
    ensures PoolOk(AddNode(nodes, name, kind, parent))
  {
    var r := AddNode(nodes, name, kind, parent);
    forall i: nat | i < |r|
      ensures NodeOk(r, i)
    {
      if i < |nodes| {
        AddNodeOld(nodes, name, kind, parent, i);
      }
    }
  }

  lemma AddNodeOld(nodes: seq<Node>, name: seq<byte>, kind: Kind, parent: nat, i: nat)
    requires PoolOk(nodes) && parent < |nodes| && i < |nodes| && nodes[parent].kind == FsDir
    ensures NodeOk(AddNode(nodes, name, kind, parent), i)
  {
    var r := AddNode(nodes, name, kind, parent);
    assert NodeOk(nodes, i);
    var n := nodes[i];
    assert forall a :: 0 <= a < |n.kids| ==> n.kids[a] in n.kids;
    assert forall k :: k in r[i].kids ==> k in n.kids || (k == |nodes| && i == parent);
    assert forall j :: 0 <= j < |nodes| ==> r[j].parent == nodes[j].parent && r[j].kind == nodes[j].kind;
  }

  /** Growing a pool keeps nodes attached. */
  lemma {:induction false} AttachedMonotone(a: seq<Node>, b: seq<Node>, n: nat)
    requires PoolOk(a) && PoolOk(b) && |a| <= |b| && n < |a|
    requires forall i :: 0 <= i < |a| ==> a[i].parent == b[i].parent && forall k :: k in a[i].kids ==> k in b[i].kids
    requires Attached(a, n)
    ensures Attached(b, n)
    decreases n
  {
    if n > 0 {
      AttachedMonotone(a, b, ParentOf(a, n));
    }
  }

  lemma AddNodeKeeps(s: Fs, name: seq<byte>, kind: Kind, parent: nat)
    requires FsOk(s) && |s.nodes| < MAX_NODES && parent < |s.nodes| && s.nodes[parent].kind == FsDir && 0 !in name
    ensures FsOk(s.(nodes := AddNode(s.nodes, name, kind, parent)))
  {
    AddNodePool(s.nodes, name, kind, parent);
    AttachedMonotone(s.nodes, AddNode(s.nodes, name, kind, parent), s.cwd);
  }

  lemma SetDataKeeps(s: Fs, n: nat, data: Option<seq<byte>>)
    requires FsOk(s) && n < |s.nodes|
    ensures FsOk(s.(nodes := SetData(s.nodes, n, data)))
  {
    var r := SetData(s.nodes, n, data);
    assert forall i :: 0 <= i < |r| ==> r[i] == s.nodes[i].(data := r[i].data);
    forall i: nat | i < |r|
      ensures NodeOk(r, i)
    {
      assert NodeOk(s.nodes, i);
    }
    AttachedMonotone(s.nodes, r, s.cwd);
  }

  // ---------- moving ----------

  lemma {:induction false} ResolveAttached(nodes: seq<Node>, cur: nat, segs: seq<seq<byte>>)
    requires PoolOk(nodes) && cur < |nodes| && Attached(nodes, cur)
    ensures var r := Resolve(nodes, cur, segs); r.Some? ==> Attached(nodes, r.value)
    decreases |segs|
  {
    if segs != [] {
      var r := Step(nodes, cur, segs[0]);
      if r.Some? {
        StepAttached(nodes, cur, segs[0]);
        ResolveAttached(nodes, r.value, segs[1..]);
      }
    }
  }

  lemma StepAttached(nodes: seq<Node>, cur: nat, seg: seq<byte>)
    requires PoolOk(nodes) && cur < |nodes| && Attached(nodes, cur)
    ensures var r := Step(nodes, cur, seg); r.Some? ==> Attached(nodes, r.value)
  {
    var r := Step(nodes, cur, seg);
    assert NodeOk(nodes, 0);
    if r.Some? && seg != DOT_NAME && seg != DOTDOT_NAME {
      assert r.value in KidsOf(nodes, cur);
      assert ParentOf(nodes, r.value) == cur;
    }
  }

  lemma FindAttached(s: Fs, path: seq<byte>)
    requires FsOk(s)
    ensures Find(s, path).Some? ==> Attached(s.nodes, Find(s, path).value)
  {
    if path != [] {
      ResolveAttached(s.nodes, if path[0] == SLASH then 0 else s.cwd, Pieces(path));
    }
  }

  // ---------- removing ----------

  /** Nodes at or above the current directory do not hang below one of its children. */
  lemma {:induction false} DetachKeeps(a: seq<Node>, d: nat, kids: seq<nat>, n: nat)
    requires PoolOk(a) && n <= d < |a| && PoolOk(WithKids(a, d, kids))
    requires Attached(a, n)
    ensures Attached(WithKids(a, d, kids), n)
    decreases n
  {
    if n > 0 {
      DetachKeeps(a, d, kids, ParentOf(a, n));
    }
  }

  lemma RemovePool(nodes: seq<Node>, d: nat, p: nat)
    requires PoolOk(nodes) && d < |nodes| && p < |nodes[d].kids|
    ensures var kids := nodes[d].kids; PoolOk(WithKids(nodes, d, kids[..p] + kids[p + 1..]))
  {
    var kids := nodes[d].kids;
    var kids' := kids[..p] + kids[p + 1..];
    var r := WithKids(nodes, d, kids');
    assert forall j :: 0 <= j < |r| ==> r[j].parent == nodes[j].parent && r[j].kind == nodes[j].kind;
    forall i: nat | i < |r|
      ensures NodeOk(r, i)
    {
      assert NodeOk(nodes, i);
      if i == d {
        assert forall k :: k in kids' ==> k in kids;
        assert forall a :: 0 <= a < |kids'| ==> kids'[a] == kids[if a < p then a else a + 1];
      }
    }
  }

  lemma RemoveKeeps(s: Fs, name: seq<byte>)
    requires FsOk(s)
    ensures FsOk(Remove(s, name).0)
  {
    var kids := KidsOf(s.nodes, s.cwd);
    var p := FirstNamed(s.nodes, kids, name);
    if name != [] && p < |kids| {
      RemovePool(s.nodes, s.cwd, p);
      DetachKeeps(s.nodes, s.cwd, kids[..p] + kids[p + 1..], s.cwd);
    }
  }

  // ---------- every operation, every run ----------

  lemma MkdirKeeps(s: Fs, name: seq<byte>)
    requires FsOk(s) && 0 !in name
    ensures FsOk(Mkdir(s, name).0)
  {
    if |s.nodes| < MAX_NODES {
      AddNodeKeeps(s, name, FsDir, s.cwd);
    }
  }

  lemma TouchAtKeeps(s: Fs, dir: Option<nat>, name: seq<byte>, data: Option<seq<byte>>)
    requires FsOk(s) && 0 !in name
    requires dir.Some? ==> dir.value < |s.nodes| && s.nodes[dir.value].kind == FsDir
    ensures FsOk(TouchAt(s, dir, name, data).0)
  {
    if dir.Some? {
      var kids := KidsOf(s.nodes, dir.value);
      var p := FirstNamed(s.nodes, kids, name);
      if p < |kids| {
        SetDataKeeps(s, kids[p], data);
      } else if |kids| < MAX_CHILDREN && |s.nodes| < MAX_NODES {
        AddNodeKeeps(s, name, FsFile, dir.value);
        SetDataKeeps(s.(nodes := AddNode(s.nodes, name, FsFile, dir.value)), |s.nodes|, data);
      }
    }
  }

  lemma TouchNameHasNoNul(path: seq<byte>)
    requires 0 !in path
    ensures 0 !in TouchName(path)
  {
    var i := LastSlash(path) + 1;
    var name := TouchName(path);
    forall k | 0 <= k < |name|
      ensures name[k] != 0
    {
      assert name[k] == path[i + k];
    }
  }

  lemma TouchKeeps(s: Fs, path: seq<byte>, data: Option<seq<byte>>)
    requires FsOk(s) && 0 !in path
    ensures FsOk(Touch(s, path, data).0)
  {
    TouchNameHasNoNul(path);
    TouchAtKeeps(s, TouchDir(s, path), TouchName(path), data);
  }

  lemma ChdirKeeps(s: Fs, path: seq<byte>)
    requires FsOk(s)
    ensures FsOk(Chdir(s, path).0)
  {
    FindAttached(s, path);
    FindAttached(s, HOME);
    assert NodeOk(s.nodes, 0);
  }

  lemma ApplyKeeps(s: Fs, op: Op)
    requires FsOk(s) && op.IsText()
    ensures FsOk(Apply(s, op).0)
  {
    match op
    case OpMkdir(n) => MkdirKeeps(s, n);
    case OpTouch(p, d) => TouchKeeps(s, p, d);
    case OpChdir(p) => ChdirKeeps(s, p);
    case OpRemove(n) => RemoveKeeps(s, n);
  }

  /** The states of a run: each follows from the one before by the operation between them. */
  ghost predicate IsRun(ss: seq<Fs>, ops: seq<Op>) {
    && |ss| == |ops| + 1
    && (forall i :: 0 <= i < |ops| ==> FsOk(ss[i]) ==> ss[i + 1] == Apply(ss[i], ops[i]).0)
  }

  /** From a good state every run stays good, whatever is created, entered or removed. */
  lemma {:induction false} RunKeepsInvariant(ss: seq<Fs>, ops: seq<Op>, n: nat)
    requires IsRun(ss, ops) && FsOk(ss[0]) && n <= |ops|
    requires forall i :: 0 <= i < |ops| ==> ops[i].IsText()
    ensures FsOk(ss[n])
  {
    if n > 0 {
      RunKeepsInvariant(ss, ops, n - 1);
      ApplyKeeps(ss[n - 1], ops[n - 1]);
    }
  }
}
