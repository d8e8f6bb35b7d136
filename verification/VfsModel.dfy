/**
  The RAM file system as a value: a pool of nodes with parent and child links, a current
  directory, and every operation as a function on that state.
 */
module VfsModel {
  import opened Bytes

  const MAX_NAME_LEN := 32
  const MAX_FILE_SIZE := 1024
  const MAX_CHILDREN := 16
  const MAX_NODES := 128
  const DIR_PATH_SIZE := 256
  const SLASH: byte := 47
  const DOT_NAME: seq<byte> := [46]
  const DOTDOT_NAME: seq<byte> := [46, 46]

  datatype Kind = FsFile | FsDir

  /** `data` is the text before the terminating NUL, `parent` is -1 at the root. */
  datatype Node = Node(name: seq<byte>, kind: Kind, data: seq<byte>, parent: int, kids: seq<nat>)

  /** Pool index 0 is the root. */
  datatype Fs = Fs(nodes: seq<Node>, cwd: nat)

  function Trunc(name: seq<byte>): (r: seq<byte>)
    ensures |r| < MAX_NAME_LEN && r <= name
  {
    name[..Min(|name|, MAX_NAME_LEN - 1)]
  }

  // ---------- well-formed states ----------

  /**
    One node of a sound pool: its parent is an earlier directory, its children are later nodes
    that point back, are distinct and at most 16; files have none.
   */
  ghost predicate NodeOk(nodes: seq<Node>, i: nat)
    requires i < |nodes|
  {
    var n := nodes[i];
    && (if i == 0 then n.parent == -1 && n.kind == FsDir else 0 <= n.parent < i && nodes[n.parent].kind == FsDir)
    && (forall k :: k in n.kids ==> i < k < |nodes| && nodes[k].parent == i)
    && (forall a, b :: 0 <= a < b < |n.kids| ==> n.kids[a] != n.kids[b])
    && |n.kids| <= MAX_CHILDREN && (n.kind == FsFile ==> n.kids == [])
    && |n.name| < MAX_NAME_LEN && 0 !in n.name
  }

  ghost predicate PoolOk(nodes: seq<Node>) {
    |nodes| >= 1 && forall i: nat :: i < |nodes| ==> NodeOk(nodes, i)
  }

  function KidsOf(nodes: seq<Node>, i: nat): (kids: seq<nat>)
    requires PoolOk(nodes) && i < |nodes|
    ensures forall k :: k in kids ==> i < k < |nodes| && nodes[k].parent == i
    ensures forall a :: 0 <= a < |kids| ==> i < kids[a] < |nodes|
  {
    assert NodeOk(nodes, i);
    var kids := nodes[i].kids;
    assert forall a :: 0 <= a < |kids| ==> kids[a] in kids;
    kids
  }

  /** The parent; the root is its own. */
  function ParentOf(nodes: seq<Node>, i: nat): (p: nat)
    requires PoolOk(nodes) && i < |nodes|
    ensures p < |nodes| && nodes[p].kind == FsDir && (i > 0 ==> p < i)
  {
    assert NodeOk(nodes, i);
    if nodes[i].parent >= 0 then nodes[i].parent else i
  }

  /** `n` hangs on the tree: every link from the root down to it is still there. */
  ghost predicate Attached(nodes: seq<Node>, n: nat)
    requires PoolOk(nodes) && n < |nodes|
    decreases n
  {
    n == 0 || (n in KidsOf(nodes, ParentOf(nodes, n)) && Attached(nodes, ParentOf(nodes, n)))
  }

  /** The run invariant. */
  ghost predicate FsOk(s: Fs) {
    && PoolOk(s.nodes) && |s.nodes| <= MAX_NODES
    && s.cwd < |s.nodes| && s.nodes[s.cwd].kind == FsDir && Attached(s.nodes, s.cwd)
  }

  ghost predicate UniqueIn(nodes: seq<Node>, i: nat)
    requires PoolOk(nodes) && i < |nodes|
  {
    var kids := KidsOf(nodes, i);
    forall a, b :: 0 <= a < b < |kids| ==> nodes[kids[a]].name != nodes[kids[b]].name
  }

  ghost predicate SiblingsUnique(nodes: seq<Node>)
    requires PoolOk(nodes)
  {
    forall i: nat :: i < |nodes| ==> UniqueIn(nodes, i)
  }

  // ---------- looking up children and paths ----------

  /** Position of the first child called `name`, or the number of children. */
  function FirstNamed(nodes: seq<Node>, kids: seq<nat>, name: seq<byte>): (p: nat)
    requires forall i :: 0 <= i < |kids| ==> kids[i] < |nodes|
    ensures p <= |kids|
    ensures p < |kids| ==> nodes[kids[p]].name == name
    ensures forall q :: 0 <= q < p ==> nodes[kids[q]].name != name
  {
    if kids == [] then 0
    else if nodes[kids[0]].name == name then 0
    else 1 + FirstNamed(nodes, kids[1..], name)
  }

  /** Length of the run of non-slash bytes at the front. */
  function RunLength(path: seq<byte>): (n: nat)
    ensures n <= |path| && SLASH !in path[..n] && (n < |path| ==> path[n] == SLASH)
  {
    if path == [] || path[0] == SLASH then 0
    else
      var n := 1 + RunLength(path[1..]);
      assert path[..n] == [path[0]] + path[1..][..n - 1];
      n
  }

  /** The segments between slashes, empty ones dropped. */
  function Segments(path: seq<byte>): (segs: seq<seq<byte>>)
    ensures forall i :: 0 <= i < |segs| ==> segs[i] != [] && SLASH !in segs[i]
    decreases |path|
  {
    if path == [] then []
    else if path[0] == SLASH then Segments(path[1..])
    else [path[..RunLength(path)]] + Segments(path[RunLength(path)..])
  }

  /** What the resolver works on: segments cut into pieces of at most 31 bytes. */
  function Pieces(path: seq<byte>): (segs: seq<seq<byte>>)
    ensures forall i :: 0 <= i < |segs| ==> segs[i] != [] && |segs[i]| < MAX_NAME_LEN && SLASH !in segs[i]
    decreases |path|
  {
    if path == [] then []
    else if path[0] == SLASH then Pieces(path[1..])
    else
      var n := Min(RunLength(path), MAX_NAME_LEN - 1);
      assert forall b :: b in path[..n] ==> b in path[..RunLength(path)];
      [path[..n]] + Pieces(path[n..])
  }

  /** One segment: stay, go up (the root stays), or enter the first child of that name. */
  function Step(nodes: seq<Node>, cur: nat, seg: seq<byte>): (r: Option<nat>)
    requires PoolOk(nodes) && cur < |nodes|
    ensures r.Some? ==> r.value < |nodes|
  {
    if seg == DOT_NAME then Some(cur)
    else if seg == DOTDOT_NAME then Some(ParentOf(nodes, cur))
    else
      var kids := KidsOf(nodes, cur);
      var p := FirstNamed(nodes, kids, seg);
      if p < |kids| then Some(kids[p]) else None
  }

  function Resolve(nodes: seq<Node>, cur: nat, segs: seq<seq<byte>>): (r: Option<nat>)
    requires PoolOk(nodes) && cur < |nodes|
    ensures r.Some? ==> r.value < |nodes|
    decreases |segs|
  {
    if segs == [] then Some(cur)
    else
      match Step(nodes, cur, segs[0])
      case None => None
      case Some(next) => Resolve(nodes, next, segs[1..])
  }

  function Find(s: Fs, path: seq<byte>): (r: Option<nat>)
    requires PoolOk(s.nodes) && s.cwd < |s.nodes|
    ensures r.Some? ==> r.value < |s.nodes|
  {
    if path == [] then None
    else Resolve(s.nodes, if path[0] == SLASH then 0 else s.cwd, Pieces(path))
  }

  // ---------- operations ----------

  function AddNode(nodes: seq<Node>, name: seq<byte>, kind: Kind, parent: nat): (r: seq<Node>)
    requires parent < |nodes|
    ensures |r| == |nodes| + 1
  {
    var p := nodes[parent];
    (if |p.kids| < MAX_CHILDREN then nodes[parent := p.(kids := p.kids + [|nodes|])] else nodes)
    + [Node(Trunc(name), kind, [], parent, [])]
  }

  function Mkdir(s: Fs, name: seq<byte>): (r: (Fs, int))
    requires FsOk(s)
  {
    var kids := KidsOf(s.nodes, s.cwd);
    if name == [] then (s, -1)
    else if |kids| >= MAX_CHILDREN then (s, -2)
    else if FirstNamed(s.nodes, kids, name) < |kids| then (s, -3)
    else if |s.nodes| >= MAX_NODES then (s, -4)
    else (s.(nodes := AddNode(s.nodes, name, FsDir, s.cwd)), 0)
  }

  /** The text a file keeps: at most 1023 bytes. */
  function Kept(data: seq<byte>): seq<byte> {
    data[..Min(|data|, MAX_FILE_SIZE - 1)]
  }

  function SetData(nodes: seq<Node>, n: nat, data: Option<seq<byte>>): (r: seq<Node>)
    requires n < |nodes|
    ensures |r| == |nodes|
  {
    match data
    case None => nodes
    case Some(d) => nodes[n := nodes[n].(data := Kept(d))]
  }

  /** Position of the last slash, or -1. */
  function LastSlash(path: seq<byte>): (i: int)
    ensures -1 <= i < |path| && (i >= 0 ==> path[i] == SLASH)
    ensures forall j :: i < j < |path| ==> path[j] != SLASH
  {
    if path == [] then -1
    else if path[|path| - 1] == SLASH then |path| - 1
    else LastSlash(path[..|path| - 1])
  }

  /** The directory a path names a file in: the current one, or the one before the last slash. */
  function TouchDir(s: Fs, path: seq<byte>): (r: Option<nat>)
    requires FsOk(s)
    ensures r.Some? ==> r.value < |s.nodes| && s.nodes[r.value].kind == FsDir
  {
    var cut := LastSlash(path);
    if cut < 0 then Some(s.cwd)
    else
      match Find(s, path[..Min(cut, DIR_PATH_SIZE - 1)])
      case None => None
      case Some(n) => if s.nodes[n].kind == FsDir then Some(n) else None
  }

  function TouchIn(nodes: seq<Node>, dir: nat, name: seq<byte>, data: Option<seq<byte>>): (r: (seq<Node>, int))
    requires PoolOk(nodes) && dir < |nodes|
  {
    var kids := KidsOf(nodes, dir);
    var p := FirstNamed(nodes, kids, name);
    if p < |kids| then (SetData(nodes, kids[p], data), 0)
    else if |kids| >= MAX_CHILDREN then (nodes, -2)
    else if |nodes| >= MAX_NODES then (nodes, -4)
    else (SetData(AddNode(nodes, name, FsFile, dir), |nodes|, data), 0)
  }

  /** The file name part, cut to 31 bytes. */
  function TouchName(path: seq<byte>): seq<byte> {
    Trunc(path[LastSlash(path) + 1..])
  }

  function TouchAt(s: Fs, dir: Option<nat>, name: seq<byte>, data: Option<seq<byte>>): (r: (Fs, int))
    requires FsOk(s) && (dir.Some? ==> dir.value < |s.nodes|)
  {
    match dir
    case None => (s, -1)
    case Some(d) =>
      var r := TouchIn(s.nodes, d, name, data);
      (s.(nodes := r.0), r.1)
  }

  function Touch(s: Fs, path: seq<byte>, data: Option<seq<byte>>): (r: (Fs, int))
    requires FsOk(s)
  {
    if path == [] then (s, -1) else TouchAt(s, TouchDir(s, path), TouchName(path), data)
  }

  const HOME: seq<byte> := Ascii("/home")
  const TILDE: seq<byte> := Ascii("~")

  function Chdir(s: Fs, path: seq<byte>): (r: (Fs, int))
    requires FsOk(s)
  {
    if path == [] || path == TILDE then
      match Find(s, HOME)
      case Some(h) => (s.(cwd := if s.nodes[h].kind == FsDir then h else 0), 0)
      case None => (s.(cwd := 0), 0)
    else
      match Find(s, path)
      case None => (s, -1)
      case Some(n) => if s.nodes[n].kind != FsDir then (s, -2) else (s.(cwd := n), 0)
  }

  function WithKids(nodes: seq<Node>, i: nat, kids: seq<nat>): (r: seq<Node>)
    requires i < |nodes|
    ensures |r| == |nodes|
  {
    nodes[i := nodes[i].(kids := kids)]
  }

  function Remove(s: Fs, name: seq<byte>): (r: (Fs, int))
    requires FsOk(s)
  {
    var kids := KidsOf(s.nodes, s.cwd);
    var p := FirstNamed(s.nodes, kids, name);
    if name == [] || p == |kids| then (s, -1)
    else (s.(nodes := WithKids(s.nodes, s.cwd, kids[..p] + kids[p + 1..])), 0)
  }

  datatype Op =
    | OpMkdir(name: seq<byte>)
    | OpTouch(path: seq<byte>, data: Option<seq<byte>>)
    | OpChdir(path: seq<byte>)
    | OpRemove(name: seq<byte>)
  {
    /** Arguments are C strings. */
    ghost predicate IsText() {
      match this
      case OpMkdir(n) => 0 !in n
      case OpTouch(p, d) => 0 !in p && (d.Some? ==> 0 !in d.value)
      case OpChdir(p) => 0 !in p
      case OpRemove(n) => 0 !in n
    }
  }

  function Apply(s: Fs, op: Op): (r: (Fs, int))
    requires FsOk(s)
  {
    match op
    case OpMkdir(n) => Mkdir(s, n)
    case OpTouch(p, d) => Touch(s, p, d)
    case OpChdir(p) => Chdir(s, p)
    case OpRemove(n) => Remove(s, n)
  }
}
