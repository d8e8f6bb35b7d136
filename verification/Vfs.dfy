/** The RAM file system as the kernel keeps it: a static pool, a node count and a current directory. */
module VfsStore {
  import opened Bytes
  import opened VfsModel
  import opened VfsRuns
  import opened VfsPaths
  import opened VfsLaws

  /** The wording of the six built-in files, in order of creation. */
  ghost predicate IsTexts(texts: seq<seq<byte>>) {
    |texts| == 6 && forall i :: 0 <= i < 6 ==> |texts[i]| < MAX_FILE_SIZE && 0 !in texts[i]
  }

  const ROOT_NAME: seq<byte> := Ascii("/")
  const BIN: seq<byte> := Ascii("bin")
  const ETC: seq<byte> := Ascii("etc")
  const HOMES: seq<byte> := Ascii("home")
  const DOCS: seq<byte> := Ascii("docs")
  const AI: seq<byte> := Ascii("ai")
  const OS_RELEASE: seq<byte> := Ascii("os-release")
  const WELCOME: seq<byte> := Ascii("welcome.txt")
  const HARDWARE: seq<byte> := Ascii("hardware.txt")
  const AI_TEXT: seq<byte> := Ascii("ai.txt")
  const README: seq<byte> := Ascii("readme.txt")

  function DirNode(name: seq<byte>, parent: int, kids: seq<nat>): Node {
    Node(name, FsDir, [], parent, kids)
  }

  function FileNode(name: seq<byte>, parent: int, text: seq<byte>): Node {
    Node(name, FsFile, text, parent, [])
  }

  /** The tree vfs_init builds. */
  function InitialNodes(texts: seq<seq<byte>>): (nodes: seq<Node>)
    requires |texts| == 6
    ensures |nodes| == 11
  {
    [ DirNode(ROOT_NAME, -1, [1, 2, 3, 4]),
      DirNode(BIN, 0, [5]), DirNode(ETC, 0, [6]), DirNode(HOMES, 0, [10]), DirNode(DOCS, 0, [7, 8, 9]),
      FileNode(AI, 1, texts[0]), FileNode(OS_RELEASE, 2, texts[1]),
      FileNode(WELCOME, 4, texts[2]), FileNode(HARDWARE, 4, texts[3]), FileNode(AI_TEXT, 4, texts[4]),
      FileNode(README, 3, texts[5]) ]
  }

  function AddText(nodes: seq<Node>, name: seq<byte>, parent: nat, text: seq<byte>): (r: seq<Node>)
    requires parent < |nodes|
    ensures |r| == |nodes| + 1
  {
    var r := AddNode(nodes, name, FsFile, parent);
    r[|nodes| := r[|nodes|].(data := text)]
  }

  function Dirs(): (nodes: seq<Node>)
    ensures |nodes| == 5
  {
    [ DirNode(ROOT_NAME, -1, [1, 2, 3, 4]),
      DirNode(BIN, 0, []), DirNode(ETC, 0, []), DirNode(HOMES, 0, []), DirNode(DOCS, 0, []) ]
  }

  lemma TruncShort(name: seq<byte>)
    requires |name| < MAX_NAME_LEN
    ensures Trunc(name) == name
  {
  }

  lemma InitialDirs()
    ensures var two := AddNode(AddNode([DirNode(ROOT_NAME, -1, [])], BIN, FsDir, 0), ETC, FsDir, 0);
      AddNode(AddNode(two, HOMES, FsDir, 0), DOCS, FsDir, 0) == Dirs()
  {
    hide AddNode;
    var n0 := [DirNode(ROOT_NAME, -1, [])];
    var n1 := AddDirAt(n0, BIN, [1]);
    var n2 := AddDirAt(n1, ETC, [1, 2]);
    var n3 := AddDirAt(n2, HOMES, [1, 2, 3]);
    var n4 := AddDirAt(n3, DOCS, [1, 2, 3, 4]);
  }

  lemma AddDirAt(nodes: seq<Node>, name: seq<byte>, kids: seq<nat>) returns (r: seq<Node>)
    requires |name| < MAX_NAME_LEN
    requires 0 < |nodes| && |nodes[0].kids| < MAX_CHILDREN && kids == nodes[0].kids + [|nodes|]
    ensures r == AddNode(nodes, name, FsDir, 0)
    ensures r == nodes[0 := nodes[0].(kids := kids)] + [DirNode(name, 0, [])]
  {
    TruncShort(name);
    r := AddNode(nodes, name, FsDir, 0);
  }

  lemma AddTextAt(nodes: seq<Node>, name: seq<byte>, parent: nat, text: seq<byte>, kids: seq<nat>)
    returns (r: seq<Node>)
    requires |name| < MAX_NAME_LEN
    requires parent < |nodes| && |nodes[parent].kids| < MAX_CHILDREN && kids == nodes[parent].kids + [|nodes|]
    ensures r == AddText(nodes, name, parent, text)
    ensures r == nodes[parent := nodes[parent].(kids := kids)] + [FileNode(name, parent, text)]
  {
    TruncShort(name);
    r := AddText(nodes, name, parent, text);
  }

  /** The tree after the first three of the built-in files. */
  function HalfNodes(texts: seq<seq<byte>>): (nodes: seq<Node>)
    requires |texts| == 6
    ensures |nodes| == 8
  {
    [ DirNode(ROOT_NAME, -1, [1, 2, 3, 4]),
      DirNode(BIN, 0, [5]), DirNode(ETC, 0, [6]), DirNode(HOMES, 0, []), DirNode(DOCS, 0, [7]),
      FileNode(AI, 1, texts[0]), FileNode(OS_RELEASE, 2, texts[1]), FileNode(WELCOME, 4, texts[2]) ]
  }

  lemma FirstFiles(texts: seq<seq<byte>>)
    requires |texts| == 6
    ensures AddText(AddText(AddText(Dirs(), AI, 1, texts[0]), OS_RELEASE, 2, texts[1]), WELCOME, 4, texts[2])
      == HalfNodes(texts)
  {
    hide AddText;
    var n1 := AddTextAt(Dirs(), AI, 1, texts[0], [5]);
    var n2 := AddTextAt(n1, OS_RELEASE, 2, texts[1], [6]);
    var n3 := AddTextAt(n2, WELCOME, 4, texts[2], [7]);
  }

  lemma LastFiles(texts: seq<seq<byte>>)
    requires |texts| == 6
    ensures var more := AddText(AddText(HalfNodes(texts), HARDWARE, 4, texts[3]), AI_TEXT, 4, texts[4]);
      AddText(more, README, 3, texts[5]) == InitialNodes(texts)
  {
    hide AddText;
    var n4 := AddTextAt(HalfNodes(texts), HARDWARE, 4, texts[3], [7, 8]);
    var n5 := AddTextAt(n4, AI_TEXT, 4, texts[4], [7, 8, 9]);
    var n6 := AddTextAt(n5, README, 3, texts[5], [10]);
  }

  lemma AddTextPool(nodes: seq<Node>, name: seq<byte>, parent: nat, text: seq<byte>)
    requires PoolOk(nodes) && parent < |nodes| && nodes[parent].kind == FsDir && 0 !in name
    ensures PoolOk(AddText(nodes, name, parent, text))
  {
    hide AddNode;
    AddNodePool(nodes, name, FsFile, parent);
    var grown := AddNode(nodes, name, FsFile, parent);
    var r := AddText(nodes, name, parent, text);
    forall i: nat | i < |r|
      ensures NodeOk(r, i)
    {
      assert NodeOk(grown, i);
    }
  }

  lemma DirsPool()
    ensures PoolOk(Dirs())
  {
    forall i: nat | i < 5
      ensures NodeOk(Dirs(), i)
    {
    }
  }

  lemma FirstPool(texts: seq<seq<byte>>)
    requires |texts| == 6
    ensures PoolOk(HalfNodes(texts))
  {
    hide AddText, PoolOk;
    DirsPool();
    FirstFiles(texts);
    var n1 := AddTextAt(Dirs(), AI, 1, texts[0], [5]);
    AddTextPool(Dirs(), AI, 1, texts[0]);
    var n2 := AddTextAt(n1, OS_RELEASE, 2, texts[1], [6]);
    AddTextPool(n1, OS_RELEASE, 2, texts[1]);
    AddTextPool(n2, WELCOME, 4, texts[2]);
  }

  lemma InitialPoolOk(texts: seq<seq<byte>>)
    requires IsTexts(texts)
    ensures PoolOk(InitialNodes(texts))
  {
    hide AddText, PoolOk;
    FirstPool(texts);
    LastFiles(texts);
    var n4 := AddTextAt(HalfNodes(texts), HARDWARE, 4, texts[3], [7, 8]);
    AddTextPool(HalfNodes(texts), HARDWARE, 4, texts[3]);
    var n5 := AddTextAt(n4, AI_TEXT, 4, texts[4], [7, 8, 9]);
    AddTextPool(n4, AI_TEXT, 4, texts[4]);
    AddTextPool(n5, README, 3, texts[5]);
  }

  lemma FewKidsUnique(nodes: seq<Node>, i: nat)
    requires PoolOk(nodes) && i < |nodes| && |nodes[i].kids| <= 1
    ensures UniqueIn(nodes, i)
  {
    hide PoolOk;
    assert |KidsOf(nodes, i)| <= 1;
  }

  lemma RootUnique(texts: seq<seq<byte>>)
    requires IsTexts(texts) && PoolOk(InitialNodes(texts))
    ensures UniqueIn(InitialNodes(texts), 0)
  {
    hide PoolOk;
    var nodes := InitialNodes(texts);
    assert nodes[1].name[0] == 98 && nodes[2].name[0] == 101 && nodes[3].name[0] == 104 && nodes[4].name[0] == 100;
  }

  lemma DocsUnique(texts: seq<seq<byte>>)
    requires IsTexts(texts) && PoolOk(InitialNodes(texts))
    ensures UniqueIn(InitialNodes(texts), 4)
  {
    hide PoolOk;
    var nodes := InitialNodes(texts);
    assert |nodes[7].name| == 11 && |nodes[8].name| == 12 && |nodes[9].name| == 6;
  }

  lemma OthersHaveFewKids(texts: seq<seq<byte>>, i: nat)
    requires |texts| == 6 && i < 11 && i != 0 && i != 4
    ensures |InitialNodes(texts)[i].kids| <= 1
  {
  }

  /** The tree after vfs_init is sound, with distinct sibling names, and the root is the current directory. */
  lemma InitialOk(texts: seq<seq<byte>>)
    requires IsTexts(texts)
    ensures FsOk(Fs(InitialNodes(texts), 0)) && SiblingsUnique(InitialNodes(texts))
  {
    hide UniqueIn, PoolOk;
    InitialPoolOk(texts);
    RootUnique(texts);
    DocsUnique(texts);
    forall i: nat | i < 11
      ensures UniqueIn(InitialNodes(texts), i)
    {
      if i != 0 && i != 4 {
        OthersHaveFewKids(texts, i);
        FewKidsUnique(InitialNodes(texts), i);
      }
    }
  }

  class Vfs {
    const pool: array<Node>
    var nodeCount: nat
    var currentDir: nat

    constructor ()
      ensures fresh(pool) && pool.Length == MAX_NODES && nodeCount == 0
    {
      pool := new Node[MAX_NODES](_ => Node([], FsFile, [], -1, []));
      nodeCount, currentDir := 0, 0;
    }

    ghost function State(): Fs
      reads this, pool
      requires nodeCount <= pool.Length
    {
      Fs(pool[..nodeCount], currentDir)
    }

    ghost predicate Valid()
      reads this, pool
    {
      pool.Length == MAX_NODES && nodeCount <= MAX_NODES && FsOk(State())
    }

    /** vfs_init */
    method Init(texts: seq<seq<byte>>)
      requires pool.Length == MAX_NODES && IsTexts(texts)
      modifies this, pool
      ensures nodeCount <= pool.Length && State() == Fs(InitialNodes(texts), 0)
    {
      InitDirs();
      InitFiles(texts);
    }

    method InitDirs()
      requires pool.Length == MAX_NODES
      modifies this, pool
      ensures nodeCount == 5 && currentDir == 0 && pool[..5] == Dirs()
    {
      pool[0] := Node(ROOT_NAME, FsDir, [], -1, []);
      nodeCount, currentDir := 1, 0;
      assert pool[..nodeCount] == [DirNode(ROOT_NAME, -1, [])];
      var bin := AllocNode(BIN, FsDir, 0);
      var etc := AllocNode(ETC, FsDir, 0);
      var home := AllocNode(HOMES, FsDir, 0);
      var docs := AllocNode(DOCS, FsDir, 0);
      InitialDirs();
    }

    method InitFiles(texts: seq<seq<byte>>)
      requires pool.Length == MAX_NODES && IsTexts(texts)
      requires nodeCount == 5 && pool[..5] == Dirs()
      modifies this`nodeCount, pool
      ensures nodeCount == 11 && pool[..11] == InitialNodes(texts)
    {
      hide AddText, PoolOk;
      AllocText(AI, 1, texts[0]);
      AllocText(OS_RELEASE, 2, texts[1]);
      AllocText(WELCOME, 4, texts[2]);
      FirstFiles(texts);
      AllocText(HARDWARE, 4, texts[3]);
      AllocText(AI_TEXT, 4, texts[4]);
      AllocText(README, 3, texts[5]);
      LastFiles(texts);
    }

    /** A built-in file with its text. */
    method AllocText(name: seq<byte>, parent: nat, text: seq<byte>)
      requires pool.Length == MAX_NODES && parent < nodeCount < MAX_NODES
      modifies this`nodeCount, pool
      ensures nodeCount == old(nodeCount) + 1
      ensures pool[..nodeCount] == AddText(old(pool[..nodeCount]), name, parent, text)
    {
      var n := AllocNode(name, FsFile, parent);
      if n >= 0 {
        pool[n] := pool[n].(data := text);
      }
    }

    /** alloc_node for a child of `parent`; -1 when the pool is used up. */
    method AllocNode(name: seq<byte>, kind: Kind, parent: nat) returns (n: int)
      requires pool.Length == MAX_NODES && parent < nodeCount <= MAX_NODES
      modifies this`nodeCount, pool
      ensures nodeCount <= MAX_NODES
      ensures old(nodeCount) == MAX_NODES ==> n == -1 && State() == old(State())
      ensures old(nodeCount) < MAX_NODES ==> n == old(nodeCount) && nodeCount == n + 1
      ensures old(nodeCount) < MAX_NODES ==>
        State() == old(State()).(nodes := AddNode(old(State()).nodes, name, kind, parent))
    {
      if nodeCount >= MAX_NODES {
        return -1;
      }
      var copied: seq<byte> := [];
      var i := 0;
      while i < |name| && i < MAX_NAME_LEN - 1
        invariant i <= Min(|name|, MAX_NAME_LEN - 1) && copied == name[..i]
      {
        copied := copied + [name[i]];
        i := i + 1;
      }
      assert copied == Trunc(name);
      n := nodeCount;
      pool[n] := Node(copied, kind, [], parent, []);
      nodeCount := nodeCount + 1;
      if |pool[parent].kids| < MAX_CHILDREN {
        pool[parent] := pool[parent].(kids := pool[parent].kids + [n]);
      }
      assert pool[..nodeCount] == AddNode(old(pool[..nodeCount]), name, kind, parent);
    }

    /** The child search shared by all operations. */
    method FindChild(dir: nat, name: seq<byte>) returns (p: nat)
      requires Valid() && dir < nodeCount
      ensures p == FirstNamed(State().nodes, KidsOf(State().nodes, dir), name)
    {
      ghost var nodes := State().nodes;
      ghost var kids := KidsOf(nodes, dir);
      p := 0;
      while p < |pool[dir].kids|
        invariant p <= |kids| && pool[dir].kids == kids
        invariant FirstNamed(nodes, kids, name) == p + FirstNamed(nodes, kids[p..], name)
      {
        if pool[pool[dir].kids[p]].name == name {
          return;
        }
        p := p + 1;
      }
    }

    /** Follows one segment from node `dir`. */
    method FollowSegment(dir: nat, segment: seq<byte>) returns (r: Option<nat>)
      requires Valid() && dir < nodeCount
      ensures r == Step(State().nodes, dir, segment)
    {
      assert NodeOk(State().nodes, dir);
      if segment == DOT_NAME {
        return Some(dir);
      }
      if segment == DOTDOT_NAME {
        if pool[dir].parent >= 0 {
          return Some(pool[dir].parent);
        }
        return Some(dir);
      }
      var p := FindChild(dir, segment);
      if p == |pool[dir].kids| {
        return None;
      }
      return Some(pool[dir].kids[p]);
    }

    /** vfs_find: walks the path byte by byte. */
    method FindNode(path: seq<byte>) returns (r: Option<nat>)
      requires Valid()
      ensures r == Find(State(), path)
    {
      if path == [] {
        return None;
      }
      ghost var nodes := State().nodes;
      var curr: nat := currentDir;
      var idx := 0;
      assert path[0..] == path;
      if path[0] == SLASH {
        curr := 0;
        idx := SkipSlashes(path, 1);
        PiecesSkip(path, 0, idx);
        if idx == |path| {
          return Some(0);
        }
      }
      while idx < |path|
        invariant idx <= |path| && curr < nodeCount && (idx < |path| ==> path[idx] != SLASH)
        invariant Find(State(), path) == Resolve(nodes, curr, Pieces(path[idx..]))
      {
        var segment, next := NextSegment(path, idx);
        var step := FollowSegment(curr, segment);
        ResolvePiece(nodes, curr, segment, Pieces(path[next..]));
        if step == None {
          return None;
        }
        curr, idx := step.value, next;
      }
      r := Some(curr);
    }

    /** vfs_chdir; an empty path or "~" means /home, or the root if there is no such directory. */
    method ChangeDir(path: seq<byte>) returns (ret: int)
      requires Valid()
      modifies this`currentDir
      ensures Valid() && (State(), ret) == Chdir(old(State()), path)
      ensures Entered(old(State()), path, State(), ret)
    {
      hide Entered, PoolOk, Attached, Find;
      ChdirEnters(State(), path);
      ChdirKeeps(State(), path);
      if path == [] || path == TILDE {
        var home := FindNode(HOME);
        if home.Some? && pool[home.value].kind == FsDir {
          currentDir := home.value;
          return 0;
        }
        currentDir := 0;
        return 0;
      }
      var target := FindNode(path);
      if target == None {
        return -1;
      }
      if pool[target.value].kind != FsDir {
        return -2;
      }
      currentDir := target.value;
      return 0;
    }

    /** vfs_mkdir */
    method MakeDir(name: seq<byte>) returns (ret: int)
      requires Valid() && 0 !in name
      modifies this`nodeCount, pool
      ensures Valid() && (State(), ret) == Mkdir(old(State()), name)
      ensures Made(old(State()), name, State(), ret)
    {
      MkdirMakes(State(), name);
      MkdirKeeps(State(), name);
      if name == [] {
        return -1;
      }
      if |pool[currentDir].kids| >= MAX_CHILDREN {
        return -2;
      }
      var p := FindChild(currentDir, name);
      if p < |pool[currentDir].kids| {
        return -3;
      }
      var n := AllocNode(name, FsDir, currentDir);
      if n < 0 {
        return -4;
      }
      return 0;
    }

    /** Stores at most 1023 bytes of `data` in node `n`. */
    method StoreText(n: nat, data: Option<seq<byte>>)
      requires n < nodeCount <= pool.Length
      modifies pool
      ensures State() == old(State()).(nodes := SetData(old(State()).nodes, n, data))
    {
      if data.Some? {
        var len := |data.value|;
        if len >= MAX_FILE_SIZE {
          len := MAX_FILE_SIZE - 1;
        }
        pool[n] := pool[n].(data := data.value[..len]);
      }
    }

    /** The scan for the last slash. */
    method FindLastSlash(path: seq<byte>) returns (last: int)
      ensures last == LastSlash(path)
    {
      last := -1;
      var i := 0;
      while i < |path|
        invariant i <= |path| && last == LastSlash(path[..i])
      {
        assert path[..i + 1][..i] == path[..i];
        if path[i] == SLASH {
          last := i;
        }
        i := i + 1;
      }
      assert path[..|path|] == path;
    }

    /** vfs_touch */
    method TouchFile(path: seq<byte>, data: Option<seq<byte>>) returns (ret: int)
      requires Valid() && 0 !in path
      modifies this`nodeCount, pool
      ensures Valid() && (State(), ret) == Touch(old(State()), path, data)
      ensures exists cut: int :: LastSlashAt(path, cut) && Touched(old(State()), path, cut, data, State(), ret)
    {
      hide LastSlashAt, Touched, PoolOk, TouchDir, TouchIn, Attached, Trunc, TouchName, LastSlash;
      LastSlashFound(path);
      TouchTouches(State(), path, LastSlash(path), data);
      TouchKeeps(State(), path, data);
      if path == [] {
        return -1;
      }
      var last := FindLastSlash(path);
      var dir := FindTouchDir(path, last);
      if dir == None {
        return -1;
      }
      var name := FileName(path, last);
      ret := TouchChild(dir.value, name, data);
    }

    /** The file name part of a path, cut to 31 bytes. */
    method FileName(path: seq<byte>, last: int) returns (name: seq<byte>)
      requires last == LastSlash(path)
      ensures name == TouchName(path)
    {
      name := Trunc(path[last + 1..]);
    }

    /** The directory part of a path, cut to 255 bytes, must resolve to a directory. */
    method FindTouchDir(path: seq<byte>, last: int) returns (dir: Option<nat>)
      requires Valid() && last == LastSlash(path)
      ensures dir == TouchDir(State(), path)
    {
      hide PoolOk, LastSlash, Attached, Find;
      if last < 0 {
        return Some(currentDir);
      }
      var dlen := last;
      if dlen >= DIR_PATH_SIZE {
        dlen := DIR_PATH_SIZE - 1;
      }
      dir := FindNode(path[..dlen]);
      if dir.Some? && pool[dir.value].kind != FsDir {
        dir := None;
      }
    }

    /** The rest of vfs_touch, once directory and file name are known. */
    method TouchChild(dir: nat, name: seq<byte>, data: Option<seq<byte>>) returns (ret: int)
      requires Valid() && dir < nodeCount
      modifies this`nodeCount, pool
      ensures nodeCount <= pool.Length && currentDir == old(currentDir)
      ensures (State().nodes, ret) == TouchIn(old(State().nodes), dir, name, data)
    {
      var p := FindChild(dir, name);
      if p < |pool[dir].kids| {
        assert KidsOf(State().nodes, dir)[p] < nodeCount;
        StoreText(pool[dir].kids[p], data);
        return 0;
      }
      if |pool[dir].kids| >= MAX_CHILDREN {
        return -2;
      }
      var n := AllocNode(name, FsFile, dir);
      if n < 0 {
        return -4;
      }
      StoreText(n, data);
      return 0;
    }

    /** vfs_remove: shifts the later children down and drops the last one. */
    method RemoveChild(name: seq<byte>) returns (ret: int)
      requires Valid()
      modifies pool
      ensures Valid() && (State(), ret) == Remove(old(State()), name)
      ensures Removed(old(State()), name, State(), ret)
    {
      RemoveRemoves(State(), name);
      RemoveKeeps(State(), name);
      if name == [] {
        return -1;
      }
      var idx := FindChild(currentDir, name);
      if idx == |pool[currentDir].kids| {
        return -1;
      }
      ShiftChildren(currentDir, idx);
      return 0;
    }

    /** vfs_getcwd: the path of the current directory as far as it fits, ended by a NUL byte. */
    method GetCwd(buf: array<byte>, maxLen: nat)
      requires Valid() && 1 <= maxLen <= buf.Length
      modifies buf
      ensures currentDir == 0 && maxLen == 1 ==> buf[..] == old(buf[..])
      ensures currentDir != 0 || maxLen > 1 ==>
        var text := Cwd(State()); var n := Min(|text|, maxLen - 1); buf[..n] == text[..n] && buf[n] == 0
    {
      if currentDir == 0 {
        if maxLen > 1 {
          buf[0], buf[1] := SLASH, 0;
        }
        return;
      }
      var levels := CollectPath();
      var pos := PrintNames(levels, buf, maxLen, State().nodes);
      assert Printed(Cwd(State()), maxLen, pos, buf[..]);
    }

    /** The printing loop: topmost level first, each name after a slash. */
    method PrintNames(levels: seq<nat>, buf: array<byte>, maxLen: nat, ghost nodes: seq<Node>) returns (pos: nat)
      requires 1 <= maxLen <= buf.Length && |nodes| <= pool.Length && nodes == pool[..|nodes|]
      requires forall i :: 0 <= i < |levels| ==> levels[i] < |nodes|
      modifies buf
      ensures Printed(Joined(NamesOf(nodes, levels)), maxLen, pos, buf[..]) && buf[pos] == 0
    {
      ghost var names := NamesOf(nodes, levels);
      pos := 0;
      buf[0] := 0;
      var m := 0;
      while m < |levels|
        invariant m <= |levels| && Printed(Joined(names[..m]), maxLen, pos, buf[..]) && buf[pos] == 0
      {
        JoinedStep(names, m);
        pos := AppendCapped(buf, maxLen, pos, [SLASH], Joined(names[..m]));
        pos := AppendCapped(buf, maxLen, pos, pool[levels[|levels| - 1 - m]].name, Joined(names[..m]) + [SLASH]);
        pos := TerminateAt(buf, maxLen, pos, Joined(names[..m + 1]));
        m := m + 1;
      }
      assert names[..|levels|] == names;
    }

    /** Walks up from the current directory, at most 16 levels; the first level is the current directory itself. */
    method CollectPath() returns (levels: seq<nat>)
      requires Valid()
      ensures forall i :: 0 <= i < |levels| ==> levels[i] < nodeCount
      ensures NamesOf(State().nodes, levels) == NamesUp(State().nodes, currentDir, PATH_DEPTH)
    {
      ghost var nodes := State().nodes;
      var pathNodes := new nat[PATH_DEPTH];
      var depth := 0;
      var curr: nat := currentDir;
      while curr != 0 && depth < PATH_DEPTH
        invariant depth <= PATH_DEPTH && Collected(nodes, currentDir, pathNodes[..depth], curr)
      {
        CollectStep(nodes, currentDir, pathNodes[..depth], curr);
        ghost var before := pathNodes[..depth];
        pathNodes[depth] := curr;
        depth := depth + 1;
        assert pathNodes[..depth] == before + [curr];
        curr := pool[curr].parent;
      }
      levels := pathNodes[..depth];
    }

    method ShiftChildren(dir: nat, idx: nat)
      requires dir < nodeCount <= pool.Length && idx < |pool[dir].kids|
      modifies pool
      ensures var kids := old(pool[dir].kids);
        pool[..nodeCount] == WithKids(old(pool[..nodeCount]), dir, kids[..idx] + kids[idx + 1..])
    {
      hide Shifted, PoolOk;
      ghost var before, kids := pool[dir], pool[dir].kids;
      var count := |pool[dir].kids|;
      ShiftStart(kids, idx);
      var i := idx;
      while i < count - 1
        invariant idx <= i < count == |kids| && pool[dir] == before.(kids := Shifted(kids, idx, i))
        invariant forall j :: 0 <= j < pool.Length && j != dir ==> pool[j] == old(pool[j])
      {
        ShiftStep(kids, idx, i);
        pool[dir] := pool[dir].(kids := pool[dir].kids[i := pool[dir].kids[i + 1]]);
        i := i + 1;
      }
      ShiftEnd(kids, idx);
      pool[dir] := pool[dir].(kids := pool[dir].kids[..count - 1]);
    }
  }

  method TerminateAt(buf: array<byte>, maxLen: nat, from: nat, ghost text: seq<byte>) returns (pos: nat)
    requires Printed(text, maxLen, from, buf[..])
    modifies buf
    ensures pos == from && Printed(text, maxLen, pos, buf[..]) && buf[pos] == 0
  {
    pos := from;
    buf[pos] := 0;
  }

  /** The names of the collected levels, topmost first. */
  ghost function NamesOf(nodes: seq<Node>, levels: seq<nat>): (names: seq<seq<byte>>)
    requires forall i :: 0 <= i < |levels| ==> levels[i] < |nodes|
    ensures |names| == |levels|
  {
    seq(|levels|, m requires 0 <= m < |levels| => nodes[levels[|levels| - 1 - m]].name)
  }

  /** The walk up from `cwd` met `levels` and is now at `curr`. */
  ghost predicate Collected(nodes: seq<Node>, cwd: nat, levels: seq<nat>, curr: nat) {
    && PoolOk(nodes) && cwd < |nodes| && curr < |nodes| && |levels| <= PATH_DEPTH
    && (forall i :: 0 <= i < |levels| ==> levels[i] < |nodes|)
    && NamesUp(nodes, cwd, PATH_DEPTH) == NamesUp(nodes, curr, PATH_DEPTH - |levels|) + NamesOf(nodes, levels)
  }

  lemma CollectStep(nodes: seq<Node>, cwd: nat, levels: seq<nat>, curr: nat)
    requires Collected(nodes, cwd, levels, curr) && curr > 0 && |levels| < PATH_DEPTH
    ensures Collected(nodes, cwd, levels + [curr], ParentOf(nodes, curr)) && nodes[curr].parent == ParentOf(nodes, curr)
  {
    assert NodeOk(nodes, curr);
    var fuel := PATH_DEPTH - |levels|;
    var rest := NamesOf(nodes, levels);
    NamesOfStep(nodes, levels, curr);
    NamesUpStep(nodes, curr, fuel, rest);
  }

  lemma NamesOfStep(nodes: seq<Node>, levels: seq<nat>, n: nat)
    requires n < |nodes| && forall i :: 0 <= i < |levels| ==> levels[i] < |nodes|
    ensures NamesOf(nodes, levels + [n]) == [nodes[n].name] + NamesOf(nodes, levels)
  {
  }

  lemma NamesUpStep(nodes: seq<Node>, n: nat, fuel: nat, rest: seq<seq<byte>>)
    requires PoolOk(nodes) && 0 < n < |nodes| && fuel > 0
    ensures NamesUp(nodes, n, fuel) + rest == NamesUp(nodes, ParentOf(nodes, n), fuel - 1) + ([nodes[n].name] + rest)
  {
  }

  lemma JoinedStep(names: seq<seq<byte>>, m: nat)
    requires m < |names|
    ensures Joined(names[..m + 1]) == Joined(names[..m]) + [SLASH] + names[m]
  {
    assert names[..m + 1][..m] == names[..m];
  }

  /** `pos` bytes of `text`, all of it or as many as leave room for the NUL, are in the buffer. */
  ghost predicate Printed(text: seq<byte>, maxLen: nat, pos: nat, buf: seq<byte>) {
    1 <= maxLen <= |buf| && pos == Min(|text|, maxLen - 1) && buf[..pos] == text[..pos]
  }

  /** The copy loops of vfs_getcwd. */
  method AppendCapped(buf: array<byte>, maxLen: nat, from: nat, s: seq<byte>, ghost text: seq<byte>) returns (pos: nat)
    requires Printed(text, maxLen, from, buf[..])
    modifies buf
    ensures Printed(text + s, maxLen, pos, buf[..])
  {
    pos := from;
    var k := 0;
    assert text + s[..0] == text;
    while k < |s| && pos < maxLen - 1
      invariant k <= |s| && Printed(text + s[..k], maxLen, pos, buf[..])
    {
      assert text + s[..k + 1] == text + s[..k] + [s[k]];
      buf[pos] := s[k];
      pos, k := pos + 1, k + 1;
    }
    assert (text + s)[..|text| + k] == text + s[..k];
  }

  /** The child list after the positions `idx` to `i` - 1 took over their successors. */
  function Shifted(kids: seq<nat>, idx: nat, i: nat): (r: seq<nat>)
    requires idx <= i < |kids|
    ensures |r| == |kids|
  {
    kids[..idx] + kids[idx + 1..i + 1] + kids[i..]
  }

  lemma ShiftStart(kids: seq<nat>, idx: nat)
    requires idx < |kids|
    ensures Shifted(kids, idx, idx) == kids
  {
  }

  lemma ShiftEnd(kids: seq<nat>, idx: nat)
    requires idx < |kids|
    ensures Shifted(kids, idx, |kids| - 1)[..|kids| - 1] == kids[..idx] + kids[idx + 1..]
  {
  }

  lemma ShiftStep(kids: seq<nat>, idx: nat, i: nat)
    requires idx <= i < |kids| - 1
    ensures var now := Shifted(kids, idx, i); now[i := now[i + 1]] == Shifted(kids, idx, i + 1)
  {
  }

  lemma ResolvePiece(nodes: seq<Node>, cur: nat, seg: seq<byte>, rest: seq<seq<byte>>)
    requires PoolOk(nodes) && cur < |nodes|
    ensures Resolve(nodes, cur, [seg] + rest) ==
      match Step(nodes, cur, seg) case None => None case Some(m) => Resolve(nodes, m, rest)
  {
    assert ([seg] + rest)[1..] == rest;
  }

  method SkipSlashes(path: seq<byte>, from: nat) returns (idx: nat)
    requires from <= |path|
    ensures from <= idx <= |path| && (idx < |path| ==> path[idx] != SLASH)
    ensures forall j :: from <= j < idx ==> path[j] == SLASH
  {
    idx := from;
    while idx < |path| && path[idx] == SLASH
      invariant from <= idx <= |path| && forall j :: from <= j < idx ==> path[j] == SLASH
    {
      idx := idx + 1;
    }
  }

  /** Copies one segment into the 32-byte segment array, then skips the slashes behind it. */
  method NextSegment(path: seq<byte>, from: nat) returns (segment: seq<byte>, idx: nat)
    requires from < |path| && path[from] != SLASH
    ensures from < idx <= |path| && (idx < |path| ==> path[idx] != SLASH)
    ensures Pieces(path[from..]) == [segment] + Pieces(path[idx..])
  {
    var buf := new byte[MAX_NAME_LEN];
    var n := 0;
    idx := from;
    while idx < |path| && path[idx] != SLASH && n < MAX_NAME_LEN - 1
      invariant idx == from + n <= |path| && n < MAX_NAME_LEN && buf[..n] == path[from..idx]
      invariant SLASH !in path[from..idx]
    {
      assert path[from..idx + 1] == path[from..idx] + [path[idx]];
      buf[n] := path[idx];
      n, idx := n + 1, idx + 1;
    }
    segment := buf[..n];
    ghost var end := idx;
    assert path[from..][..n] == path[from..end] && path[from..][n..] == path[end..];
    assert n < |path[from..]| ==> path[from..][n] == path[end];
    PieceAt(path[from..], n);
    idx := SkipSlashes(path, idx);
    PiecesSkip(path, end, idx);
  }

  /** The scan stops where the first piece ends. */
  lemma PieceAt(rest: seq<byte>, n: nat)
    requires 0 < n <= |rest| && n < MAX_NAME_LEN && SLASH !in rest[..n]
    requires n == MAX_NAME_LEN - 1 || n == |rest| || rest[n] == SLASH
    ensures Pieces(rest) == [rest[..n]] + Pieces(rest[n..])
  {
    RunAtLeast(rest, n);
  }

  lemma {:induction false} RunAtLeast(rest: seq<byte>, n: nat)
    requires n <= |rest| && SLASH !in rest[..n]
    ensures RunLength(rest) >= n
    ensures n < |rest| && rest[n] == SLASH ==> RunLength(rest) == n
  {
    if n > 0 {
      assert rest[0] == rest[..n][0];
      assert rest[1..][..n - 1] == rest[..n][1..];
      RunAtLeast(rest[1..], n - 1);
    }
  }

  /** Slashes between segments contribute no piece. */
  lemma {:induction false} PiecesSkip(path: seq<byte>, from: nat, stop: nat)
    requires from <= stop <= |path| && forall j :: from <= j < stop ==> path[j] == SLASH
    ensures Pieces(path[from..]) == Pieces(path[stop..])
    decreases stop - from
  {
    if from < stop {
      assert path[from..][1..] == path[from + 1..];
      PiecesSkip(path, from + 1, stop);
    }
  }
}
