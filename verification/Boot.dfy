/**
  Loading the root directory of the volume into the RAM file system at boot, and writing
  files through to the volume: what was stored is what the next boot shows.
 */
module Boot {
  import opened Bytes
  import opened FatNames
  import V = FatVolume
  import FatStore
  import FatData
  import opened Fat16Driver
  import opened VfsModel
  import opened VfsPaths
  import opened VfsLaws
  import opened VfsStore
  import opened Populating

  // ---------- the loaded tree ----------

  const ROOM := 12

  /** A tree to load into: sound, with room for 12 root files, whose root entries start with lower-case letters. */
  ghost predicate IsBase(base: seq<Node>) {
    && FsOk(Fs(base, 0)) && SiblingsUnique(base)
    && |KidsOf(base, 0)| + ROOM <= MAX_CHILDREN && |base| + ROOM <= MAX_NODES
    && (forall k :: k in KidsOf(base, 0) ==> base[k].name != [] && 97 <= base[k].name[0] <= 122)
  }

  /** The tree vfs_init leaves is such a tree. */
  lemma InitialIsBase(texts: seq<seq<byte>>)
    requires IsTexts(texts)
    ensures IsBase(InitialNodes(texts))
  {
    InitialOk(texts);
    var base := InitialNodes(texts);
    assert base[1].name[0] == 98 && base[2].name[0] == 101 && base[3].name[0] == 104 && base[4].name[0] == 100;
  }

  function NewKids(base: nat, n: nat): (kids: seq<nat>)
    ensures |kids| == n && forall i :: 0 <= i < n ==> kids[i] == base + i
  {
    seq(n, i requires 0 <= i < n => base + i)
  }

  function FileNodes(files: seq<File>): (r: seq<Node>)
    ensures |r| == |files|
  {
    seq(|files|, i requires 0 <= i < |files| => Node(files[i].name, FsFile, files[i].text, 0, []))
  }

  /** The tree `base` with one more root file per entry, in order. */
  function Loaded(base: seq<Node>, files: seq<File>): (r: seq<Node>)
    requires |base| > 0
    ensures |r| == |base| + |files|
  {
    WithKids(base, 0, base[0].kids + NewKids(|base|, |files|)) + FileNodes(files)
  }

  /** No root entry of the tree has this name. */
  ghost predicate Fresh(base: seq<Node>, files: seq<File>, name: seq<byte>)
    requires PoolOk(base)
  {
    && (forall k :: k in KidsOf(base, 0) ==> base[k].name != name)
    && (forall i :: 0 <= i < |files| ==> files[i].name != name)
  }

  lemma FreshNotFound(base: seq<Node>, files: seq<File>, name: seq<byte>)
    requires PoolOk(base) && PoolOk(Loaded(base, files)) && Fresh(base, files, name)
    ensures var kids := KidsOf(Loaded(base, files), 0); FirstNamed(Loaded(base, files), kids, name) == |kids|
  {
    var r := Loaded(base, files);
    var kids := KidsOf(r, 0);
    var p := FirstNamed(r, kids, name);
    var before := KidsOf(base, 0);
    forall q | 0 <= q < |kids|
      ensures r[kids[q]].name != name
    {
      if q < |before| {
        assert before[q] in before && kids[q] == before[q];
        assert r[kids[q]].name == base[before[q]].name;
      } else {
        var i := q - |before|;
        assert kids[q] == |base| + i && r[kids[q]] == FileNodes(files)[i];
      }
    }
  }

  lemma LoadedGrows(base: seq<Node>, files: seq<File>, name: seq<byte>, text: seq<byte>)
    requires |base| > 0 && |base[0].kids| + |files| < MAX_CHILDREN && |name| < MAX_NAME_LEN
    ensures var n := |base| + |files|; var grown := AddNode(Loaded(base, files), name, FsFile, 0);
      grown[n := grown[n].(data := text)] == Loaded(base, files + [File(name, text)])
  {
    var r, r' := Loaded(base, files), Loaded(base, files + [File(name, text)]);
    var n := |r|;
    TruncShort(name);
    var grown := AddNode(r, name, FsFile, 0);
    assert base[0].kids + NewKids(|base|, |files|) + [n] == base[0].kids + NewKids(|base|, |files| + 1);
    assert grown[n := grown[n].(data := text)] == r';
  }

  lemma TouchInAppends(base: seq<Node>, files: seq<File>, name: seq<byte>, text: seq<byte>)
    requires PoolOk(base) && PoolOk(Loaded(base, files)) && Fresh(base, files, name)
    requires |name| < MAX_NAME_LEN && |text| < MAX_FILE_SIZE
    requires |base[0].kids| + |files| < MAX_CHILDREN && |base| + |files| < MAX_NODES
    ensures TouchIn(Loaded(base, files), 0, name, Some(text)) == (Loaded(base, files + [File(name, text)]), 0)
  {
    FreshNotFound(base, files, name);
    LoadedGrows(base, files, name, text);
    KeptShort(text);
    assert |KidsOf(Loaded(base, files), 0)| == |base[0].kids| + |files|;
  }

  lemma KeptShort(text: seq<byte>)
    requires |text| < MAX_FILE_SIZE
    ensures Kept(text) == text
  {
  }

  lemma TouchPlainName(s: Fs, name: seq<byte>, data: Option<seq<byte>>)
    requires FsOk(s) && name != [] && SLASH !in name && |name| < MAX_NAME_LEN
    ensures var r := TouchIn(s.nodes, s.cwd, name, data); Touch(s, name, data) == (s.(nodes := r.0), r.1)
  {
    NoSlash(name);
    TruncShort(name);
    assert name[0..] == name;
  }

  /** Touching a new name in the root appends one file. */
  lemma TouchAppends(base: seq<Node>, files: seq<File>, name: seq<byte>, text: seq<byte>)
    requires PoolOk(base) && FsOk(Fs(Loaded(base, files), 0)) && Fresh(base, files, name)
    requires name != [] && SLASH !in name && |name| < MAX_NAME_LEN && |text| < MAX_FILE_SIZE
    requires |base[0].kids| + |files| < MAX_CHILDREN && |base| + |files| < MAX_NODES
    ensures Touch(Fs(Loaded(base, files), 0), name, Some(text)) == (Fs(Loaded(base, files + [File(name, text)]), 0), 0)
  {
    TouchInAppends(base, files, name, text);
    TouchPlainName(Fs(Loaded(base, files), 0), name, Some(text));
  }

  lemma NoSlash(name: seq<byte>)
    requires SLASH !in name
    ensures LastSlash(name) == -1
  {
  }

  // ---------- what the volume offers ----------

  /** A name that touches a file in the root, other than a built-in entry. */
  predicate Proper(name: seq<byte>) {
    name != [] && SLASH !in name && !(97 <= name[0] <= 122)
  }

  /** The directory part of a path that meets no directory of such a tree. */
  ghost predicate DeadPath(p: seq<byte>) {
    && NoLowerCase(p)
    && (p != [] ==> Pieces(p) != [])
    && (forall i :: 0 <= i < |Pieces(p)| ==> Pieces(p)[i] != DOT_NAME && Pieces(p)[i] != DOTDOT_NAME)
  }

  /** Touching the name changes nothing: it is empty, or its directory part is dead. */
  ghost predicate Passed(name: seq<byte>) {
    name == [] || (LastSlash(name) >= 0 && DeadPath(name[..LastSlash(name)]))
  }

  /** The slot is plain and shown under the name, and the name leads to a file. */
  ghost predicate Asks(v: V.Volume, e: V.Slot, name: seq<byte>) {
    V.IsPlain(e) && ShownName(V.NameOf(e)) == name && V.Lookup(v, FatNameOf(name)).Some?
  }

  /** The file a shown name leads to: the first 1023 bytes up to a NUL. */
  ghost function FileShown(v: V.Volume, name: seq<byte>): File
    requires 0 !in name && V.Lookup(v, FatNameOf(name)).Some?
  {
    File(name, CText(Kept(V.Lookup(v, FatNameOf(name)).value)))
  }

  lemma RequestIs(v: V.Volume, e: V.Slot)
    ensures Request(v, e) != [] <==> Asks(v, e, ShownName(V.NameOf(e)))
    ensures Request(v, e) != [] ==> Request(v, e) == [FileShown(v, ShownName(V.NameOf(e)))]
  {
    hide V.Lookup;
  }

  ghost predicate Named(files: seq<File>, name: seq<byte>) {
    exists i :: 0 <= i < |files| && files[i].name == name
  }

  /** One more file, if it has a proper name that is new. */
  ghost function Extended(files: seq<File>, asked: seq<File>): (r: seq<File>)
    requires |asked| <= 1 && Nameable(files) && Nameable(asked)
    ensures files <= r && |r| <= |files| + 1 && Nameable(r)
  {
    if asked != [] && Proper(asked[0].name) && !Named(files, asked[0].name) then files + asked else files
  }

  /** The files shown for the first `n` slots, in the order in which their names first occur. */
  ghost function ShownFiles(v: V.Volume, n: nat): (files: seq<File>)
    requires n <= |v.dir|
    ensures |files| <= n && Nameable(files)
  {
    if n == 0 then [] else Extended(ShownFiles(v, n - 1), Request(v, v.dir[n - 1]))
  }

  /**
    A volume on which every name can be read, with at most 12 different files shown. What else is shown is passed
    over; two slots may be shown alike, and deleted slots may lie between.
   */
  ghost predicate Bootable(v: V.Volume) {
    && FatData.AllReadable(v)
    && (forall j :: 0 <= j < |v.dir| ==>
      var asked := Request(v, v.dir[j]); asked == [] || Proper(asked[0].name) || Passed(asked[0].name))
    && |ShownFiles(v, |v.dir|)| <= ROOM
  }

  lemma {:induction false} ShownFilesMonotone(v: V.Volume, m: nat, n: nat)
    requires m <= n <= |v.dir|
    ensures ShownFiles(v, m) <= ShownFiles(v, n)
  {
    hide Extended, Request;
    if m < n {
      ShownFilesMonotone(v, m, n - 1);
    }
  }

  /** The file its proper name leads to. */
  ghost predicate FileIs(v: V.Volume, f: File) {
    && 0 !in f.name && |f.name| <= 12 && Proper(f.name)
    && V.Lookup(v, FatNameOf(f.name)).Some? && f == FileShown(v, f.name)
  }

  ghost predicate FilesAre(v: V.Volume, files: seq<File>) {
    && (forall i :: 0 <= i < |files| ==> FileIs(v, files[i]))
    && (forall i, k :: 0 <= i < k < |files| ==> files[i].name != files[k].name)
  }

  lemma {:induction false} ShownFilesAre(v: V.Volume, n: nat)
    requires n <= |v.dir|
    ensures FilesAre(v, ShownFiles(v, n))
  {
    hide FileIs, Request, Extended;
    if n > 0 {
      ShownFilesAre(v, n - 1);
      OneMoreIs(v, ShownFiles(v, n - 1), v.dir[n - 1]);
    }
  }

  lemma RequestFileIs(v: V.Volume, e: V.Slot)
    requires Request(v, e) != [] && Proper(Request(v, e)[0].name)
    ensures FileIs(v, Request(v, e)[0])
  {
    hide Request, Proper, FileShown;
    RequestIs(v, e);
    NameOfShown(v, ShownName(V.NameOf(e)));
    assert |ShownName(V.NameOf(e))| <= 12;
  }

  lemma OneMoreIs(v: V.Volume, files: seq<File>, e: V.Slot)
    requires FilesAre(v, files) && Nameable(files)
    ensures FilesAre(v, Extended(files, Request(v, e)))
  {
    hide Request, Proper, FileIs;
    if Request(v, e) != [] && Proper(Request(v, e)[0].name) {
      RequestFileIs(v, e);
    }
  }

  lemma FileAt(v: V.Volume, files: seq<File>, i: nat)
    requires FilesAre(v, files) && i < |files|
    ensures FileIs(v, files[i])
  {
    hide FileIs;
  }

  lemma NameOfShown(v: V.Volume, name: seq<byte>)
    requires 0 !in name && V.Lookup(v, FatNameOf(name)).Some?
    ensures FileShown(v, name).name == name && |FileShown(v, name).text| < MAX_FILE_SIZE
    ensures 0 !in FileShown(v, name).text
  {
  }

  /**
    A file is shown under a name exactly if some plain slot is shown so, and the name is proper and leads to a file.
   */
  lemma {:induction false} ShownNames(v: V.Volume, n: nat, name: seq<byte>)
    requires n <= |v.dir|
    ensures Named(ShownFiles(v, n), name) <==> Proper(name) && exists j: nat :: j < n && Asks(v, v.dir[j], name)
  {
    hide Request, Proper, Asks, FileShown;
    if n > 0 {
      ShownNames(v, n - 1, name);
      NamedStep(v, n - 1, name);
    }
  }

  lemma NamedStep(v: V.Volume, n: nat, name: seq<byte>)
    requires n < |v.dir|
    ensures Named(ShownFiles(v, n + 1), name)
      <==> Named(ShownFiles(v, n), name) || (Proper(name) && Asks(v, v.dir[n], name))
  {
    hide Proper;
    var files, asked := ShownFiles(v, n), Request(v, v.dir[n]);
    RequestIs(v, v.dir[n]);
    if asked != [] {
      NamedMore(files, asked[0], name);
    }
  }

  lemma NamedMore(files: seq<File>, f: File, name: seq<byte>)
    ensures Named(files + [f], name) <==> Named(files, name) || f.name == name
  {
    if Named(files, name) {
      var i :| 0 <= i < |files| && files[i].name == name;
      assert (files + [f])[i].name == name;
    }
    assert (files + [f])[|files|] == f;
  }

  // ---------- files that loading passes over ----------

  /** A root entry that does not start with a lower-case letter is a loaded file. */
  lemma RootFile(base: seq<Node>, files: seq<File>, k: nat)
    requires IsBase(base) && PoolOk(Loaded(base, files)) && k in KidsOf(Loaded(base, files), 0)
    requires var name := Loaded(base, files)[k].name; name == [] || !(97 <= name[0] <= 122)
    ensures Loaded(base, files)[k].kind == FsFile && Named(files, Loaded(base, files)[k].name)
  {
    RootEntry(base, files, k);
  }

  /** A dead path leads nowhere or to a file. */
  lemma DeadPathFinds(base: seq<Node>, files: seq<File>, p: seq<byte>)
    requires IsBase(base) && FsOk(Fs(Loaded(base, files), 0)) && DeadPath(p)
    ensures match Find(Fs(Loaded(base, files), 0), p)
      case None => true
      case Some(d) => Loaded(base, files)[d].kind == FsFile
  {
    var nodes := Loaded(base, files);
    if p != [] {
      var pieces := Pieces(p);
      assert pieces[0] != DOT_NAME && pieces[0] != DOTDOT_NAME;
      PieceBytes(p);
      match Step(nodes, 0, pieces[0])
      case None =>
      case Some(k) =>
        EnteredChild(nodes, 0, pieces[0], k);
        RootFile(base, files, k);
        if |pieces| > 1 {
          FileHasNoChild(nodes, k, pieces[1]);
          assert pieces[1..][0] == pieces[1];
          assert Resolve(nodes, k, pieces[1..]) == None;
        } else {
          assert Resolve(nodes, k, pieces[1..]) == Some(k);
        }
    }
  }

  lemma EnteredChild(nodes: seq<Node>, cur: nat, seg: seq<byte>, k: nat)
    requires PoolOk(nodes) && cur < |nodes| && seg != DOT_NAME && seg != DOTDOT_NAME && Step(nodes, cur, seg) == Some(k)
    ensures k in KidsOf(nodes, cur) && nodes[k].name == seg
  {
  }

  lemma FileHasNoChild(nodes: seq<Node>, k: nat, seg: seq<byte>)
    requires PoolOk(nodes) && k < |nodes| && nodes[k].kind == FsFile && seg != DOT_NAME && seg != DOTDOT_NAME
    ensures Step(nodes, k, seg) == None
  {
    assert NodeOk(nodes, k);
    assert KidsOf(nodes, k) == [];
  }

  /** Pieces consist of bytes of the path. */
  lemma {:induction false} PieceBytes(p: seq<byte>)
    requires NoLowerCase(p)
    ensures forall i :: 0 <= i < |Pieces(p)| ==> NoLowerCase(Pieces(p)[i])
    decreases |p|
  {
    if p == [] {
    } else if p[0] == SLASH {
      PieceBytes(p[1..]);
    } else {
      var n := Min(RunLength(p), MAX_NAME_LEN - 1);
      PieceBytes(p[n..]);
    }
  }

  /** Touching a path whose directory part is dead changes nothing. */
  lemma DeadTouch(base: seq<Node>, files: seq<File>, r: seq<byte>, data: Option<seq<byte>>)
    requires IsBase(base) && FsOk(Fs(Loaded(base, files), 0)) && |r| <= 12
    requires Passed(r)
    ensures Touch(Fs(Loaded(base, files), 0), r, data).0 == Fs(Loaded(base, files), 0)
  {
    if r != [] {
      DeadPathFinds(base, files, r[..LastSlash(r)]);
    }
  }

  // ---------- loading such a volume ----------

  ghost predicate LoadedGood(base: seq<Node>, files: seq<File>) {
    |base| > 0 && var nodes := Loaded(base, files); FsOk(Fs(nodes, 0)) && SiblingsUnique(nodes)
  }

  lemma LoadedNothing(base: seq<Node>)
    requires |base| > 0
    ensures Loaded(base, []) == base
  {
    assert base[0].kids + NewKids(|base|, 0) == base[0].kids;
  }

  ghost predicate IsLoaded(nodes: seq<Node>, k: nat, f: File) {
    PoolOk(nodes) && k in KidsOf(nodes, 0) && nodes[k] == Node(f.name, FsFile, f.text, 0, [])
  }

  lemma LoadedNode(base: seq<Node>, files: seq<File>, i: nat, f: File)
    requires PoolOk(base) && LoadedGood(base, files) && i < |files| && files[i] == f
    ensures IsLoaded(Loaded(base, files), |base| + i, f)
  {
    var nodes := Loaded(base, files);
    assert KidsOf(nodes, 0)[|base[0].kids| + i] == |base| + i;
    assert nodes[|base| + i] == FileNodes(files)[i];
  }

  /** Touching a file that is loaded already with the same text changes nothing. */
  lemma TouchAgain(base: seq<Node>, files: seq<File>, i: nat)
    requires PoolOk(base) && LoadedGood(base, files) && i < |files|
    requires var f := files[i]; f.name != [] && SLASH !in f.name && |f.name| < MAX_NAME_LEN && |f.text| < MAX_FILE_SIZE
    ensures Touch(Fs(Loaded(base, files), 0), files[i].name, Some(files[i].text)).0 == Fs(Loaded(base, files), 0)
  {
    hide Loaded, PoolOk, SiblingsUnique, Touch, TouchIn, IsLoaded, Attached;
    LoadedNode(base, files, i, files[i]);
    TouchPlainName(Fs(Loaded(base, files), 0), files[i].name, Some(files[i].text));
    TouchSame(Loaded(base, files), |base| + i, files[i]);
  }

  lemma TouchSame(nodes: seq<Node>, k: nat, f: File)
    requires IsLoaded(nodes, k, f) && SiblingsUnique(nodes) && |f.text| < MAX_FILE_SIZE
    ensures TouchIn(nodes, 0, f.name, Some(f.text)).0 == nodes
  {
    hide SiblingsUnique, PoolOk;
    KeptShort(f.text);
    OnlyChild(nodes, k);
    var kids := KidsOf(nodes, 0);
    var p := FirstNamed(nodes, kids, f.name);
    var a :| 0 <= a < |kids| && kids[a] == k;
    assert p < |kids| && kids[p] in kids && nodes[kids[p]].name == f.name;
    assert nodes[k := nodes[k].(data := f.text)] == nodes;
  }

  /** Touching a file under a new name appends it, and keeps the tree in order. */
  lemma TouchNew(base: seq<Node>, files: seq<File>, f: File)
    requires IsBase(base) && LoadedGood(base, files) && Proper(f.name) && !Named(files, f.name) && |files| < ROOM
    requires |f.name| <= 12 && |f.text| < MAX_FILE_SIZE && 0 !in f.name && 0 !in f.text
    ensures Touch(Fs(Loaded(base, files), 0), f.name, Some(f.text)).0 == Fs(Loaded(base, files + [f]), 0)
    ensures LoadedGood(base, files + [f])
  {
    hide Loaded, Touch;
    ProperIsFresh(base, files, f.name);
    TouchAppends(base, files, f.name, f.text);
    var op := OpTouch(f.name, Some(f.text));
    assert op.IsText() && ShortNames(op);
    ApplyUnique(Fs(Loaded(base, files), 0), op);
  }

  lemma ProperIsFresh(base: seq<Node>, files: seq<File>, name: seq<byte>)
    requires IsBase(base) && Proper(name) && !Named(files, name)
    ensures Fresh(base, files, name)
  {
  }

  // ---------- the loaded tree is what the slots ask for ----------

  ghost predicate LoadedIs(v: V.Volume, base: seq<Node>, n: nat)
    requires n <= |v.dir|
  {
    && LoadedGood(base, ShownFiles(v, n))
    && FsOk(Fs(base, 0)) && TouchAll(Fs(base, 0), Requests(v, n)) == Fs(Loaded(base, ShownFiles(v, n)), 0)
  }

  /** One more touch: a file that is new, one that is loaded already, or one that is passed over. */
  lemma OneMoreTouch(v: V.Volume, base: seq<Node>, n: nat)
    requires Bootable(v) && IsBase(base) && n < |v.dir| && LoadedGood(base, ShownFiles(v, n))
    requires Request(v, v.dir[n]) != []
    ensures LoadedGood(base, ShownFiles(v, n + 1))
    ensures var f := Request(v, v.dir[n])[0];
      Touch(Fs(Loaded(base, ShownFiles(v, n)), 0), f.name, Some(f.text)).0 == Fs(Loaded(base, ShownFiles(v, n + 1)), 0)
  {
    hide Loaded, Touch, LoadedGood, Request, FatData.AllReadable, FileShown, Passed, Proper, IsBase, FilesAre, FileIs,
      Extended;
    var name := ShownName(V.NameOf(v.dir[n]));
    RequestIs(v, v.dir[n]);
    NameOfShown(v, name);
    ShownFilesAre(v, n);
    ShownFilesMonotone(v, n + 1, |v.dir|);
    assert |name| <= 12;
    ExtendedTouch(v, base, ShownFiles(v, n), FileShown(v, name));
  }

  lemma ExtendedTouch(v: V.Volume, base: seq<Node>, files: seq<File>, f: File)
    requires IsBase(base) && LoadedGood(base, files) && FilesAre(v, files) && Nameable(files) && 0 !in f.name
    requires |Extended(files, [f])| <= ROOM && (Proper(f.name) || Passed(f.name))
    requires |f.name| <= 12 && |f.text| < MAX_FILE_SIZE && 0 !in f.text
    requires V.Lookup(v, FatNameOf(f.name)).Some? && f == FileShown(v, f.name)
    ensures LoadedGood(base, Extended(files, [f]))
    ensures Touch(Fs(Loaded(base, files), 0), f.name, Some(f.text)).0 == Fs(Loaded(base, Extended(files, [f])), 0)
  {
    hide Loaded, Touch, LoadedGood, FileShown, Passed, Proper, IsBase, FilesAre, FileIs;
    if !Proper(f.name) {
      PassedTouch(base, files, f.name, f.text);
    } else if i: nat :| i < |files| && files[i].name == f.name {
      AgainTouch(v, base, files, i);
      SameFile(v, files, i, f);
    } else {
      TouchNew(base, files, f);
    }
  }

  /** Files shown under one name are one file. */
  lemma SameFile(v: V.Volume, files: seq<File>, i: nat, f: File)
    requires FilesAre(v, files) && i < |files| && files[i].name == f.name && 0 !in f.name
    requires V.Lookup(v, FatNameOf(f.name)).Some? && f == FileShown(v, f.name)
    ensures files[i] == f
  {
    hide FileShown, Proper;
    FileAt(v, files, i);
  }

  lemma PassedTouch(base: seq<Node>, files: seq<File>, name: seq<byte>, text: seq<byte>)
    requires IsBase(base) && LoadedGood(base, files) && Passed(name) && |name| <= 12
    ensures Touch(Fs(Loaded(base, files), 0), name, Some(text)).0 == Fs(Loaded(base, files), 0)
  {
    hide Loaded, Touch, Passed, IsBase;
    DeadTouch(base, files, name, Some(text));
  }

  lemma AgainTouch(v: V.Volume, base: seq<Node>, files: seq<File>, i: nat)
    requires IsBase(base) && LoadedGood(base, files) && FilesAre(v, files) && i < |files|
    ensures Touch(Fs(Loaded(base, files), 0), files[i].name, Some(files[i].text)).0 == Fs(Loaded(base, files), 0)
  {
    hide Loaded, Touch, LoadedGood, FileShown, FilesAre;
    FileAt(v, files, i);
    NameOfShown(v, files[i].name);
    TouchAgain(base, files, i);
  }

  lemma LoadingStarts(v: V.Volume, base: seq<Node>)
    requires IsBase(base)
    ensures LoadedIs(v, base, 0)
  {
    LoadedNothing(base);
  }

  lemma LoadingStep(v: V.Volume, base: seq<Node>, n: nat)
    requires Bootable(v) && IsBase(base) && n < |v.dir| && LoadedIs(v, base, n)
    ensures LoadedIs(v, base, n + 1)
  {
    hide Loaded, Touch, LoadedGood, Request, Bootable, Proper, IsBase, FsOk;
    RequestsStep(v, Fs(base, 0), n);
    if Request(v, v.dir[n]) != [] {
      OneMoreTouch(v, base, n);
    }
  }

  /** Loading such a volume into such a tree appends one root file per shown name, in the order of first occurrence. */
  lemma LoadingAppends(v: V.Volume, base: seq<Node>, n: nat)
    requires Bootable(v) && IsBase(base) && n <= |v.dir|
    ensures LoadedIs(v, base, n)
  {
    hide *;
    LoadingStarts(v, base);
    for i := 0 to n
      invariant LoadedIs(v, base, i)
    {
      LoadingStep(v, base, i);
    }
  }

  // ---------- what a boot shows ----------

  /** The tree after booting from `v`. */
  ghost function Booted(v: V.Volume, base: seq<Node>): (nodes: seq<Node>)
    requires |base| > 0
  {
    Loaded(base, ShownFiles(v, |v.dir|))
  }

  lemma BootedGood(v: V.Volume, base: seq<Node>)
    requires Bootable(v) && IsBase(base)
    ensures LoadedGood(base, ShownFiles(v, |v.dir|)) && FilesAre(v, ShownFiles(v, |v.dir|))
    ensures FsOk(Fs(Booted(v, base), 0)) && SiblingsUnique(Booted(v, base))
  {
    hide Bootable, IsBase, FilesAre;
    LoadingAppends(v, base, |v.dir|);
    ShownFilesAre(v, |v.dir|);
  }

  ghost predicate InRoot(nodes: seq<Node>, name: seq<byte>)
    requires PoolOk(nodes)
  {
    exists k :: k in KidsOf(nodes, 0) && nodes[k].name == name
  }

  /** `k` is the one root entry of that name, a file with that text. */
  ghost predicate Shows(nodes: seq<Node>, k: nat, name: seq<byte>, text: seq<byte>)
    requires PoolOk(nodes)
  {
    && k in KidsOf(nodes, 0) && nodes[k].kind == FsFile && nodes[k].name == name && nodes[k].data == text
    && (forall m :: m in KidsOf(nodes, 0) && nodes[m].name == name ==> m == k)
  }

  lemma OnlyChild(nodes: seq<Node>, k: nat)
    requires PoolOk(nodes) && SiblingsUnique(nodes) && k in KidsOf(nodes, 0)
    ensures forall m :: m in KidsOf(nodes, 0) && nodes[m].name == nodes[k].name ==> m == k
  {
    assert UniqueIn(nodes, 0);
    var kids := KidsOf(nodes, 0);
    forall m | m in kids && nodes[m].name == nodes[k].name
      ensures m == k
    {
      var a :| 0 <= a < |kids| && kids[a] == m;
      var b :| 0 <= b < |kids| && kids[b] == k;
    }
  }

  /** A root entry after loading is one of the base tree or one of the loaded files. */
  lemma RootEntry(base: seq<Node>, files: seq<File>, k: nat)
    requires PoolOk(base) && PoolOk(Loaded(base, files)) && k in KidsOf(Loaded(base, files), 0)
    ensures (k in KidsOf(base, 0) && Loaded(base, files)[k] == base[k])
      || (Loaded(base, files)[k].kind == FsFile && Named(files, Loaded(base, files)[k].name))
  {
    var nodes := Loaded(base, files);
    var kids := KidsOf(nodes, 0);
    var a :| 0 <= a < |kids| && kids[a] == k;
    if a >= |KidsOf(base, 0)| {
      var i := a - |KidsOf(base, 0)|;
      assert nodes[k] == FileNodes(files)[i];
      assert files[i].name == nodes[k].name;
    } else {
      assert KidsOf(base, 0)[a] == k && nodes[k] == base[k];
    }
  }

  lemma LoadedShows(base: seq<Node>, files: seq<File>, i: nat)
    requires PoolOk(base) && LoadedGood(base, files) && i < |files|
    ensures PoolOk(Loaded(base, files)) && Shows(Loaded(base, files), |base| + i, files[i].name, files[i].text)
  {
    hide Loaded, SiblingsUnique, PoolOk;
    LoadedNode(base, files, i, files[i]);
    OnlyChild(Loaded(base, files), |base| + i);
  }

  /** Every file shown is loaded as the one root entry of its name. */
  lemma FileLoaded(v: V.Volume, base: seq<Node>, name: seq<byte>)
    requires Bootable(v) && IsBase(base) && Named(ShownFiles(v, |v.dir|), name)
    ensures PoolOk(Booted(v, base)) && 0 !in name && V.Lookup(v, FatNameOf(name)).Some?
    ensures exists k :: Shows(Booted(v, base), k, name, FileShown(v, name).text)
  {
    hide Bootable, Loaded, LoadedGood, FileShown, ShownFiles, SiblingsUnique, FilesAre, Proper, Shows, PoolOk;
    BootedGood(v, base);
    BaseIsPool(base);
    var files := ShownFiles(v, |v.dir|);
    var i: nat :| i < |files| && files[i].name == name;
    FileAt(v, files, i);
    LoadedShows(base, files, i);
    assert Shows(Booted(v, base), |base| + i, name, FileShown(v, name).text);
  }

  lemma BaseIsPool(base: seq<Node>)
    requires IsBase(base)
    ensures PoolOk(base)
  {
  }

  /**
    The root has an entry of a name, other than a built-in one, exactly if some plain slot is shown under it and
    it is proper and leads to a file.
   */
  lemma ShownExactlyWhen(v: V.Volume, base: seq<Node>, name: seq<byte>)
    requires Bootable(v) && IsBase(base) && (name == [] || !(97 <= name[0] <= 122))
    ensures PoolOk(Booted(v, base))
    ensures InRoot(Booted(v, base), name) <==> Proper(name) && exists j: nat :: j < |v.dir| && Asks(v, v.dir[j], name)
  {
    hide Bootable, Loaded, ShownFiles, Asks, Proper;
    BootedGood(v, base);
    var files, nodes := ShownFiles(v, |v.dir|), Booted(v, base);
    ShownNames(v, |v.dir|, name);
    if Named(files, name) {
      FileLoaded(v, base, name);
    } else {
      forall k | k in KidsOf(nodes, 0)
        ensures nodes[k].name != name
      {
        if nodes[k].name == name {
          RootFile(base, files, k);
        }
      }
    }
  }

  lemma ValidIsProper(nm: V.FatName)
    requires ValidName(nm)
    ensures Proper(Rendered(nm)) && ShownName(nm) == Rendered(nm) && FatNameOf(Rendered(nm)) == nm && 0 !in Rendered(nm)
  {
    ShownForm(nm);
    CTextWhole(Rendered(nm));
  }

  /**
    Boot shows the volume's files: a root entry is called as the file `nm` is shown if and only if the volume
    has such a file; it is then the only one and holds the file's first 1023 bytes, up to a NUL.
   */
  lemma BootShows(v: V.Volume, base: seq<Node>, nm: V.FatName)
    requires Bootable(v) && IsBase(base) && ValidName(nm)
    ensures var nodes := Booted(v, base);
      && PoolOk(nodes) && |KidsOf(nodes, 0)| == |KidsOf(base, 0)| + |ShownFiles(v, |v.dir|)|
      && match V.Lookup(v, nm)
         case None => !InRoot(nodes, Rendered(nm))
         case Some(d) => exists k :: Shows(nodes, k, Rendered(nm), CText(Kept(d)))
  {
    hide Bootable, ShownFiles, ValidName, Rendered;
    BootedGood(v, base);
    ValidIsProper(nm);
    ShownExactlyWhen(v, base, Rendered(nm));
    ShownNames(v, |v.dir|, Rendered(nm));
    if j: nat :| V.PlainAt(v.dir, j, nm) {
      assert Asks(v, v.dir[j], Rendered(nm));
      FileLoaded(v, base, Rendered(nm));
    }
  }

  /** The shown path of a file: a slash and its name. */
  lemma RootPathFinds(nodes: seq<Node>, k: nat, nm: V.FatName, cwd: nat)
    requires FsOk(Fs(nodes, 0)) && SiblingsUnique(nodes) && k in KidsOf(nodes, 0) && ValidName(nm)
    requires nodes[k].name == Rendered(nm)
    requires cwd < |nodes|
    ensures Find(Fs(nodes, cwd), [SLASH] + Rendered(nm)) == Some(k)
  {
    ShownForm(nm);
    var name := Rendered(nm);
    assert ([SLASH] + name)[1..] == name;
    PiecesOfName(name);
    assert UniqueIn(nodes, 0);
    FirstNamedIsUnique(nodes, KidsOf(nodes, 0), k);
    assert [name] + [] == [name];
    ResolvePiece(nodes, 0, name, []);
    assert Step(nodes, 0, name) == Some(k);
  }

  /**
    Persistence: after a write and the next boot the root has an entry of the name as it is shown exactly if that is
    proper and leads to a file; if the name is valid, the path to it leads to the first 1023 bytes that were stored.
   */
  lemma StoredSurvivesBoot(v: V.Volume, nm: V.FatName, d: seq<byte>, v': V.Volume, base: seq<Node>, cwd: nat)
    requires FatStore.Written(v, nm, d, v') && Bootable(v') && IsBase(base) && 0 !in nm && NoLowerCase(nm)
    requires cwd < |Booted(v', base)|
    ensures PoolOk(Booted(v', base))
    ensures InRoot(Booted(v', base), Rendered(nm))
      <==> Proper(Rendered(nm)) && V.Lookup(v', FatNameOf(Rendered(nm))).Some?
    ensures ValidName(nm) ==>
      match Find(Fs(Booted(v', base), cwd), [SLASH] + Rendered(nm))
      case None => false
      case Some(k) => Booted(v', base)[k].kind == FsFile && Booted(v', base)[k].data == CText(Kept(d))
  {
    hide Bootable, ShownFiles, ValidName, Rendered, Proper, Booted;
    RenderedUpper(nm);
    CTextWhole(Rendered(nm));
    ShownExactlyWhen(v', base, Rendered(nm));
    var j: nat :| V.PlainAt(v'.dir, j, nm);
    assert Asks(v', v'.dir[j], Rendered(nm)) <==> V.Lookup(v', FatNameOf(Rendered(nm))).Some?;
    if ValidName(nm) {
      StoredIsFound(v', nm, d, base, cwd);
    }
  }

  lemma RenderedUpper(nm: V.FatName)
    requires 0 !in nm && NoLowerCase(nm)
    ensures 0 !in Rendered(nm) && NoLowerCase(Rendered(nm))
  {
    forall b | b in Rendered(nm)
      ensures b != 0 && !(97 <= b <= 122)
    {
      RenderedBytes(nm, b);
    }
    forall i | 0 <= i < |Rendered(nm)|
      ensures !(97 <= Rendered(nm)[i] <= 122)
    {
      assert Rendered(nm)[i] in Rendered(nm);
    }
  }

  lemma StoredIsFound(v: V.Volume, nm: V.FatName, d: seq<byte>, base: seq<Node>, cwd: nat)
    requires Bootable(v) && V.Lookup(v, nm) == Some(d) && IsBase(base) && ValidName(nm) && cwd < |Booted(v, base)|
    ensures PoolOk(Booted(v, base))
    ensures match Find(Fs(Booted(v, base), cwd), [SLASH] + Rendered(nm))
      case None => false
      case Some(k) => Booted(v, base)[k].kind == FsFile && Booted(v, base)[k].data == CText(Kept(d))
  {
    hide Bootable, ShownFiles, ValidName, Rendered, Loaded;
    BootedGood(v, base);
    BootShows(v, base, nm);
    var nodes := Booted(v, base);
    var k :| Shows(nodes, k, Rendered(nm), CText(Kept(d)));
    RootPathFinds(nodes, k, nm, cwd);
  }

  // ---------- vfs_init and vfs_load ----------

  /** Builds the built-in tree and loads the volume into it. */
  method InitAndLoad(fat: Fat16, vfs: Vfs, texts: seq<seq<byte>>, ghost v: V.Volume)
    requires fat.Ready() && v == fat.Vol() && FatData.AllReadable(v) && vfs.pool.Length == MAX_NODES && IsTexts(texts)
    modifies vfs, vfs.pool
    ensures vfs.Valid()
    ensures FsOk(Fs(InitialNodes(texts), 0))
    ensures vfs.State() == TouchAll(Fs(InitialNodes(texts), 0), Requests(v, |v.dir|))
    ensures Bootable(v) ==> vfs.State() == Fs(Booted(v, InitialNodes(texts)), 0)
  {
    vfs.Init(texts);
    InitialOk(texts);
    PopulateVfs(fat, vfs, v);
    InitialIsBase(texts);
    if Bootable(v) {
      LoadingAppends(v, InitialNodes(texts), |v.dir|);
    }
  }

  // ---------- vfs_write_file ----------

  /** Stores through to the volume, then into the tree; only the tree's result is reported. */
  method WriteThrough(fat: Fat16, vfs: Vfs, name: seq<byte>, data: seq<byte>, ghost v: V.Volume)
    returns (ret: int, ghost stored: int, ghost t: nat, ghost u: nat, ghost ch: seq<nat>)
    requires fat.Ready() && v == fat.Vol() && V.WellFormed(v) && IsCString(name) && IsCString(data)
    requires |data| < 0x8000_0000
    requires FatStore.Distinguishable(v.dir, FatNameOf(name)) && vfs.Valid()
    modifies fat.dev, vfs`nodeCount, vfs.pool
    ensures fat.Ready() && FatStore.WriteOutcome(v, FatNameOf(name), data, stored, t, u, ch, fat.Vol())
    ensures vfs.Valid() && (vfs.State(), ret) == Touch(old(vfs.State()), name, Some(data))
    ensures exists cut: int ::
      LastSlashAt(name, cut) && Touched(old(vfs.State()), name, cut, Some(data), vfs.State(), ret)
  {
    stored, t, u, ch := fat.WriteFile(name, data, v);
    ret := vfs.TouchFile(name, Some(data));
  }
}
