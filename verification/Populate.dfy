/**
  fat16_populate_vfs: every plain directory slot, shown, read back and touched, on any volume that can be read and any
  tree.
 */
module Populating {
  import opened Bytes
  import opened FatNames
  import opened FatImage
  import V = FatVolume
  import FatStore
  import FatData
  import opened Fat16Driver
  import opened VfsModel
  import opened VfsRuns
  import opened VfsStore

  /** The bytes before the first NUL. */
  function CText(buf: seq<byte>): (t: seq<byte>)
    ensures t <= buf && 0 !in t && (t == buf || buf[|t|] == 0)
  {
    if buf == [] || buf[0] == 0 then [] else [buf[0]] + CText(buf[1..])
  }

  lemma {:induction false} CTextEnds(text: seq<byte>, rest: seq<byte>)
    ensures CText(text + [0] + rest) == CText(text)
  {
    var whole := text + [0] + rest;
    if text != [] {
      assert whole[1..] == text[1..] + [0] + rest;
      CTextEnds(text[1..], rest);
    }
  }

  lemma {:induction false} CTextWhole(text: seq<byte>)
    requires 0 !in text
    ensures CText(text) == text
  {
    if text != [] {
      CTextWhole(text[1..]);
    }
  }

  /** The C string that the shown name of a slot is. */
  function ShownName(nm: V.FatName): (name: seq<byte>)
    ensures 0 !in name
  {
    CText(Rendered(nm))
  }

  /** A file to touch and the text to give it. */
  datatype File = File(name: seq<byte>, text: seq<byte>)

  ghost predicate Nameable(files: seq<File>) {
    forall i :: 0 <= i < |files| ==> 0 !in files[i].name
  }

  /** What a slot asks for: a plain one the file that its shown name denotes, up to 1023 bytes and the first NUL. */
  ghost function Request(v: V.Volume, e: V.Slot): (files: seq<File>)
    ensures |files| <= 1 && Nameable(files)
  {
    if !V.IsPlain(e) then []
    else
      var name := ShownName(V.NameOf(e));
      match V.Lookup(v, FatNameOf(name))
      case None => []
      case Some(d) => [File(name, CText(Kept(d)))]
  }

  /** What the first `n` slots ask for. */
  ghost function Requests(v: V.Volume, n: nat): (files: seq<File>)
    requires n <= |v.dir|
    ensures Nameable(files)
  {
    if n == 0 then [] else Requests(v, n - 1) + Request(v, v.dir[n - 1])
  }

  /** The tree after touching the files in order. */
  ghost function TouchAll(s: Fs, files: seq<File>): (r: Fs)
    requires FsOk(s) && Nameable(files)
    ensures FsOk(r)
  {
    if files == [] then s
    else
      var f := files[|files| - 1];
      var r := TouchAll(s, files[..|files| - 1]);
      (TouchKeeps(r, f.name, Some(f.text)); Touch(r, f.name, Some(f.text)).0)
  }

  lemma TouchOneMore(s: Fs, files: seq<File>, f: File)
    requires FsOk(s) && Nameable(files) && 0 !in f.name
    ensures Nameable(files + [f])
    ensures TouchAll(s, files + [f]) == Touch(TouchAll(s, files), f.name, Some(f.text)).0
  {
    assert (files + [f])[..|files|] == files;
  }

  /** Behind the first unused slot nothing is asked for. */
  lemma {:induction false} RequestsEnd(v: V.Volume, n: nat, m: nat)
    requires FatData.AllReadable(v) && n <= m <= |v.dir| && (n < |v.dir| ==> v.dir[n][0] == 0)
    ensures Requests(v, m) == Requests(v, n)
    decreases m
  {
    hide FatData.AllReadable, Request;
    if n < m {
      RequestsEnd(v, n, m - 1);
      NothingBehind(v, n, m - 1);
      FreeAsksNothing(v, v.dir[m - 1]);
    }
  }

  lemma FreeAsksNothing(v: V.Volume, e: V.Slot)
    requires V.IsFree(e)
    ensures Request(v, e) == []
  {
    hide V.Lookup;
  }

  lemma NothingBehind(v: V.Volume, n: nat, m: nat)
    requires FatData.AllReadable(v) && n <= m < |v.dir| && v.dir[n][0] == 0
    ensures V.IsFree(v.dir[m])
  {
    assert FatData.Readable(v, V.NameOf(v.dir[n]));
  }

  /** The text the buffer holds after reading `d` into 1024 bytes. */
  lemma BufferText(d: seq<byte>, before: seq<byte>, ret: int, after: seq<byte>)
    requires |before| == MAX_FILE_SIZE
    requires FatStore.ReadOutcome(Some(d), MAX_FILE_SIZE, before, ret, after)
    ensures ret >= 0 && CText(after) == CText(Kept(d))
  {
    CTextEnds(d[..ret], before[ret + 1..]);
  }

  /** The loop body for a plain slot: render the name, read the file, touch the node. */
  method LoadSlot(fat: Fat16, vfs: Vfs, e: V.Slot, ghost v: V.Volume) returns (ghost asked: seq<File>)
    requires fat.Ready() && v == fat.Vol() && FatData.AllReadable(v) && V.IsPlain(e) && vfs.Valid()
    modifies vfs`nodeCount, vfs.pool
    ensures vfs.Valid() && asked == Request(v, e) && |asked| <= 1
    ensures vfs.State() ==
      if asked == [] then old(vfs.State()) else Touch(old(vfs.State()), asked[0].name, Some(asked[0].text)).0
  {
    var rendered := Render(V.NameOf(e));
    var name := CText(rendered);
    assert FatData.Readable(v, FatNameOf(name));
    var fileBuf := new byte[MAX_FILE_SIZE];
    ghost var before := fileBuf[..];
    var bytes := fat.ReadFile(name, fileBuf, MAX_FILE_SIZE, v);
    asked := Request(v, e);
    if bytes >= 0 {
      BufferText(V.Lookup(v, FatNameOf(name)).value, before, bytes, fileBuf[..]);
      var r := vfs.TouchFile(name, Some(CText(fileBuf[..])));
    }
  }

  /** The tree after the first `n` slots were visited, starting from `s`. */
  ghost predicate VisitedUpTo(vfs: Vfs, v: V.Volume, s: Fs, n: nat)
    reads vfs, vfs.pool
  {
    FsOk(s) && n <= |v.dir| && vfs.Valid() && vfs.State() == TouchAll(s, Requests(v, n))
  }

  lemma RequestsStep(v: V.Volume, s: Fs, n: nat)
    requires FsOk(s) && n < |v.dir|
    ensures var asked := Request(v, v.dir[n]); var r := TouchAll(s, Requests(v, n));
      TouchAll(s, Requests(v, n + 1)) == if asked == [] then r else Touch(r, asked[0].name, Some(asked[0].text)).0
  {
    var asked := Request(v, v.dir[n]);
    if asked == [] {
      assert Requests(v, n) + asked == Requests(v, n);
    } else {
      assert asked == [asked[0]];
      TouchOneMore(s, Requests(v, n), asked[0]);
    }
  }

  /** The buffer holds the slots of directory sector `s`. */
  ghost predicate SectorShows(buf: seq<byte>, dir: seq<V.Slot>, s: nat) {
    && |buf| == SECTOR_SIZE && FatStore.Position(s, V.SLOTS_PER_SECTOR) <= |dir|
    && forall i: nat :: i < V.SLOTS_PER_SECTOR ==> SlotIn(buf, i) == dir[FatStore.Position(s, i)]
  }

  method ReadDirSector(fat: Fat16, s: nat, buf: array<byte>, ghost v: V.Volume)
    requires fat.Ready() && v == fat.Vol() && s < fat.rootSectors && buf.Length == SECTOR_SIZE
    modifies buf
    ensures SectorShows(buf[..], v.dir, s)
  {
    SlotInSector(fat.Geo(), fat.dev.sectors, s, 0);
    fat.dev.ReadSector(fat.rootStart + s, buf);
    forall i: nat | i < V.SLOTS_PER_SECTOR
      ensures SlotIn(buf[..], i) == v.dir[FatStore.Position(s, i)]
    {
      SlotInSector(fat.Geo(), fat.dev.sectors, s, i);
    }
    SlotInSector(fat.Geo(), fat.dev.sectors, s, V.SLOTS_PER_SECTOR - 1);
  }

  lemma SlotShown(buf: seq<byte>, dir: seq<V.Slot>, s: nat, i: nat)
    requires SectorShows(buf, dir, s) && i < V.SLOTS_PER_SECTOR
    ensures FatStore.Position(s, i) < |dir| && SlotIn(buf, i) == dir[FatStore.Position(s, i)]
    ensures FatStore.Position(s, i + 1) == FatStore.Position(s, i) + 1
  {
  }

  /** An unused slot ends the loading, all but plain slots are passed over. */
  method VisitSlot(fat: Fat16, vfs: Vfs, e: V.Slot, ghost v: V.Volume, ghost start: Fs, ghost n: nat)
    returns (ended: bool)
    requires fat.Ready() && v == fat.Vol() && FatData.AllReadable(v) && n < |v.dir| && e == v.dir[n]
    requires VisitedUpTo(vfs, v, start, n)
    modifies vfs`nodeCount, vfs.pool
    ensures VisitedUpTo(vfs, v, start, if ended then |v.dir| else n + 1)
  {
    if e[0] == 0 {
      RequestsEnd(v, n, |v.dir|);
      return true;
    }
    RequestsStep(v, start, n);
    if e[0] != V.DELETED && !V.IsSkipped(e) && !V.IsDirectory(e) {
      ghost var asked := LoadSlot(fat, vfs, e, v);
    } else {
      assert !V.IsPlain(e);
    }
    return false;
  }

  /** The loop over the slots of one directory sector; tells whether the directory ended there. */
  method LoadSlots(fat: Fat16, vfs: Vfs, s: nat, buf: array<byte>, ghost v: V.Volume, ghost start: Fs)
    returns (ended: bool)
    requires fat.Ready() && v == fat.Vol() && FatData.AllReadable(v)
    requires buf.Length == SECTOR_SIZE && SectorShows(buf[..], v.dir, s)
    requires VisitedUpTo(vfs, v, start, FatStore.Position(s, 0))
    modifies vfs`nodeCount, vfs.pool
    ensures VisitedUpTo(vfs, v, start, if ended then |v.dir| else FatStore.Position(s + 1, 0))
  {
    hide Fat16.Ready, Fat16.Vol, FatData.AllReadable, VisitedUpTo, SectorShows, FatStore.Position;
    ended := false;
    var i := 0;
    while i < V.SLOTS_PER_SECTOR
      invariant i <= V.SLOTS_PER_SECTOR && VisitedUpTo(vfs, v, start, FatStore.Position(s, i))
    {
      SlotShown(buf[..], v.dir, s, i);
      ended := VisitSlot(fat, vfs, SlotIn(buf[..], i), v, start, FatStore.Position(s, i));
      if ended {
        return;
      }
      i := i + 1;
    }
    SectorEnd(s);
  }

  /** Reads one directory sector and visits its slots. */
  method LoadSector(fat: Fat16, vfs: Vfs, s: nat, buf: array<byte>, ghost v: V.Volume, ghost start: Fs)
    returns (ended: bool)
    requires fat.Ready() && v == fat.Vol() && FatData.AllReadable(v) && s < fat.rootSectors && buf.Length == SECTOR_SIZE
    requires VisitedUpTo(vfs, v, start, FatStore.Position(s, 0))
    modifies buf, vfs`nodeCount, vfs.pool
    ensures VisitedUpTo(vfs, v, start, if ended then |v.dir| else FatStore.Position(s + 1, 0))
  {
    hide *;
    ReadDirSector(fat, s, buf, v);
    ended := LoadSlots(fat, vfs, s, buf, v, start);
  }

  lemma VisitedNone(vfs: Vfs, v: V.Volume)
    requires vfs.Valid()
    ensures VisitedUpTo(vfs, v, vfs.State(), FatStore.Position(0, 0))
  {
    hide Request;
  }

  lemma VisitedAll(vfs: Vfs, v: V.Volume, start: Fs)
    requires VisitedUpTo(vfs, v, start, |v.dir|)
    ensures FsOk(start) && vfs.Valid() && vfs.State() == TouchAll(start, Requests(v, |v.dir|))
  {
    hide FsOk, TouchAll, Requests;
  }

  lemma DirectorySize(fat: Fat16, v: V.Volume)
    requires fat.Ready() && v == fat.Vol()
    ensures |v.dir| == FatStore.Position(fat.rootSectors, 0)
  {
  }

  lemma SectorEnd(s: nat)
    ensures FatStore.Position(s + 1, 0) == FatStore.Position(s, V.SLOTS_PER_SECTOR)
  {
  }

  /** fat16_populate_vfs: one touch for every slot that asks for one, in directory order. */
  method PopulateVfs(fat: Fat16, vfs: Vfs, ghost v: V.Volume)
    requires fat.Ready() && v == fat.Vol() && FatData.AllReadable(v) && vfs.Valid()
    modifies vfs`nodeCount, vfs.pool
    ensures vfs.Valid() && vfs.State() == TouchAll(old(vfs.State()), Requests(v, |v.dir|))
  {
    hide Fat16.Ready, Fat16.Vol, FatData.AllReadable, VisitedUpTo, TouchAll, Requests, FsOk, FatStore.Position;
    ghost var start := vfs.State();
    VisitedNone(vfs, v);
    DirectorySize(fat, v);
    var buf := new byte[SECTOR_SIZE];
    var s := 0;
    while s < fat.rootSectors
      invariant s <= fat.rootSectors && VisitedUpTo(vfs, v, start, FatStore.Position(s, 0))
    {
      var ended := LoadSector(fat, vfs, s, buf, v, start);
      if ended {
        VisitedAll(vfs, v, start);
        return;
      }
      s := s + 1;
    }
    VisitedAll(vfs, v, start);
  }
}
