/** From the editor's lines to the disk, through a reboot, and back to the editor's lines. */
module Persistence {
  import opened Bytes
  import opened FatNames
  import opened FatReplace
  import V = FatVolume
  import FatStore
  import FatData
  import opened Populating
  import opened Boot
  import opened VfsModel
  import K = KeditModel

  /** A write with enough clusters that filled slot `u` of the directory. */
  ghost predicate WroteFile(v: V.Volume, nm: V.FatName, d: seq<byte>, ch: seq<nat>, t: nat, u: nat, v': V.Volume) {
    && FatStore.NoDirectoryNamed(v, nm)
    && FatStore.IsTarget(v.dir, nm, t) && FatStore.IsRewritten(v.dir, nm, t, u) && FatStore.NoGap(v.dir, t)
    && v.spc >= 1 && FatStore.BackedRoom(v, nm, t, d)
    && Filed(v, nm, d, FatStore.FreedBy(v, nm, t), ch, u, v')
  }

  /**
    The root has room for the file if it is not there yet; slots whose shown name leads to it are shown like it, or
    passed over.
   */
  ghost predicate Fits(v: V.Volume, nm: V.FatName) {
    && (|ShownFiles(v, |v.dir|)| < ROOM || V.Lookup(v, nm).Some?)
    && forall j :: 0 <= j < |v.dir| && V.IsPlain(v.dir[j]) ==> ShownLike(v.dir[j], nm)
  }

  ghost predicate ShownLike(e: V.Slot, nm: V.FatName) {
    var name := ShownName(V.NameOf(e));
    FatNameOf(name) == nm ==> name == Rendered(nm) || Passed(name)
  }

  /** The slot becomes a plain file of that name; the other slots stay. */
  lemma SlotFilled(v: V.Volume, nm: V.FatName, d: seq<byte>, freed: seq<nat>, ch: seq<nat>, u: nat, v': V.Volume)
    requires ValidName(nm) && Filed(v, nm, d, freed, ch, u, v')
    ensures u < |v.dir| == |v'.dir| && V.PlainAt(v'.dir, u, nm)
    ensures forall j :: 0 <= j < |v.dir| && j != u ==> v'.dir[j] == v.dir[j]
  {
  }

  /** What a slot asks for afterwards is the new file under its shown name, is passed over, or was asked for before. */
  lemma AsksAfter(v: V.Volume, nm: V.FatName, d: seq<byte>, u: nat, v': V.Volume, j: nat, name: seq<byte>)
    requires FatStore.Written(v, nm, d, v') && ValidName(nm) && Fits(v, nm)
    requires u < |v.dir| == |v'.dir| && V.PlainAt(v'.dir, u, nm) && j < |v.dir| && (j != u ==> v'.dir[j] == v.dir[j])
    requires Asks(v', v'.dir[j], name)
    ensures name == Rendered(nm) || Passed(name) || (j != u && Asks(v, v.dir[j], name))
  {
    hide Rendered, Passed, ValidName, V.Lookup;
    ValidIsProper(nm);
    if j != u {
      assert ShownLike(v.dir[j], nm);
      FatNameHasNoNul(name);
    }
  }

  ghost function NamesOf(files: seq<File>): set<seq<byte>> {
    set i | 0 <= i < |files| :: files[i].name
  }

  lemma {:induction false} NameCount(files: seq<File>)
    requires forall i, k :: 0 <= i < k < |files| ==> files[i].name != files[k].name
    ensures |NamesOf(files)| == |files|
  {
    if files != [] {
      var n := |files| - 1;
      NameCount(files[..n]);
      assert NamesOf(files) == NamesOf(files[..n]) + {files[n].name};
    }
  }

  /** A write shows at most one name more. */
  lemma OneNameMore(v: V.Volume, nm: V.FatName, d: seq<byte>, u: nat, v': V.Volume)
    requires FatStore.Written(v, nm, d, v') && ValidName(nm) && Fits(v, nm)
    requires u < |v.dir| == |v'.dir| && V.PlainAt(v'.dir, u, nm)
    requires forall j :: 0 <= j < |v.dir| && j != u ==> v'.dir[j] == v.dir[j]
    ensures NamesOf(ShownFiles(v', |v.dir|)) <= NamesOf(ShownFiles(v, |v.dir|)) + {Rendered(nm)}
  {
    hide Rendered, Asks, FatStore.Written, ValidName, Fits, ShownFiles;
    forall name | name in NamesOf(ShownFiles(v', |v.dir|)) && name != Rendered(nm)
      ensures name in NamesOf(ShownFiles(v, |v.dir|))
    {
      ShownNames(v', |v.dir|, name);
      var j: nat :| j < |v.dir| && Asks(v', v'.dir[j], name);
      AsksAfter(v, nm, d, u, v', j, name);
      NotBoth(name);
      assert Asks(v, v.dir[j], name);
      ShownNames(v, |v.dir|, name);
    }
  }

  lemma NotBoth(name: seq<byte>)
    requires Proper(name)
    ensures !Passed(name)
  {
  }

  lemma StillRoom(v: V.Volume, nm: V.FatName, d: seq<byte>, u: nat, v': V.Volume)
    requires Bootable(v) && FatStore.Written(v, nm, d, v') && ValidName(nm) && Fits(v, nm)
    requires u < |v.dir| == |v'.dir| && V.PlainAt(v'.dir, u, nm)
    requires forall j :: 0 <= j < |v.dir| && j != u ==> v'.dir[j] == v.dir[j]
    ensures |ShownFiles(v', |v'.dir|)| <= ROOM
  {
    hide Rendered, FatStore.Written, ValidName, ShownFiles, ShownLike, FileIs;
    var names := NamesOf(ShownFiles(v, |v.dir|));
    OneNameMore(v, nm, d, u, v');
    ShownFilesAre(v, |v.dir|);
    ShownFilesAre(v', |v.dir|);
    NameCount(ShownFiles(v, |v.dir|));
    NameCount(ShownFiles(v', |v.dir|));
    SubsetCount(NamesOf(ShownFiles(v', |v.dir|)), names + {Rendered(nm)});
    if V.Lookup(v, nm).Some? {
      AlreadyShown(v, nm);
      assert names + {Rendered(nm)} == names;
    }
  }

  lemma AlreadyShown(v: V.Volume, nm: V.FatName)
    requires ValidName(nm) && V.Lookup(v, nm).Some?
    ensures Rendered(nm) in NamesOf(ShownFiles(v, |v.dir|))
  {
    hide Rendered, ValidName, ShownFiles;
    ValidIsProper(nm);
    var j: nat :| V.PlainAt(v.dir, j, nm);
    assert Asks(v, v.dir[j], Rendered(nm));
    ShownNames(v, |v.dir|, Rendered(nm));
  }

  /** Any volume with an unused directory boots, whatever its table and clusters. */
  lemma EmptyIsBootable(v: V.Volume)
    requires v.Sized() && forall j :: 0 <= j < |v.dir| ==> v.dir[j][0] == 0
    ensures V.WellFormed(v) && Bootable(v) && ShownFiles(v, |v.dir|) == []
  {
    NothingShown(v, |v.dir|);
  }

  lemma {:induction false} NothingShown(v: V.Volume, n: nat)
    requires n <= |v.dir| && forall j :: 0 <= j < |v.dir| ==> v.dir[j][0] == 0
    ensures ShownFiles(v, n) == []
  {
    if n > 0 {
      NothingShown(v, n - 1);
    }
  }

  /** Storing a file under a valid name leaves a volume that boots. */
  lemma StaysBootable(v: V.Volume, nm: V.FatName, d: seq<byte>, ch: seq<nat>, t: nat, u: nat, v': V.Volume)
    requires V.WellFormed(v) && Bootable(v) && ValidName(nm) && WroteFile(v, nm, d, ch, t, u, v') && Fits(v, nm)
    ensures V.WellFormed(v') && Bootable(v') && FatStore.Written(v, nm, d, v')
  {
    hide V.WellFormed, Filed, Fits, FatStore.IsTarget, FatStore.IsRewritten, FatStore.BackedRoom, Request, ShownFiles,
      Proper, Passed;
    CanStore(nm);
    FatStore.CompletedWrite(v, nm, d, ch, t, u, v');
    FatStore.RewrittenIsTarget(v, nm, t, u);
    SlotFilled(v, nm, d, FatStore.FreedBy(v, nm, t), ch, u, v');
    FatData.WellFormedIsReadable(v');
    StillRoom(v, nm, d, u, v');
    forall j | 0 <= j < |v'.dir|
      ensures var asked := Request(v', v'.dir[j]); asked == [] || Proper(asked[0].name) || Passed(asked[0].name)
    {
      StaysShowable(v, nm, d, u, v', j);
    }
  }

  lemma CanStore(nm: V.FatName)
    requires ValidName(nm)
    ensures Storable(nm)
  {
  }

  lemma StaysShowable(v: V.Volume, nm: V.FatName, d: seq<byte>, u: nat, v': V.Volume, j: nat)
    requires Bootable(v) && FatStore.Written(v, nm, d, v') && ValidName(nm) && Fits(v, nm)
    requires u < |v.dir| == |v'.dir| && V.PlainAt(v'.dir, u, nm) && j < |v.dir| && (j != u ==> v'.dir[j] == v.dir[j])
    ensures var asked := Request(v', v'.dir[j]); asked == [] || Proper(asked[0].name) || Passed(asked[0].name)
  {
    hide Request, Proper, Passed, Rendered, ValidName, Fits, FatStore.Written, FatData.AllReadable, FileShown;
    RequestIs(v', v'.dir[j]);
    if Request(v', v'.dir[j]) != [] {
      var name := ShownName(V.NameOf(v'.dir[j]));
      NameOfShown(v', name);
      AsksAfter(v, nm, d, u, v', j, name);
      ValidIsProper(nm);
      RequestIs(v, v.dir[j]);
      if Request(v, v.dir[j]) != [] && j != u {
        NameOfShown(v, name);
      }
    }
  }

  lemma {:induction false} SavedHasNoNul(lines: seq<K.Line>)
    requires K.LinesOk(lines)
    ensures 0 !in K.Saved(lines)
  {
    if lines != [] {
      SavedHasNoNul(lines[..|lines| - 1]);
    }
  }

  lemma TextReloads(lines: seq<K.Line>)
    requires K.LinesOk(lines) && 1 <= |lines| <= K.MAX_LINES && |K.Joined(lines)| < MAX_FILE_SIZE
    ensures K.Loaded(CText(Kept(K.Saved(lines)))) == lines
  {
    K.SaveLoadRoundTrip(lines);
    SavedHasNoNul(lines);
    assert Kept(K.Saved(lines)) == K.Saved(lines);
    CTextWhole(K.Saved(lines));
  }

  /** The path to the shown name leads to a file with that text. */
  ghost predicate LeadsTo(nodes: seq<Node>, cwd: nat, nm: V.FatName, text: seq<byte>) {
    && PoolOk(nodes) && cwd < |nodes|
    && match Find(Fs(nodes, cwd), [SLASH] + Rendered(nm))
       case None => false
       case Some(k) => nodes[k].kind == FsFile && nodes[k].data == text
  }

  lemma TextSurvivesBoot(v: V.Volume, nm: V.FatName, d: seq<byte>, ch: seq<nat>, t: nat, u: nat, v': V.Volume,
                         base: seq<Node>, cwd: nat)
    requires V.WellFormed(v) && Bootable(v) && ValidName(nm) && WroteFile(v, nm, d, ch, t, u, v') && Fits(v, nm)
    requires IsBase(base) && cwd < |Booted(v', base)|
    ensures Bootable(v') && LeadsTo(Booted(v', base), cwd, nm, CText(Kept(d)))
  {
    hide Bootable, WroteFile, ValidName, Rendered, Fits, IsBase, Booted;
    StaysBootable(v, nm, d, ch, t, u, v');
    StoredIsFound(v', nm, d, base, cwd);
  }

  /**
    Lines of at most 1023 bytes in all that the editor saves to the disk under a valid name are, after
    the next boot, the lines it loads from the file that the shown name leads to.
   */
  lemma EditsSurviveBoot(v: V.Volume, nm: V.FatName, lines: seq<K.Line>, ch: seq<nat>, t: nat, u: nat, v': V.Volume,
                         base: seq<Node>, cwd: nat)
    returns (text: seq<byte>)
    requires V.WellFormed(v) && Bootable(v) && ValidName(nm) && WroteFile(v, nm, K.Saved(lines), ch, t, u, v')
    requires Fits(v, nm)
    requires K.LinesOk(lines) && 1 <= |lines| <= K.MAX_LINES && |K.Joined(lines)| < MAX_FILE_SIZE
    requires IsBase(base) && cwd < |Booted(v', base)|
    ensures LeadsTo(Booted(v', base), cwd, nm, text) && K.Loaded(text) == lines
  {
    hide *;
    TextSurvivesBoot(v, nm, K.Saved(lines), ch, t, u, v', base, cwd);
    TextReloads(lines);
    text := CText(Kept(K.Saved(lines)));
  }
}
