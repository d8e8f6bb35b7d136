/**
  Storing a file, seen from outside: which slot is chosen, when there is room, and what a
  completed or aborted write means for every name on the volume.
 */
module FatStore {
  import opened Bytes
  import opened FatTable
  import opened FatVolume
  import opened FatReplace
  import opened FatData

  // ---------- the slot that is chosen ----------

  /** `t` is the first slot of that file name or, if there is none, the first free slot. */
  ghost predicate IsTarget(dir: seq<Slot>, nm: FatName, t: nat) {
    && t < |dir|
    && (forall j :: 0 <= j < t ==> !Matches(dir[j], nm))
    && (Matches(dir[t], nm) ||
        (IsFree(dir[t]) && (forall j :: 0 <= j < t ==> !IsFree(dir[j]))
         && forall j :: 0 <= j < |dir| ==> !Matches(dir[j], nm)))
  }

  ghost predicate NoTarget(dir: seq<Slot>, nm: FatName) {
    forall j :: 0 <= j < |dir| ==> !IsFree(dir[j]) && !Matches(dir[j], nm)
  }

  /** The first slot of the target's sector that is free or carries the name, directories included. */
  ghost predicate IsRewritten(dir: seq<Slot>, nm: FatName, t: nat, u: nat) {
    && t < |dir| && t / SLOTS_PER_SECTOR * SLOTS_PER_SECTOR <= u <= t
    && Usable(dir[u], nm)
    && (forall j :: t / SLOTS_PER_SECTOR * SLOTS_PER_SECTOR <= j < u ==> !Usable(dir[j], nm))
  }

  function Position(sector: nat, idx: nat): nat {
    SLOTS_PER_SECTOR * sector + idx
  }

  /** The test of the second search: free, or carrying the name. */
  predicate Usable(e: Slot, nm: FatName) {
    IsFree(e) || NameOf(e) == nm
  }

  ghost predicate Passed(dir: seq<Slot>, nm: FatName, sector: nat, i: nat) {
    Position(sector, i) <= |dir| && forall j :: Position(sector, 0) <= j < Position(sector, i) ==> !Usable(dir[j], nm)
  }

  lemma PassStart(dir: seq<Slot>, nm: FatName, sector: nat)
    requires Position(sector, 0) <= |dir|
    ensures Passed(dir, nm, sector, 0)
  {
  }

  lemma PassStep(dir: seq<Slot>, nm: FatName, sector: nat, i: nat)
    requires Passed(dir, nm, sector, i) && Position(sector, i) < |dir| && !Usable(dir[Position(sector, i)], nm)
    ensures Passed(dir, nm, sector, i + 1)
  {
  }

  lemma RewrittenAt(dir: seq<Slot>, nm: FatName, sector: nat, idx: nat, i: nat)
    requires i <= idx < SLOTS_PER_SECTOR && Position(sector, idx) < |dir|
    requires Passed(dir, nm, sector, i) && Usable(dir[Position(sector, i)], nm)
    ensures IsRewritten(dir, nm, Position(sector, idx), Position(sector, i))
  {
    assert Position(sector, idx) / SLOTS_PER_SECTOR == sector;
  }

  ghost predicate NoPlainBelow(dir: seq<Slot>, nm: FatName, n: nat) {
    n <= |dir| && forall j :: 0 <= j < n ==> !PlainAt(dir, j, nm)
  }

  lemma NoPlainStart(dir: seq<Slot>, nm: FatName)
    ensures NoPlainBelow(dir, nm, Position(0, 0))
  {
  }

  lemma NoPlainStep(dir: seq<Slot>, nm: FatName, n: nat)
    requires NoPlainBelow(dir, nm, n) && n < |dir| && !PlainAt(dir, n, nm)
    ensures NoPlainBelow(dir, nm, n + 1)
  {
  }

  /** Nothing lives after an unused slot. */
  lemma NoPlainAfter(dir: seq<Slot>, nm: FatName, n: nat)
    requires UnusedLast(dir) && NoPlainBelow(dir, nm, n) && n < |dir| && dir[n][0] == 0
    ensures NoPlainBelow(dir, nm, |dir|)
  {
  }

  /** What the buffer shows where the target was found: the file's own entry, or one of another name. */
  ghost predicate InBuffer(dir: seq<Slot>, nm: FatName, t: nat, e: Slot) {
    t < |dir| && if Matches(dir[t], nm) then e == dir[t] else NameOf(e) != nm
  }

  /** The same for a target in sector `sector` seen through a buffer that holds sector `last`. */
  ghost predicate InBufferAt(dir: seq<Slot>, nm: FatName, sector: nat, idx: nat, last: nat) {
    Position(last, idx) < |dir| && InBuffer(dir, nm, Position(sector, idx), dir[Position(last, idx)])
  }

  lemma NextSector(dir: seq<Slot>, nm: FatName, s: nat, found: bool, t: nat)
    requires s > 0 && Scanned(dir, nm, Position(s - 1, SLOTS_PER_SECTOR), found, t)
    ensures Scanned(dir, nm, Position(s, 0), found, t)
  {
  }

  /** While scanning the first `n` slots: no file of that name; `found` names the first free slot met. */
  ghost predicate Scanned(dir: seq<Slot>, nm: FatName, n: nat, found: bool, t: nat) {
    && n <= |dir|
    && (forall j :: 0 <= j < n ==> !Matches(dir[j], nm))
    && (if found then t < n && IsFree(dir[t]) && forall j :: 0 <= j < t ==> !IsFree(dir[j])
        else forall j :: 0 <= j < n ==> !IsFree(dir[j]))
  }

  lemma ScanStart(dir: seq<Slot>, nm: FatName)
    ensures Scanned(dir, nm, Position(0, 0), false, Position(0, 0))
  {
  }

  lemma ScanStep(dir: seq<Slot>, nm: FatName, n: nat, found: bool, t: nat)
    requires Scanned(dir, nm, n, found, t) && n < |dir| && !Matches(dir[n], nm)
    ensures if IsFree(dir[n]) then Scanned(dir, nm, n + 1, true, if found then t else n)
      else Scanned(dir, nm, n + 1, found, t)
  {
  }

  lemma ScanHit(dir: seq<Slot>, nm: FatName, n: nat, found: bool, t: nat)
    requires Scanned(dir, nm, n, found, t) && n < |dir| && Matches(dir[n], nm)
    ensures IsTarget(dir, nm, n)
  {
  }

  lemma ScanEnd(dir: seq<Slot>, nm: FatName, found: bool, t: nat)
    requires Scanned(dir, nm, |dir|, found, t)
    ensures if found then IsTarget(dir, nm, t) else NoTarget(dir, nm)
  {
  }

  /** No live slot of the name is a directory. */
  ghost predicate NoDirectoryIn(dir: seq<Slot>, nm: FatName) {
    forall j :: 0 <= j < |dir| && !IsFree(dir[j]) && NameOf(dir[j]) == nm ==> !IsDirectory(dir[j])
  }

  /**
    Comparing names tells the file's slot from the others met in the search: because free slots are
    unused, or because neither a deleted slot nor a directory can carry the name.
   */
  ghost predicate Distinguishable(dir: seq<Slot>, nm: FatName) {
    UnusedLast(dir) && 0 !in nm && (NoDeleted(dir) || (nm[0] != DELETED && NoDirectoryIn(dir, nm)))
  }

  /** A scanned slot behind the first free one that is not the file's differs in its name. */
  lemma OtherSlotDiffers(dir: seq<Slot>, nm: FatName, t: nat, j: nat)
    requires Distinguishable(dir, nm) && t <= j < |dir| && IsFree(dir[t]) && !Matches(dir[j], nm)
    ensures NameOf(dir[j]) != nm
  {
    assert NameOf(dir[j])[0] == dir[j][0];
  }

  /** After scanning sector `s`, the slot `target` shows is the file's own, or another name's. */
  lemma BufferAfterScan(dir: seq<Slot>, nm: FatName, s: nat, hit: bool, sector: nat, idx: nat)
    requires Distinguishable(dir, nm) && idx < SLOTS_PER_SECTOR && Position(s, idx) < |dir| && sector <= s
    requires hit ==> sector == s && Matches(dir[Position(s, idx)], nm)
    requires !hit ==> Scanned(dir, nm, Position(s, SLOTS_PER_SECTOR), true, Position(sector, idx))
    ensures InBufferAt(dir, nm, sector, idx, s)
    ensures NameOf(dir[Position(s, idx)]) == nm <==> hit
  {
    if !hit {
      OtherSlotDiffers(dir, nm, Position(sector, idx), Position(s, idx));
    }
  }

  lemma TargetSeen(dir: seq<Slot>, nm: FatName, sector: nat, idx: nat, last: nat)
    requires IsTarget(dir, nm, Position(sector, idx)) && InBufferAt(dir, nm, sector, idx, last)
    ensures Position(sector, idx) < |dir| && Usable(dir[Position(sector, idx)], nm)
    ensures Position(last, idx) < |dir| && InBuffer(dir, nm, Position(sector, idx), dir[Position(last, idx)])
  {
  }

  /** The clusters released before storing into target slot `t`. */
  function FreedBy(v: Volume, nm: FatName, t: nat): seq<nat>
    requires t < |v.dir|
  {
    if Matches(v.dir[t], nm) then ChainOf(v, v.dir[t]) else []
  }

  ghost predicate NoDirectoryNamed(v: Volume, nm: FatName) {
    NoDirectoryIn(v.dir, nm)
  }

  /** No slot before `t` in its sector is free. */
  ghost predicate NoGap(dir: seq<Slot>, t: nat) {
    t <= |dir| && forall j :: t / SLOTS_PER_SECTOR * SLOTS_PER_SECTOR <= j < t ==> !IsFree(dir[j])
  }

  /** The slot searched again is the one found first exactly if no free slot precedes that one in its sector. */
  lemma RewrittenExactlyTarget(v: Volume, nm: FatName, t: nat, u: nat)
    requires NamesUnique(v.dir) && 0 !in nm && NoDirectoryNamed(v, nm)
    requires IsTarget(v.dir, nm, t) && IsRewritten(v.dir, nm, t, u)
    ensures u == t <==> NoGap(v.dir, t)
  {
    UsableBefore(v, nm, t, u);
  }

  /** A slot rewritten before the one found is a free one. */
  lemma UsableBefore(v: Volume, nm: FatName, t: nat, u: nat)
    requires NoDirectoryNamed(v, nm) && IsTarget(v.dir, nm, t) && u <= t && Usable(v.dir[u], nm)
    ensures u == t || IsFree(v.dir[u])
  {
    assert NameOf(v.dir[u]) == nm ==> IsFree(v.dir[u]) || Matches(v.dir[u], nm);
  }

  /** Then, with no directory of that name, it is the file's one slot, or the first free one. */
  lemma RewrittenIsTarget(v: Volume, nm: FatName, t: nat, u: nat)
    requires WellFormed(v) && Storable(nm) && NoDirectoryNamed(v, nm) && NoGap(v.dir, t)
    requires IsTarget(v.dir, nm, t) && IsRewritten(v.dir, nm, t, u)
    ensures u == t && RightSlot(v, nm, FreedBy(v, nm, t), u)
  {
    RewrittenExactlyTarget(v, nm, t, u);
    forall j | 0 <= j < |v.dir| && j != t && !IsFree(v.dir[j])
      ensures NameOf(v.dir[j]) != nm
    {
      if NameOf(v.dir[j]) == nm {
        assert Matches(v.dir[j], nm);
      }
    }
    forall j | 0 <= j < t
      ensures v.dir[j][0] != 0
    {
      assert IsFree(v.dir[t]) ==> !IsFree(v.dir[j]);
    }
  }

  // ---------- a completed write ----------

  /** The clusters owned by the file slot called `nm`. */
  ghost function ChainNamed(v: Volume, nm: FatName): seq<nat> {
    if exists j: nat :: j < |v.dir| && Matches(v.dir[j], nm) then
      var j: nat :| j < |v.dir| && Matches(v.dir[j], nm);
      ChainOf(v, v.dir[j])
    else []
  }

  /** The outside view of a completed write of `d` under `nm`. */
  ghost predicate Written(v: Volume, nm: FatName, d: seq<byte>, v': Volume) {
    && WellFormed(v') && v'.SameShape(v)
    && Lookup(v', nm) == Some(d)
    && (forall other: FatName :: other != nm && 0 !in other ==> Lookup(v', other) == Lookup(v, other))
    && (forall j :: 0 <= j < |v.dir| && v'.dir[j] != v.dir[j] ==> IsFree(v.dir[j]) || Matches(v.dir[j], nm))
    && (forall k :: 0 <= k < |v.fat| && v'.fat[k] != v.fat[k] ==> k in FreeSet(v.fat) || k in ChainNamed(v, nm))
    && (forall c :: 0 <= c < |v.clusters| && v'.clusters[c] != v.clusters[c] ==> c + 2 in ChainNamed(v', nm))
    && |ChainNamed(v', nm)| == Need(|d|, v.spc)
    && |FreeSet(v'.fat)| + |ChainNamed(v', nm)| == |FreeSet(v.fat)| + |ChainNamed(v, nm)|
    && Backed(v', ChainNamed(v', nm)) == Backed(v, ChainNamed(v, nm))
  }

  lemma ChainNamedAt(v: Volume, nm: FatName, j: nat)
    requires NamesUnique(v.dir) && 0 !in nm && j < |v.dir| && Matches(v.dir[j], nm)
    ensures ChainNamed(v, nm) == ChainOf(v, v.dir[j])
  {
    var i: nat :| i < |v.dir| && Matches(v.dir[i], nm) && ChainNamed(v, nm) == ChainOf(v, v.dir[i]);
    assert Matches(v.dir[i], nm);
    assert NameOf(v.dir[i]) == NameOf(v.dir[j]) == nm;
  }

  lemma ChainNamedIsFreed(v: Volume, nm: FatName, t: nat)
    requires WellFormed(v) && 0 !in nm && IsTarget(v.dir, nm, t)
    ensures ChainNamed(v, nm) == FreedBy(v, nm, t)
  {
    if Matches(v.dir[t], nm) {
      ChainNamedAt(v, nm, t);
    }
  }

  lemma ChainNamedIsNew(v: Volume, nm: FatName, d: seq<byte>, freed: seq<nat>, ch: seq<nat>, u: nat, v': Volume)
    requires WellFormed(v) && RightSlot(v, nm, freed, u) && Replaced(v, nm, d, freed, ch, u, v') && Storable(nm)
    ensures ChainNamed(v', nm) == ch
  {
    NewChain(v, nm, d, freed, ch, u, v');
    SlotsStayOk(v, nm, d, freed, ch, u, v');
    assert Matches(v'.dir[u], nm);
    ChainNamedAt(v', nm, u);
  }

  /** Conservation: free entries plus entries of the file stay constant, and so do those with a cluster. */
  lemma FreeCount(v: Volume, freed: seq<nat>, ch: seq<nat>, fat': Fat)
    requires freed != [] ==> IsChain(v.fat, v.Limit(), freed)
    requires Linked(Zeroed(v.fat, freed), ch, fat')
    ensures |FreeSet(Zeroed(v.fat, freed))| == |FreeSet(v.fat)| + |freed|
    ensures |FreeSet(fat')| + |ch| == |FreeSet(v.fat)| + |freed|
    ensures AllBacked(v, ch) ==> |FreeBelow(fat', v.Limit())| + |ch| == |FreeBelow(v.fat, v.Limit())| + |freed|
  {
    hide Linked, IsChain, FreeSet, FreeBelow;
    if freed == [] {
      assert Zeroed(v.fat, freed) == v.fat;
    } else {
      FreeAfterRelease(v.fat, v.Limit(), freed);
      FreeBelowAfterRelease(v.fat, v.Limit(), freed);
    }
    FreeAfterLink(Zeroed(v.fat, freed), ch, fat');
    if AllBacked(v, ch) {
      FreeBelowAfterLink(Zeroed(v.fat, freed), ch, fat', v.Limit());
    }
  }

  /** Table entries change only where they were free or belonged to the released chain. */
  lemma TableFrame(v: Volume, freed: seq<nat>, ch: seq<nat>, fat': Fat)
    requires Linked(Zeroed(v.fat, freed), ch, fat')
    ensures forall k :: 0 <= k < |v.fat| && fat'[k] != v.fat[k] ==> k in FreeSet(v.fat) || k in freed
  {
    forall k | 0 <= k < |v.fat| && fat'[k] != v.fat[k] && k !in freed
      ensures k in FreeSet(v.fat)
    {
      assert k in ch;
      var i :| 0 <= i < |ch| && ch[i] == k;
      assert k in FreeSet(Zeroed(v.fat, freed));
    }
  }

  /** Enough entries with clusters: free ones, or released by the write. */
  ghost predicate BackedRoom(v: Volume, nm: FatName, t: nat, d: seq<byte>)
    requires t < |v.dir| && v.spc >= 1
  {
    Backed(v, FreedBy(v, nm, t)) >= Need(|d|, v.spc)
  }

  lemma FreedIsChain(v: Volume, nm: FatName, t: nat)
    requires ChainsOk(v) && t < |v.dir| && FreedBy(v, nm, t) != []
    ensures IsChain(v.fat, v.Limit(), FreedBy(v, nm, t))
  {
  }

  /** With enough clusters, what is filed can be found again in full. */
  lemma FiledIsReplaced(v: Volume, nm: FatName, d: seq<byte>, ch: seq<nat>, t: nat, u: nat, v': Volume)
    requires WellFormed(v) && t < |v.dir| && Filed(v, nm, d, FreedBy(v, nm, t), ch, u, v')
    ensures Replaced(v, nm, d, FreedBy(v, nm, t), ch, u, v') <==> BackedRoom(v, nm, t, d)
  {
    hide Filed, IsChain, AllBacked, Need, FreedBy;
    if FreedBy(v, nm, t) != [] {
      FreedIsChain(v, nm, t);
    }
    AllBackedExactlyWhen(v, nm, d, FreedBy(v, nm, t), ch, u, v');
  }

  /** What names denote after a completed write. */
  lemma CompletedNames(v: Volume, nm: FatName, d: seq<byte>, freed: seq<nat>, ch: seq<nat>, u: nat, v': Volume)
    requires WellFormed(v) && RightSlot(v, nm, freed, u) && Replaced(v, nm, d, freed, ch, u, v') && Storable(nm)
    ensures WellFormed(v') && Lookup(v', nm) == Some(d)
    ensures forall other: FatName :: other != nm && 0 !in other ==> Lookup(v', other) == Lookup(v, other)
  {
    hide Filed, AllBacked, WellFormed, Lookup, RightSlot;
    StaysWellFormed(v, nm, d, freed, ch, u, v');
    LookupStored(v, nm, d, freed, ch, u, v');
    forall other: FatName | other != nm && 0 !in other
      ensures Lookup(v', other) == Lookup(v, other)
    {
      LookupOther(v, nm, d, freed, ch, u, v', other);
    }
  }

  /** How a completed write changes the table, and what it conserves. */
  ghost predicate TableUpdated(v: Volume, freed: seq<nat>, ch: seq<nat>, v': Volume) {
    && v'.SameShape(v)
    && (forall k :: 0 <= k < |v.fat| && v'.fat[k] != v.fat[k] ==> k in FreeSet(v.fat) || k in freed)
    && |FreeSet(v'.fat)| + |ch| == |FreeSet(v.fat)| + |freed|
    && Backed(v', ch) == Backed(v, freed)
  }

  lemma CompletedTable(v: Volume, nm: FatName, d: seq<byte>, freed: seq<nat>, ch: seq<nat>, u: nat, v': Volume)
    requires WellFormed(v) && RightSlot(v, nm, freed, u) && Replaced(v, nm, d, freed, ch, u, v')
    ensures TableUpdated(v, freed, ch, v') && |ch| == Need(|d|, v.spc)
  {
    hide Filed, AllBacked, WellFormed, RightSlot, FreeSet, FreeBelow, Linked, IsChain, Need;
    FiledFrame(v, nm, d, freed, ch, u, v');
    OldIsChain(v, nm, freed, u);
    FreeCount(v, freed, ch, v'.fat);
    TableFrame(v, freed, ch, v'.fat);
  }

  /** A write with a storable name that no directory carries, with room and no gap, is a map update on names. */
  lemma CompletedWrite(v: Volume, nm: FatName, d: seq<byte>, ch: seq<nat>, t: nat, u: nat, v': Volume)
    requires WellFormed(v) && Storable(nm) && NoDirectoryNamed(v, nm)
    requires IsTarget(v.dir, nm, t) && IsRewritten(v.dir, nm, t, u) && NoGap(v.dir, t)
    requires Filed(v, nm, d, FreedBy(v, nm, t), ch, u, v') && BackedRoom(v, nm, t, d)
    ensures Written(v, nm, d, v')
  {
    hide Filed, AllBacked, WellFormed, Lookup, IsRewritten, NoGap, BackedRoom, RightSlot, NoDirectoryNamed, FreedBy;
    hide FreeSet, Backed, Need, ChainNamed, Matches, IsFree;
    var freed := FreedBy(v, nm, t);
    FiledIsReplaced(v, nm, d, ch, t, u, v');
    RewrittenIsTarget(v, nm, t, u);
    CompletedNames(v, nm, d, freed, ch, u, v');
    CompletedTable(v, nm, d, freed, ch, u, v');
    ChainNamedIsFreed(v, nm, t);
    ChainNamedIsNew(v, nm, d, freed, ch, u, v');
    WrittenFrame(v, nm, d, freed, ch, t, v');
  }

  lemma FiledFrame(v: Volume, nm: FatName, d: seq<byte>, freed: seq<nat>, ch: seq<nat>, u: nat, v': Volume)
    requires Filed(v, nm, d, freed, ch, u, v')
    ensures v'.SameShape(v) && v'.Limit() == v.Limit() && |ch| == Need(|d|, v.spc)
    ensures Linked(Zeroed(v.fat, freed), ch, v'.fat)
  {
    hide Linked, Stored;
  }

  lemma WrittenFrame(v: Volume, nm: FatName, d: seq<byte>, freed: seq<nat>, ch: seq<nat>, t: nat, v': Volume)
    requires IsTarget(v.dir, nm, t) && Filed(v, nm, d, freed, ch, t, v')
    ensures forall j :: 0 <= j < |v.dir| && v'.dir[j] != v.dir[j] ==> IsFree(v.dir[j]) || Matches(v.dir[j], nm)
    ensures forall c :: 0 <= c < |v.clusters| && v'.clusters[c] != v.clusters[c] ==> c + 2 in ch
  {
  }

  /** Directories, labels and entries marked read-only, hidden or system survive a write. */
  ghost predicate SpecialsKept(v: Volume, v': Volume) {
    forall j :: 0 <= j < |v.dir| && j < |v'.dir| && !IsFree(v.dir[j]) && !IsPlain(v.dir[j]) ==> v'.dir[j] == v.dir[j]
  }

  /** Whatever carries the name is a plain file. */
  ghost predicate OnlyPlainNamed(v: Volume, nm: FatName) {
    forall j :: 0 <= j < |v.dir| && !IsFree(v.dir[j]) && NameOf(v.dir[j]) == nm ==> IsPlain(v.dir[j])
  }

  /** What a write of any kind puts into the rewritten slot. */
  lemma RewrittenSlot(v: Volume, nm: FatName, d: seq<byte>, freed: seq<nat>, ch: seq<nat>, u: nat, v': Volume)
    requires Filed(v, nm, d, freed, ch, u, v') && 0 !in nm
    ensures u < |v'.dir| == |v.dir| && NameOf(v'.dir[u]) == nm && v'.dir[u][0] == nm[0] && !IsDirectory(v'.dir[u])
    ensures nm[0] != DELETED ==> IsPlain(v'.dir[u])
    ensures forall j :: 0 <= j < |v.dir| && j != u ==> v'.dir[j] == v.dir[j]
  {
    assert nm[0] != 0;
  }

  /** A live slot of the name, other than the rewritten one, ends up beside the new file of the same name. */
  lemma ListedTwice(v: Volume, nm: FatName, d: seq<byte>, freed: seq<nat>, ch: seq<nat>, u: nat, v': Volume, j: nat)
    requires Filed(v, nm, d, freed, ch, u, v') && Storable(nm)
    requires j < |v.dir| && j != u && !IsFree(v.dir[j]) && NameOf(v.dir[j]) == nm
    ensures PlainAt(v'.dir, u, nm) && v'.dir[j] == v.dir[j] && !NamesUnique(v'.dir)
  {
    hide NamesUnique;
    RewrittenSlot(v, nm, d, freed, ch, u, v');
    TwoOfAName(v'.dir, nm, Min(j, u), if j < u then u else j);
  }

  lemma TwoOfAName(dir: seq<Slot>, nm: FatName, i: nat, j: nat)
    requires i < j < |dir| && !IsFree(dir[i]) && !IsFree(dir[j]) && NameOf(dir[i]) == NameOf(dir[j]) == nm && 0 !in nm
    ensures !NamesUnique(dir)
  {
  }

  /** A gap before the file's slot: the deleted slot is rewritten, and the file's old slot stays beside it. */
  lemma GapListsTwice(v: Volume, nm: FatName, d: seq<byte>, ch: seq<nat>, t: nat, u: nat, v': Volume)
    requires WellFormed(v) && Storable(nm) && NoDirectoryNamed(v, nm)
    requires IsTarget(v.dir, nm, t) && IsRewritten(v.dir, nm, t, u) && !NoGap(v.dir, t)
    requires Filed(v, nm, d, FreedBy(v, nm, t), ch, u, v')
    ensures u < t && IsFree(v.dir[u]) && Matches(v.dir[t], nm)
    ensures PlainAt(v'.dir, u, nm) && Matches(v'.dir[t], nm) && !WellFormed(v')
  {
    RewrittenExactlyTarget(v, nm, t, u);
    ListedTwice(v, nm, d, FreedBy(v, nm, t), ch, u, v', t);
    UsableBefore(v, nm, t, u);
  }

  /**
    A volume label (or another marked entry) of the name becomes a plain file; nothing else about the volume breaks.
   */
  lemma LabelOverwritten(v: Volume, nm: FatName, d: seq<byte>, ch: seq<nat>, t: nat, u: nat, v': Volume, j: nat)
    requires WellFormed(v) && Storable(nm)
    requires IsTarget(v.dir, nm, t) && IsRewritten(v.dir, nm, t, u) && NoGap(v.dir, t)
    requires Filed(v, nm, d, FreedBy(v, nm, t), ch, u, v') && BackedRoom(v, nm, t, d)
    requires j < |v.dir| && Matches(v.dir[j], nm) && IsSkipped(v.dir[j])
    ensures WellFormed(v') && u == j && IsPlain(v'.dir[j]) && !SpecialsKept(v, v')
  {
    forall i | 0 <= i < |v.dir| && !IsFree(v.dir[i]) && NameOf(v.dir[i]) == nm
      ensures i == j
    {
      assert NameOf(v.dir[i]) == NameOf(v.dir[j]);
    }
    CompletedWrite(v, nm, d, ch, t, u, v');
    RewrittenIsTarget(v, nm, t, u);
    RewrittenSlot(v, nm, d, FreedBy(v, nm, t), ch, u, v');
  }

  /** A directory, label or marked entry of the name is overwritten, or ends up beside a file of the same name. */
  lemma SpecialHarmed(v: Volume, nm: FatName, d: seq<byte>, freed: seq<nat>, ch: seq<nat>, u: nat, v': Volume, j: nat)
    requires Filed(v, nm, d, freed, ch, u, v') && Storable(nm)
    requires j < |v.dir| && !IsFree(v.dir[j]) && NameOf(v.dir[j]) == nm && !IsPlain(v.dir[j])
    ensures !(NamesUnique(v'.dir) && SpecialsKept(v, v'))
  {
    RewrittenSlot(v, nm, d, freed, ch, u, v');
    if j != u {
      ListedTwice(v, nm, d, freed, ch, u, v', j);
    }
  }

  /** Too few entries with clusters: the volume is not well formed afterwards. */
  lemma TooFewBacked(v: Volume, nm: FatName, d: seq<byte>, ch: seq<nat>, t: nat, u: nat, v': Volume)
    requires WellFormed(v) && Storable(nm) && NoDirectoryNamed(v, nm)
    requires IsTarget(v.dir, nm, t) && IsRewritten(v.dir, nm, t, u) && NoGap(v.dir, t)
    requires Filed(v, nm, d, FreedBy(v, nm, t), ch, u, v') && !BackedRoom(v, nm, t, d)
    ensures !WellFormed(v')
  {
    RewrittenIsTarget(v, nm, t, u);
    StaysWellFormedExactlyWhen(v, nm, d, FreedBy(v, nm, t), ch, u, v');
  }

  /**
    Exactly when a write that returns the length has done what it is for, and harmed nothing else: the name does not
    start with the deletion mark, whatever carries it is a plain file, no free slot precedes the slot found in
    its sector, and there are enough entries with clusters.
   */
  lemma SafeExactlyWhen(v: Volume, nm: FatName, d: seq<byte>, ch: seq<nat>, t: nat, u: nat, v': Volume)
    requires WellFormed(v) && 0 !in nm
    requires IsTarget(v.dir, nm, t) && IsRewritten(v.dir, nm, t, u)
    requires Filed(v, nm, d, FreedBy(v, nm, t), ch, u, v')
    ensures Written(v, nm, d, v') && SpecialsKept(v, v') <==>
      nm[0] != DELETED && OnlyPlainNamed(v, nm) && NoGap(v.dir, t) && BackedRoom(v, nm, t, d)
  {
    hide Filed, BackedRoom, IsRewritten;
    var freed := FreedBy(v, nm, t);
    if nm[0] == DELETED {
      NeverFound(v', nm);
    } else if j: nat :| j < |v.dir| && !IsFree(v.dir[j]) && NameOf(v.dir[j]) == nm && !IsPlain(v.dir[j]) {
      SpecialHarmed(v, nm, d, freed, ch, u, v', j);
    } else if !NoGap(v.dir, t) {
      GapListsTwice(v, nm, d, ch, t, u, v');
    } else if !BackedRoom(v, nm, t, d) {
      TooFewBacked(v, nm, d, ch, t, u, v');
    } else {
      CompletedWrite(v, nm, d, ch, t, u, v');
      OtherSlotsKept(v, nm, d, ch, t, u, v');
    }
  }

  lemma NeverFound(v: Volume, nm: FatName)
    requires nm[0] == DELETED
    ensures Lookup(v, nm) == None
  {
    forall j | 0 <= j < |v.dir|
      ensures !PlainAt(v.dir, j, nm)
    {
      assert NameOf(v.dir[j])[0] == v.dir[j][0];
    }
  }

  lemma OtherSlotsKept(v: Volume, nm: FatName, d: seq<byte>, ch: seq<nat>, t: nat, u: nat, v': Volume)
    requires 0 !in nm && OnlyPlainNamed(v, nm) && IsRewritten(v.dir, nm, t, u)
    requires Filed(v, nm, d, FreedBy(v, nm, t), ch, u, v')
    ensures SpecialsKept(v, v')
  {
    RewrittenSlot(v, nm, d, FreedBy(v, nm, t), ch, u, v');
  }

  /**
    After any write with a slot of its own, every other name denotes what it did, even if its own data is lost in part.
   */
  lemma FiledKeepsOthers(v: Volume, nm: FatName, d: seq<byte>, ch: seq<nat>, t: nat, u: nat, v': Volume, other: FatName)
    requires WellFormed(v) && Storable(nm) && NoDirectoryNamed(v, nm) && NoGap(v.dir, t)
    requires IsTarget(v.dir, nm, t) && IsRewritten(v.dir, nm, t, u) && Filed(v, nm, d, FreedBy(v, nm, t), ch, u, v')
    requires other != nm && 0 !in other
    ensures Lookup(v', other) == Lookup(v, other) && Readable(v', other)
  {
    var freed := FreedBy(v, nm, t);
    RewrittenIsTarget(v, nm, t, u);
    LookupOther(v, nm, d, freed, ch, u, v', other);
    SlotsStayOk(v, nm, d, freed, ch, u, v');
    forall j: nat | j < |v'.dir| && PlainAt(v'.dir, j, other)
      ensures OwnsChain(v', v'.dir[j])
    {
      OtherStaysReadable(v, nm, d, freed, ch, u, v', j);
    }
  }

  lemma OtherStaysReadable(v: Volume, nm: FatName, d: seq<byte>, freed: seq<nat>, ch: seq<nat>, u: nat, v': Volume,
                           j: nat)
    requires WellFormed(v) && RightSlot(v, nm, freed, u) && Filed(v, nm, d, freed, ch, u, v')
    requires j < |v'.dir| && NameOf(v'.dir[j]) != nm && IsPlain(v'.dir[j])
    ensures OwnsChain(v', v'.dir[j])
  {
    assert j != u;
    OtherChain(v, nm, d, freed, ch, u, v', j);
    if FirstOf(v.dir[j]) >= 2 {
      ChainTransfer(v.fat, v'.fat, v.Limit(), ChainOf(v, v.dir[j]));
    }
  }

  // ---------- an aborted write ----------

  /** The disk filled up: the old chain is gone, `ch` is claimed but belongs to no slot. */
  ghost predicate Aborted(v: Volume, freed: seq<nat>, ch: seq<nat>, v': Volume) {
    && v'.SameShape(v) && v'.Sized() && v'.dir == v.dir
    && Linked(Zeroed(v.fat, freed), ch, v'.fat)
    && FreeSet(v'.fat) == {}
    && (forall c :: 0 <= c < |v.clusters| && c + 2 !in ch ==> v'.clusters[c] == v.clusters[c])
  }

  /** Even a write that fails half way leaves every other file as it was. */
  lemma AbortKeepsOthers(v: Volume, nm: FatName, ch: seq<nat>, t: nat, v': Volume, other: FatName)
    requires WellFormed(v) && 0 !in nm && IsTarget(v.dir, nm, t)
    requires Aborted(v, FreedBy(v, nm, t), ch, v')
    requires other != nm && 0 !in other
    ensures Lookup(v', other) == Lookup(v, other)
  {
    if j: nat :| PlainAt(v.dir, j, other) {
      AbortKeepsChain(v, nm, ch, t, v', j);
      LookupAt(v, other, j);
      LookupAt(v', other, j);
      ContentsFrame(v, v', v.dir[j]);
    } else {
    }
  }

  lemma AbortKeepsChain(v: Volume, nm: FatName, ch: seq<nat>, t: nat, v': Volume, j: nat)
    requires WellFormed(v) && IsTarget(v.dir, nm, t) && Aborted(v, FreedBy(v, nm, t), ch, v')
    requires j < |v.dir| && !IsFree(v.dir[j]) && NameOf(v.dir[j]) != nm
    ensures ChainOf(v', v.dir[j]) == ChainOf(v, v.dir[j])
    ensures forall k :: k in ChainOf(v, v.dir[j]) ==> k !in ch
    ensures FirstOf(v.dir[j]) >= 2 ==> IsChain(v'.fat, v'.Limit(), ChainOf(v, v.dir[j]))
  {
    var e := v.dir[j];
    if FirstOf(e) >= 2 {
      var mine := ChainOf(v, e);
      assert IsChain(v.fat, v.Limit(), mine);
      forall k | k in mine
        ensures k !in ch && k < |v.fat| && v'.fat[k] == v.fat[k]
      {
        AbortKeepsLink(v, nm, ch, t, v', j, k);
      }
      WalkFrame(v.fat, v'.fat, FirstOf(e), |v.fat|);
    }
  }

  lemma ChainsApart(v: Volume, i: nat, j: nat, k: nat)
    requires ChainsDisjoint(v) && i < j < |v.dir| && !IsFree(v.dir[i]) && !IsFree(v.dir[j])
    ensures !(k in ChainOf(v, v.dir[i]) && k in ChainOf(v, v.dir[j]))
  {
    hide ChainOf, IsFree;
  }

  lemma OthersNotFreed(v: Volume, nm: FatName, t: nat, j: nat, k: nat)
    requires ChainsDisjoint(v) && t < |v.dir|
    requires j < |v.dir| && !IsFree(v.dir[j]) && NameOf(v.dir[j]) != nm && k in ChainOf(v, v.dir[j])
    ensures k !in FreedBy(v, nm, t)
  {
    hide ChainOf, IsFree, NameOf, IsDirectory, ChainsDisjoint;
    if Matches(v.dir[t], nm) {
      if t < j {
        ChainsApart(v, t, j, k);
      } else if j < t {
        ChainsApart(v, j, t, k);
      }
    }
  }

  lemma AbortKeepsLink(v: Volume, nm: FatName, ch: seq<nat>, t: nat, v': Volume, j: nat, k: nat)
    requires WellFormed(v) && IsTarget(v.dir, nm, t) && Aborted(v, FreedBy(v, nm, t), ch, v')
    requires j < |v.dir| && !IsFree(v.dir[j]) && NameOf(v.dir[j]) != nm && k in ChainOf(v, v.dir[j])
    ensures k !in ch && k < |v.fat| && v'.fat[k] == v.fat[k]
  {
    hide ChainOf, IsFree, NameOf, FreedBy, NamesUnique, UnusedLast, ChainsDisjoint, LongEnough, Matches, IsChain,
      LowestFirst;
    var freed := FreedBy(v, nm, t);
    OthersNotFreed(v, nm, t, j, k);
    assert FirstOf(v.dir[j]) >= 2 by {
      FirstOfOwner(v, v.dir[j], k);
    }
    LiveNotFree(v.fat, v.Limit(), ChainOf(v, v.dir[j]), k);
    assert Zeroed(v.fat, freed)[k] == v.fat[k];
  }

  lemma FirstOfOwner(v: Volume, e: Slot, k: nat)
    requires k in ChainOf(v, e)
    ensures FirstOf(e) >= 2
  {
    hide Walk;
  }

  /** Even after a write that fails half way every other file can still be read. */
  lemma AbortKeepsReadable(v: Volume, nm: FatName, ch: seq<nat>, t: nat, v': Volume, other: FatName)
    requires WellFormed(v) && 0 !in nm && IsTarget(v.dir, nm, t)
    requires Aborted(v, FreedBy(v, nm, t), ch, v')
    requires other != nm && 0 !in other
    ensures Readable(v', other)
  {
    forall j: nat | j < |v'.dir| && PlainAt(v'.dir, j, other)
      ensures OwnsChain(v', v'.dir[j])
    {
      AbortKeepsChain(v, nm, ch, t, v', j);
    }
  }

  // ---------- the outcomes of a write ----------

  /** Room for `d`: free clusters plus those the write itself releases. */
  ghost predicate HasRoom(v: Volume, nm: FatName, t: nat, d: seq<byte>)
    requires t < |v.dir| && v.spc >= 1
  {
    |FreeSet(v.fat)| + |FreedBy(v, nm, t)| >= Need(|d|, v.spc)
  }

  ghost predicate WriteOutcome(v: Volume, nm: FatName, d: seq<byte>, ret: int, t: nat, u: nat, ch: seq<nat>,
                               v': Volume) {
    if ret == -1 then NoTarget(v.dir, nm) && v' == v
    else
      && IsTarget(v.dir, nm, t) && v.spc >= 1
      && if !HasRoom(v, nm, t, d) then ret == -2 && Aborted(v, FreedBy(v, nm, t), ch, v')
         else ret == |d| && IsRewritten(v.dir, nm, t, u) && Filed(v, nm, d, FreedBy(v, nm, t), ch, u, v')
  }

  /** Enough entries with clusters are enough entries. */
  lemma BackedIsRoom(v: Volume, nm: FatName, t: nat, d: seq<byte>)
    requires t < |v.dir| && v.spc >= 1 && BackedRoom(v, nm, t, d)
    ensures HasRoom(v, nm, t, d)
  {
    SubsetCount(FreeBelow(v.fat, v.Limit()), FreeSet(v.fat));
  }

  /** A volume whose table has one free entry and which has no cluster: the call returns 1 and nothing is stored. */
  lemma UnbackedExample(nm: FatName, e: Slot)
    requires Storable(nm) && e[0] == 0
    ensures var v := Volume(1, [CHAIN_END, END_MARK, 0], [e], []);
      var v' := Volume(1, [CHAIN_END, END_MARK, END_MARK], [FileSlot(e, nm, 2, 1)], []);
      && WellFormed(v) && WriteOutcome(v, nm, [65], 1, 0, 0, [2], v')
      && !BackedRoom(v, nm, 0, [65]) && !WellFormed(v') && Lookup(v', nm) != Some([65])
  {
    var v := Volume(1, [CHAIN_END, END_MARK, 0], [e], []);
    var v' := Volume(1, [CHAIN_END, END_MARK, END_MARK], [FileSlot(e, nm, 2, 1)], []);
    assert FreeSet(v.fat) == {2} && FreeBelow(v.fat, v.Limit()) == {};
    assert Zeroed(v.fat, []) == v.fat && v'.fat == v.fat[2 := END_MARK];
    assert Filed(v, nm, [65], [], [2], 0, v');
    TooFewBacked(v, nm, [65], [2], 0, 0, v');
    NoClusterNoBytes(v', nm);
  }

  lemma NoClusterNoBytes(v: Volume, nm: FatName)
    requires v.clusters == []
    ensures Lookup(v, nm) == None || Lookup(v, nm) == Some([])
  {
    if j :| PlainAt(v.dir, j, nm) && Lookup(v, nm) == Some(Contents(v, v.dir[j])) {
      var ch := ChainOf(v, v.dir[j]);
      assert InClusters(v, ch) <==> ch == [];
    }
  }

  lemma ReleasedVolume(v: Volume, nm: FatName, t: nat, v1: Volume)
    requires WellFormed(v) && t < |v.dir| && v1 == v.(fat := Zeroed(v.fat, FreedBy(v, nm, t)))
    ensures v1.Sized()
    ensures |FreeSet(v1.fat)| == |FreeSet(v.fat)| + |FreedBy(v, nm, t)|
  {
    var freed := FreedBy(v, nm, t);
    if freed == [] {
      assert v1.fat == v.fat;
    } else {
      FreedIsChain(v, nm, t);
      FreeAfterRelease(v.fat, v.Limit(), freed);
    }
  }

  /** Entries are conserved: what a write claims comes out of the free ones and those it released. */
  lemma ClaimedFromFree(v: Volume, nm: FatName, t: nat, v1: Volume, ch: seq<nat>, v2: Volume)
    requires WellFormed(v) && t < |v.dir| && v1 == v.(fat := Zeroed(v.fat, FreedBy(v, nm, t)))
    requires Linked(v1.fat, ch, v2.fat)
    ensures |FreeSet(v2.fat)| + |ch| == |FreeSet(v.fat)| + |FreedBy(v, nm, t)|
  {
    hide WellFormed, Linked, FreeSet;
    ReleasedVolume(v, nm, t, v1);
    FreeAfterLink(v1.fat, ch, v2.fat);
  }

  lemma StoringIsLinked(v1: Volume, d: seq<byte>, ch: seq<nat>, stored: nat, v2: Volume)
    requires Storing(v1, d, ch, stored, v2)
    ensures Linked(v1.fat, ch, v2.fat)
  {
  }

  lemma StoringAborts(v: Volume, freed: seq<nat>, v1: Volume, d: seq<byte>, ch: seq<nat>, stored: nat, v2: Volume)
    requires v1 == v.(fat := Zeroed(v.fat, freed)) && Storing(v1, d, ch, stored, v2) && FreeSet(v2.fat) == {}
    ensures Aborted(v, freed, ch, v2)
  {
    hide Linked, FreeSet, Zeroed, PartAt;
    assert |v1.fat| == |v.fat|;
  }

  lemma AbortedOutcome(v: Volume, nm: FatName, d: seq<byte>, t: nat, v1: Volume, ch: seq<nat>, stored: nat, v2: Volume)
    requires WellFormed(v) && IsTarget(v.dir, nm, t) && v1 == v.(fat := Zeroed(v.fat, FreedBy(v, nm, t)))
    requires Storing(v1, d, ch, stored, v2) && FreeSet(v2.fat) == {} && |ch| < Need(|d|, v.spc)
    ensures !HasRoom(v, nm, t, d) && Aborted(v, FreedBy(v, nm, t), ch, v2)
  {
    hide Storing, Aborted, FreeSet, Need, FreedBy;
    StoringIsLinked(v1, d, ch, stored, v2);
    ClaimedFromFree(v, nm, t, v1, ch, v2);
    StoringAborts(v, FreedBy(v, nm, t), v1, d, ch, stored, v2);
  }

  /** The slot and the contents a completed data loop leaves behind. */
  lemma StoringCompletes(v: Volume, nm: FatName, freed: seq<nat>, d: seq<byte>, v1: Volume, ch: seq<nat>, v2: Volume,
                         u: nat, v3: Volume)
    requires v.spc >= 1 && v1 == v.(fat := Zeroed(v.fat, freed)) && u < |v.dir| && |d| < 0x8000_0000
    requires Storing(v1, d, ch, |d|, v2) && ch != [] && |ch| == Need(|d|, v.spc)
    requires ch[0] < 0x1_0000 && v3 == v2.(dir := v2.dir[u := FileSlot(v2.dir[u], nm, ch[0], |d|)])
    ensures Filed(v, nm, d, freed, ch, u, v3)
  {
    hide Linked, Zeroed, PartAt, FileSlot, Need;
    assert |v1.fat| == |v.fat|;
    assert v3.Sized();
    assert Stored(v, d, ch, v3);
  }

  lemma CompletedOutcome(v: Volume, nm: FatName, d: seq<byte>, t: nat, v1: Volume, ch: seq<nat>, v2: Volume, u: nat,
                         v3: Volume)
    requires WellFormed(v) && IsTarget(v.dir, nm, t) && v1 == v.(fat := Zeroed(v.fat, FreedBy(v, nm, t)))
    requires |d| < 0x8000_0000
    requires Storing(v1, d, ch, |d|, v2) && ch != [] && |ch| == Need(|d|, v.spc)
    requires IsRewritten(v.dir, nm, t, u) && ch[0] < 0x1_0000
    requires v3 == v2.(dir := v2.dir[u := FileSlot(v2.dir[u], nm, ch[0], |d|)])
    ensures HasRoom(v, nm, t, d) && Filed(v, nm, d, FreedBy(v, nm, t), ch, u, v3)
  {
    hide Storing, Filed, FreeSet, Need, FreedBy, FileSlot;
    StoringIsLinked(v1, d, ch, |d|, v2);
    ClaimedFromFree(v, nm, t, v1, ch, v2);
    StoringCompletes(v, nm, FreedBy(v, nm, t), d, v1, ch, v2, u, v3);
  }

  /** How many bytes a read delivers. */
  function Share(size: nat, maxLen: nat): nat {
    if maxLen == 0 then 0 else Min(size, maxLen - 1)
  }

  /**
    Reading into a buffer of `maxLen` bytes: the contents as far as they fit, then a NUL byte. With
    `maxLen` 0 a file that is not empty has its NUL byte stored all the same.
   */
  ghost predicate ReadOutcome(file: Option<seq<byte>>, maxLen: nat, before: seq<byte>, ret: int, after: seq<byte>)
    requires maxLen <= |before| && |before| >= 1
  {
    match file
    case None => ret == -1 && after == before
    case Some(d) =>
      && ret == Share(|d|, maxLen)
      && after == if maxLen == 0 && d == [] then before else d[..ret] + [0] + before[ret + 1..]
  }

  lemma ReadDone(all: seq<byte>, size: nat, maxLen: nat, before: seq<byte>, mid: seq<byte>, n: nat, after: seq<byte>)
    requires size <= |all| && maxLen <= |before| == |mid| && n == Share(size, maxLen) < |mid|
    requires (maxLen == 0 ==> size > 0)
    requires mid[..n] == all[..n] && mid[n..] == before[n..]
    requires after == mid[..n] + [0] + mid[n + 1..]
    ensures ReadOutcome(Some(all[..size]), maxLen, before, n, after)
  {
    assert mid[n + 1..] == mid[n..][1..] == before[n..][1..] == before[n + 1..];
    assert all[..size][..n] == all[..n];
  }

  lemma LookupNone(v: Volume, nm: FatName)
    requires NoPlainBelow(v.dir, nm, |v.dir|)
    ensures Lookup(v, nm) == None
  {
  }

  // ---------- runs ----------

  /** A call of fat16_write_file: its arguments, its result, and what it chose. */
  datatype Write = Write(name: FatName, data: seq<byte>, ret: int, t: nat, u: nat, ch: seq<nat>)

  /** A run of calls, each with enough clusters for its data or without a usable slot. */
  ghost predicate IsRun(vs: seq<Volume>, ws: seq<Write>) {
    && |vs| == |ws| + 1
    && forall i {:trigger WriteAt(vs, ws, i)} :: 0 <= i < |ws| ==> WriteAt(vs, ws, i)
  }

  ghost predicate WriteAt(vs: seq<Volume>, ws: seq<Write>, i: nat)
    requires i < |ws| && |vs| == |ws| + 1
  {
    var w := ws[i];
    && WriteOutcome(vs[i], w.name, w.data, w.ret, w.t, w.u, w.ch, vs[i + 1])
    && (w.ret != -1 ==> BackedRoom(vs[i], w.name, w.t, w.data))
  }

  /** The data last stored under a name, or what it denoted before. */
  function LastWritten(before: Option<seq<byte>>, ws: seq<Write>, nm: FatName): Option<seq<byte>> {
    if ws == [] then before
    else if ws[|ws| - 1].name == nm && ws[|ws| - 1].ret != -1 then Some(ws[|ws| - 1].data)
    else LastWritten(before, ws[..|ws| - 1], nm)
  }

  /** No free slot precedes the file of that name in its sector. */
  ghost predicate NoGapBefore(dir: seq<Slot>, nm: FatName) {
    forall j :: 0 <= j < |dir| && Matches(dir[j], nm) ==> NoGap(dir, j)
  }

  /** The name can be stored, no directory has it, and no gap precedes the file of that name. */
  ghost predicate NameUsable(v: Volume, nm: FatName) {
    Storable(nm) && NoDirectoryNamed(v, nm) && NoGapBefore(v.dir, nm)
  }

  ghost predicate NamesUsable(v: Volume, ws: seq<Write>) {
    forall i :: 0 <= i < |ws| ==> NameUsable(v, ws[i].name)
  }

  lemma TargetHasNoGap(dir: seq<Slot>, nm: FatName, t: nat)
    requires IsTarget(dir, nm, t) && NoGapBefore(dir, nm)
    ensures NoGap(dir, t)
  {
  }

  /** Writing makes no directories and no gaps. */
  lemma StaysUsable(v: Volume, nm: FatName, d: seq<byte>, freed: seq<nat>, ch: seq<nat>, u: nat, v': Volume,
                    other: FatName)
    requires Filed(v, nm, d, freed, ch, u, v') && Storable(nm) && NoGap(v.dir, u) && NameUsable(v, other)
    ensures NameUsable(v', other)
  {
    hide Filed;
    RewrittenSlot(v, nm, d, freed, ch, u, v');
    forall j | 0 <= j < |v'.dir| && Matches(v'.dir[j], other)
      ensures NoGap(v'.dir, j)
    {
      assert j != u ==> v'.dir[j] == v.dir[j];
    }
  }

  lemma UsableKept(vs: seq<Volume>, ws: seq<Write>, i: nat)
    requires IsRun(vs, ws) && i < |ws| && WellFormed(vs[i]) && NamesUsable(vs[i], ws)
    ensures NamesUsable(vs[i + 1], ws)
  {
    hide Filed, NameUsable;
    var w := ws[i];
    assert WriteAt(vs, ws, i);
    if w.ret != -1 {
      StepIsFiled(vs[i], w, vs[i + 1]);
      forall k | 0 <= k < |ws|
        ensures NameUsable(vs[i + 1], ws[k].name)
      {
        StaysUsable(vs[i], w.name, w.data, FreedBy(vs[i], w.name, w.t), w.ch, w.u, vs[i + 1], ws[k].name);
      }
    }
  }

  lemma StepIsFiled(v: Volume, w: Write, v': Volume)
    requires WellFormed(v) && w.ret != -1 && NameUsable(v, w.name)
    requires WriteOutcome(v, w.name, w.data, w.ret, w.t, w.u, w.ch, v') && BackedRoom(v, w.name, w.t, w.data)
    ensures w.ret == |w.data| && Storable(w.name) && IsTarget(v.dir, w.name, w.t)
    ensures IsRewritten(v.dir, w.name, w.t, w.u)
    ensures Filed(v, w.name, w.data, FreedBy(v, w.name, w.t), w.ch, w.u, v') && NoGap(v.dir, w.t) && w.u == w.t
  {
    hide Filed, HasRoom, BackedRoom, Aborted;
    BackedIsRoom(v, w.name, w.t, w.data);
    TargetHasNoGap(v.dir, w.name, w.t);
    RewrittenExactlyTarget(v, w.name, w.t, w.u);
  }

  /** One call of a run updates what its own name denotes, and nothing else. */
  ghost predicate Updates(v: Volume, w: Write, v': Volume) {
    && WellFormed(v')
    && forall nm: FatName :: 0 !in nm ==>
      Lookup(v', nm) == if nm == w.name && w.ret != -1 then Some(w.data) else Lookup(v, nm)
  }

  lemma RunStep(vs: seq<Volume>, ws: seq<Write>, i: nat)
    requires IsRun(vs, ws) && i < |ws| && WellFormed(vs[i]) && NamesUsable(vs[i], ws)
    ensures Updates(vs[i], ws[i], vs[i + 1])
  {
    hide Filed, Lookup, BackedRoom;
    var w := ws[i];
    assert WriteAt(vs, ws, i);
    if w.ret != -1 {
      assert NameUsable(vs[i], w.name);
      StepIsFiled(vs[i], w, vs[i + 1]);
      CompletedWrite(vs[i], w.name, w.data, w.ch, w.t, w.u, vs[i + 1]);
    }
  }

  lemma {:induction false} RunPrefix(vs: seq<Volume>, ws: seq<Write>, nm: FatName, n: nat)
    requires IsRun(vs, ws) && WellFormed(vs[0]) && NamesUsable(vs[0], ws) && 0 !in nm && n <= |ws|
    ensures WellFormed(vs[n]) && NamesUsable(vs[n], ws)
    ensures Lookup(vs[n], nm) == LastWritten(Lookup(vs[0], nm), ws[..n], nm)
  {
    hide WellFormed, WriteAt, Lookup, NamesUsable;
    if n > 0 {
      RunPrefix(vs, ws, nm, n - 1);
      UsableKept(vs, ws, n - 1);
      RunStep(vs, ws, n - 1);
      assert ws[..n][..n - 1] == ws[..n - 1];
    }
  }

  /** After any run of calls every name denotes what was last stored under it. */
  lemma RunRemembers(vs: seq<Volume>, ws: seq<Write>, nm: FatName)
    requires IsRun(vs, ws) && WellFormed(vs[0]) && NamesUsable(vs[0], ws) && 0 !in nm
    ensures WellFormed(vs[|ws|])
    ensures Lookup(vs[|ws|], nm) == LastWritten(Lookup(vs[0], nm), ws, nm)
  {
    hide *;
    RunPrefix(vs, ws, nm, |ws|);
    assert ws[..|ws|] == ws;
  }
}
