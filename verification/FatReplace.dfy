/**
  The effect of storing one file, and why it is exactly a map update: the volume stays well
  formed, the written name denotes the new bytes and every other name keeps its contents.
 */
module FatReplace {
  import opened Bytes
  import opened FatTable
  import opened FatVolume
  import opened FatData

  /**
    Slot `u` now describes `d` stored in the entries `ch`, after the clusters `freed` were released. Data sent to an
    entry that has no cluster is lost.
   */
  ghost predicate Filed(v: Volume, nm: FatName, d: seq<byte>, freed: seq<nat>, ch: seq<nat>, u: nat, v': Volume)
  {
    && v'.SameShape(v) && v'.Sized()
    && |d| < 0x8000_0000
    && ch != [] && |ch| == Need(|d|, v.spc)
    && Linked(Zeroed(v.fat, freed), ch, v'.fat)
    && u < |v.dir| && ch[0] < 0x1_0000
    && v'.dir == v.dir[u := FileSlot(v.dir[u], nm, ch[0], |d|)]
    && Stored(v, d, ch, v')
  }

  /** Each of the clusters `ch` that exists holds its part of `d`, and no cluster outside `ch` changed. */
  ghost predicate Stored(v: Volume, d: seq<byte>, ch: seq<nat>, v': Volume)
  {
    && |v'.clusters| == |v.clusters|
    && (forall m :: 0 <= m < |ch| && 2 <= ch[m] < |v.clusters| + 2 ==> PartAt(d, v.spc, m, v'.clusters[ch[m] - 2]))
    && (forall c :: 0 <= c < |v.clusters| && c + 2 !in ch ==> v'.clusters[c] == v.clusters[c])
  }

  /** Every entry is an ordinary cluster number with a cluster behind it. */
  ghost predicate AllBacked(v: Volume, ch: seq<nat>) {
    forall i :: 0 <= i < |ch| ==> ch[i] < v.Limit()
  }

  /** The same with a cluster for every part. */
  ghost predicate Replaced(v: Volume, nm: FatName, d: seq<byte>, freed: seq<nat>, ch: seq<nat>, u: nat, v': Volume)
  {
    Filed(v, nm, d, freed, ch, u, v') && AllBacked(v, ch)
  }

  /** The slot is the one live slot of that name and owns `freed`, or is free while no live slot has the name. */
  ghost predicate RightSlot(v: Volume, nm: FatName, freed: seq<nat>, u: nat) {
    && u < |v.dir|
    && (forall j :: 0 <= j < u ==> v.dir[j][0] != 0)
    && (forall j :: 0 <= j < |v.dir| && j != u && !IsFree(v.dir[j]) ==> NameOf(v.dir[j]) != nm)
    && (!IsFree(v.dir[u]) ==> NameOf(v.dir[u]) == nm)
    && freed == if IsFree(v.dir[u]) then [] else ChainOf(v, v.dir[u])
  }

  /** Names the driver can store and find again: no NUL byte, and not starting with the deletion mark. */
  predicate Storable(nm: FatName) {
    0 !in nm && nm[0] != DELETED
  }

  /** The chain of every other live slot survives unchanged and shares no cluster with the new one. */
  lemma OtherChain(v: Volume, nm: FatName, d: seq<byte>, freed: seq<nat>, ch: seq<nat>, u: nat, v': Volume, j: nat)
    requires WellFormed(v) && RightSlot(v, nm, freed, u) && Filed(v, nm, d, freed, ch, u, v')
    requires j < |v.dir| && j != u && !IsFree(v.dir[j])
    ensures v'.dir[j] == v.dir[j]
    ensures ChainOf(v', v'.dir[j]) == ChainOf(v, v.dir[j])
    ensures forall k :: k in ChainOf(v, v.dir[j]) ==> k !in ch && k < |v.fat| && v'.fat[k] == v.fat[k]
  {
    var e := v.dir[j];
    if FirstOf(e) >= 2 {
      var mine := ChainOf(v, e);
      assert IsChain(v.fat, v.Limit(), mine);
      forall k | k in mine
        ensures k !in ch && k < |v.fat| && v'.fat[k] == v.fat[k]
      {
        LiveNotFree(v.fat, v.Limit(), mine, k);
        assert k !in freed;
        assert Zeroed(v.fat, freed)[k] == v.fat[k];
        assert k !in FreeSet(Zeroed(v.fat, freed));
      }
      WalkFrame(v.fat, v'.fat, FirstOf(e), |v.fat|);
    }
  }

  lemma LiveNotFree(fat: Fat, limit: nat, ch: seq<nat>, k: nat)
    requires IsChain(fat, limit, ch) && k in ch
    ensures k < |fat| && fat[k] != 0
  {
    var i :| 0 <= i < |ch| && ch[i] == k;
    if i < |ch| - 1 {
      assert fat[ch[i]] == ch[i + 1];
    }
  }

  lemma WholeChain(fat: Fat, limit: nat, ch: seq<nat>)
    requires IsChain(fat, limit, ch)
    ensures Walk(fat, ch[0], |fat|) == ch
  {
    DistinctBound(ch, |fat|);
    WalkOfChain(fat, limit, ch, |fat|);
  }

  lemma FileSlotIsPlain(e: Slot, nm: FatName, first: nat, size: nat)
    requires first < 0x1_0000 && size < 0x1_0000_0000
    ensures var r := FileSlot(e, nm, first, size);
      (IsPlain(r) <==> nm[0] != 0 && nm[0] != DELETED) && (IsFree(r) <==> nm[0] == 0 || nm[0] == DELETED)
  {
  }

  /** The written slot owns the new chain. */
  lemma NewChain(v: Volume, nm: FatName, d: seq<byte>, freed: seq<nat>, ch: seq<nat>, u: nat, v': Volume)
    requires Replaced(v, nm, d, freed, ch, u, v')
    ensures IsChain(v'.fat, v.Limit(), ch)
    ensures ChainOf(v', v'.dir[u]) == ch
    ensures IsPlain(v'.dir[u]) <==> nm[0] != 0 && nm[0] != DELETED
  {
    FileSlotIsPlain(v.dir[u], nm, ch[0], |d|);
    LinkedIsChain(Zeroed(v.fat, freed), ch, v'.fat, v.Limit());
    WholeChain(v'.fat, v.Limit(), ch);
  }

  lemma {:induction false} NeedCovers(len: nat, spc: nat)
    requires spc >= 1
    ensures len <= SECTOR_SIZE * spc * Need(len, spc)
    ensures Need(len, spc) >= 1
    ensures len > 0 ==> SECTOR_SIZE * spc * (Need(len, spc) - 1) < len
  {
    var cb := SECTOR_SIZE * spc;
    if len > 0 {
      var q, r := (len + cb - 1) / cb, (len + cb - 1) % cb;
      assert cb * q + r == len + cb - 1;
      assert cb * (q - 1) == cb * q - cb;
      assert q <= 0 ==> cb * q <= 0;
    }
  }

  // ---------- well-formedness survives ----------

  lemma SlotsStayOk(v: Volume, nm: FatName, d: seq<byte>, freed: seq<nat>, ch: seq<nat>, u: nat, v': Volume)
    requires WellFormed(v) && RightSlot(v, nm, freed, u) && Filed(v, nm, d, freed, ch, u, v') && Storable(nm)
    ensures UnusedLast(v'.dir) && NamesUnique(v'.dir) && !IsFree(v'.dir[u])
  {
    assert forall j :: 0 <= j < |v.dir| && j != u ==> v'.dir[j] == v.dir[j];
    assert v'.dir[u][0] == nm[0];
  }

  lemma ChainTransfer(fat: Fat, fat': Fat, limit: nat, ch: seq<nat>)
    requires IsChain(fat, limit, ch) && |fat| == |fat'|
    requires forall k :: k in ch && k < |fat| ==> fat'[k] == fat[k]
    ensures IsChain(fat', limit, ch)
  {
    assert forall i :: 0 <= i < |ch| ==> ch[i] in ch;
  }

  lemma OtherChainStaysOk(v: Volume, nm: FatName, d: seq<byte>, freed: seq<nat>, ch: seq<nat>, u: nat, v': Volume,
                          j: nat)
    requires WellFormed(v) && RightSlot(v, nm, freed, u) && Replaced(v, nm, d, freed, ch, u, v')
    requires j < |v.dir| && j != u && !IsFree(v.dir[j]) && FirstOf(v.dir[j]) >= 2
    ensures IsChain(v'.fat, v'.Limit(), ChainOf(v', v'.dir[j]))
  {
    OtherChain(v, nm, d, freed, ch, u, v', j);
    ChainTransfer(v.fat, v'.fat, v.Limit(), ChainOf(v, v.dir[j]));
  }

  lemma ChainsStayOk(v: Volume, nm: FatName, d: seq<byte>, freed: seq<nat>, ch: seq<nat>, u: nat, v': Volume)
    requires WellFormed(v) && RightSlot(v, nm, freed, u) && Replaced(v, nm, d, freed, ch, u, v')
    ensures ChainsOk(v')
  {
    NewChain(v, nm, d, freed, ch, u, v');
    forall j | 0 <= j < |v'.dir| && !IsFree(v'.dir[j]) && FirstOf(v'.dir[j]) >= 2
      ensures IsChain(v'.fat, v'.Limit(), ChainOf(v', v'.dir[j]))
    {
      if j != u {
        assert v'.dir[j] == v.dir[j];
        OtherChainStaysOk(v, nm, d, freed, ch, u, v', j);
      }
    }
  }

  lemma ChainsStayLongEnough(v: Volume, nm: FatName, d: seq<byte>, freed: seq<nat>, ch: seq<nat>, u: nat, v': Volume)
    requires WellFormed(v) && RightSlot(v, nm, freed, u) && Replaced(v, nm, d, freed, ch, u, v')
    ensures LongEnough(v')
  {
    NewChain(v, nm, d, freed, ch, u, v');
    NeedCovers(|d|, v.spc);
    forall j | 0 <= j < |v'.dir| && IsPlain(v'.dir[j])
      ensures SizeOf(v'.dir[j]) <= SECTOR_SIZE * v'.spc * |ChainOf(v', v'.dir[j])|
    {
      if j != u {
        assert v'.dir[j] == v.dir[j];
        OtherChain(v, nm, d, freed, ch, u, v', j);
      }
    }
  }

  lemma ChainsStayDisjoint(v: Volume, nm: FatName, d: seq<byte>, freed: seq<nat>, ch: seq<nat>, u: nat, v': Volume)
    requires WellFormed(v) && RightSlot(v, nm, freed, u) && Replaced(v, nm, d, freed, ch, u, v')
    ensures ChainsDisjoint(v')
  {
    NewChain(v, nm, d, freed, ch, u, v');
    forall i, j, k | 0 <= i < j < |v'.dir| && !IsFree(v'.dir[i]) && !IsFree(v'.dir[j]) && k in ChainOf(v', v'.dir[i])
      ensures k !in ChainOf(v', v'.dir[j])
    {
      if i != u { OtherChain(v, nm, d, freed, ch, u, v', i); }
      if j != u { OtherChain(v, nm, d, freed, ch, u, v', j); }
    }
  }

  lemma OldIsChain(v: Volume, nm: FatName, freed: seq<nat>, u: nat)
    requires WellFormed(v) && RightSlot(v, nm, freed, u)
    ensures freed != [] ==> IsChain(v.fat, v.Limit(), freed)
  {
  }

  /** Storing a file keeps the volume well formed. */
  lemma StaysWellFormed(v: Volume, nm: FatName, d: seq<byte>, freed: seq<nat>, ch: seq<nat>, u: nat, v': Volume)
    requires WellFormed(v) && RightSlot(v, nm, freed, u) && Replaced(v, nm, d, freed, ch, u, v') && Storable(nm)
    ensures WellFormed(v')
  {
    SlotsStayOk(v, nm, d, freed, ch, u, v');
    ChainsStayOk(v, nm, d, freed, ch, u, v');
    ChainsStayLongEnough(v, nm, d, freed, ch, u, v');
    ChainsStayDisjoint(v, nm, d, freed, ch, u, v');
  }

  // ---------- entries without a cluster ----------

  /** The walk from the slot breaks off at, or runs into, the first entry that has no cluster. */
  lemma UnbackedBreaks(v: Volume, nm: FatName, d: seq<byte>, freed: seq<nat>, ch: seq<nat>, u: nat, v': Volume, b: nat)
    requires Filed(v, nm, d, freed, ch, u, v') && Storable(nm)
    requires b < |ch| && ch[b] >= v.Limit() && AllBacked(v, ch[..b])
    ensures !(ChainsOk(v') && LongEnough(v'))
  {
    hide Linked, Stored, IsChain, Walk, IsPlain, IsFree, FileSlot;
    var e := v'.dir[u];
    FileSlotIsPlain(v.dir[u], nm, ch[0], |d|);
    LinkedAreLinks(Zeroed(v.fat, freed), ch, v'.fat);
    if ChainsOk(v') {
      NeedCovers(|d|, v.spc);
      assert IsChain(v'.fat, v.Limit(), ChainOf(v', e));
      if ch[b] < CHAIN_END {
        UnbackedInWalk(Zeroed(v.fat, freed), ch, v'.fat, v.Limit(), b);
      } else {
        CutWalk(Zeroed(v.fat, freed), ch, v'.fat, v.Limit(), b);
        if b > 0 {
          ShorterHoldsLess(v.spc, b, |ch|, |d|);
        }
      }
    }
  }

  lemma LinkedAreLinks(fat1: Fat, ch: seq<nat>, fat': Fat)
    requires Linked(fat1, ch, fat')
    ensures forall i :: 0 <= i < |ch| ==> 2 <= ch[i] < |fat'|
  {
  }

  lemma ShorterHoldsLess(spc: nat, b: nat, n: nat, len: nat)
    requires b < n && SECTOR_SIZE * spc * (n - 1) < len
    ensures SECTOR_SIZE * spc * b < len
  {
    MulBound(SECTOR_SIZE * spc, b, SECTOR_SIZE * spc, n - 1);
  }

  lemma UnbackedInWalk(fat1: Fat, ch: seq<nat>, fat': Fat, limit: nat, b: nat)
    requires Linked(fat1, ch, fat') && b < |ch| && limit <= ch[b] < CHAIN_END && limit <= CHAIN_END
    requires forall i :: 0 <= i < b ==> ch[i] < limit
    ensures !IsChain(fat', limit, Walk(fat', ch[0], |fat'|))
  {
    hide LowestFirst;
    DistinctBound(ch, |fat'|);
    WalkPrefix(fat', ch[..b + 1], |fat'|);
    assert ch[..b + 1][b] == ch[b];
  }

  lemma CutWalk(fat1: Fat, ch: seq<nat>, fat': Fat, limit: nat, b: nat)
    requires Linked(fat1, ch, fat') && b < |ch| && limit <= CHAIN_END <= ch[b]
    requires forall i :: 0 <= i < b ==> ch[i] < limit
    ensures |Walk(fat', ch[0], |fat'|)| == b
    ensures b == 0 ==> !IsChain(fat', limit, Walk(fat', ch[0], |fat'|))
  {
    hide LowestFirst;
    if b > 0 {
      assert fat'[ch[b - 1]] == ch[b];
      assert IsChain(fat', limit, ch[..b]);
      WholeChain(fat', limit, ch[..b]);
    }
  }

  /** Free entries below the limit, counting those that are released. */
  ghost function Backed(v: Volume, freed: seq<nat>): nat {
    |FreeBelow(v.fat, v.Limit())| + |freed|
  }

  /** The lowest entries have clusters, and it depends on their number how many of those taken do. */
  lemma BackedFirst(v: Volume, nm: FatName, d: seq<byte>, freed: seq<nat>, ch: seq<nat>, u: nat, v': Volume, i: nat)
    requires Filed(v, nm, d, freed, ch, u, v') && i < |ch| && (freed != [] ==> IsChain(v.fat, v.Limit(), freed))
    ensures ch[i] < v.Limit() <==> i < Backed(v, freed)
  {
    hide LowestFirst, IsChain, Stored, FreeSet;
    if freed == [] {
      assert Zeroed(v.fat, freed) == v.fat;
    } else {
      FreeBelowAfterRelease(v.fat, v.Limit(), freed);
    }
    LowOnesFirst(Zeroed(v.fat, freed), ch, v.Limit(), i);
  }

  lemma AllBackedExactlyWhen(v: Volume, nm: FatName, d: seq<byte>, freed: seq<nat>, ch: seq<nat>, u: nat, v': Volume)
    requires Filed(v, nm, d, freed, ch, u, v') && (freed != [] ==> IsChain(v.fat, v.Limit(), freed))
    ensures AllBacked(v, ch) <==> Backed(v, freed) >= Need(|d|, v.spc)
  {
    hide Linked, IsChain, Stored, Backed, Need;
    forall i | 0 <= i < |ch|
      ensures ch[i] < v.Limit() <==> i < Backed(v, freed)
    {
      BackedFirst(v, nm, d, freed, ch, u, v', i);
    }
    assert ch[|ch| - 1] < v.Limit() <==> |ch| - 1 < Backed(v, freed);
  }

  /** The volume stays well formed exactly if there were enough entries with clusters. */
  lemma StaysWellFormedExactlyWhen(v: Volume, nm: FatName, d: seq<byte>, freed: seq<nat>, ch: seq<nat>, u: nat,
                                   v': Volume)
    requires WellFormed(v) && RightSlot(v, nm, freed, u) && Filed(v, nm, d, freed, ch, u, v') && Storable(nm)
    ensures WellFormed(v') <==> Backed(v, freed) >= Need(|d|, v.spc)
  {
    OldIsChain(v, nm, freed, u);
    AllBackedExactlyWhen(v, nm, d, freed, ch, u, v');
    if AllBacked(v, ch) {
      StaysWellFormed(v, nm, d, freed, ch, u, v');
    } else {
      var b := Backed(v, freed);
      forall i | 0 <= i < |ch|
        ensures ch[i] < v.Limit() <==> i < b
      {
        BackedFirst(v, nm, d, freed, ch, u, v', i);
      }
      UnbackedBreaks(v, nm, d, freed, ch, u, v', b);
    }
  }

  /** The first `b` clusters hold the beginning of the data. */
  ghost predicate HoldsFirst(v: Volume, d: seq<byte>, ch: seq<nat>, b: nat) {
    var n := SECTOR_SIZE * v.spc * b;
    b <= |ch| && n <= |d| && InClusters(v, ch[..b]) && ChainBytes(v.clusters, ch[..b]) == d[..n]
  }

  /** What becomes of the data otherwise: the first clusters hold its beginning, and nothing holds the rest. */
  lemma UnbackedLost(v: Volume, nm: FatName, d: seq<byte>, freed: seq<nat>, ch: seq<nat>, u: nat, v': Volume)
    requires WellFormed(v) && RightSlot(v, nm, freed, u) && Filed(v, nm, d, freed, ch, u, v') && Storable(nm)
    requires Backed(v, freed) < Need(|d|, v.spc)
    ensures HoldsFirst(v', d, ch, Backed(v, freed))
    ensures forall i :: 0 <= i < |ch| ==> (ch[i] < v.Limit() <==> i < Backed(v, freed))
  {
    hide PartAt, LowestFirst, Backed, WellFormed, IsChain, Need, HoldsFirst;
    var b := Backed(v, freed);
    OldIsChain(v, nm, freed, u);
    forall i | 0 <= i < |ch|
      ensures ch[i] < v.Limit() <==> i < b
    {
      BackedFirst(v, nm, d, freed, ch, u, v', i);
    }
    FewerHoldLess(|d|, v.spc, b);
    FullParts(v', d, ch, b);
  }

  lemma FewerHoldLess(len: nat, spc: nat, b: nat)
    requires spc >= 1 && b < Need(len, spc)
    ensures SECTOR_SIZE * spc * b <= len
  {
    NeedCovers(len, spc);
    if len > 0 {
      ShorterHoldsLess(spc, b, Need(len, spc), len);
    }
  }

  lemma FullParts(v: Volume, d: seq<byte>, ch: seq<nat>, b: nat)
    requires b <= |ch| && SECTOR_SIZE * v.spc * b <= |d|
    requires forall m :: 0 <= m < b ==> 2 <= ch[m] < |v.clusters| + 2 && PartAt(d, v.spc, m, v.clusters[ch[m] - 2])
    ensures HoldsFirst(v, d, ch, b)
  {
    hide PartAt, ChainBytes;
    var p := ch[..b];
    assert forall m :: 0 <= m < |p| ==> p[m] == ch[m];
    PartsMakeChain(v.clusters, v.spc, d, p);
    TakeAll(ChainBytes(v.clusters, p), SECTOR_SIZE * v.spc * b);
  }

  lemma TakeAll(s: seq<byte>, n: nat)
    requires n == |s|
    ensures s[..n] == s
  {
  }

  // ---------- what names denote ----------

  lemma ContentsStored(v: Volume, nm: FatName, d: seq<byte>, freed: seq<nat>, ch: seq<nat>, u: nat, v': Volume)
    requires Replaced(v, nm, d, freed, ch, u, v') && Storable(nm)
    ensures Contents(v', v'.dir[u]) == d && IsPlain(v'.dir[u]) && NameOf(v'.dir[u]) == nm
  {
    hide PartAt, Linked, Walk;
    NewChain(v, nm, d, freed, ch, u, v');
    PartsMakeChain(v'.clusters, v.spc, d, ch);
    NeedCovers(|d|, v.spc);
    assert d[..|d|] == d;
  }

  /** Read-after-write: the stored name denotes the stored bytes. */
  lemma LookupStored(v: Volume, nm: FatName, d: seq<byte>, freed: seq<nat>, ch: seq<nat>, u: nat, v': Volume)
    requires WellFormed(v) && RightSlot(v, nm, freed, u) && Replaced(v, nm, d, freed, ch, u, v') && Storable(nm)
    ensures Lookup(v', nm) == Some(d)
  {
    ContentsStored(v, nm, d, freed, ch, u, v');
    SlotsStayOk(v, nm, d, freed, ch, u, v');
    assert PlainAt(v'.dir, u, nm);
    LookupAt(v', nm, u);
  }

  /** Isolation: every other plain slot keeps its contents. */
  lemma ContentsKept(v: Volume, nm: FatName, d: seq<byte>, freed: seq<nat>, ch: seq<nat>, u: nat, v': Volume, j: nat)
    requires WellFormed(v) && RightSlot(v, nm, freed, u) && Filed(v, nm, d, freed, ch, u, v')
    requires j < |v.dir| && j != u && !IsFree(v.dir[j])
    ensures v'.dir[j] == v.dir[j] && Contents(v', v'.dir[j]) == Contents(v, v.dir[j])
  {
    OtherChain(v, nm, d, freed, ch, u, v', j);
    ContentsFrame(v, v', v.dir[j]);
  }

  lemma ContentsFrame(v: Volume, v': Volume, e: Slot)
    requires ChainOf(v', e) == ChainOf(v, e) && |v.clusters| == |v'.clusters|
    requires forall k :: k in ChainOf(v, e) && 2 <= k < |v.clusters| + 2 ==> v'.clusters[k - 2] == v.clusters[k - 2]
    ensures Contents(v', e) == Contents(v, e)
  {
    var mine := ChainOf(v, e);
    if forall i :: 0 <= i < |mine| ==> 2 <= mine[i] < |v.clusters| + 2 {
      assert forall i :: 0 <= i < |mine| ==> mine[i] in mine;
      ChainBytesFrame(v'.clusters, v.clusters, mine);
    }
  }

  lemma LookupOther(v: Volume, nm: FatName, d: seq<byte>, freed: seq<nat>, ch: seq<nat>, u: nat, v': Volume,
                    other: FatName)
    requires WellFormed(v) && RightSlot(v, nm, freed, u) && Filed(v, nm, d, freed, ch, u, v') && Storable(nm)
    requires other != nm && 0 !in other
    ensures Lookup(v', other) == Lookup(v, other)
  {
    SlotsStayOk(v, nm, d, freed, ch, u, v');
    assert NameOf(v'.dir[u]) == nm;
    forall j: nat | j < |v.dir|
      ensures PlainAt(v'.dir, j, other) <==> j != u && PlainAt(v.dir, j, other)
    {
    }
    if j: nat :| j != u && PlainAt(v.dir, j, other) {
      ContentsKept(v, nm, d, freed, ch, u, v', j);
      LookupAt(v, other, j);
      LookupAt(v', other, j);
    } else {
    }
  }
}
