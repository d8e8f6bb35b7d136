/**
  A FAT16 volume as a value: one file allocation table, the root directory slots and the
  data clusters. States what a well-formed volume is and what a name denotes on it, without
  reference to how the driver searches, and what replacing one file does to all others.
 */
module FatVolume {
  import opened Bytes
  import opened FatTable

  const SLOT_SIZE := 32
  const SLOTS_PER_SECTOR := 16
  const DELETED := 0xE5
  const ATTR_ARCHIVE := 0x20

  type Slot = s: seq<byte> | |s| == SLOT_SIZE witness seq(SLOT_SIZE, i => 0)
  type FatName = s: seq<byte> | |s| == 11 witness seq(11, i => 32)

  // ---------- directory slots ----------

  function NameOf(e: Slot): FatName { e[..11] }

  function FirstOf(e: Slot): nat { U16(e, 26) }

  function SizeOf(e: Slot): nat { U32(e, 28) }

  predicate IsFree(e: Slot) { e[0] == 0 || e[0] == DELETED }

  predicate IsDirectory(e: Slot) { e[11] / 16 % 2 == 1 }

  /** Some of the four low attribute bits (read-only, hidden, system, volume label) is set. */
  predicate IsSkipped(e: Slot) { e[11] % 16 != 0 }

  predicate IsPlain(e: Slot) { !IsFree(e) && !IsDirectory(e) && !IsSkipped(e) }

  predicate Matches(e: Slot, nm: FatName) { !IsFree(e) && NameOf(e) == nm && !IsDirectory(e) }

  /** The slot with name, attributes, first cluster and size replaced; times stay. */
  function FileSlot(e: Slot, nm: FatName, first: nat, size: nat): (r: Slot)
    requires first < 0x1_0000 && size < 0x1_0000_0000
    ensures NameOf(r) == nm && r[0] == nm[0] && FirstOf(r) == first && SizeOf(r) == size
    ensures r[11] == ATTR_ARCHIVE && r[12..20] == e[12..20] && r[20..22] == [0, 0] && r[22..26] == e[22..26]
  {
    nm + [ATTR_ARCHIVE] + e[12..20] + [0, 0] + e[22..26] + Le16(first) + Le32(size)
  }

  lemma FileSlotBytes(e: Slot, nm: FatName, first: nat, size: nat)
    requires first < 0x1_0000 && size < 0x1_0000_0000
    ensures forall k :: 0 <= k < SLOT_SIZE ==> (FileSlot(e, nm, first, size)[k] ==
      if k < 11 then nm[k] else if k == 11 then ATTR_ARCHIVE else if 20 <= k < 22 then 0
      else if 26 <= k < 28 then Le16(first)[k - 26] else if 28 <= k then Le32(size)[k - 28] else e[k])
  {
  }

  // ---------- volumes ----------

  datatype Volume = Volume(spc: nat, fat: Fat, dir: seq<Slot>, clusters: seq<seq<Sector>>) {
    /** FAT indices below the limit have a data cluster and are links. */
    function Limit(): nat {
      Min(|fat|, Min(CHAIN_END, |clusters| + 2))
    }

    ghost predicate Sized() {
      && spc >= 1
      && (forall c :: 0 <= c < |clusters| ==> |clusters[c]| == spc)
    }

    ghost predicate SameShape(v: Volume) {
      spc == v.spc && |fat| == |v.fat| && |dir| == |v.dir| && |clusters| == |v.clusters|
    }
  }

  /** The clusters a directory entry owns. */
  function ChainOf(v: Volume, e: Slot): seq<nat> {
    if FirstOf(e) < 2 then [] else Walk(v.fat, FirstOf(e), |v.fat|)
  }

  /** The bytes stored in the clusters of a chain, in chain order. */
  function ChainBytes(clusters: seq<seq<Sector>>, ch: seq<nat>): seq<byte>
    requires forall i :: 0 <= i < |ch| ==> 2 <= ch[i] < |clusters| + 2
  {
    if ch == [] then []
    else ChainBytes(clusters, ch[..|ch| - 1]) + Flatten(clusters[ch[|ch| - 1] - 2])
  }

  /** Slots never used since formatting come last. */
  ghost predicate UnusedLast(dir: seq<Slot>) {
    forall i, j :: 0 <= i < j < |dir| && dir[i][0] == 0 ==> dir[j][0] == 0
  }

  ghost predicate NoDeleted(dir: seq<Slot>) {
    forall j :: 0 <= j < |dir| ==> dir[j][0] != DELETED
  }

  /** No two live slots carry the same name (names holding a NUL byte, as long-name slots do, are exempt). */
  ghost predicate NamesUnique(dir: seq<Slot>) {
    forall i, j :: 0 <= i < j < |dir| && !IsFree(dir[i]) && !IsFree(dir[j]) && NameOf(dir[i]) == NameOf(dir[j])
      ==> 0 in NameOf(dir[i])
  }

  ghost predicate ChainsOk(v: Volume) {
    forall j :: 0 <= j < |v.dir| && !IsFree(v.dir[j]) && FirstOf(v.dir[j]) >= 2
      ==> IsChain(v.fat, v.Limit(), ChainOf(v, v.dir[j]))
  }

  ghost predicate ChainsDisjoint(v: Volume) {
    forall i, j, k :: 0 <= i < j < |v.dir| && !IsFree(v.dir[i]) && !IsFree(v.dir[j]) && k in ChainOf(v, v.dir[i])
      ==> k !in ChainOf(v, v.dir[j])
  }

  ghost predicate LongEnough(v: Volume) {
    forall j :: 0 <= j < |v.dir| && IsPlain(v.dir[j])
      ==> SizeOf(v.dir[j]) <= SECTOR_SIZE * v.spc * |ChainOf(v, v.dir[j])|
  }

  ghost predicate WellFormed(v: Volume) {
    && v.Sized()
    && UnusedLast(v.dir)
    && NamesUnique(v.dir)
    && ChainsOk(v)
    && ChainsDisjoint(v)
    && LongEnough(v)
  }

  // ---------- what a name denotes ----------

  ghost predicate PlainAt(dir: seq<Slot>, j: int, nm: FatName) {
    0 <= j < |dir| && IsPlain(dir[j]) && NameOf(dir[j]) == nm
  }

  ghost function Contents(v: Volume, e: Slot): seq<byte> {
    var ch := ChainOf(v, e);
    if forall i :: 0 <= i < |ch| ==> 2 <= ch[i] < |v.clusters| + 2 then
      var b := ChainBytes(v.clusters, ch);
      b[..Min(SizeOf(e), |b|)]
    else []
  }

  /** The contents of the readable file called `nm`, if the root directory has one. */
  ghost function Lookup(v: Volume, nm: FatName): Option<seq<byte>> {
    if exists j :: PlainAt(v.dir, j, nm) then
      var j :| PlainAt(v.dir, j, nm);
      Some(Contents(v, v.dir[j]))
    else None
  }

  lemma LookupAt(v: Volume, nm: FatName, j: nat)
    requires NamesUnique(v.dir) && 0 !in nm && PlainAt(v.dir, j, nm)
    ensures Lookup(v, nm) == Some(Contents(v, v.dir[j]))
  {
    hide Contents;
    var i: nat :| PlainAt(v.dir, i, nm) && Lookup(v, nm) == Some(Contents(v, v.dir[i]));
    assert PlainAt(v.dir, i, nm);
    assert NameOf(v.dir[i]) == NameOf(v.dir[j]) == nm;
  }

  // ---------- sizes ----------

  /** Clusters needed for `len` bytes: the ceiling of len / cluster size, but at least one. */
  function Need(len: nat, spc: nat): nat
    requires spc >= 1
  {
    if len == 0 then 1 else (len + SECTOR_SIZE * spc - 1) / (SECTOR_SIZE * spc)
  }

  lemma {:induction false} ChainBytesLength(v: Volume, ch: seq<nat>)
    requires v.Sized() && forall i :: 0 <= i < |ch| ==> 2 <= ch[i] < |v.clusters| + 2
    ensures |ChainBytes(v.clusters, ch)| == SECTOR_SIZE * v.spc * |ch|
  {
    if ch != [] {
      ChainBytesLength(v, ch[..|ch| - 1]);
      assert SECTOR_SIZE * v.spc * (|ch| - 1) + SECTOR_SIZE * v.spc == SECTOR_SIZE * v.spc * |ch|;
    }
  }

  lemma {:induction false} ChainBytesFrame(a: seq<seq<Sector>>, b: seq<seq<Sector>>, ch: seq<nat>)
    requires |a| == |b| && forall i :: 0 <= i < |ch| ==> 2 <= ch[i] < |a| + 2
    requires forall i :: 0 <= i < |ch| ==> a[ch[i] - 2] == b[ch[i] - 2]
    ensures ChainBytes(a, ch) == ChainBytes(b, ch)
  {
    if ch != [] {
      ChainBytesFrame(a, b, ch[..|ch| - 1]);
    }
  }
}
