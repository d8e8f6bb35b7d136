/**
  What the volume of an image is in bytes: every field, table entry, directory slot and data sector at the
  offset the FAT specification gives it, in numbers, and what bytes on the disk make up a file.
 */
module FatFormat {
  import opened Bytes
  import opened FatTable
  import opened FatVolume
  import opened FatImage
  import opened FatData

  /** Two bytes as a number, the low one first. */
  function Word(lo: int, hi: int): int {
    lo + 256 * hi
  }

  // ---------- regions ----------

  /** The numbers of the first sectors of the regions, from the bytes of the boot sector. */
  ghost predicate Regions(boot: Sector, fatStart: nat, rootStart: nat, rootSectors: nat, dataStart: nat) {
    && fatStart == Word(boot[14], boot[15])
    && rootStart == fatStart + boot[16] * (Word(boot[22], boot[23]))
    && (rootSectors - 1) * (Word(boot[11], boot[12])) < 32 * (Word(boot[17], boot[18]))
    && 32 * (Word(boot[17], boot[18])) <= rootSectors * (Word(boot[11], boot[12]))
    && dataStart == rootStart + rootSectors
  }

  /** Rounding up gives the least number of sectors that hold the root directory. */
  lemma RoundUp(n: nat, b: nat, r: nat)
    requires b > 0
    ensures r == (n + b - 1) / b <==> (r - 1) * b < n <= r * b
  {
    var q := (n + b - 1) / b;
    assert n + b - 1 == q * b + (n + b - 1) % b;
    assert (q - 1) * b == q * b - b;
    if (r - 1) * b < n <= r * b {
      assert (r - 1) * b == r * b - b;
      DivModIs(n + b - 1, b, r, n + b - 1 - r * b);
    }
  }

  /** The driver's regions are exactly those. */
  lemma RegionsOfBoot(boot: Sector, fatStart: nat, rootStart: nat, rootSectors: nat, dataStart: nat)
    requires Word(boot[11], boot[12]) > 0
    ensures ParseBpb(boot).bytesPerSector > 0
    ensures var g := GeometryOf(ParseBpb(boot));
      Regions(boot, fatStart, rootStart, rootSectors, dataStart)
      <==> && fatStart == g.fatStart && rootStart == g.RootStart()
           && rootSectors == g.rootSectors && dataStart == g.DataStart()
  {
    RoundUp(32 * (Word(boot[17], boot[18])), Word(boot[11], boot[12]), rootSectors);
  }

  /** A 512-byte sector disk whose regions, in bytes, fit the device. */
  ghost predicate DiskAt(img: Image, fatStart: nat, rootStart: nat, rootSectors: nat, dataStart: nat) {
    && |img| > 0 && Regions(img[0], fatStart, rootStart, rootSectors, dataStart)
    && Word(img[0][11], img[0][12]) == 512
    && fatStart >= 1 && img[0][16] >= 1 && img[0][13] >= 1 && Word(img[0][22], img[0][23]) <= 256 && dataStart <= |img|
  }

  function GeometryAt(img: Image): (g: Geometry)
    requires |img| > 0 && Word(img[0][11], img[0][12]) == 512
  {
    GeometryOf(ParseBpb(img[0]))
  }

  lemma DiskFits(img: Image, fatStart: nat, rootStart: nat, rootSectors: nat, dataStart: nat)
    requires DiskAt(img, fatStart, rootStart, rootSectors, dataStart)
    ensures var g := GeometryAt(img);
      && Fits(g, img) && fatStart == g.fatStart && rootStart == g.RootStart()
      && rootSectors == g.rootSectors && dataStart == g.DataStart() && g.spc == img[0][13]
      && g.fatSize == Word(img[0][22], img[0][23]) && fatStart + g.fatSize <= rootStart
  {
    RegionsOfBoot(img[0], fatStart, rootStart, rootSectors, dataStart);
    FirstCopyInside(GeometryAt(img));
  }

  /** Entry `k` of the table: two little-endian bytes, 256 entries to a sector. */
  ghost predicate EntryAt(img: Image, fatStart: nat, fat: Fat, k: nat) {
    && k < |fat| && fatStart + k / 256 < |img|
    && fat[k] == Word(img[fatStart + k / 256][2 * (k % 256)], img[fatStart + k / 256][2 * (k % 256) + 1])
  }

  lemma EntryIs(g: Geometry, img: Image, k: nat)
    requires Fits(g, img) && k < 256 * g.fatSize
    ensures EntryAt(img, g.fatStart, TableOf(g, img), k)
  {
    FirstCopyInside(g);
    assert k / 256 < g.fatSize;
  }

  lemma TableInBytes(img: Image, fatStart: nat, rootStart: nat, rootSectors: nat, dataStart: nat)
    requires DiskAt(img, fatStart, rootStart, rootSectors, dataStart)
    ensures Fits(GeometryAt(img), img)
    ensures var fat := VolumeOf(GeometryAt(img), img).fat;
      |fat| == 256 * Word(img[0][22], img[0][23]) && forall k: nat :: k < |fat| ==> EntryAt(img, fatStart, fat, k)
  {
    hide EntryAt, Regions, ParseBpb, GeometryOf, Fits;
    DiskFits(img, fatStart, rootStart, rootSectors, dataStart);
    var g := GeometryAt(img);
    forall k: nat | k < 256 * g.fatSize
      ensures EntryAt(img, fatStart, TableOf(g, img), k)
    {
      EntryIs(g, img, k);
    }
  }

  /** Slot `j` of the directory: 32 bytes, 16 slots to a sector. */
  ghost predicate SlotAt(img: Image, rootStart: nat, dir: seq<Slot>, j: nat) {
    && j < |dir| && rootStart + j / 16 < |img|
    && dir[j] == img[rootStart + j / 16][32 * (j % 16)..32 * (j % 16) + 32]
  }

  lemma SlotIs(g: Geometry, img: Image, j: nat)
    requires Fits(g, img) && j < 16 * g.rootSectors
    ensures SlotAt(img, g.RootStart(), DirOf(g, img), j)
  {
    assert j / 16 < g.rootSectors;
  }

  lemma DirectoryInBytes(img: Image, fatStart: nat, rootStart: nat, rootSectors: nat, dataStart: nat)
    requires DiskAt(img, fatStart, rootStart, rootSectors, dataStart)
    ensures Fits(GeometryAt(img), img)
    ensures var dir := VolumeOf(GeometryAt(img), img).dir;
      |dir| == 16 * rootSectors && forall j: nat :: j < |dir| ==> SlotAt(img, rootStart, dir, j)
  {
    hide SlotAt, Regions, ParseBpb, GeometryOf, Fits;
    DiskFits(img, fatStart, rootStart, rootSectors, dataStart);
    var g := GeometryAt(img);
    forall j: nat | j < 16 * rootSectors
      ensures SlotAt(img, rootStart, DirOf(g, img), j)
    {
      SlotIs(g, img, j);
    }
  }

  /** Cluster number c + 2 begins `c * boot[13]` sectors behind the start of the data; the last one is whole. */
  lemma ClustersInBytes(img: Image, fatStart: nat, rootStart: nat, rootSectors: nat, dataStart: nat)
    requires DiskAt(img, fatStart, rootStart, rootSectors, dataStart)
    ensures Fits(GeometryAt(img), img)
    ensures var v := VolumeOf(GeometryAt(img), img); var n := |v.clusters|;
      && v.spc == img[0][13] && dataStart + n * v.spc <= |img| < dataStart + n * v.spc + v.spc
      && forall c: nat, i: nat :: c < n && i < v.spc ==> ClusterSectorAt(img, dataStart, v, c, i)
  {
    hide ClusterSectorAt, Regions, ParseBpb;
    DiskFits(img, fatStart, rootStart, rootSectors, dataStart);
    var g := GeometryAt(img);
    var v := VolumeOf(g, img);
    WholeClusters(|img| - dataStart, g.spc);
    forall c: nat, i: nat | c < |v.clusters| && i < v.spc
      ensures ClusterSectorAt(img, dataStart, v, c, i)
    {
      ClusterSectorIs(g, img, c, i);
    }
  }

  /** Sector i of the c-th cluster is sector `dataStart + c * spc + i` of the device. */
  ghost predicate ClusterSectorAt(img: Image, dataStart: nat, v: Volume, c: nat, i: nat) {
    && c < |v.clusters| && i < |v.clusters[c]| == v.spc && dataStart + c * v.spc + i < |img|
    && v.clusters[c][i] == img[dataStart + c * v.spc + i]
  }

  lemma ClusterSectorIs(g: Geometry, img: Image, c: nat, i: nat)
    requires Fits(g, img) && c < ClusterCount(g, img) && i < g.spc
    ensures ClusterSectorAt(img, g.DataStart(), VolumeOf(g, img), c, i)
  {
    ClusterInside(g, img, c);
  }

  lemma WholeClusters(m: nat, spc: nat)
    requires spc > 0
    ensures m / spc * spc <= m < m / spc * spc + spc
  {
    assert m == m / spc * spc + m % spc;
  }

  // ---------- directory entries ----------

  /** Attributes 1, 2, 4 and 8 hide an entry from reading and loading, 16 is a directory, 32 and above mean nothing. */
  lemma AttributeBits(e: Slot, readOnly: bool, hidden: bool, system: bool, volumeId: bool,
                      directory: bool, archive: bool, high: nat)
    requires high < 4
    requires e[11] == (if readOnly then 0x01 else 0) + (if hidden then 0x02 else 0) + (if system then 0x04 else 0)
      + (if volumeId then 0x08 else 0) + (if directory then 0x10 else 0) + (if archive then 0x20 else 0) + 0x40 * high
    ensures IsDirectory(e) <==> directory
    ensures IsSkipped(e) <==> readOnly || hidden || system || volumeId
  {
  }

  /** An entry in use that is no directory and carries none of the attributes 1, 2, 4 and 8. */
  ghost predicate PlainBytes(e: Slot) {
    e[0] != 0x00 && e[0] != 0xE5 && e[11] % 0x20 == 0
  }

  /** What the driver reads from the 32 bytes of an entry. */
  lemma EntryInBytes(e: Slot)
    ensures NameOf(e) == e[0..11] && (IsFree(e) <==> e[0] == 0x00 || e[0] == 0xE5)
    ensures IsPlain(e) <==> PlainBytes(e)
    ensures FirstOf(e) == Word(e[26], e[27])
    ensures SizeOf(e) == Word(e[28], e[29]) + 0x1_0000 * Word(e[30], e[31])
  {
  }

  /** What the driver writes into an entry; the other bytes, the times, stay. */
  lemma StoredEntryInBytes(e: Slot, nm: FatName, first: nat, size: nat)
    requires first < 0x1_0000 && size < 0x1_0000_0000
    ensures var r := FileSlot(e, nm, first, size);
      && r[0..11] == nm && r[11] == 0x20 && r[20] == r[21] == 0
      && r[26] == first % 256 && r[27] == first / 256
      && r[28] == size % 256 && r[29] == size / 0x100 % 256
      && r[30] == size / 0x1_0000 % 256 && r[31] == size / 0x100_0000
      && r[12..20] == e[12..20] && r[22..26] == e[22..26]
  {
    FileSlotBytes(e, nm, first, size);
    DigitsOf(size);
  }

  /** The four bytes of a 32-bit number. */
  lemma DigitsOf(v: nat)
    requires v < 0x1_0000_0000
    ensures Le32(v) == [v % 256, v / 0x100 % 256, v / 0x1_0000 % 256, v / 0x100_0000]
  {
    var low, high := v % 0x1_0000, v / 0x1_0000;
    assert v == high * 0x1_0000 + low;
    assert low == low / 256 * 256 + low % 256 && high == high / 256 * 256 + high % 256;
    DivModIs(v, 256, high * 256 + low / 256, low % 256);
    DivModIs(high * 256 + low / 256, 256, high, low / 256);
    DivModIs(v, 0x100_0000, high / 256, high % 256 * 0x1_0000 + low);
  }

  // ---------- files ----------

  /** `ch` are the cluster numbers from `first` along the table to an end mark; a number below 2 means no cluster. */
  ghost predicate FollowsLinks(fat: Fat, first: int, ch: seq<nat>) {
    if ch == [] then first < 2
    else
      && ch[0] == first && (forall i :: 0 <= i < |ch| ==> 2 <= ch[i] < |fat| && ch[i] < 0xFFF8)
      && (forall i :: 0 <= i < |ch| - 1 ==> fat[ch[i]] == ch[i + 1])
      && fat[ch[|ch| - 1]] >= 0xFFF8
  }

  /** Byte r of sector i of the k-th cluster of the file is where the disk has that cluster. */
  ghost predicate FileByteAt(img: Image, dataStart: nat, spc: nat, ch: seq<nat>, d: seq<byte>, k: nat, i: nat, r: nat) {
    k < |ch| && i < spc && r < 512 && 512 * (spc * k + i) + r < |d| ==>
      && 2 <= ch[k] && dataStart + (ch[k] - 2) * spc + i < |img|
      && d[512 * (spc * k + i) + r] == img[dataStart + (ch[k] - 2) * spc + i][r]
  }

  /** A plain entry of a well-formed volume is a file: its size, its clusters and its bytes on the disk. */
  lemma FileInBytes(img: Image, fatStart: nat, rootStart: nat, rootSectors: nat, dataStart: nat, j: nat)
    returns (ch: seq<nat>)
    requires DiskAt(img, fatStart, rootStart, rootSectors, dataStart) && Fits(GeometryAt(img), img)
    requires var v := VolumeOf(GeometryAt(img), img);
      WellFormed(v) && j < |v.dir| && PlainBytes(v.dir[j]) && 0 !in v.dir[j][0..11]
    ensures var v := VolumeOf(GeometryAt(img), img); var e := v.dir[j]; var d := Lookup(v, e[0..11]);
      && d.Some? && |d.value| == Word(e[28], e[29]) + 0x1_0000 * Word(e[30], e[31])
      && FollowsLinks(v.fat, Word(e[26], e[27]), ch) && |d.value| <= 512 * img[0][13] * |ch|
      && forall k: nat, i: nat, r: nat :: FileByteAt(img, dataStart, img[0][13], ch, d.value, k, i, r)
  {
    hide FileByteAt, FollowsLinks, Regions, ParseBpb, GeometryOf, VolumeOf, WellFormed, Fits;
    var v := VolumeOf(GeometryAt(img), img);
    EntryInBytes(v.dir[j]);
    FileOfSlot(v, j);
    ch := ChainOf(v, v.dir[j]);
    ClustersInBytes(img, fatStart, rootStart, rootSectors, dataStart);
    forall k: nat, i: nat, r: nat
      ensures FileByteAt(img, dataStart, img[0][13], ch, Contents(v, v.dir[j]), k, i, r)
    {
      FileByteIs(img, dataStart, v, v.dir[j], k, i, r);
    }
  }

  /** The contents of a plain slot are the front part of its clusters. */
  ghost predicate HeldBy(v: Volume, e: Slot, ch: seq<nat>) {
    && v.Sized() && InClusters(v, ch) && SizeOf(e) <= 512 * v.spc * |ch| == |ChainBytes(v.clusters, ch)|
    && Contents(v, e) == ChainBytes(v.clusters, ch)[..SizeOf(e)]
  }

  lemma FileOfSlot(v: Volume, j: nat)
    requires WellFormed(v) && j < |v.dir| && IsPlain(v.dir[j]) && 0 !in NameOf(v.dir[j])
    ensures var e := v.dir[j]; var ch := ChainOf(v, e);
      && Lookup(v, NameOf(e)) == Some(Contents(v, e)) && HeldBy(v, e, ch)
      && FollowsLinks(v.fat, FirstOf(e), ch)
  {
    hide Lookup, Contents, ChainBytes, Walk, Volume.Limit;
    var e := v.dir[j];
    var ch := ChainOf(v, e);
    assert PlainAt(v.dir, j, NameOf(e));
    LookupAt(v, NameOf(e), j);
    WellFormedIsReadable(v);
    OwnedChain(v, j, 0);
    ChainBytesLength(v, ch);
    ChainFollows(v, e);
  }

  lemma ChainFollows(v: Volume, e: Slot)
    requires FirstOf(e) >= 2 ==> IsChain(v.fat, v.Limit(), ChainOf(v, e))
    ensures FollowsLinks(v.fat, FirstOf(e), ChainOf(v, e))
  {
    if FirstOf(e) >= 2 {
      assert |v.fat| > 0;
    }
  }

  lemma FileByteIs(img: Image, dataStart: nat, v: Volume, e: Slot, k: nat, i: nat, r: nat)
    requires HeldBy(v, e, ChainOf(v, e))
    requires forall c: nat, i: nat :: c < |v.clusters| && i < v.spc ==> ClusterSectorAt(img, dataStart, v, c, i)
    ensures FileByteAt(img, dataStart, v.spc, ChainOf(v, e), Contents(v, e), k, i, r)
  {
    hide ChainBytes, Contents, ChainOf;
    var ch := ChainOf(v, e);
    var d := Contents(v, e);
    if k < |ch| && i < v.spc && r < 512 && 512 * (v.spc * k + i) + r < |d| {
      SectorOfFile(v, ch, k, i);
      var all, from := ChainBytes(v.clusters, ch), 512 * (v.spc * k + i);
      SliceByte(all, from, v.clusters[ch[k] - 2][i], r);
      assert d[from + r] == all[from + r];
      assert ClusterSectorAt(img, dataStart, v, ch[k] - 2, i);
    }
  }

  lemma SliceByte(all: seq<byte>, from: nat, sector: Sector, r: nat)
    requires from + 512 <= |all| && all[from..from + 512] == sector && r < 512
    ensures all[from + r] == sector[r]
  {
  }

  lemma SectorOfFile(v: Volume, ch: seq<nat>, k: nat, i: nat)
    requires v.Sized() && InClusters(v, ch) && k < |ch| && i < v.spc
    ensures var all := ChainBytes(v.clusters, ch); var from := 512 * (v.spc * k + i);
      from + 512 <= |all| && all[from..from + 512] == v.clusters[ch[k] - 2][i]
  {
    hide ChainBytes;
    SectorInChain(v, ch, k, i);
    ChainBytesLength(v, ch[..k]);
    assert SECTOR_SIZE * v.spc * k + SECTOR_SIZE * i == 512 * (v.spc * k + i);
  }
}
