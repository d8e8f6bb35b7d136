/**
  The on-disk layout: boot sector fields, region boundaries, mirrored tables, and how a
  sector array denotes a volume. Each kind of sector write changes one part of it only.
 */
module FatImage {
  import opened Bytes
  import opened FatTable
  import opened FatVolume

  /** The boot sector fields the driver uses. */
  datatype Bpb = Bpb(bytesPerSector: nat, sectorsPerCluster: nat, reserved: nat,
                     fatCount: nat, rootEntries: nat, fatSize: nat)

  function ParseBpb(s: Sector): Bpb {
    Bpb(U16(s, 11), s[13], U16(s, 14), s[16], U16(s, 17), U16(s, 22))
  }

  datatype Geometry = Geometry(fatStart: nat, fatCount: nat, fatSize: nat, rootSectors: nat, spc: nat) {
    function RootStart(): nat { fatStart + fatCount * fatSize }
    function DataStart(): nat { RootStart() + rootSectors }
    /** Sector `k` of table copy `f`. */
    function CopyAt(f: nat, k: nat): nat { fatStart + f * fatSize + k }
    /** First sector of data cluster `c`, which is FAT index c + 2. */
    function ClusterAt(c: nat): nat { DataStart() + c * spc }
  }

  function GeometryOf(b: Bpb): Geometry
    requires b.bytesPerSector > 0
  {
    Geometry(b.reserved, b.fatCount, b.fatSize,
             (b.rootEntries * SLOT_SIZE + b.bytesPerSector - 1) / b.bytesPerSector, b.sectorsPerCluster)
  }

  type Image = seq<Sector>

  /** The regions lie inside the device, after the boot sector; table indices fit 16 bits. */
  ghost predicate Fits(g: Geometry, img: Image) {
    && g.fatStart >= 1 && g.fatCount >= 1 && g.spc >= 1 && g.fatSize <= 256
    && g.DataStart() <= |img|
  }

  ghost predicate Mirrored(g: Geometry, img: Image)
    requires Fits(g, img)
  {
    forall f: nat, k: nat :: f < g.fatCount && k < g.fatSize ==>
      (CopyInRegion(g, f, k); img[g.CopyAt(f, k)] == img[g.fatStart + k])
  }

  function ClusterCount(g: Geometry, img: Image): nat
    requires g.spc >= 1 && g.DataStart() <= |img|
  {
    (|img| - g.DataStart()) / g.spc
  }

  // ---------- arithmetic of the layout ----------

  lemma CopyInRegion(g: Geometry, f: nat, k: nat)
    requires f < g.fatCount && k < g.fatSize
    ensures g.fatStart <= g.CopyAt(f, k) < g.RootStart()
    ensures f >= 1 ==> g.CopyAt(f, k) >= g.fatStart + g.fatSize
    ensures g.CopyAt(0, k) == g.fatStart + k
  {
    MulStep(f, g.fatCount, g.fatSize);
    if f >= 1 {
      MulBound(1, g.fatSize, f, g.fatSize);
    }
  }

  lemma CopyInjective(g: Geometry, f: nat, k: nat, f': nat, k': nat)
    requires k < g.fatSize && k' < g.fatSize && g.CopyAt(f, k) == g.CopyAt(f', k')
    ensures f == f' && k == k'
  {
    BlocksApart(f, k, f', k', g.fatSize);
  }

  lemma ClusterInside(g: Geometry, img: Image, c: nat)
    requires g.spc >= 1 && g.DataStart() <= |img| && c < ClusterCount(g, img)
    ensures g.ClusterAt(c) + g.spc <= |img|
  {
    QuotientFits(|img| - g.DataStart(), g.spc);
    MulStep(c, ClusterCount(g, img), g.spc);
  }

  lemma ClustersApart(g: Geometry, c: nat, i: nat, c': nat, i': nat)
    requires i < g.spc && i' < g.spc && g.ClusterAt(c) + i == g.ClusterAt(c') + i'
    ensures c == c' && i == i'
  {
    BlocksApart(c, i, c', i', g.spc);
  }

  /** Every sector number the driver computes fits its 32-bit variables. */
  lemma SectorNumbersFit(s: Sector, cluster: nat, i: nat)
    requires cluster < 0x1_0000 && i < ParseBpb(s).sectorsPerCluster
    requires ParseBpb(s).bytesPerSector == SECTOR_SIZE && ParseBpb(s).fatSize <= 256
    ensures GeometryOf(ParseBpb(s)).ClusterAt(cluster) + i < 0x1_0000_0000
  {
    var b := ParseBpb(s);
    MulBound(b.fatCount, b.fatSize, 256, 256);
    MulBound(cluster, b.sectorsPerCluster, 0x1_0000, 256);
    assert GeometryOf(b).rootSectors < 0x1_0000;
  }

  // ---------- the volume an image denotes ----------

  function TableOf(g: Geometry, img: Image): Fat
    requires Fits(g, img)
  {
    FirstCopyInside(g);
    seq(256 * g.fatSize, k requires 0 <= k < 256 * g.fatSize => U16(img[g.fatStart + k / 256], k % 256 * 2))
  }

  lemma FirstCopyInside(g: Geometry)
    requires g.fatCount >= 1
    ensures g.fatStart + g.fatSize <= g.RootStart()
  {
    assert g.fatCount * g.fatSize >= g.fatSize;
  }

  lemma EntryInSector(g: Geometry, img: Image, s: nat, i: nat)
    requires Fits(g, img) && s < g.fatSize && i < 256
    ensures g.fatStart + s < |img| && TableOf(g, img)[s * 256 + i] == U16(img[g.fatStart + s], i * 2)
    ensures (s * 256 + i) % 0x1_0000 == s * 256 + i
  {
    FirstCopyInside(g);
    assert (s * 256 + i) / 256 == s && (s * 256 + i) % 256 == i;
  }

  function SlotIn(s: Sector, i: nat): Slot
    requires i < SLOTS_PER_SECTOR
  {
    s[i * SLOT_SIZE..i * SLOT_SIZE + SLOT_SIZE]
  }

  lemma SlotInSector(g: Geometry, img: Image, s: nat, i: nat)
    requires Fits(g, img) && s < g.rootSectors && i < SLOTS_PER_SECTOR
    ensures g.RootStart() + s < |img|
    ensures DirOf(g, img)[SLOTS_PER_SECTOR * s + i] == SlotIn(img[g.RootStart() + s], i)
  {
    assert (SLOTS_PER_SECTOR * s + i) / SLOTS_PER_SECTOR == s && (SLOTS_PER_SECTOR * s + i) % SLOTS_PER_SECTOR == i;
  }

  /** The root directory sectors of the image hold the slots `dir`. */
  ghost predicate DirAt(img: Image, rootStart: nat, rootSectors: nat, dir: seq<Slot>) {
    && rootStart + rootSectors <= |img| && |dir| == SLOTS_PER_SECTOR * rootSectors
    && (forall n :: 0 <= n < |dir| ==> dir[n] == SlotIn(img[rootStart + n / SLOTS_PER_SECTOR], n % SLOTS_PER_SECTOR))
  }

  function DirOf(g: Geometry, img: Image): seq<Slot>
    requires Fits(g, img)
  {
    seq(SLOTS_PER_SECTOR * g.rootSectors, j requires 0 <= j < SLOTS_PER_SECTOR * g.rootSectors =>
      SlotIn(img[g.RootStart() + j / SLOTS_PER_SECTOR], j % SLOTS_PER_SECTOR))
  }

  function ClustersOf(g: Geometry, img: Image): seq<seq<Sector>>
    requires Fits(g, img)
  {
    seq(ClusterCount(g, img), c requires 0 <= c < ClusterCount(g, img) =>
      (ClusterInside(g, img, c); img[g.ClusterAt(c)..g.ClusterAt(c) + g.spc]))
  }

  function VolumeOf(g: Geometry, img: Image): Volume
    requires Fits(g, img)
  {
    Volume(g.spc, TableOf(g, img), DirOf(g, img), ClustersOf(g, img))
  }

  // ---------- table sectors ----------

  /** Sector `s` of every table copy now holds `sec`; nothing else changed. */
  ghost predicate TableSectorWritten(g: Geometry, img: Image, s: nat, sec: Sector, img': Image)
    requires Fits(g, img)
  {
    && |img'| == |img|
    && (forall n :: 0 <= n < |img| && !(g.fatStart <= n < g.RootStart()) ==> img'[n] == img[n])
    && (forall f: nat, k: nat :: f < g.fatCount && k < g.fatSize ==>
          (CopyInRegion(g, f, k); img'[g.CopyAt(f, k)] == if k == s then sec else img[g.CopyAt(f, k)]))
  }

  lemma TableWriteFirstCopy(g: Geometry, img: Image, s: nat, sec: Sector, img': Image)
    requires Fits(g, img) && s < g.fatSize && TableSectorWritten(g, img, s, sec, img')
    ensures g.fatStart + g.fatSize <= |img|
    ensures forall n :: g.fatStart <= n < g.fatStart + g.fatSize ==>
      img'[n] == if n == g.fatStart + s then sec else img[n]
  {
    FirstCopyInside(g);
    forall n | g.fatStart <= n < g.fatStart + g.fatSize
      ensures img'[n] == if n == g.fatStart + s then sec else img[n]
    {
      var k := n - g.fatStart;
      CopyInRegion(g, 0, k);
      assert img'[g.CopyAt(0, k)] == if k == s then sec else img[g.CopyAt(0, k)];
    }
  }

  lemma TableWriteMirrors(g: Geometry, img: Image, s: nat, sec: Sector, img': Image)
    requires Fits(g, img) && Mirrored(g, img) && s < g.fatSize && TableSectorWritten(g, img, s, sec, img')
    ensures Fits(g, img') && Mirrored(g, img')
  {
    TableWriteFirstCopy(g, img, s, sec, img');
    forall f: nat, k: nat | f < g.fatCount && k < g.fatSize
      ensures (CopyInRegion(g, f, k); img'[g.CopyAt(f, k)] == img'[g.fatStart + k])
    {
      CopyInRegion(g, f, k);
      assert img[g.CopyAt(f, k)] == img[g.fatStart + k];
    }
  }

  /** A table write leaves directory and data as they were. */
  lemma TableWriteKeepsRest(g: Geometry, img: Image, s: nat, sec: Sector, img': Image)
    requires Fits(g, img) && s < g.fatSize && TableSectorWritten(g, img, s, sec, img')
    ensures img'[0] == img[0] && DirOf(g, img') == DirOf(g, img) && ClustersOf(g, img') == ClustersOf(g, img)
  {
    assert DirOf(g, img') == DirOf(g, img);
    forall c | 0 <= c < ClusterCount(g, img)
      ensures ClustersOf(g, img')[c] == ClustersOf(g, img)[c]
    {
      ClusterInside(g, img, c);
    }
  }

  function Patched(s: Sector, at: nat, bytes: seq<byte>): (r: Sector)
    requires at + |bytes| <= SECTOR_SIZE
  {
    s[..at] + bytes + s[at + |bytes|..]
  }

  lemma PatchedEntry(s: Sector, i: nat, v: nat, n: nat)
    requires i < 256 && n < 256 && v < 0x1_0000
    ensures U16(Patched(s, i * 2, Le16(v)), n * 2) == if n == i then v else U16(s, n * 2)
  {
  }

  lemma EntryAfterWrite(g: Geometry, img: Image, c: nat, v: nat, sec: Sector, img': Image, k: nat)
    requires Fits(g, img) && Fits(g, img') && c < 256 * g.fatSize && k < 256 * g.fatSize && v < 0x1_0000
    requires TableSectorWritten(g, img, c / 256, sec, img')
    requires (FirstCopyInside(g); sec == Patched(img[g.fatStart + c / 256], c % 256 * 2, Le16(v)))
    ensures TableOf(g, img')[k] == if k == c then v else TableOf(g, img)[k]
  {
    hide TableSectorWritten, TableOf, Patched, U16;
    assert k == k / 256 * 256 + k % 256 && c == c / 256 * 256 + c % 256;
    TableWriteFirstCopy(g, img, c / 256, sec, img');
    EntryInSector(g, img, k / 256, k % 256);
    EntryInSector(g, img', k / 256, k % 256);
    PatchedEntry(img[g.fatStart + c / 256], c % 256, v, k % 256);
  }

  /** If `sec` is the old sector with one 16-bit entry replaced, the table changes at that entry only. */
  lemma TableWriteSetsEntry(g: Geometry, img: Image, c: nat, v: nat, sec: Sector, img': Image)
    requires Fits(g, img) && Mirrored(g, img) && c < 256 * g.fatSize && v < 0x1_0000
    requires TableSectorWritten(g, img, c / 256, sec, img')
    requires (FirstCopyInside(g); sec == Patched(img[g.fatStart + c / 256], c % 256 * 2, Le16(v)))
    ensures Fits(g, img') && Mirrored(g, img') && img'[0] == img[0]
    ensures VolumeOf(g, img') == VolumeOf(g, img).(fat := TableOf(g, img)[c := v])
  {
    hide Mirrored, TableSectorWritten, Patched;
    TableWriteKeepsRest(g, img, c / 256, sec, img');
    TableWriteMirrors(g, img, c / 256, sec, img');
    forall k | 0 <= k < 256 * g.fatSize
      ensures TableOf(g, img')[k] == TableOf(g, img)[c := v][k]
    {
      EntryAfterWrite(g, img, c, v, sec, img', k);
    }
    assert TableOf(g, img') == TableOf(g, img)[c := v];
  }

  /** The image after the first `n` copies received the sector. */
  ghost function CopiesWritten(g: Geometry, img: Image, s: nat, sec: Sector, n: nat): (r: Image)
    requires Fits(g, img) && s < g.fatSize && n <= g.fatCount
    ensures |r| == |img|
    decreases n
  {
    if n == 0 then img
    else
      CopyInRegion(g, n - 1, s);
      CopiesWritten(g, img, s, sec, n - 1)[g.CopyAt(n - 1, s) := sec]
  }

  lemma AfterFirstCopy(g: Geometry, img: Image, s: nat, sec: Sector)
    requires Fits(g, img) && s < g.fatSize && g.fatStart + s < |img|
    ensures CopiesWritten(g, img, s, sec, 1) == img[g.fatStart + s := sec]
  {
    assert CopiesWritten(g, img, s, sec, 0) == img;
    assert g.CopyAt(0, s) == g.fatStart + s;
  }

  lemma {:induction false} CopiesWrittenUpTo(g: Geometry, img: Image, s: nat, sec: Sector, n: nat)
    requires Fits(g, img) && s < g.fatSize && n <= g.fatCount
    ensures var r := CopiesWritten(g, img, s, sec, n);
      && (forall m :: 0 <= m < |img| && !(g.fatStart <= m < g.RootStart()) ==> r[m] == img[m])
      && (forall f: nat, k: nat :: f < g.fatCount && k < g.fatSize ==>
            (CopyInRegion(g, f, k); r[g.CopyAt(f, k)] == if k == s && f < n then sec else img[g.CopyAt(f, k)]))
  {
    if n > 0 {
      CopiesWrittenUpTo(g, img, s, sec, n - 1);
      CopyInRegion(g, n - 1, s);
      var r' := CopiesWritten(g, img, s, sec, n - 1);
      var r := CopiesWritten(g, img, s, sec, n);
      forall f: nat, k: nat | f < g.fatCount && k < g.fatSize
        ensures (CopyInRegion(g, f, k); r[g.CopyAt(f, k)] == if k == s && f < n then sec else img[g.CopyAt(f, k)])
      {
        CopyInRegion(g, f, k);
        assert r'[g.CopyAt(f, k)] == if k == s && f < n - 1 then sec else img[g.CopyAt(f, k)];
        if g.CopyAt(f, k) == g.CopyAt(n - 1, s) {
          CopyInjective(g, f, k, n - 1, s);
        }
      }
    }
  }

  lemma CopiesWrittenAll(g: Geometry, img: Image, s: nat, sec: Sector)
    requires Fits(g, img) && s < g.fatSize
    ensures TableSectorWritten(g, img, s, sec, CopiesWritten(g, img, s, sec, g.fatCount))
  {
    CopiesWrittenUpTo(g, img, s, sec, g.fatCount);
  }

  lemma PatchedBytes(s: Sector, at: nat, bytes: seq<byte>, r: Sector)
    requires at + |bytes| <= SECTOR_SIZE
    requires forall k :: at <= k < at + |bytes| ==> r[k] == bytes[k - at]
    requires forall k :: 0 <= k < SECTOR_SIZE && !(at <= k < at + |bytes|) ==> r[k] == s[k]
    ensures r == Patched(s, at, bytes)
  {
    forall k | 0 <= k < SECTOR_SIZE
      ensures r[k] == Patched(s, at, bytes)[k]
    {
    }
  }

  // ---------- directory and data sectors ----------

  lemma DirWrite(g: Geometry, img: Image, s: nat, i: nat, sec: Sector, slot: Slot)
    requires Fits(g, img) && Mirrored(g, img) && s < g.rootSectors && i < SLOTS_PER_SECTOR
    requires sec == Patched(img[g.RootStart() + s], i * SLOT_SIZE, slot)
    ensures var img' := img[g.RootStart() + s := sec];
      && Fits(g, img') && Mirrored(g, img') && img'[0] == img[0]
      && VolumeOf(g, img') == VolumeOf(g, img).(dir := DirOf(g, img)[SLOTS_PER_SECTOR * s + i := slot])
  {
    var img' := img[g.RootStart() + s := sec];
    WriteKeepsMirrors(g, img, g.RootStart() + s, sec);
    assert TableOf(g, img') == TableOf(g, img);
    assert ClustersOf(g, img') == ClustersOf(g, img) by {
      forall c | 0 <= c < ClusterCount(g, img)
        ensures ClustersOf(g, img')[c] == ClustersOf(g, img)[c]
      {
        ClusterInside(g, img, c);
      }
    }
    DirWriteSlots(g, img, s, i, sec, slot);
  }

  lemma DirWriteSlots(g: Geometry, img: Image, s: nat, i: nat, sec: Sector, slot: Slot)
    requires Fits(g, img) && s < g.rootSectors && i < SLOTS_PER_SECTOR
    requires sec == Patched(img[g.RootStart() + s], i * SLOT_SIZE, slot)
    ensures DirOf(g, img[g.RootStart() + s := sec]) == DirOf(g, img)[SLOTS_PER_SECTOR * s + i := slot]
  {
    var img' := img[g.RootStart() + s := sec];
    var j := SLOTS_PER_SECTOR * s + i;
    forall m | 0 <= m < SLOTS_PER_SECTOR * g.rootSectors
      ensures DirOf(g, img')[m] == DirOf(g, img)[j := slot][m]
    {
      if m / SLOTS_PER_SECTOR == s {
        SlotAfterPatch(img[g.RootStart() + s], i, slot, m % SLOTS_PER_SECTOR);
      }
    }
    assert DirOf(g, img') == DirOf(g, img)[j := slot];
  }

  /** Writing outside the tables leaves boot sector and mirroring alone. */
  lemma WriteKeepsMirrors(g: Geometry, img: Image, n: nat, sec: Sector)
    requires Fits(g, img) && Mirrored(g, img) && g.RootStart() <= n < |img|
    ensures var img' := img[n := sec]; Fits(g, img') && Mirrored(g, img') && img'[0] == img[0]
    ensures g.fatStart + g.fatSize <= g.RootStart()
  {
    FirstCopyInside(g);
    var img' := img[n := sec];
    forall f: nat, k: nat | f < g.fatCount && k < g.fatSize
      ensures (CopyInRegion(g, f, k); img'[g.CopyAt(f, k)] == img'[g.fatStart + k])
    {
      CopyInRegion(g, f, k);
    }
  }

  lemma SlotAfterPatch(s: Sector, i: nat, slot: Slot, m: nat)
    requires i < SLOTS_PER_SECTOR && m < SLOTS_PER_SECTOR
    ensures SlotIn(Patched(s, i * SLOT_SIZE, slot), m) == if m == i then slot else SlotIn(s, m)
  {
  }

  /** The clusters with sector `i` of cluster `c` replaced. */
  function SectorSet(cl: seq<seq<Sector>>, c: nat, i: nat, sec: Sector): seq<seq<Sector>>
    requires c < |cl| && i < |cl[c]|
  {
    var cluster: seq<Sector> := cl[c][i := sec];
    cl[c := cluster]
  }

  lemma DataWrite(g: Geometry, img: Image, c: nat, i: nat, sec: Sector)
    requires Fits(g, img) && Mirrored(g, img) && c < ClusterCount(g, img) && i < g.spc
    ensures g.ClusterAt(c) + i < |img|
    ensures var img' := img[g.ClusterAt(c) + i := sec]; var cl := ClustersOf(g, img);
      && Fits(g, img') && Mirrored(g, img') && img'[0] == img[0]
      && |cl[c]| == g.spc
      && VolumeOf(g, img') == VolumeOf(g, img).(clusters := SectorSet(cl, c, i, sec))
  {
    ClusterInside(g, img, c);
    var img' := img[g.ClusterAt(c) + i := sec];
    WriteKeepsMirrors(g, img, g.ClusterAt(c) + i, sec);
    assert TableOf(g, img') == TableOf(g, img);
    assert DirOf(g, img') == DirOf(g, img);
    DataWriteClusters(g, img, c, i, sec);
  }

  lemma DataWriteClusters(g: Geometry, img: Image, c: nat, i: nat, sec: Sector)
    requires Fits(g, img) && c < ClusterCount(g, img) && i < g.spc && g.ClusterAt(c) + i < |img|
    ensures var img' := img[g.ClusterAt(c) + i := sec]; var cl := ClustersOf(g, img);
      |cl[c]| == g.spc && ClustersOf(g, img') == SectorSet(cl, c, i, sec)
  {
    var img' := img[g.ClusterAt(c) + i := sec];
    var cl := ClustersOf(g, img);
    ClusterInside(g, img, c);
    forall c' | 0 <= c' < ClusterCount(g, img)
      ensures ClustersOf(g, img')[c'] == SectorSet(cl, c, i, sec)[c']
    {
      ClusterInside(g, img, c');
      forall i' | 0 <= i' < g.spc
        ensures |SectorSet(cl, c, i, sec)[c']| == g.spc
        ensures ClustersOf(g, img')[c'][i'] == SectorSet(cl, c, i, sec)[c'][i']
      {
        if g.ClusterAt(c') + i' == g.ClusterAt(c) + i {
          ClustersApart(g, c, i, c', i');
        }
      }
    }
    assert ClustersOf(g, img') == SectorSet(cl, c, i, sec);
  }

  /** A sector behind the last whole cluster, if there is one, belongs to nothing on the volume. */
  lemma TailWrite(g: Geometry, img: Image, n: nat, sec: Sector)
    requires Fits(g, img) && Mirrored(g, img) && g.ClusterAt(ClusterCount(g, img)) <= n < |img|
    ensures var img' := img[n := sec];
      Fits(g, img') && Mirrored(g, img') && img'[0] == img[0] && VolumeOf(g, img') == VolumeOf(g, img)
  {
    var img' := img[n := sec];
    WriteKeepsMirrors(g, img, n, sec);
    assert TableOf(g, img') == TableOf(g, img);
    assert DirOf(g, img') == DirOf(g, img);
    forall c | 0 <= c < ClusterCount(g, img)
      ensures ClustersOf(g, img')[c] == ClustersOf(g, img)[c]
    {
      ClusterInside(g, img, c);
      MulStep(c, ClusterCount(g, img), g.spc);
    }
    assert ClustersOf(g, img') == ClustersOf(g, img);
  }

  /** The device after a sector was sent to it; a missing one is refused. */
  function SectorSent(img: Image, n: nat, sec: Sector): Image {
    if n < |img| then img[n := sec] else img
  }

  /** `img'` has the regions, equal table copies and the boot sector of `img`, and shows the volume `v`. */
  ghost predicate StandsFor(g: Geometry, img: Image, img': Image, v: Volume)
    requires Fits(g, img)
  {
    Fits(g, img') && Mirrored(g, img') && img'[0] == img[0] && VolumeOf(g, img') == v
  }
}
