/** The FAT16 driver: sector buffers changed in place over the block device. */
module Fat16Driver {
  import opened Bytes
  import opened BlockDevices
  import opened FatTable
  import opened FatVolume
  import opened FatNames
  import opened FatImage
  import opened FatFormat
  import opened FatReplace
  import opened FatData
  import opened FatStore

  class Fat16 {
    const dev: BlockDevice
    var bpb: Bpb
    var fatStart: nat
    var rootStart: nat
    var rootSectors: nat
    var dataStart: nat

    constructor (dev: BlockDevice)
      ensures this.dev == dev
    {
      this.dev := dev;
      bpb := Bpb(0, 0, 0, 0, 0, 0);
      fatStart, rootStart, rootSectors, dataStart := 0, 0, 0, 0;
    }

    ghost function Geo(): Geometry
      reads this
      requires bpb.bytesPerSector > 0
    {
      GeometryOf(bpb)
    }

    /** The driver's variables describe the device, and all table copies agree. */
    ghost predicate Ready()
      reads this, dev
    {
      && bpb.bytesPerSector == SECTOR_SIZE
      && Fits(Geo(), dev.sectors)
      && bpb == ParseBpb(dev.sectors[0])
      && fatStart == Geo().fatStart && rootStart == Geo().RootStart()
      && rootSectors == Geo().rootSectors && dataStart == Geo().DataStart()
      && Mirrored(Geo(), dev.sectors)
    }

    /** The volume stored on the device. */
    ghost function Vol(): Volume
      reads this, dev
      requires bpb.bytesPerSector > 0 && Fits(Geo(), dev.sectors)
    {
      VolumeOf(Geo(), dev.sectors)
    }

    /** What the driver holds for the regions and the volume are those of the bytes on the device. */
    lemma ReadyInBytes()
      requires Ready()
      ensures DiskAt(dev.sectors, fatStart, rootStart, rootSectors, dataStart)
      ensures Vol() == VolumeOf(GeometryAt(dev.sectors), dev.sectors)
    {
      hide Mirrored, VolumeOf;
      RegionsOfBoot(dev.sectors[0], fatStart, rootStart, rootSectors, dataStart);
    }

    /** fat16_init: reads the boot sector and derives the region starts. */
    method Init()
      requires |dev.sectors| > 0 && Word(dev.sectors[0][11], dev.sectors[0][12]) > 0
      modifies this
      ensures var boot := dev.sectors[0];
        && fatStart == Word(boot[14], boot[15])
        && rootStart == fatStart + boot[16] * Word(boot[22], boot[23])
        && (rootSectors - 1) * Word(boot[11], boot[12]) < 32 * Word(boot[17], boot[18])
        && 32 * Word(boot[17], boot[18]) <= rootSectors * Word(boot[11], boot[12])
        && dataStart == rootStart + rootSectors && bpb.sectorsPerCluster == boot[13]
      ensures bpb == ParseBpb(dev.sectors[0])
      ensures bpb.bytesPerSector == SECTOR_SIZE && Fits(Geo(), dev.sectors) && Mirrored(Geo(), dev.sectors) ==> Ready()
    {
      var boot := new byte[SECTOR_SIZE];
      dev.ReadSector(0, boot);
      bpb := ParseBpb(boot[..]);
      fatStart := bpb.reserved;
      rootStart := fatStart + bpb.fatCount * bpb.fatSize;
      rootSectors := (bpb.rootEntries * SLOT_SIZE + bpb.bytesPerSector - 1) / bpb.bytesPerSector;
      dataStart := rootStart + rootSectors;
      RegionsOfBoot(dev.sectors[0], fatStart, rootStart, rootSectors, dataStart);
    }

    // ---------- table access ----------

    /** fat16_get_next_cluster */
    method GetNextCluster(cluster: nat) returns (next: nat)
      requires Ready() && cluster < |Vol().fat|
      ensures next == Vol().fat[cluster] && next < 0x1_0000
    {
      hide Mirrored, ParseBpb;
      var offset := cluster * 2;
      var buf := new byte[SECTOR_SIZE];
      FirstCopyInside(Geo());
      dev.ReadSector(fatStart + offset / SECTOR_SIZE, buf);
      next := U16(buf[..], offset % SECTOR_SIZE);
      assert offset / SECTOR_SIZE == cluster / 256 && offset % SECTOR_SIZE == cluster % 256 * 2;
    }

    /** Writes one table sector to the first copy and then to every backup copy. */
    method WriteTableSector(s: nat, buf: array<byte>)
      requires Ready() && s < Geo().fatSize && buf.Length == SECTOR_SIZE
      modifies dev
      ensures TableSectorWritten(Geo(), old(dev.sectors), s, buf[..], dev.sectors)
    {
      ghost var g, img := Geo(), dev.sectors;
      CopyInRegion(g, 0, s);
      dev.WriteSector(fatStart + s, buf);
      AfterFirstCopy(g, img, s, buf[..]);
      var i := 1;
      while i < bpb.fatCount
        invariant 1 <= i <= bpb.fatCount && dev.sectors == CopiesWritten(g, img, s, buf[..], i)
      {
        CopyInRegion(g, i, s);
        assert g.CopyAt(i, s) == fatStart + s + i * bpb.fatSize;
        dev.WriteSector(fatStart + s + i * bpb.fatSize, buf);
        i := i + 1;
      }
      CopiesWrittenAll(g, img, s, buf[..]);
    }

    /** fat16_set_fat_entry */
    method SetFatEntry(cluster: nat, value: nat)
      requires Ready() && cluster < |Vol().fat| && value < 0x1_0000
      modifies dev
      ensures Ready() && Vol() == old(Vol()).(fat := old(Vol().fat)[cluster := value])
    {
      var offset := cluster * 2;
      var at := offset % SECTOR_SIZE;
      var buf := new byte[SECTOR_SIZE];
      FirstCopyInside(Geo());
      assert offset / SECTOR_SIZE == cluster / 256 && at == cluster % 256 * 2;
      dev.ReadSector(fatStart + offset / SECTOR_SIZE, buf);
      buf[at] := Le16(value)[0];
      buf[at + 1] := Le16(value)[1];
      assert buf[..] == Patched(dev.sectors[fatStart + cluster / 256], at, Le16(value));
      WriteTableSector(offset / SECTOR_SIZE, buf);
      TableWriteSetsEntry(Geo(), old(dev.sectors), cluster, value, buf[..], dev.sectors);
    }

    /** Marks entry `i` of table sector `s`, which `buf` holds, as an end of chain in every copy. */
    method ClaimEntry(s: nat, i: nat, buf: array<byte>)
      requires Ready() && s < Geo().fatSize && i < 256
      requires buf.Length == SECTOR_SIZE && (FirstCopyInside(Geo()); buf[..] == dev.sectors[fatStart + s])
      modifies dev, buf
      ensures Ready() && Vol() == old(Vol()).(fat := old(Vol().fat)[s * 256 + i := END_MARK])
    {
      FirstCopyInside(Geo());
      buf[i * 2] := 255;
      buf[i * 2 + 1] := 255;
      assert (s * 256 + i) / 256 == s && (s * 256 + i) % 256 == i;
      assert buf[..] == Patched(dev.sectors[fatStart + s], i * 2, Le16(END_MARK));
      WriteTableSector(s, buf);
      TableWriteSetsEntry(Geo(), old(dev.sectors), s * 256 + i, END_MARK, buf[..], dev.sectors);
    }

    /** fat16_allocate_cluster: claims the lowest free entry, or reports a full table with 0. */
    method AllocateCluster() returns (cluster: nat)
      requires Ready()
      modifies dev
      ensures Ready()
      ensures cluster == 0 ==> FreeSet(old(Vol().fat)) == {} && Vol() == old(Vol())
      ensures cluster != 0 ==>
        && IsLowestFree(old(Vol().fat), cluster) && cluster < 0x1_0000
        && Vol() == old(Vol()).(fat := old(Vol().fat)[cluster := END_MARK])
    {
      hide Mirrored, ParseBpb;
      ghost var g, fat := Geo(), Vol().fat;
      assert |fat| == 256 * bpb.fatSize;
      var buf := new byte[SECTOR_SIZE];
      FirstCopyInside(g);
      var s := 0;
      while s < bpb.fatSize
        invariant s <= bpb.fatSize && dev.sectors == old(dev.sectors)
        invariant NoFreeBelow(fat, 256 * s)
      {
        dev.ReadSector(fatStart + s, buf);
        var i := 0;
        while i < 256
          invariant i <= 256 && dev.sectors == old(dev.sectors) && buf[..] == dev.sectors[fatStart + s]
          invariant NoFreeBelow(fat, 256 * s + i)
        {
          EntryInSector(g, dev.sectors, s, i);
          cluster := (s * 256 + i) % 0x1_0000;
          if 2 <= cluster && U16(buf[..], i * 2) == 0 {
            assert IsLowestFree(fat, cluster);
            ClaimEntry(s, i, buf);
            return;
          }
          i := i + 1;
        }
        s := s + 1;
      }
      cluster := 0;
      assert NoFreeBelow(fat, |fat|);
    }

    /**
      The release loop of fat16_write_file. It ends on every table whose links from `c` stay
      inside some set `inside` of indices, even a cyclic or shared one, and zeroes exactly the
      clusters of the maximal trail from `c`.
    */
    method ReleaseChain(first: nat, ghost inside: set<nat>) returns (ghost path: seq<nat>)
      requires Ready() && IsLink(first) && first in inside
      requires LinksStayInside(Vol().fat, inside)
      modifies dev
      ensures Ready()
      ensures IsTrail(old(Vol().fat), first, path) && IsMaximal(old(Vol().fat), path)
      ensures Vol() == old(Vol()).(fat := Zeroed(old(Vol().fat), path))
    {
      ghost var v0 := Vol();
      path := [];
      assert Zeroed(v0.fat, []) == v0.fat;
      var c := first;
      ghost var todo := inside;
      while IsLink(c)
        invariant Ready() && Vol() == v0.(fat := Zeroed(v0.fat, path))
        invariant Releasing(v0.fat, first, path, c)
        invariant IsLink(c) ==> c in inside
        invariant forall k :: k in inside ==> k in todo || k in path
        decreases todo, if IsLink(c) then 1 else 0
      {
        var next := GetNextCluster(c);
        SetFatEntry(c, 0);
        if c in path {
          ReleaseAgain(v0.fat, first, path, c);
        } else {
          ReleaseNew(v0.fat, first, path, c);
          path, todo := path + [c], todo - {c};
        }
        c := next;
      }
    }

    // ---------- fat16_write_file ----------

    /** The directory sectors of a ready device hold the volume's slots. */
    lemma ReadyDir()
      requires Ready()
      ensures DirAt(dev.sectors, rootStart, rootSectors, Vol().dir)
    {
    }

    /** The inner loop of step 1, over the slots of directory sector `s`. */
    method ScanSector(nm: FatName, buf: array<byte>, s: nat, found0: bool, idx0: nat, sector0: nat,
                      ghost dir: seq<Slot>)
      returns (hit: bool, found: bool, idx: nat, sector: nat)
      requires DirAt(dev.sectors, rootStart, rootSectors, dir) && 0 !in nm && buf.Length == SECTOR_SIZE
      requires s < rootSectors
      requires rootStart + s < |dev.sectors| && buf[..] == dev.sectors[rootStart + s]
      requires idx0 < SLOTS_PER_SECTOR && Scanned(dir, nm, Position(s, 0), found0, Position(sector0, idx0))
      ensures idx < SLOTS_PER_SECTOR && (sector <= s || sector == sector0)
      ensures hit ==>
        found && sector == s && IsTarget(dir, nm, Position(sector, idx)) && Matches(dir[Position(sector, idx)], nm)
      ensures !hit ==> Scanned(dir, nm, Position(s, SLOTS_PER_SECTOR), found, Position(sector, idx))
    {
      hide Scanned, DirAt, IsTarget, Strncmp, SlotIn, IsDirectory;
      hit, found, idx, sector := false, found0, idx0, sector0;
      var i := 0;
      while i < SLOTS_PER_SECTOR
        invariant i <= SLOTS_PER_SECTOR && !hit && idx < SLOTS_PER_SECTOR && (sector <= s || sector == sector0)
        invariant Scanned(dir, nm, Position(s, i), found, Position(sector, idx))
      {
        SlotRead(dev.sectors, rootStart, rootSectors, dir, nm, s, i);
        var e := SlotIn(buf[..], i);
        if IsFree(e) {
          ScanStep(dir, nm, Position(s, i), found, Position(sector, idx));
          if !found {
            found, idx, sector := true, i, s;
          }
        } else if Strncmp(e, nm, 11) == 0 && !IsDirectory(e) {
          ScanHit(dir, nm, Position(s, i), found, Position(sector, idx));
          return true, true, i, s;
        } else {
          ScanStep(dir, nm, Position(s, i), found, Position(sector, idx));
        }
        i := i + 1;
      }
    }

    /**
      Step 1: the slot of the file or else the first free one. The result is a position inside
      whatever sector `buf` holds last, as in the source, which keeps an address inside the buffer.
     */
    method SearchTarget(nm: FatName, buf: array<byte>, ghost dir: seq<Slot>)
      returns (found: bool, idx: nat, sector: nat, ghost last: nat)
      requires DirAt(dev.sectors, rootStart, rootSectors, dir) && Distinguishable(dir, nm) && 0 !in nm
      requires buf.Length == SECTOR_SIZE
      modifies buf
      ensures if found then IsTarget(dir, nm, Position(sector, idx)) else NoTarget(dir, nm)
      ensures found ==> sector < rootSectors && idx < SLOTS_PER_SECTOR
      ensures found ==>
        Holds(dev.sectors, rootStart, rootSectors, last, buf[..]) && InBufferAt(dir, nm, sector, idx, last)
    {
      hide Scanned, DirAt, IsTarget, NoTarget, InBufferAt, Distinguishable, SlotIn, Strncmp;
      found, idx, sector, last := false, 0, 0, 0;
      ScanStart(dir, nm);
      DirSize(dev.sectors, rootStart, rootSectors, dir);
      var s := 0;
      while s < rootSectors
        invariant sector <= s <= rootSectors && idx < SLOTS_PER_SECTOR
        invariant Scanned(dir, nm, Position(s, 0), found, Position(sector, idx))
        invariant found ==> sector < s && Holds(dev.sectors, rootStart, rootSectors, last, buf[..])
        invariant found ==> InBufferAt(dir, nm, sector, idx, last)
      {
        SlotRead(dev.sectors, rootStart, rootSectors, dir, nm, s, 0);
        dev.ReadSector(rootStart + s, buf);
        var hit;
        ghost var sector0 := sector;
        hit, found, idx, sector := ScanSector(nm, buf, s, found, idx, sector, dir);
        last := s;
        if found {
          SlotRead(dev.sectors, rootStart, rootSectors, dir, nm, s, idx);
          BufferAfterScan(dir, nm, s, hit, sector, idx);
          if Strncmp(SlotIn(buf[..], idx), nm, 11) == 0 {
            return;
          }
        }
        s := s + 1;
        NextSector(dir, nm, s, found, Position(sector, idx));
      }
      ScanEnd(dir, nm, found, Position(sector, idx));
    }

    /** Copies `n` bytes of `data` into a zeroed buffer. */
    method Chunk(data: seq<byte>, from: nat, n: nat, buf: array<byte>)
      requires buf.Length == SECTOR_SIZE && n <= SECTOR_SIZE && from + n <= |data|
      modifies buf
      ensures buf[..n] == data[from..from + n] && forall k :: n <= k < SECTOR_SIZE ==> buf[k] == 0
    {
      forall k | 0 <= k < SECTOR_SIZE {
        buf[k] := if k < n then data[from + k] else 0;
      }
    }

    lemma SectorsPerCluster(v: Volume)
      requires Ready() && v == Vol()
      ensures bpb.sectorsPerCluster == v.spc
    {
    }

    /** The number of sector `i` of cluster `c`. */
    function SectorOf(c: nat, i: nat): (n: nat)
      reads this
      requires c >= 2
    {
      var before: nat := c - 2;
      dataStart + before * bpb.sectorsPerCluster + i
    }

    lemma SentInside(c: nat, i: nat, sec: Sector, v: Volume, q: seq<Sector>)
      requires Ready() && |q| == v.spc && i < v.spc
      requires 2 <= c < |v.clusters| + 2 && Vol() == v.(clusters := v.clusters[c - 2 := q])
      ensures var img' := SectorSent(dev.sectors, SectorOf(c, i), sec);
        StandsFor(Geo(), dev.sectors, img', v.(clusters := ClusterSet(v.clusters, c, q[i := sec])))
    {
      hide Mirrored, ParseBpb;
      assert |Vol().clusters| == ClusterCount(Geo(), dev.sectors);
      DataWrite(Geo(), dev.sectors, c - 2, i, sec);
      assert SectorSet(v.clusters[c - 2 := q], c - 2, i, sec) == v.clusters[c - 2 := q[i := sec]];
    }

    lemma SentBehind(c: nat, i: nat, sec: Sector, v: Volume)
      requires Ready() && c >= |v.clusters| + 2 && Vol() == v
      ensures StandsFor(Geo(), dev.sectors, SectorSent(dev.sectors, SectorOf(c, i), sec), v)
    {
      hide Mirrored, ParseBpb;
      assert |Vol().clusters| == ClusterCount(Geo(), dev.sectors);
      MulBound(|v.clusters|, bpb.sectorsPerCluster, c - 2, bpb.sectorsPerCluster);
      if SectorOf(c, i) < |dev.sectors| {
        TailWrite(Geo(), dev.sectors, SectorOf(c, i), sec);
      }
    }

    /** Sends one sector to the device, which then stands for the volume `after`. */
    method SendSector(n: nat, buf: array<byte>, ghost after: Volume)
      requires Ready() && buf.Length == SECTOR_SIZE
      requires StandsFor(Geo(), dev.sectors, SectorSent(dev.sectors, n, buf[..]), after)
      modifies dev
      ensures Ready() && Vol() == after
    {
      hide Fits, Mirrored, ParseBpb, VolumeOf, GeometryOf;
      ghost var img' := SectorSent(dev.sectors, n, buf[..]);
      dev.WriteSector(n, buf);
      assert dev.sectors == img';
    }

    /** Writes sector `i` of cluster `c`, whose sectors are `q` so far; without such a cluster the volume stays. */
    method WriteDataSector(c: nat, i: nat, buf: array<byte>, ghost v: Volume, ghost q: seq<Sector>)
      requires Ready() && buf.Length == SECTOR_SIZE
      requires 2 <= c && |q| == v.spc && i < v.spc && Vol() == v.(clusters := ClusterSet(v.clusters, c, q))
      modifies dev
      ensures Ready()
      ensures var q': seq<Sector> := q[i := buf[..]]; Vol() == v.(clusters := ClusterSet(v.clusters, c, q'))
    {
      hide Fits, Mirrored, ParseBpb, VolumeOf, GeometryOf, StandsFor, SectorSent, Fat16.Vol, Fat16.SectorOf;
      ghost var q': seq<Sector> := q[i := buf[..]];
      if c < |v.clusters| + 2 {
        SentInside(c, i, buf[..], v, q);
      } else {
        SentBehind(c, i, buf[..], v);
      }
      SendSector(SectorOf(c, i), buf, v.(clusters := ClusterSet(v.clusters, c, q')));
    }

    /** Step 3, the sector loop: fills cluster `c` with the bytes of `data` from `written` on. */
    method FillCluster(c: nat, data: seq<byte>, written: nat, buf: array<byte>, ghost v: Volume)
      returns (now: nat, ghost q: seq<Sector>, ghost n: nat)
      requires Ready() && v == Vol() && v.Sized() && buf.Length == SECTOR_SIZE
      requires 2 <= c && written <= |data|
      modifies dev, buf
      ensures Ready() && |q| == v.spc && Vol() == v.(clusters := ClusterSet(v.clusters, c, q))
      ensures Filling(data, written, q, n, now) && (n == |q| || now == |data|)
    {
      hide Fat16.Vol, Fat16.Geo, Fits, Mirrored, ParseBpb, Flatten;
      SectorsPerCluster(v);
      now := written;
      q := OldSectors(v, c);
      var i := 0;
      while i < bpb.sectorsPerCluster
        invariant i <= bpb.sectorsPerCluster && v.spc == |q| && Ready()
        invariant Vol() == v.(clusters := ClusterSet(v.clusters, c, q))
        invariant Filling(data, written, q, i, now)
        invariant now == |data| ==> i == 0 && written == |data|
      {
        var toWrite := SECTOR_SIZE;
        if now + toWrite > |data| {
          toWrite := |data| - now;
        }
        Chunk(data, now, toWrite, buf);
        WriteDataSector(c, i, buf, v, q);
        FillStep(data, written, q, i, now, buf[..], toWrite);
        q := q[i := buf[..]];
        now := now + toWrite;
        i := i + 1;
        if now >= |data| {
          break;
        }
      }
      n := i;
    }

    /** Step 3: allocates entries one by one, links each to the previous one and fills its cluster. */
    method StoreData(data: seq<byte>, buf: array<byte>, ghost v1: Volume)
      returns (first: nat, ok: bool, ghost ch: seq<nat>, ghost stored: nat)
      requires Ready() && v1 == Vol() && v1.Sized() && buf.Length == SECTOR_SIZE
      modifies dev, buf
      ensures Ready()
      ensures Storing(v1, data, ch, stored, Vol())
      ensures ok ==> stored == |data| && ch != [] && first == ch[0] < 0x1_0000 && |ch| == Need(|data|, v1.spc)
      ensures !ok ==> FreeSet(Vol().fat) == {} && |ch| < Need(|data|, v1.spc)
    {
      hide Fat16.Vol, Fat16.Geo, Fits, Mirrored, ParseBpb, IsLowestFree, Filling, Storing, FreeSet;
      first := 0;
      var prev, written := 0, 0;
      ghost var v := v1;
      ch := [];
      StoringNothing(v1, data);
      while written < |data| || (|data| == 0 && first == 0)
        invariant Ready() && v == Vol() && Storing(v1, data, ch, written, v)
        invariant if ch == [] then first == 0 && prev == 0 else first == ch[0] < 0x1_0000 && prev == ch[|ch| - 1]
        invariant written <= |data| && (|data| == 0 ==> ch == []) && (ch == [] ==> written == 0)
        decreases |data| - written
      {
        var c := AllocateCluster();
        if c == 0 {
          StoredTooLittle(v1, data, ch, written, v);
          return first, false, ch, written;
        }
        NextLink(v1, data, ch, written, v, c);
        if first == 0 {
          first := c;
        }
        if prev != 0 {
          SetFatEntry(prev, c);
        }
        assert Vol() == v.(fat := LinkedOn(v.fat, ch, c));
        ghost var q, n;
        ghost var before := written;
        written, q, n := FillCluster(c, data, written, buf, Vol());
        FillingMoves(data, before, q, n, written);
        StoreStep(v1, data, ch, before, v, c, q, n, written);
        v := Vol();
        ch := ch + [c];
        prev := c;
        if |data| == 0 {
          break;
        }
      }
      ok, stored := true, written;
      StoredAll(v1, data, ch, v);
    }

    /** Fills in name, attributes, first cluster and size of the 32 bytes at `at`. */
    method PatchFields(buf: array<byte>, at: nat, nm: FatName, first: nat, size: nat)
      requires buf.Length == SECTOR_SIZE && at + SLOT_SIZE <= SECTOR_SIZE && first < 0x1_0000 && size < 0x1_0000_0000
      modifies buf
      ensures forall k :: 0 <= k < SECTOR_SIZE && !(at <= k < at + SLOT_SIZE) ==> buf[k] == old(buf[k])
      ensures forall k :: at <= k < at + SLOT_SIZE ==>
        buf[k] == FileSlot(old(buf[at..at + SLOT_SIZE]), nm, first, size)[k - at]
    {
      FileSlotBytes(buf[at..at + SLOT_SIZE], nm, first, size);
      forall k | 0 <= k < 11 {
        buf[at + k] := nm[k];
      }
      buf[at + 11] := ATTR_ARCHIVE;
      buf[at + 26], buf[at + 27] := Le16(first)[0], Le16(first)[1];
      buf[at + 20], buf[at + 21] := 0, 0;
      forall k | 0 <= k < 4 {
        buf[at + 28 + k] := Le32(size)[k];
      }
    }

    method PatchEntry(buf: array<byte>, i: nat, nm: FatName, first: nat, size: nat)
      requires buf.Length == SECTOR_SIZE && i < SLOTS_PER_SECTOR && first < 0x1_0000 && size < 0x1_0000_0000
      modifies buf
      ensures var s := old(buf[..]); buf[..] == Patched(s, i * SLOT_SIZE, FileSlot(SlotIn(s, i), nm, first, size))
    {
      ghost var s := buf[..];
      var at := i * SLOT_SIZE;
      assert s[at..at + SLOT_SIZE] == buf[at..at + SLOT_SIZE];
      PatchFields(buf, at, nm, first, size);
      PatchedBytes(s, at, FileSlot(SlotIn(s, i), nm, first, size), buf[..]);
    }

    /** Step 4: reads the target's sector again and rewrites its first slot that is free or carries the name. */
    method UpdateEntry(nm: FatName, sector: nat, first: nat, size: nat, buf: array<byte>, ghost v: Volume,
                       ghost idx: nat)
      returns (ghost u: nat)
      requires Ready() && v == Vol() && 0 !in nm && buf.Length == SECTOR_SIZE
      requires first < 0x1_0000 && size < 0x1_0000_0000
      requires sector < rootSectors && idx < SLOTS_PER_SECTOR && Position(sector, idx) < |v.dir|
      requires Usable(v.dir[Position(sector, idx)], nm)
      modifies dev, buf
      ensures Ready() && IsRewritten(v.dir, nm, Position(sector, idx), u)
      ensures Vol() == v.(dir := v.dir[u := FileSlot(v.dir[u], nm, first, size)])
    {
      ReadyDir();
      var i := FindEntry(nm, sector, buf, v.dir, idx);
      RewrittenAt(v.dir, nm, sector, idx, i);
      u := Position(sector, i);
      WriteEntry(nm, sector, i, first, size, buf, v);
    }

    /** The second search, inside the target's sector. */
    method FindEntry(nm: FatName, sector: nat, buf: array<byte>, ghost dir: seq<Slot>, ghost idx: nat) returns (i: nat)
      requires DirAt(dev.sectors, rootStart, rootSectors, dir) && 0 !in nm && buf.Length == SECTOR_SIZE
      requires sector < rootSectors && idx < SLOTS_PER_SECTOR && Position(sector, idx) < |dir|
      requires Usable(dir[Position(sector, idx)], nm)
      modifies buf
      ensures rootStart + sector < |dev.sectors| && buf[..] == dev.sectors[rootStart + sector]
      ensures i <= idx && Passed(dir, nm, sector, i) && Usable(dir[Position(sector, i)], nm)
    {
      hide Passed, DirAt, Strncmp, SlotIn;
      SlotRead(dev.sectors, rootStart, rootSectors, dir, nm, sector, idx);
      PassStart(dir, nm, sector);
      dev.ReadSector(rootStart + sector, buf);
      i := 0;
      while i < SLOTS_PER_SECTOR
        invariant i <= idx && buf[..] == dev.sectors[rootStart + sector] && Passed(dir, nm, sector, i)
      {
        SlotRead(dev.sectors, rootStart, rootSectors, dir, nm, sector, i);
        var e := SlotIn(buf[..], i);
        if Strncmp(e, nm, 11) == 0 || IsFree(e) {
          return;
        }
        PassStep(dir, nm, sector, i);
        i := i + 1;
      }
    }

    /** Patches slot `i` of the buffered directory sector and writes the sector back. */
    method WriteEntry(nm: FatName, sector: nat, i: nat, first: nat, size: nat, buf: array<byte>, ghost v: Volume)
      requires Ready() && v == Vol() && buf.Length == SECTOR_SIZE && sector < rootSectors && i < SLOTS_PER_SECTOR
      requires first < 0x1_0000 && size < 0x1_0000_0000
      requires rootStart + sector < |dev.sectors| && buf[..] == dev.sectors[rootStart + sector]
      requires Position(sector, i) < |v.dir|
      modifies dev, buf
      ensures Ready()
      ensures var u := Position(sector, i); Vol() == v.(dir := v.dir[u := FileSlot(v.dir[u], nm, first, size)])
    {
      ghost var u := Position(sector, i);
      SlotInSector(Geo(), dev.sectors, sector, i);
      PatchEntry(buf, i, nm, first, size);
      DirWrite(Geo(), dev.sectors, sector, i, buf[..], FileSlot(v.dir[u], nm, first, size));
      dev.WriteSector(rootStart + sector, buf);
    }

    /**
      fat16_write_file. Returns the length, -1 when the root directory has no slot left, or -2
      when the clusters do not suffice; `v` is the volume before. The ghost results name the
      target slot, the slot rewritten and the new chain.
     */
    method WriteFile(filename: seq<byte>, data: seq<byte>, ghost v: Volume)
      returns (ret: int, ghost t: nat, ghost u: nat, ghost ch: seq<nat>)
      requires Ready() && v == Vol() && WellFormed(v) && IsCString(filename) && |data| < 0x8000_0000
      requires Distinguishable(v.dir, FatNameOf(filename))
      modifies dev
      ensures Ready() && WriteOutcome(v, FatNameOf(filename), data, ret, t, u, ch, Vol())
    {
      hide Fat16.Vol, Fat16.Geo, Fits, Mirrored, ParseBpb, DirAt, Storing, HasRoom, Aborted, Filed, IsTarget,
        IsRewritten,
        InBufferAt, WellFormed, Distinguishable, NoTarget;
      var nm := FatNameBuffer(filename);
      var buf := new byte[SECTOR_SIZE];
      var found, idx, sector;
      ghost var last;
      ReadyDir();
      found, idx, sector, last := SearchTarget(nm, buf, v.dir);
      if !found {
        return -1, 0, 0, [];
      }
      ret, t, u, ch := StoreAt(nm, data, buf, idx, sector, last, v);
    }

    /** Steps 2 to 4 for the slot found, seen through the buffer that holds directory sector `last`. */
    method StoreAt(nm: FatName, data: seq<byte>, buf: array<byte>, idx: nat, sector: nat, ghost last: nat,
                   ghost v: Volume)
      returns (ret: int, ghost t: nat, ghost u: nat, ghost ch: seq<nat>)
      requires Ready() && v == Vol() && WellFormed(v) && 0 !in nm && |data| < 0x8000_0000 && buf.Length == SECTOR_SIZE
      requires IsTarget(v.dir, nm, Position(sector, idx)) && sector < rootSectors && idx < SLOTS_PER_SECTOR
      requires Holds(dev.sectors, rootStart, rootSectors, last, buf[..]) && InBufferAt(v.dir, nm, sector, idx, last)
      modifies dev, buf
      ensures Ready() && ret != -1 && WriteOutcome(v, nm, data, ret, t, u, ch, Vol())
    {
      hide Fat16.Vol, Fat16.Geo, Fits, Mirrored, ParseBpb, DirAt, Storing, HasRoom, Aborted, Filed, IsTarget,
        IsRewritten,
        InBuffer, InBufferAt, WellFormed, FreedBy, Usable, Need, FreeSet;
      ReadyDir();
      t := Position(sector, idx);
      TargetSeen(v.dir, nm, sector, idx, last);
      SlotRead(dev.sectors, rootStart, rootSectors, v.dir, nm, last, idx);
      ReleaseTarget(nm, SlotIn(buf[..], idx), t, Position(last, idx), v);
      ghost var v1 := Vol();
      ReleasedVolume(v, nm, t, v1);
      var first, ok;
      ghost var stored;
      first, ok, ch, stored := StoreData(data, buf, v1);
      ghost var v2 := Vol();
      if !ok {
        AbortedOutcome(v, nm, data, t, v1, ch, stored, v2);
        return -2, t, 0, ch;
      }
      StoredShape(v1, data, ch, stored, v2);
      u := UpdateEntry(nm, sector, first, |data|, buf, v2, idx);
      CompletedOutcome(v, nm, data, t, v1, ch, v2, u, Vol());
      ret := |data|;
    }

    /** Step 2: frees the old chain if the buffered entry `e` carries the name. */
    method ReleaseTarget(nm: FatName, e: Slot, ghost t: nat, ghost shown: nat, ghost v: Volume)
      requires Ready() && v == Vol() && WellFormed(v) && 0 !in nm && t < |v.dir|
      requires shown < |v.dir| && e == v.dir[shown] && InBuffer(v.dir, nm, t, e)
      modifies dev
      ensures Ready() && Vol() == v.(fat := Zeroed(v.fat, FreedBy(v, nm, t)))
    {
      StrncmpDecidesEquality(e, nm, 11);
      ghost var freed := FreedBy(v, nm, t);
      if Strncmp(e, nm, 11) == 0 && FirstOf(e) >= 2 {
        ReleaseOld(FirstOf(e), freed, v);
      } else {
        assert Zeroed(v.fat, freed) == v.fat;
      }
    }

    /** Step 2 on a well-formed volume: the whole old chain is freed. */
    method ReleaseOld(first: nat, ghost ch: seq<nat>, ghost v: Volume)
      requires Ready() && v == Vol() && IsChain(v.fat, v.Limit(), ch) && first == ch[0]
      modifies dev
      ensures Ready() && Vol() == v.(fat := Zeroed(v.fat, ch))
    {
      ghost var inside := set k | k in ch;
      ChainStaysInside(v.fat, v.Limit(), ch);
      ghost var path := ReleaseChain(first, inside);
      TrailOfChain(v.fat, v.Limit(), ch, path);
    }

    // ---------- fat16_read_file ----------

    /** The directory search: skips deleted, long-name, label and directory entries, stops at the first unused one. */
    method FindFile(nm: FatName, buf: array<byte>, ghost dir: seq<Slot>)
      returns (found: bool, target: Slot, ghost j: nat)
      requires DirAt(dev.sectors, rootStart, rootSectors, dir) && UnusedLast(dir) && 0 !in nm
      requires buf.Length == SECTOR_SIZE
      modifies buf
      ensures found ==> PlainAt(dir, j, nm) && target == dir[j]
      ensures !found ==> NoPlainBelow(dir, nm, |dir|)
    {
      hide NoPlainBelow, DirAt, UnusedLast, SlotIn, Strncmp;
      NoPlainStart(dir, nm);
      DirSize(dev.sectors, rootStart, rootSectors, dir);
      found, target, j := false, SlotIn(buf[..], 0), 0;
      var s := 0;
      while s < rootSectors
        invariant s <= rootSectors && !found && NoPlainBelow(dir, nm, Position(s, 0))
      {
        SlotRead(dev.sectors, rootStart, rootSectors, dir, nm, s, 0);
        dev.ReadSector(rootStart + s, buf);
        var i := 0;
        while i < SLOTS_PER_SECTOR
          invariant i <= SLOTS_PER_SECTOR && !found && NoPlainBelow(dir, nm, Position(s, i))
          invariant rootStart + s < |dev.sectors| && buf[..] == dev.sectors[rootStart + s]
        {
          SlotRead(dev.sectors, rootStart, rootSectors, dir, nm, s, i);
          var e := SlotIn(buf[..], i);
          assert e == dir[Position(s, i)];
          if e[0] == 0 {
            NoPlainAfter(dir, nm, Position(s, i));
            return;
          }
          if e[0] != DELETED && !IsSkipped(e) && !IsDirectory(e) && Strncmp(e, nm, 11) == 0 {
            return true, e, Position(s, i);
          }
          NoPlainStep(dir, nm, Position(s, i));
          i := i + 1;
        }
        s := s + 1;
        assert Position(s, 0) == Position(s - 1, SLOTS_PER_SECTOR);
      }
    }

    /** Copies one sector's share of the file: at most up to `size` and to `maxLen` - 1 bytes in all. */
    method CopySector(buf: array<byte>, size: nat, maxLen: nat, bytesRead: nat, buffer: array<byte>) returns (now: nat)
      requires buf.Length == SECTOR_SIZE && buf != buffer && bytesRead <= size && bytesRead < maxLen <= buffer.Length
      modifies buffer
      ensures now == Min(bytesRead + SECTOR_SIZE, Min(size, maxLen - 1))
      ensures buffer[..now] == old(buffer[..bytesRead]) + buf[..now - bytesRead]
      ensures buffer[now..] == old(buffer[now..])
    {
      var toCopy := SECTOR_SIZE;
      if bytesRead + toCopy > size {
        toCopy := size - bytesRead;
      }
      if bytesRead + toCopy > maxLen - 1 {
        toCopy := maxLen - 1 - bytesRead;
      }
      forall m | 0 <= m < toCopy {
        buffer[bytesRead + m] := buf[m];
      }
      now := bytesRead + toCopy;
    }

    /** The sector loop for cluster `ch[k]`: the bytes up to and including that cluster are in `buffer`. */
    method ReadCluster(c: nat, size: nat, maxLen: nat, bytesRead: nat, buf: array<byte>, buffer: array<byte>,
                       ghost v: Volume, ghost ch: seq<nat>, ghost k: nat) returns (now: nat)
      requires Ready() && v == Vol() && v.Sized() && buf.Length == SECTOR_SIZE && buf != buffer
      requires InClusters(v, ch) && k < |ch| && c == ch[k] && 1 <= maxLen <= buffer.Length
      requires Gathered(v, ch, k, 0, size, maxLen, bytesRead, buffer[..])
      modifies buf, buffer
      ensures Gathered(v, ch, k + 1, 0, size, maxLen, now, buffer[..])
      ensures bytesRead <= now && buffer[now..] == old(buffer[now..])
    {
      hide Gathered, ChainBytes, Fat16.Vol, Fat16.Ready;
      GatheredBound(v, ch, k, 0, size, maxLen, bytesRead, buffer[..]);
      now := bytesRead;
      var i := 0;
      while i < bpb.sectorsPerCluster
        invariant i <= bpb.sectorsPerCluster && Gathered(v, ch, k, i, size, maxLen, now, buffer[..])
        invariant bytesRead <= now <= Min(size, maxLen - 1) && now <= buffer.Length
        invariant buffer[now..] == old(buffer[now..])
      {
        DataSectorAt(c, i, v);
        dev.ReadSector(dataStart + (c - 2) * bpb.sectorsPerCluster + i, buf);
        ghost var before, was := buffer[..], now;
        now := CopySector(buf, size, maxLen, now, buffer);
        GatherStep(v, ch, k, i, size, maxLen, was, before, now, buffer[..], buf[..]);
        i := i + 1;
        if now >= size || now >= maxLen - 1 {
          GatherFull(v, ch, k, i, size, maxLen, now, buffer[..]);
          return;
        }
      }
      SectorsPerCluster(v);
      GatherNext(v, ch, k, size, maxLen, now, buffer[..]);
    }

    lemma DataSectorAt(c: nat, i: nat, v: Volume)
      requires Ready() && v == Vol() && v.Sized() && 2 <= c < |v.clusters| + 2 && i < bpb.sectorsPerCluster
      ensures i < v.spc
      ensures dataStart + (c - 2) * bpb.sectorsPerCluster + i < |dev.sectors|
      ensures v.clusters[c - 2][i] == dev.sectors[dataStart + (c - 2) * bpb.sectorsPerCluster + i]
    {
      ClusterInside(Geo(), dev.sectors, c - 2);
    }

    /** The cluster loop, along a path behind which it ends; each round leaves one cluster of the path fewer. */
    method ReadChain(first: nat, size: nat, maxLen: nat, buf: array<byte>, buffer: array<byte>, ghost v: Volume,
                     ghost ch: seq<nat>)
      returns (bytesRead: nat)
      requires Ready() && v == Vol() && v.Sized() && buf.Length == SECTOR_SIZE && buf != buffer
      requires maxLen <= buffer.Length
      requires InClusters(v, ch) && IsPath(v.fat, ch) && AtLink(v.fat, ch, 0, first) && PathEnds(v, ch, size, maxLen)
      modifies buf, buffer
      ensures bytesRead == Min(|ChainBytes(v.clusters, ch)|, Share(size, maxLen))
      ensures buffer[..bytesRead] == ChainBytes(v.clusters, ch)[..bytesRead]
      ensures buffer[bytesRead..] == old(buffer[bytesRead..])
    {
      hide Fat16.Vol, Fat16.Geo, Fits, Mirrored, ParseBpb, Gathered, ChainBytes, PathEnds, IsPath, AtLink;
      var cluster := first;
      ghost var k := 0;
      bytesRead := 0;
      if maxLen > 0 {
        GatherStart(v, ch, size, maxLen, buffer[..]);
      }
      while IsLink(cluster) && bytesRead < size && bytesRead < maxLen
        invariant if maxLen > 0 then Gathered(v, ch, k, 0, size, maxLen, bytesRead, buffer[..]) else bytesRead == 0
        invariant k <= |ch| && AtLink(v.fat, ch, k, cluster)
        invariant bytesRead <= buffer.Length && (maxLen > 0 ==> bytesRead < maxLen)
        invariant buffer[bytesRead..] == old(buffer[bytesRead..])
        decreases |ch| - k
      {
        StillInside(v, ch, k, cluster, size, maxLen, bytesRead, buffer[..]);
        AtCluster(v.fat, ch, k, cluster);
        ghost var was := bytesRead;
        bytesRead := ReadCluster(cluster, size, maxLen, bytesRead, buf, buffer, v, ch, k);
        GatheredBound(v, ch, k + 1, 0, size, maxLen, bytesRead, buffer[..]);
        AtLinkStep(v.fat, ch, k);
        cluster := GetNextCluster(cluster);
        k := k + 1;
      }
      if maxLen > 0 {
        PathDone(v.fat, ch, k, cluster);
        GatheredAll(v, ch, k, size, maxLen, bytesRead, buffer[..]);
      }
    }

    /**
      fat16_read_file: -1 if the name denotes no readable file, otherwise as much of the contents
      as fits before the terminating NUL.
     */
    method ReadFile(filename: seq<byte>, buffer: array<byte>, maxLen: nat, ghost v: Volume) returns (ret: int)
      requires Ready() && v == Vol() && Readable(v, FatNameOf(filename)) && IsCString(filename)
      requires maxLen <= buffer.Length && 1 <= buffer.Length && maxLen <= 0x8000_0000
      modifies buffer
      ensures ReadOutcome(Lookup(v, FatNameOf(filename)), maxLen, old(buffer[..]), ret, buffer[..])
    {
      var nm := FatNameBuffer(filename);
      var buf := new byte[SECTOR_SIZE];
      var found, target;
      ghost var j;
      ReadyDir();
      found, target, j := FindFile(nm, buf, v.dir);
      if !found {
        LookupNone(v, nm);
        return -1;
      }
      LookupAt(v, nm, j);
      OwnedChain(v, j, maxLen);
      ret := ReadFound(target, buf, buffer, maxLen, v, ChainOf(v, target));
    }

    /** The part after the search: an empty file has no bytes to fetch, any other is read along its chain. */
    method ReadFound(target: Slot, buf: array<byte>, buffer: array<byte>, maxLen: nat, ghost v: Volume,
                     ghost ch: seq<nat>) returns (ret: int)
      requires Ready() && v == Vol() && v.Sized() && buf.Length == SECTOR_SIZE && buf != buffer
      requires maxLen <= buffer.Length && 1 <= buffer.Length
      requires InClusters(v, ch) && IsPath(v.fat, ch) && AtLink(v.fat, ch, 0, FirstOf(target))
      requires PathEnds(v, ch, SizeOf(target), maxLen) && SizeOf(target) <= |ChainBytes(v.clusters, ch)|
      modifies buf, buffer
      ensures ReadOutcome(Some(ChainBytes(v.clusters, ch)[..SizeOf(target)]), maxLen, old(buffer[..]), ret, buffer[..])
    {
      ghost var before := buffer[..];
      var size := SizeOf(target);
      if size == 0 {
        if maxLen > 0 {
          Terminate(buffer, 0);
        }
        return 0;
      }
      ret := ReadChain(FirstOf(target), size, maxLen, buf, buffer, v, ch);
      ghost var mid := buffer[..];
      Terminate(buffer, ret);
      ReadDone(ChainBytes(v.clusters, ch), size, maxLen, before, mid, ret, buffer[..]);
    }

    /** Ends the copied text with a NUL byte. */
    method Terminate(buffer: array<byte>, n: nat)
      requires n < buffer.Length
      modifies buffer
      ensures buffer[..] == old(buffer[..n]) + [0] + old(buffer[n + 1..])
    {
      buffer[n] := 0;
    }
  }

  /** The buffer holds directory sector `last`. */
  ghost predicate Holds(img: Image, rootStart: nat, rootSectors: nat, last: nat, buf: seq<byte>) {
    last < rootSectors && rootStart + last < |img| && buf == img[rootStart + last]
  }

  lemma DirSize(img: Image, rootStart: nat, rootSectors: nat, dir: seq<Slot>)
    requires DirAt(img, rootStart, rootSectors, dir)
    ensures |dir| == Position(rootSectors, 0)
  {
  }

  /** A slot read from a directory sector is the slot of the directory, and comparing it with `nm` compares names. */
  lemma SlotRead(img: Image, rootStart: nat, rootSectors: nat, dir: seq<Slot>, nm: FatName, s: nat, i: nat)
    requires DirAt(img, rootStart, rootSectors, dir) && 0 !in nm && s < rootSectors && i < SLOTS_PER_SECTOR
    ensures Position(s, i) < |dir| && rootStart + s < |img|
    ensures var e := SlotIn(img[rootStart + s], i);
      e == dir[Position(s, i)] && (Strncmp(e, nm, 11) == 0 <==> NameOf(e) == nm)
  {
    assert Position(s, i) / SLOTS_PER_SECTOR == s && Position(s, i) % SLOTS_PER_SECTOR == i;
    StrncmpDecidesEquality(SlotIn(img[rootStart + s], i), nm, 11);
  }
}
