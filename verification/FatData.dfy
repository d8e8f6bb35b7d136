/** How the bytes of a file spread over the sectors of its chain. */
module FatData {
  import opened Bytes
  import opened FatTable
  import opened FatVolume

  /** The bytes of a chain, cut at cluster `k` and sector `i` of it. */
  lemma {:induction false} SectorInChain(v: Volume, ch: seq<nat>, k: nat, i: nat)
    requires v.Sized() && k < |ch| && i < v.spc
    requires forall m :: 0 <= m < |ch| ==> 2 <= ch[m] < |v.clusters| + 2
    ensures var all := ChainBytes(v.clusters, ch); var from := |ChainBytes(v.clusters, ch[..k])| + SECTOR_SIZE * i;
      from + SECTOR_SIZE <= |all| && all[from..from + SECTOR_SIZE] == v.clusters[ch[k] - 2][i]
    ensures |ChainBytes(v.clusters, ch[..k + 1])| == |ChainBytes(v.clusters, ch[..k])| + SECTOR_SIZE * v.spc
    ensures |ChainBytes(v.clusters, ch[..k + 1])| <= |ChainBytes(v.clusters, ch)|
    decreases |ch|
  {
    hide Flatten;
    var n := |ch| - 1;
    if k < n {
      SectorInChain(v, ch[..n], k, i);
      assert ch[..n][..k] == ch[..k] && ch[..n][..k + 1] == ch[..k + 1];
      var from := |ChainBytes(v.clusters, ch[..k])| + SECTOR_SIZE * i;
      FrontSlice(ChainBytes(v.clusters, ch[..n]), Flatten(v.clusters[ch[n] - 2]), from);
    } else {
      LastSector(v, ch, i);
      assert ch[..k + 1] == ch;
    }
  }

  lemma LastSector(v: Volume, ch: seq<nat>, i: nat)
    requires v.Sized() && ch != [] && i < v.spc
    requires forall m :: 0 <= m < |ch| ==> 2 <= ch[m] < |v.clusters| + 2
    ensures var all := ChainBytes(v.clusters, ch);
      var front := |ChainBytes(v.clusters, ch[..|ch| - 1])|; var from := front + SECTOR_SIZE * i;
      && |all| == front + SECTOR_SIZE * v.spc && from + SECTOR_SIZE <= |all|
      && all[from..from + SECTOR_SIZE] == v.clusters[ch[|ch| - 1] - 2][i]
  {
    var q := v.clusters[ch[|ch| - 1] - 2];
    SectorInFlatten(q, i);
    BackSlice(ChainBytes(v.clusters, ch[..|ch| - 1]), Flatten(q), SECTOR_SIZE * i);
  }

  lemma FrontSlice(a: seq<byte>, b: seq<byte>, from: nat)
    requires from + SECTOR_SIZE <= |a|
    ensures (a + b)[from..from + SECTOR_SIZE] == a[from..from + SECTOR_SIZE]
  {
  }

  lemma BackSlice(a: seq<byte>, b: seq<byte>, from: nat)
    requires from + SECTOR_SIZE <= |b|
    ensures (a + b)[|a| + from..|a| + from + SECTOR_SIZE] == b[from..from + SECTOR_SIZE]
  {
  }

  lemma SectorInFlatten(q: seq<Sector>, i: nat)
    requires i < |q|
    ensures Flatten(q)[SECTOR_SIZE * i..SECTOR_SIZE * i + SECTOR_SIZE] == q[i]
  {
    FlattenSplit(q, i);
    MiddleOf(Flatten(q[..i]), q[i], Flatten(q[i + 1..]));
  }

  lemma FlattenSplit(q: seq<Sector>, i: nat)
    requires i < |q|
    ensures Flatten(q) == Flatten(q[..i]) + q[i] + Flatten(q[i + 1..])
  {
    SplitAt(q, i);
    FlattenAround(q[..i], q[i], q[i + 1..]);
  }

  lemma SplitAt<T>(q: seq<T>, i: nat)
    requires i < |q|
    ensures q[..i] + [q[i]] + q[i + 1..] == q
  {
  }

  lemma FlattenAround(a: seq<Sector>, s: Sector, b: seq<Sector>)
    ensures Flatten(a + [s] + b) == Flatten(a) + s + Flatten(b)
  {
    FlattenSnoc(a, s);
    FlattenConcat(a + [s], b);
  }

  lemma MiddleOf(a: seq<byte>, m: seq<byte>, b: seq<byte>)
    ensures (a + m + b)[|a|..|a| + |m|] == m
  {
  }

  // ---------- reading ----------

  /** Each cluster links to the next; the path may meet a cluster again. */
  ghost predicate IsPath(fat: Fat, ch: seq<nat>) {
    && (forall i :: 0 <= i < |ch| ==> IsLink(ch[i]) && ch[i] < |fat|)
    && (forall i :: 0 <= i < |ch| - 1 ==> fat[ch[i]] == ch[i + 1])
  }

  /** `c` is the `k`-th cluster of the path, or what follows it. */
  ghost predicate AtLink(fat: Fat, ch: seq<nat>, k: nat, c: nat) {
    && k <= |ch|
    && if k < |ch| then c == ch[k] else if ch == [] then !IsLink(c) else ch[k - 1] < |fat| && c == fat[ch[k - 1]]
  }

  lemma AtLinkStep(fat: Fat, ch: seq<nat>, k: nat)
    requires IsPath(fat, ch) && k < |ch|
    ensures ch[k] < |fat| && AtLink(fat, ch, k + 1, fat[ch[k]])
  {
  }

  lemma AtCluster(fat: Fat, ch: seq<nat>, k: nat, c: nat)
    requires AtLink(fat, ch, k, c) && k < |ch|
    ensures c == ch[k]
  {
  }

  /** Where there is no link the path is used up. */
  lemma PathDone(fat: Fat, ch: seq<nat>, k: nat, c: nat)
    requires IsPath(fat, ch) && AtLink(fat, ch, k, c)
    ensures IsLink(c) || k == |ch|
  {
  }

  lemma NoPath(fat: Fat)
    ensures IsPath(fat, [])
  {
  }

  lemma ChainIsPath(fat: Fat, limit: nat, ch: seq<nat>)
    requires IsChain(fat, limit, ch)
    ensures IsPath(fat, ch) && !IsLink(fat[ch[|ch| - 1]])
  {
  }

  /** What reading one name needs: an orderly directory, and a chain long enough behind that name. */
  ghost predicate Readable(v: Volume, nm: FatName) {
    && v.Sized() && UnusedLast(v.dir) && NamesUnique(v.dir)
    && forall j: nat :: j < |v.dir| && PlainAt(v.dir, j, nm) ==> OwnsChain(v, v.dir[j])
  }

  ghost predicate OwnsChain(v: Volume, e: Slot) {
    && (FirstOf(e) >= 2 ==> IsChain(v.fat, v.Limit(), ChainOf(v, e)))
    && SizeOf(e) <= SECTOR_SIZE * v.spc * |ChainOf(v, e)|
  }

  ghost predicate AllReadable(v: Volume) {
    forall nm: FatName :: Readable(v, nm)
  }

  /** On a well-formed volume every name can be read. */
  lemma WellFormedIsReadable(v: Volume)
    requires WellFormed(v)
    ensures AllReadable(v)
  {
  }

  /** A plain slot that can be read owns clusters that hold its whole contents. */
  lemma OwnedChain(v: Volume, j: nat, maxLen: nat)
    requires j < |v.dir| && IsPlain(v.dir[j]) && Readable(v, NameOf(v.dir[j]))
    ensures var e := v.dir[j]; var ch := ChainOf(v, e);
      && InClusters(v, ch) && IsPath(v.fat, ch) && AtLink(v.fat, ch, 0, FirstOf(e))
      && PathEnds(v, ch, SizeOf(e), maxLen)
      && SizeOf(e) <= |ChainBytes(v.clusters, ch)| && Contents(v, e) == ChainBytes(v.clusters, ch)[..SizeOf(e)]
  {
    hide IsChain, IsPath, Walk;
    var ch := ChainOf(v, v.dir[j]);
    assert PlainAt(v.dir, j, NameOf(v.dir[j]));
    assert OwnsChain(v, v.dir[j]);
    OwnedClusters(v, v.dir[j]);
    ChainBytesLength(v, ch);
  }

  lemma ChainInClusters(v: Volume, ch: seq<nat>)
    requires IsChain(v.fat, v.Limit(), ch)
    ensures ch != [] && InClusters(v, ch)
  {
  }

  lemma ChainStart(v: Volume, e: Slot)
    requires FirstOf(e) >= 2 && ChainOf(v, e) != []
    ensures ChainOf(v, e)[0] == FirstOf(e)
  {
  }

  lemma OwnedClusters(v: Volume, e: Slot)
    requires OwnsChain(v, e)
    ensures InClusters(v, ChainOf(v, e)) && IsPath(v.fat, ChainOf(v, e)) && AtLink(v.fat, ChainOf(v, e), 0, FirstOf(e))
    ensures ChainOf(v, e) != [] ==> !IsLink(v.fat[ChainOf(v, e)[|ChainOf(v, e)| - 1]])
  {
    hide IsChain, IsPath, Walk;
    if FirstOf(e) >= 2 {
      ChainIsPath(v.fat, v.Limit(), ChainOf(v, e));
      ChainInClusters(v, ChainOf(v, e));
      ChainStart(v, e);
    } else {
      assert ChainOf(v, e) == [];
      NoPath(v.fat);
    }
  }

  ghost predicate InClusters(v: Volume, ch: seq<nat>) {
    forall m :: 0 <= m < |ch| ==> 2 <= ch[m] < |v.clusters| + 2
  }

  /** Behind the path the read loop ends: there is no further link, or the file was copied in full. */
  ghost predicate PathEnds(v: Volume, ch: seq<nat>, size: nat, maxLen: nat)
    requires InClusters(v, ch) && IsPath(v.fat, ch)
  {
    ch == [] || !IsLink(v.fat[ch[|ch| - 1]]) || (size <= |ChainBytes(v.clusters, ch)| && size < maxLen)
  }

  /**
    The read loop is at sector `i` of the `k`-th cluster: `now` bytes were copied, as far as the
    size and the buffer allow, and `buffer` begins with the chain's bytes.
   */
  ghost predicate Gathered(v: Volume, ch: seq<nat>, k: nat, i: nat, size: nat, maxLen: nat, now: nat, buffer: seq<byte>)
    requires InClusters(v, ch) && maxLen >= 1
  {
    var all := ChainBytes(v.clusters, ch);
    && k <= |ch| && now <= |all|
    && now == Min(|ChainBytes(v.clusters, ch[..k])| + SECTOR_SIZE * i, Min(size, maxLen - 1))
    && now <= |buffer| && buffer[..now] == all[..now]
  }

  lemma GatherStart(v: Volume, ch: seq<nat>, size: nat, maxLen: nat, buffer: seq<byte>)
    requires InClusters(v, ch) && maxLen >= 1
    ensures Gathered(v, ch, 0, 0, size, maxLen, 0, buffer)
  {
  }

  lemma GatheredBound(v: Volume, ch: seq<nat>, k: nat, i: nat, size: nat, maxLen: nat, now: nat, buffer: seq<byte>)
    requires InClusters(v, ch) && maxLen >= 1 && Gathered(v, ch, k, i, size, maxLen, now, buffer)
    ensures now <= Min(size, maxLen - 1) && now <= |buffer|
  {
  }

  lemma GatherStep(v: Volume, ch: seq<nat>, k: nat, i: nat, size: nat, maxLen: nat,
                   was: nat, before: seq<byte>, now: nat, after: seq<byte>, sec: Sector)
    requires InClusters(v, ch) && v.Sized() && maxLen >= 1 && k < |ch| && i < v.spc && sec == v.clusters[ch[k] - 2][i]
    requires Gathered(v, ch, k, i, size, maxLen, was, before)
    requires now == Min(was + SECTOR_SIZE, Min(size, maxLen - 1))
    requires now <= |after| && after[..now] == before[..was] + sec[..now - was]
    ensures Gathered(v, ch, k, i + 1, size, maxLen, now, after)
  {
    SectorInChain(v, ch, k, i);
    var all := ChainBytes(v.clusters, ch);
    var from := |ChainBytes(v.clusters, ch[..k])| + SECTOR_SIZE * i;
    if was < now {
      assert was == from;
      CopiedMore(all, from, now);
    }
  }

  lemma CopiedMore(all: seq<byte>, from: nat, now: nat)
    requires from <= now <= from + SECTOR_SIZE <= |all|
    ensures all[..now] == all[..from] + all[from..from + SECTOR_SIZE][..now - from]
  {
  }

  lemma GatherNext(v: Volume, ch: seq<nat>, k: nat, size: nat, maxLen: nat, now: nat, buffer: seq<byte>)
    requires InClusters(v, ch) && v.Sized() && maxLen >= 1 && k < |ch|
    requires Gathered(v, ch, k, v.spc, size, maxLen, now, buffer)
    ensures Gathered(v, ch, k + 1, 0, size, maxLen, now, buffer)
  {
    SectorInChain(v, ch, k, 0);
  }

  /** Once everything wanted was copied, the rest of the cluster can be passed over. */
  lemma GatherFull(v: Volume, ch: seq<nat>, k: nat, i: nat, size: nat, maxLen: nat, now: nat, buffer: seq<byte>)
    requires InClusters(v, ch) && v.Sized() && maxLen >= 1 && k < |ch| && i <= v.spc
    requires Gathered(v, ch, k, i, size, maxLen, now, buffer) && (now >= size || now >= maxLen - 1)
    ensures Gathered(v, ch, k + 1, 0, size, maxLen, now, buffer)
  {
    SectorInChain(v, ch, k, 0);
  }

  /** What the read loop delivers when it ends. */
  lemma GatheredAll(v: Volume, ch: seq<nat>, k: nat, size: nat, maxLen: nat, now: nat, buffer: seq<byte>)
    requires InClusters(v, ch) && maxLen >= 1 && Gathered(v, ch, k, 0, size, maxLen, now, buffer)
    requires k == |ch| || now >= size
    ensures now == Min(|ChainBytes(v.clusters, ch)|, Min(size, maxLen - 1))
    ensures buffer[..now] == ChainBytes(v.clusters, ch)[..now]
  {
    assert k == |ch| ==> ch[..k] == ch;
  }

  /** As long as the loop goes on it is inside the path. */
  lemma StillInside(v: Volume, ch: seq<nat>, k: nat, c: nat, size: nat, maxLen: nat, now: nat, buffer: seq<byte>)
    requires InClusters(v, ch) && IsPath(v.fat, ch) && PathEnds(v, ch, size, maxLen) && maxLen >= 1
    requires Gathered(v, ch, k, 0, size, maxLen, now, buffer) && AtLink(v.fat, ch, k, c) && IsLink(c) && now < size
    ensures k < |ch|
  {
    hide ChainBytes;
    assert ch[..|ch|] == ch;
  }

  // ---------- when reading ends ----------

  /** The `k`-th cluster that following links from `c` meets. */
  function Nth(fat: Fat, c: nat, k: nat): nat {
    if k == 0 then c
    else
      var x := Nth(fat, c, k - 1);
      if IsLink(x) && x < |fat| then fat[x] else x
  }

  /** The guard of the cluster loop fails before round `k`. */
  ghost predicate Stops(fat: Fat, first: nat, spc: nat, size: nat, maxLen: nat, k: nat) {
    !IsLink(Nth(fat, first, k)) || maxLen == 0 || Min(SECTOR_SIZE * spc * k, Min(size, maxLen - 1)) >= size
  }

  lemma {:induction false} NthOnTrail(fat: Fat, first: nat, path: seq<nat>, k: nat)
    requires IsTrail(fat, first, path) && IsMaximal(fat, path)
    ensures k < |path| ==> Nth(fat, first, k) == path[k]
    ensures k == |path| ==> Nth(fat, first, k) == fat[path[k - 1]]
    ensures fat[path[|path| - 1]] in path ==> Nth(fat, first, k) in path
  {
    if k > 0 {
      NthOnTrail(fat, first, path, k - 1);
      if fat[path[|path| - 1]] in path {
        var i :| 0 <= i < |path| && path[i] == Nth(fat, first, k - 1);
        assert i < |path| - 1 ==> fat[path[i]] == path[i + 1];
      }
    }
  }

  /**
    Exactly when reading a file ends: its size is below `max_len`, or nothing is asked for, or the links from its first
    cluster lead to an end instead of back.
   */
  lemma ReadEndsExactlyWhen(fat: Fat, first: nat, path: seq<nat>, spc: nat, size: nat, maxLen: nat)
    requires IsTrail(fat, first, path) && IsMaximal(fat, path) && spc >= 1
    ensures (exists k: nat :: Stops(fat, first, spc, size, maxLen, k))
      <==> size < maxLen || maxLen == 0 || !IsLink(fat[path[|path| - 1]])
  {
    if size < maxLen || maxLen == 0 {
      MulBound(1, size, SECTOR_SIZE * spc, size);
      assert Stops(fat, first, spc, size, maxLen, size);
    } else if !IsLink(fat[path[|path| - 1]]) {
      NthOnTrail(fat, first, path, |path|);
      assert Stops(fat, first, spc, size, maxLen, |path|);
    } else {
      forall k: nat
        ensures !Stops(fat, first, spc, size, maxLen, k)
      {
        NthOnTrail(fat, first, path, k);
      }
    }
  }

  // ---------- writing ----------

  /**
    Part way through storing `d`: `base` bytes went to earlier clusters and the first `i` sectors
    of the current cluster `q` hold what follows.
   */
  ghost predicate Filling(d: seq<byte>, base: nat, q: seq<Sector>, i: nat, written: nat) {
    && i <= |q| && base <= |d|
    && written == Min(|d|, base + SECTOR_SIZE * i)
    && Flatten(q[..i])[..written - base] == d[base..written]
  }

  lemma FillStep(d: seq<byte>, base: nat, q: seq<Sector>, i: nat, written: nat, sec: Sector, n: nat)
    requires Filling(d, base, q, i, written) && i < |q|
    requires n == Min(SECTOR_SIZE, |d| - written) && sec[..n] == d[written..written + n]
    requires written == |d| ==> i == 0 && base == |d|
    ensures var q': seq<Sector> := q[i := sec]; Filling(d, base, q', i + 1, written + n)
  {
    var q': seq<Sector> := q[i := sec];
    assert q'[..i + 1][..i] == q[..i];
    assert q'[..i + 1][i] == sec;
    assert Flatten(q'[..i + 1]) == Flatten(q[..i]) + sec;
    assert written == base + SECTOR_SIZE * i;
    assert Flatten(q[..i])[..written - base] == Flatten(q[..i]);
    assert d[base..written + n] == d[base..written] + d[written..written + n];
  }

  lemma FillingMoves(d: seq<byte>, base: nat, q: seq<Sector>, i: nat, written: nat)
    requires Filling(d, base, q, i, written) && (i == |q| || written == |d|) && |q| >= 1
    ensures written <= |d| && (base < |d| ==> base < written)
  {
  }

  // ---------- what the clusters of a file hold ----------

  /** How many bytes of `d` the `k`-th of its clusters has to hold. */
  function PartSize(d: seq<byte>, spc: nat, k: nat): nat
    requires SECTOR_SIZE * spc * k <= |d|
  {
    Min(SECTOR_SIZE * spc, |d| - SECTOR_SIZE * spc * k)
  }

  /** The sectors `q` begin with the part of `d` that belongs into its `k`-th cluster. */
  ghost predicate PartAt(d: seq<byte>, spc: nat, k: nat, q: seq<Sector>) {
    var from := SECTOR_SIZE * spc * k;
    && |q| == spc && from <= |d|
    && Flatten(q)[..PartSize(d, spc, k)] == d[from..from + PartSize(d, spc, k)]
  }

  /** A cluster filled from its first byte to its end, or to the end of the data, holds its part. */
  lemma PartFilled(d: seq<byte>, spc: nat, k: nat, q: seq<Sector>, i: nat, written: nat)
    requires |q| == spc && SECTOR_SIZE * spc * k <= |d|
    requires Filling(d, SECTOR_SIZE * spc * k, q, i, written) && (i == |q| || written == |d|)
    ensures PartAt(d, spc, k, q) && written == SECTOR_SIZE * spc * k + PartSize(d, spc, k)
  {
    hide Flatten;
    var n := PartSize(d, spc, k);
    FlattenConcat(q[..i], q[i..]);
    assert q[..i] + q[i..] == q;
    assert Flatten(q)[..n] == Flatten(q[..i])[..n];
  }

  /** Together the parts are the data, as far as the clusters reach. */
  lemma {:induction false} PartsMakeChain(clusters: seq<seq<Sector>>, spc: nat, d: seq<byte>, ch: seq<nat>)
    requires forall m :: 0 <= m < |ch| ==> 2 <= ch[m] < |clusters| + 2 && PartAt(d, spc, m, clusters[ch[m] - 2])
    ensures |ChainBytes(clusters, ch)| == SECTOR_SIZE * spc * |ch|
    ensures var n := Min(|d|, SECTOR_SIZE * spc * |ch|); ChainBytes(clusters, ch)[..n] == d[..n]
  {
    hide Flatten;
    if ch != [] {
      var k := |ch| - 1;
      PartsMakeChain(clusters, spc, d, ch[..k]);
      assert PartAt(d, spc, k, clusters[ch[k] - 2]);
      PartAppended(clusters, spc, d, ch, SECTOR_SIZE * spc * k);
      assert SECTOR_SIZE * spc * k + SECTOR_SIZE * spc == SECTOR_SIZE * spc * |ch|;
    }
  }

  lemma PartAppended(clusters: seq<seq<Sector>>, spc: nat, d: seq<byte>, ch: seq<nat>, from: nat)
    requires ch != [] && from == SECTOR_SIZE * spc * (|ch| - 1)
    requires forall m :: 0 <= m < |ch| ==> 2 <= ch[m] < |clusters| + 2
    requires PartAt(d, spc, |ch| - 1, clusters[ch[|ch| - 1] - 2])
    requires |ChainBytes(clusters, ch[..|ch| - 1])| == from && ChainBytes(clusters, ch[..|ch| - 1])[..from] == d[..from]
    ensures |ChainBytes(clusters, ch)| == from + SECTOR_SIZE * spc
    ensures var n := Min(|d|, from + SECTOR_SIZE * spc); ChainBytes(clusters, ch)[..n] == d[..n]
  {
    hide Flatten;
    var p, f := ChainBytes(clusters, ch[..|ch| - 1]), Flatten(clusters[ch[|ch| - 1] - 2]);
    JoinedPrefix(p, f, d, PartSize(d, spc, |ch| - 1));
  }

  lemma JoinedPrefix(p: seq<byte>, f: seq<byte>, d: seq<byte>, m: nat)
    requires |p| + m <= |d| && m <= |f| && p[..|p|] == d[..|p|] && f[..m] == d[|p|..|p| + m]
    ensures (p + f)[..|p| + m] == d[..|p| + m]
  {
    assert (p + f)[..|p| + m] == p + f[..m];
    assert d[..|p| + m] == d[..|p|] + d[|p|..|p| + m];
  }

  // ---------- the data loop ----------

  /** What cluster `c` holds, or anything of its size if there is no such cluster. */
  ghost function OldSectors(v: Volume, c: nat): (q: seq<Sector>)
    requires v.Sized()
    ensures |q| == v.spc && v.(clusters := ClusterSet(v.clusters, c, q)) == v
  {
    if 2 <= c < |v.clusters| + 2 then v.clusters[c - 2] else ZeroSectors(v.spc)
  }

  function ZeroSectors(n: nat): (q: seq<Sector>)
    ensures |q| == n
  {
    if n == 0 then [] else ZeroSectors(n - 1) + [seq(SECTOR_SIZE, i => 0)]
  }

  /** The clusters after the sectors `q` were sent to cluster `c`; nothing happens if there is no such cluster. */
  function ClusterSet(clusters: seq<seq<Sector>>, c: nat, q: seq<Sector>): (r: seq<seq<Sector>>)
    ensures |r| == |clusters|
  {
    if 2 <= c < |clusters| + 2 then clusters[c - 2 := q] else clusters
  }

  /**
    Those of the clusters `ch` that exist hold their parts of `d`, none was taken too early, and the
    other clusters are as before.
   */
  ghost predicate Held(before: seq<seq<Sector>>, spc: nat, d: seq<byte>, ch: seq<nat>, written: nat,
                       now: seq<seq<Sector>>) {
    && |now| == |before|
    && (forall c :: 0 <= c < |now| ==> |now[c]| == spc)
    && (forall c :: 0 <= c < |before| && c + 2 !in ch ==> now[c] == before[c])
    && (forall m :: 0 <= m < |ch| && 2 <= ch[m] < |before| + 2 ==> PartAt(d, spc, m, now[ch[m] - 2]))
    && written == Min(|d|, SECTOR_SIZE * spc * |ch|)
    && (|ch| > 1 ==> SECTOR_SIZE * spc * (|ch| - 1) < |d|)
  }

  /** The data loop has sent `written` bytes of `d` to the clusters `ch` it linked so far. */
  ghost predicate Storing(v1: Volume, d: seq<byte>, ch: seq<nat>, written: nat, v: Volume) {
    && v.SameShape(v1) && v.dir == v1.dir && v1.spc >= 1
    && Linked(v1.fat, ch, v.fat)
    && Held(v1.clusters, v1.spc, d, ch, written, v.clusters)
  }

  lemma StoringNothing(v1: Volume, d: seq<byte>)
    requires v1.Sized()
    ensures Storing(v1, d, [], 0, v1)
  {
  }

  lemma HeldStep(before: seq<seq<Sector>>, spc: nat, d: seq<byte>, ch: seq<nat>, written: nat, now: seq<seq<Sector>>,
                 c: nat, q: seq<Sector>, i: nat, written': nat)
    requires Held(before, spc, d, ch, written, now) && spc >= 1
    requires written < |d| || (d == [] && ch == [])
    requires 2 <= c && c !in ch
    requires |q| == spc && Filling(d, written, q, i, written') && (i == |q| || written' == |d|)
    ensures Held(before, spc, d, ch + [c], written', ClusterSet(now, c, q))
  {
    hide PartAt, Filling;
    assert written == SECTOR_SIZE * spc * |ch|;
    PartFilled(d, spc, |ch|, q, i, written');
    var now' := ClusterSet(now, c, q);
    forall m | 0 <= m < |ch + [c]| && 2 <= (ch + [c])[m] < |before| + 2
      ensures PartAt(d, spc, m, now'[(ch + [c])[m] - 2])
    {
      if m < |ch| {
        assert ch[m] in ch;
      }
    }
    assert SECTOR_SIZE * spc * |ch| + SECTOR_SIZE * spc == SECTOR_SIZE * spc * (|ch| + 1);
    assert |ch + [c]| - 1 == |ch|;
  }

  /** The next free entry can be claimed and linked to those before. */
  lemma NextLink(v1: Volume, d: seq<byte>, ch: seq<nat>, written: nat, v: Volume, c: nat)
    requires Storing(v1, d, ch, written, v) && IsLowestFree(v.fat, c)
    ensures v.Sized() && v.spc == v1.spc && 2 <= c < |v.fat|
    ensures forall m :: 0 <= m < |ch| ==> 2 <= ch[m] < |v.fat|
  {
    hide LowestFirst, PartAt;
  }

  lemma StoredShape(v1: Volume, d: seq<byte>, ch: seq<nat>, written: nat, v: Volume)
    requires Storing(v1, d, ch, written, v)
    ensures v.dir == v1.dir && v.spc == v1.spc
  {
    hide Held;
  }

  /** One round of the data loop: claim `c`, link it, fill it with what comes next. */
  lemma StoreStep(v1: Volume, d: seq<byte>, ch: seq<nat>, written: nat, v: Volume, c: nat, q: seq<Sector>, i: nat,
                  written': nat)
    requires Storing(v1, d, ch, written, v) && IsLowestFree(v.fat, c)
    requires written < |d| || (d == [] && ch == [])
    requires |q| == v1.spc && Filling(d, written, q, i, written') && (i == |q| || written' == |d|)
    ensures c in FreeSet(v1.fat) && c !in ch
    ensures forall m :: 0 <= m < |ch| ==> ch[m] < |v.fat|
    ensures var v' := v.(fat := LinkedOn(v.fat, ch, c), clusters := ClusterSet(v.clusters, c, q));
      Storing(v1, d, ch + [c], written', v')
  {
    hide Held, Linked, Filling, ClusterSet, NoFreeBelow;
    LinkOneMore(v1.fat, ch, v.fat, c);
    HeldStep(v1.clusters, v1.spc, d, ch, written, v.clusters, c, q, i, written');
  }

  /** When everything is stored the chain has exactly the needed length. */
  lemma StoredAll(v1: Volume, d: seq<byte>, ch: seq<nat>, v: Volume)
    requires Storing(v1, d, ch, |d|, v) && ch != [] && (d == [] ==> |ch| == 1)
    ensures |ch| == Need(|d|, v1.spc)
  {
    NeedUnique(|d|, v1.spc, |ch|);
  }

  /** When the table ran full before everything was stored, more clusters were needed. */
  lemma StoredTooLittle(v1: Volume, d: seq<byte>, ch: seq<nat>, written: nat, v: Volume)
    requires Storing(v1, d, ch, written, v) && (written < |d| || (d == [] && ch == []))
    ensures |ch| < Need(|d|, v1.spc)
  {
    NeedExceeds(|d|, v1.spc, |ch|);
  }

  /** The number of clusters that hold `len` bytes, and no fewer, is the needed one. */
  lemma NeedUnique(len: nat, spc: nat, n: nat)
    requires spc >= 1 && n >= 1 && len <= SECTOR_SIZE * spc * n
    requires len == 0 ==> n == 1
    requires n > 1 ==> SECTOR_SIZE * spc * (n - 1) < len
    ensures n == Need(len, spc)
  {
    var cb := SECTOR_SIZE * spc;
    if len > 0 {
      var x := len + cb - 1;
      assert cb * (n - 1) == cb * n - cb;
      assert n * cb == cb * n;
      DivModIs(x, cb, n, x - cb * n);
    }
  }

  lemma NeedExceeds(len: nat, spc: nat, n: nat)
    requires spc >= 1 && (len > 0 ==> SECTOR_SIZE * spc * n < len) && (len == 0 ==> n == 0)
    ensures Need(len, spc) > n
  {
    if len > 0 {
      var cb := SECTOR_SIZE * spc;
      var x := len + cb - 1;
      var q, r := x / cb, x % cb;
      assert x == q * cb + r;
      assert q <= n ==> q * cb <= n * cb;
    }
  }
}
