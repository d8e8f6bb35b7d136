/** The file allocation table as a value: chains, free entries, release and linking. */
module FatTable {

  import opened Bytes

  /** Links at or above this value end a chain. */
  const CHAIN_END := 0xFFF8
  const END_MARK := 0xFFFF

  /** FAT entries, indexed by cluster number; entries 0 and 1 are reserved. */
  type Fat = seq<nat>

  /** The guard of every chain loop: values outside this range end the walk. */
  predicate IsLink(c: nat) {
    2 <= c < CHAIN_END
  }

  /** The clusters met by following links from `c`, at most `fuel` of them. */
  function Walk(fat: Fat, c: nat, fuel: nat): seq<nat>
    decreases fuel
  {
    if fuel == 0 || !IsLink(c) || c >= |fat| then [] else [c] + Walk(fat, fat[c], fuel - 1)
  }

  /** `ch` is a finite acyclic chain of clusters below `limit`, ended by an end mark. */
  ghost predicate IsChain(fat: Fat, limit: nat, ch: seq<nat>) {
    && |ch| > 0
    && Distinct(ch)
    && (forall i :: 0 <= i < |ch| ==> IsLink(ch[i]) && ch[i] < limit && ch[i] < |fat|)
    && (forall i :: 0 <= i < |ch| - 1 ==> fat[ch[i]] == ch[i + 1])
    && fat[ch[|ch| - 1]] >= CHAIN_END
  }

  function FreeSet(fat: Fat): set<nat> {
    set k: nat | 2 <= k < |fat| && fat[k] == 0
  }

  ghost predicate NoFreeBelow(fat: Fat, n: nat) {
    forall k :: 2 <= k < n && k < |fat| ==> fat[k] != 0
  }

  ghost predicate IsLowestFree(fat: Fat, c: nat) {
    c in FreeSet(fat) && NoFreeBelow(fat, c)
  }

  ghost function Elems(ch: seq<nat>): set<nat> {
    set i | 0 <= i < |ch| :: ch[i]
  }

  lemma {:induction false} DistinctBound(s: seq<nat>, n: nat)
    requires Distinct(s) && forall i :: 0 <= i < |s| ==> s[i] < n
    ensures |s| <= n
  {
    ElementCount(s);
    SubsetCount(Elems(s), Below(n));
  }

  lemma {:induction false} ElementCount(s: seq<nat>)
    requires Distinct(s)
    ensures |Elems(s)| == |s|
  {
    if s != [] {
      var m := |s| - 1;
      ElementCount(s[..m]);
      assert Elems(s) == Elems(s[..m]) + {s[m]};
    }
  }

  /** Walking from the head of a chain yields exactly the chain. */
  lemma {:induction false} WalkOfChain(fat: Fat, limit: nat, ch: seq<nat>, fuel: nat)
    requires IsChain(fat, limit, ch) && |ch| <= fuel
    ensures Walk(fat, ch[0], fuel) == ch
    decreases |ch|
  {
    if |ch| > 1 {
      assert ch[1..][|ch| - 2] == ch[|ch| - 1];
      WalkOfChain(fat, limit, ch[1..], fuel - 1);
    }
    assert ch == [ch[0]] + ch[1..];
  }

  /** A walk depends only on the entries it meets. */
  lemma {:induction false} WalkFrame(fat: Fat, fat': Fat, c: nat, fuel: nat)
    requires |fat| == |fat'|
    requires forall k :: k in Walk(fat, c, fuel) && k < |fat| ==> fat'[k] == fat[k]
    ensures Walk(fat', c, fuel) == Walk(fat, c, fuel)
    decreases fuel
  {
    if fuel > 0 && IsLink(c) && c < |fat| {
      assert c in Walk(fat, c, fuel);
      WalkFrame(fat, fat', fat[c], fuel - 1);
    }
  }

  // ---------- release ----------

  /** `path` follows links of `fat` from `c` without meeting a cluster twice. */
  ghost predicate IsTrail(fat: Fat, c: nat, path: seq<nat>) {
    && |path| > 0 && path[0] == c && Distinct(path)
    && (forall i :: 0 <= i < |path| ==> IsLink(path[i]) && path[i] < |fat|)
    && (forall i :: 0 <= i < |path| - 1 ==> fat[path[i]] == path[i + 1])
  }

  /** The trail cannot be extended: its last link is no link, or re-enters the trail. */
  ghost predicate IsMaximal(fat: Fat, path: seq<nat>)
    requires |path| > 0 && path[|path| - 1] < |fat|
  {
    var last := fat[path[|path| - 1]];
    !IsLink(last) || last in path
  }

  function Zeroed(fat: Fat, cs: seq<nat>): (r: Fat)
    ensures |r| == |fat|
    ensures forall k :: 0 <= k < |fat| ==> r[k] == if k in cs then 0 else fat[k]
  {
    seq(|fat|, k requires 0 <= k < |fat| => if k in cs then 0 else fat[k])
  }

  ghost predicate LinksStayInside(fat: Fat, inside: set<nat>) {
    forall k :: k in inside ==> k < |fat| && (IsLink(fat[k]) ==> fat[k] in inside)
  }

  lemma ChainStaysInside(fat: Fat, limit: nat, ch: seq<nat>)
    requires IsChain(fat, limit, ch)
    ensures LinksStayInside(fat, set k | k in ch)
  {
    forall k | k in ch
      ensures k < |fat| && (IsLink(fat[k]) ==> fat[k] in ch)
    {
      var i :| 0 <= i < |ch| && ch[i] == k;
      if i < |ch| - 1 {
        assert fat[ch[i]] == ch[i + 1];
      }
    }
  }

  /** The release loop has zeroed `path` and is about to look at `c`. */
  ghost predicate Releasing(fat: Fat, first: nat, path: seq<nat>, c: nat) {
    if path == [] then c == first
    else
      && IsTrail(fat, first, path)
      && var last := fat[path[|path| - 1]];
      c == last || (c == 0 && last in path)
  }

  /** The loop meets a new cluster: it is zeroed and the walk goes on. */
  lemma ReleaseNew(fat: Fat, first: nat, path: seq<nat>, c: nat)
    requires Releasing(fat, first, path, c) && IsLink(c) && c < |fat| && c !in path
    ensures Zeroed(fat, path)[c := 0] == Zeroed(fat, path + [c])
    ensures Zeroed(fat, path)[c] == fat[c] && Releasing(fat, first, path + [c], fat[c])
  {
    forall k | 0 <= k < |fat|
      ensures Zeroed(fat, path)[c := 0][k] == Zeroed(fat, path + [c])[k]
    {
    }
  }

  /** The loop meets a cluster it has zeroed: it reads 0 and stops. */
  lemma ReleaseAgain(fat: Fat, first: nat, path: seq<nat>, c: nat)
    requires Releasing(fat, first, path, c) && IsLink(c) && c < |fat| && c in path
    ensures Zeroed(fat, path)[c := 0] == Zeroed(fat, path)
    ensures Zeroed(fat, path)[c] == 0 && Releasing(fat, first, path, 0)
  {
  }

  /** On a chain, the only maximal trail from its head is the chain itself. */
  lemma {:induction false} TrailOfChain(fat: Fat, limit: nat, ch: seq<nat>, path: seq<nat>)
    requires IsChain(fat, limit, ch)
    requires IsTrail(fat, ch[0], path) && IsMaximal(fat, path)
    ensures path == ch
  {
    TrailPrefix(fat, limit, ch, path, |path|);
    forall m | 0 <= m < |ch| - 1
      ensures IsLink(fat[ch[m]]) && fat[ch[m]] !in ch[..m + 1]
    {
      assert fat[ch[m]] == ch[m + 1];
    }
    assert path == ch[..|path|];
  }

  lemma {:induction false} TrailPrefix(fat: Fat, limit: nat, ch: seq<nat>, path: seq<nat>, n: nat)
    requires IsChain(fat, limit, ch) && IsTrail(fat, ch[0], path) && n <= |path|
    ensures n <= |ch| && forall i :: 0 <= i < n ==> path[i] == ch[i]
  {
    if n > 1 {
      TrailPrefix(fat, limit, ch, path, n - 1);
      assert fat[path[n - 2]] == path[n - 1];
    }
  }

  /** Releasing a chain frees exactly its clusters. */
  lemma FreeAfterRelease(fat: Fat, limit: nat, ch: seq<nat>)
    requires IsChain(fat, limit, ch)
    ensures FreeSet(Zeroed(fat, ch)) == FreeSet(fat) + Elems(ch)
    ensures |FreeSet(Zeroed(fat, ch))| == |FreeSet(fat)| + |ch|
  {
    ElementCount(ch);
    forall k | k in Elems(ch)
      ensures k !in FreeSet(fat)
    {
      var i :| 0 <= i < |ch| && ch[i] == k;
      if i < |ch| - 1 {
        assert fat[ch[i]] == ch[i + 1];
      }
    }
    assert FreeSet(Zeroed(fat, ch)) == FreeSet(fat) + Elems(ch);
  }

  // ---------- allocation and linking ----------

  /** Entries are taken from the lowest free one upwards. */
  ghost predicate LowestFirst(fat1: Fat, ch: seq<nat>) {
    forall i, k :: 0 <= i < |ch| && k in FreeSet(fat1) && k < ch[i] ==> k in ch[..i]
  }

  /** `fat'` is `fat1` after the free entries `ch`, lowest first, were claimed and each was linked to the next. */
  ghost predicate Linked(fat1: Fat, ch: seq<nat>, fat': Fat) {
    && |fat'| == |fat1|
    && Distinct(ch) && LowestFirst(fat1, ch)
    && (forall i :: 0 <= i < |ch| ==> ch[i] in FreeSet(fat1))
    && (forall i :: 0 <= i < |ch| - 1 ==> fat'[ch[i]] == ch[i + 1])
    && (ch != [] ==> fat'[ch[|ch| - 1]] == END_MARK)
    && (forall k :: 0 <= k < |fat1| && k !in ch ==> fat'[k] == fat1[k])
  }

  /** The table after entry `c` was claimed and the previous tail pointed at it. */
  function LinkedOn(fat: Fat, ch: seq<nat>, c: nat): Fat
    requires c < |fat| && forall i :: 0 <= i < |ch| ==> ch[i] < |fat|
  {
    if ch == [] then fat[c := END_MARK] else fat[c := END_MARK][ch[|ch| - 1] := c]
  }

  /** What was claimed is not free any more. */
  lemma LinkedNotFree(fat1: Fat, ch: seq<nat>, fat': Fat, k: nat)
    requires Linked(fat1, ch, fat') && k in ch
    ensures k < |fat'| && fat'[k] != 0
  {
    var i :| 0 <= i < |ch| && ch[i] == k;
    if i < |ch| - 1 {
      assert fat'[ch[i]] == ch[i + 1];
    }
  }

  lemma LowestIsNext(fat1: Fat, ch: seq<nat>, fat: Fat, c: nat)
    requires Linked(fat1, ch, fat) && IsLowestFree(fat, c)
    ensures c in FreeSet(fat1) && c !in ch && LowestFirst(fat1, ch + [c])
  {
    if c in ch {
      LinkedNotFree(fat1, ch, fat, c);
    }
    forall i, k | 0 <= i < |ch + [c]| && k in FreeSet(fat1) && k < (ch + [c])[i]
      ensures k in (ch + [c])[..i]
    {
      assert (ch + [c])[..i] == ch[..i];
      if i == |ch| {
        assert ch[..i] == ch && fat[k] != 0;
      }
    }
  }

  /** Marking the lowest free entry `c` as end and pointing the previous tail at it extends what is claimed. */
  lemma LinkOneMore(fat1: Fat, ch: seq<nat>, fat: Fat, c: nat)
    requires Linked(fat1, ch, fat) && IsLowestFree(fat, c)
    ensures c in FreeSet(fat1) && c !in ch
    ensures forall i :: 0 <= i < |ch| ==> ch[i] < |fat|
    ensures Linked(fat1, ch + [c], LinkedOn(fat, ch, c))
  {
    LowestIsNext(fat1, ch, fat, c);
    hide LowestFirst, NoFreeBelow;
    var ch' := ch + [c];
    var fat' := LinkedOn(fat, ch, c);
    forall i | 0 <= i < |ch'| - 1
      ensures fat'[ch'[i]] == ch'[i + 1]
    {
      assert ch'[i] == ch[i] && ch[i] != c;
      if i < |ch| - 1 {
        assert ch[i] != ch[|ch| - 1] && fat[ch[i]] == ch[i + 1];
      }
    }
  }

  /** Claimed entries that are ordinary cluster numbers form a chain. */
  lemma LinkedIsChain(fat1: Fat, ch: seq<nat>, fat': Fat, limit: nat)
    requires Linked(fat1, ch, fat') && ch != [] && limit <= CHAIN_END
    requires forall i :: 0 <= i < |ch| ==> ch[i] < limit
    ensures IsChain(fat', limit, ch)
  {
    hide LowestFirst;
  }

  /** Claiming entries uses up exactly that many free ones. */
  lemma FreeAfterLink(fat1: Fat, ch: seq<nat>, fat': Fat)
    requires Linked(fat1, ch, fat')
    ensures FreeSet(fat') == FreeSet(fat1) - Elems(ch)
    ensures |FreeSet(fat')| == |FreeSet(fat1)| - |ch|
  {
    hide LowestFirst;
    ElementCount(ch);
    forall k: nat | k in Elems(ch)
      ensures k !in FreeSet(fat')
    {
      LinkedNotFree(fat1, ch, fat', k);
    }
    assert FreeSet(fat') == FreeSet(fat1) - Elems(ch);
    assert Elems(ch) <= FreeSet(fat1);
  }

  // ---------- free entries with a cluster ----------

  /** The free entries below `limit`. */
  ghost function FreeBelow(fat: Fat, limit: nat): set<nat> {
    set k | k in FreeSet(fat) && k < limit
  }

  lemma Ascending(fat1: Fat, ch: seq<nat>, i: nat, j: nat)
    requires Distinct(ch) && LowestFirst(fat1, ch) && i < j < |ch| && ch[j] in FreeSet(fat1)
    ensures ch[i] < ch[j]
  {
    assert ch[i] != ch[j];
  }

  /**
    As the lowest entries go first, the i-th one lies below the limit exactly if there are more than i such free
    entries.
   */
  lemma LowOnesFirst(fat1: Fat, ch: seq<nat>, limit: nat, i: nat)
    requires Distinct(ch) && LowestFirst(fat1, ch) && i < |ch| && forall j :: 0 <= j < |ch| ==> ch[j] in FreeSet(fat1)
    ensures ch[i] < limit <==> i < |FreeBelow(fat1, limit)|
  {
    var low := FreeBelow(fat1, limit);
    if ch[i] < limit {
      ElementCount(ch[..i + 1]);
      forall j | 0 <= j <= i
        ensures ch[j] in low
      {
        if j < i {
          Ascending(fat1, ch, j, i);
        }
      }
      assert Elems(ch[..i + 1]) <= low;
      SubsetCount(Elems(ch[..i + 1]), low);
    } else {
      ElementCount(ch[..i]);
      assert low <= Elems(ch[..i]);
      SubsetCount(low, Elems(ch[..i]));
    }
  }

  /** Claiming entries below the limit uses up that many of those. */
  lemma FreeBelowAfterLink(fat1: Fat, ch: seq<nat>, fat': Fat, limit: nat)
    requires Linked(fat1, ch, fat') && forall i :: 0 <= i < |ch| ==> ch[i] < limit
    ensures |FreeBelow(fat', limit)| + |ch| == |FreeBelow(fat1, limit)|
  {
    FreeAfterLink(fat1, ch, fat');
    hide LowestFirst;
    ElementCount(ch);
    assert FreeBelow(fat', limit) == FreeBelow(fat1, limit) - Elems(ch);
    assert Elems(ch) <= FreeBelow(fat1, limit);
  }

  /** Releasing a chain below the limit gives back that many. */
  lemma FreeBelowAfterRelease(fat: Fat, limit: nat, ch: seq<nat>)
    requires IsChain(fat, limit, ch)
    ensures |FreeBelow(Zeroed(fat, ch), limit)| == |FreeBelow(fat, limit)| + |ch|
  {
    FreeAfterRelease(fat, limit, ch);
    ElementCount(ch);
    assert FreeBelow(Zeroed(fat, ch), limit) == FreeBelow(fat, limit) + Elems(ch);
    forall k | k in Elems(ch)
      ensures k !in FreeSet(fat)
    {
      var i :| 0 <= i < |ch| && ch[i] == k;
      assert i < |ch| - 1 ==> fat[ch[i]] == ch[i + 1];
    }
  }

  // ---------- walking along claimed entries ----------

  lemma {:induction false} WalkPrefix(fat: Fat, p: seq<nat>, fuel: nat)
    requires p != [] && |p| <= fuel
    requires forall i :: 0 <= i < |p| ==> IsLink(p[i]) && p[i] < |fat|
    requires forall i :: 0 <= i < |p| - 1 ==> fat[p[i]] == p[i + 1]
    ensures p <= Walk(fat, p[0], fuel)
    decreases |p|
  {
    if |p| > 1 {
      WalkPrefix(fat, p[1..], fuel - 1);
      assert p == [p[0]] + p[1..];
    }
  }
}
