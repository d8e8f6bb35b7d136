/**
  The receive queue of the network driver: the statements of the poll loop interleaved in any
  way with a device that takes buffers and returns them in any order.
 */
module VirtioRx {
  import opened Bytes
  import opened VirtioRings

  /** Where the driver stands inside one round of the poll loop. */
  datatype Pc = Idle | Loaded | Written | Bumped | Published

  datatype Rx = Rx(
    availRing: seq<nat>, availIdx: nat,       // shared, written by the driver
    usedRing: seq<nat>, usedIdx: nat,         // shared, written by the device
    rxAvailIdx: nat, lastUsed: nat, pc: Pc, id: nat,   // driver variables
    devNext: nat, devUsed: nat, inDevice: set<nat>)    // device variables

  datatype Action =
    | Load | Write | Bump | Publish | Finish       // driver statements
    | Take | PutElem(id: nat) | PutIdx(n: nat)     // device steps

  function Size(s: Rx): nat { |s.availRing| }

  predicate Shaped(s: Rx) {
    && IsQueueSize(|s.availRing|) && |s.usedRing| == |s.availRing|
    && s.availIdx < WRAP && s.usedIdx < WRAP && s.rxAvailIdx < WRAP && s.lastUsed < WRAP
    && s.devNext < WRAP && s.devUsed < WRAP
  }

  predicate Enabled(s: Rx, a: Action) {
    Shaped(s) &&
    match a
    case Load => s.pc == Idle && s.lastUsed != s.usedIdx
    case Write => s.pc == Loaded
    case Bump => s.pc == Written
    case Publish => s.pc == Bumped
    case Finish => s.pc == Published
    case Take => s.devNext != s.availIdx
    case PutElem(id) => id in s.inDevice && id !in Pending(s)
    case PutIdx(n) => 1 <= n <= |Pending(s)|
  }

  function Next(s: Rx, a: Action): (s': Rx)
    requires Enabled(s, a)
    ensures Shaped(s')
  {
    var q := Size(s);
    match a
    case Load => s.(id := s.usedRing[s.lastUsed % q], pc := Loaded)
    case Write => s.(availRing := s.availRing[s.rxAvailIdx % q := s.id], pc := Written)
    case Bump => s.(rxAvailIdx := Inc(s.rxAvailIdx), pc := Bumped)
    case Publish => s.(availIdx := s.rxAvailIdx, pc := Published)
    case Finish => s.(lastUsed := Inc(s.lastUsed), pc := Idle)
    case Take => s.(inDevice := s.inDevice + {s.availRing[s.devNext % q]}, devNext := Inc(s.devNext))
    case PutElem(id) => s.(usedRing := s.usedRing[s.devUsed % q := id], devUsed := Inc(s.devUsed))
    case PutIdx(n) => s.(usedIdx := Ahead(s.usedIdx, n), inDevice := s.inDevice - Elements(Pending(s)[..n]))
  }

  // ---------- what the rings hold ----------

  /** Buffers offered and not yet taken, in the order the device will take them. */
  function Avail(s: Rx): seq<nat>
    requires Shaped(s)
  {
    Window(s.availRing, s.devNext, s.availIdx)
  }

  /** The next used entry that has not been offered again. */
  function UsedFrom(s: Rx): (r: nat)
    requires Shaped(s)
    ensures r < WRAP
  {
    if s.pc == Published then Inc(s.lastUsed) else s.lastUsed
  }

  /** Buffers returned and not yet offered again, in the order they came back. */
  function Used(s: Rx): seq<nat>
    requires Shaped(s)
  {
    Window(s.usedRing, UsedFrom(s), s.usedIdx)
  }

  /** Entries the device has written and not yet published. */
  function Pending(s: Rx): seq<nat>
    requires Shaped(s)
  {
    Window(s.usedRing, s.usedIdx, s.devUsed)
  }

  function Elements(p: seq<nat>): set<nat> {
    set x | x in p
  }

  /** With equal indices nothing is waiting to be polled. */
  lemma NothingUsed(s: Rx)
    requires Shaped(s) && s.pc == Idle && s.lastUsed == s.usedIdx
    ensures Used(s) == []
  {
    assert Dist(s.usedIdx, s.usedIdx) == 0;
  }

  /** Offered, in the device, and returned buffers: every buffer id is in exactly one place, once. */
  ghost predicate Partitioned(s: Rx)
    requires Shaped(s)
  {
    Together(Avail(s), s.inDevice, Used(s)) == multiset(Below(Size(s)))
  }

  ghost predicate DriverOk(s: Rx)
    requires Shaped(s)
  {
    && s.rxAvailIdx == (if s.pc == Bumped then Inc(s.availIdx) else s.availIdx)
    && Dist(s.lastUsed, s.rxAvailIdx) == Size(s) + (if s.pc == Bumped || s.pc == Published then 1 else 0)
    && (s.pc in {Loaded, Written, Bumped} ==> Used(s) != [] && Used(s)[0] == s.id)
    && (s.pc in {Written, Bumped} ==> s.availRing[s.availIdx % Size(s)] == s.id)
  }

  /** The device has written different buffers, all of which it has taken. */
  ghost predicate DeviceOk(s: Rx)
    requires Shaped(s)
  {
    Distinct(Pending(s)) && Elements(Pending(s)) <= s.inDevice
  }

  ghost predicate RxOk(s: Rx) {
    Shaped(s) && Partitioned(s) && DriverOk(s) && DeviceOk(s)
  }

  lemma PlaceCounts(s: Rx)
    requires Shaped(s) && Partitioned(s)
    ensures |Avail(s)| + |s.inDevice| + |Used(s)| == Size(s)
  {
    assert |multiset(Avail(s)) + multiset(s.inDevice) + multiset(Used(s))| == |multiset(Below(Size(s)))|;
  }

  // ---------- every step keeps the invariant ----------

  /** The effect of a step on the three places: buffers move, in first-in first-out order, or none do. */
  ghost predicate Moves(s: Rx, a: Action, s': Rx)
    requires Shaped(s) && Shaped(s')
  {
    match a
    case Publish =>
      && Used(s) != [] && Avail(s') == Avail(s) + [Used(s)[0]]
      && s'.inDevice == s.inDevice && Used(s') == Used(s)[1..]
    case Take =>
      && Avail(s) != [] && Avail(s') == Avail(s)[1..]
      && s'.inDevice == s.inDevice + {Avail(s)[0]} && Avail(s)[0] !in s.inDevice && Used(s') == Used(s)
    case PutIdx(n) =>
      && n <= |Pending(s)| && Avail(s') == Avail(s) && s'.inDevice == s.inDevice - Elements(Pending(s)[..n])
      && Used(s') == Used(s) + Pending(s)[..n]
    case _ => Avail(s') == Avail(s) && s'.inDevice == s.inDevice && Used(s') == Used(s)
  }

  lemma StepMoves(s: Rx, a: Action)
    requires RxOk(s) && Enabled(s, a)
    ensures Moves(s, a, Next(s, a))
  {
    PlaceCounts(s);
    match a
    case Write => WindowWrite(s.availRing, s.devNext, s.availIdx, s.id);
    case Publish => PublishMoves(s);
    case Take =>
      WindowPop(s.availRing, s.devNext, s.availIdx);
      TakenIsNew(s);
    case PutElem(id) => ElemUnseen(s, id);
    case PutIdx(n) =>
      RoomForPending(s);
      WindowExtend(s.usedRing, UsedFrom(s), s.usedIdx, n);
      WindowSplit(s.usedRing, s.usedIdx, s.devUsed, n);
    case _ =>
  }

  lemma {:induction false} DistinctCount(p: seq<nat>)
    requires Distinct(p)
    ensures |Elements(p)| == |p| && multiset(p) == multiset(Elements(p))
  {
    if p != [] {
      var n := |p| - 1;
      DistinctCount(p[..n]);
      assert p == p[..n] + [p[n]];
      assert Elements(p) == Elements(p[..n]) + {p[n]};
      assert p[n] !in p[..n];
    }
  }

  /** Used and pending entries together fill no more of the ring than the buffers that are not available. */
  lemma RoomForPending(s: Rx)
    requires RxOk(s)
    ensures |Used(s)| + |s.inDevice| <= Size(s) && |Pending(s)| <= |s.inDevice|
    ensures Dist(UsedFrom(s), s.devUsed) == |Used(s)| + |Pending(s)|
    ensures Window(s.usedRing, UsedFrom(s), s.devUsed) == Used(s) + Pending(s)
  {
    PlaceCounts(s);
    DistinctCount(Pending(s));
    SubsetCount(Elements(Pending(s)), s.inDevice);
    AheadDist(UsedFrom(s), s.usedIdx, |Pending(s)|);
    AheadDist(s.devUsed, s.usedIdx, 0);
    WindowExtend(s.usedRing, UsedFrom(s), s.usedIdx, |Pending(s)|);
  }

  /** Writing a further used entry changes neither the published nor the other pending ones. */
  lemma ElemUnseen(s: Rx, id: nat)
    requires RxOk(s) && Enabled(s, PutElem(id))
    ensures Used(Next(s, PutElem(id))) == Used(s) && Pending(Next(s, PutElem(id))) == Pending(s) + [id]
  {
    RoomForPending(s);
    DistinctCount(Pending(s));
    SubsetCount(Elements(Pending(s)) + {id}, s.inDevice);
    assert |Elements(Pending(s)) + {id}| == |Pending(s)| + 1;
    var ring' := s.usedRing[s.devUsed % Size(s) := id];
    WindowTail(s.usedRing, s.usedIdx, s.devUsed, id);
    WindowWrite(s.usedRing, UsedFrom(s), s.devUsed, id);
    WindowSplit(ring', UsedFrom(s), s.devUsed, |Used(s)|);
    WindowSplit(s.usedRing, UsedFrom(s), s.devUsed, |Used(s)|);
    AheadDist(s.usedIdx, UsedFrom(s), 0);
  }

  lemma PublishMoves(s: Rx)
    requires RxOk(s) && Enabled(s, Publish)
    ensures Moves(s, Publish, Next(s, Publish))
  {
    hide Window, Distinct;
    PlaceCounts(s);
    WindowPush(s.availRing, s.devNext, s.availIdx);
    WindowPop(s.usedRing, s.lastUsed, s.usedIdx);
  }

  lemma TakenIsNew(s: Rx)
    requires Shaped(s) && Partitioned(s) && Avail(s) != []
    ensures Avail(s)[0] !in s.inDevice
  {
    var x := Avail(s)[0];
    assert x in multiset(Avail(s));
    assert (multiset(Avail(s)) + multiset(s.inDevice) + multiset(Used(s)))[x] == multiset(Below(Size(s)))[x];
  }

  lemma MovesKeepPartition(s: Rx, a: Action, s': Rx)
    requires Shaped(s) && Shaped(s') && Size(s') == Size(s) && Partitioned(s) && DeviceOk(s) && Moves(s, a, s')
    ensures Partitioned(s')
  {
    match a
    case Publish => OfferedAgain(Avail(s), s.inDevice, Used(s));
    case Take => Taken(Avail(s), s.inDevice, Used(s));
    case PutIdx(n) => Returned(Avail(s), s.inDevice, Used(s), Pending(s)[..n]);
    case _ =>
  }

  /** The buffers in the three places together. */
  ghost function Together(avail: seq<nat>, device: set<nat>, used: seq<nat>): multiset<nat> {
    multiset(avail) + multiset(device) + multiset(used)
  }

  lemma OfferedAgain(avail: seq<nat>, device: set<nat>, used: seq<nat>)
    requires used != []
    ensures Together(avail + [used[0]], device, used[1..]) == Together(avail, device, used)
  {
    HeadMoves(used);
  }

  lemma Taken(avail: seq<nat>, device: set<nat>, used: seq<nat>)
    requires avail != [] && avail[0] !in device
    ensures Together(avail[1..], device + {avail[0]}, used) == Together(avail, device, used)
  {
    HeadMoves(avail);
    assert multiset(device + {avail[0]}) == multiset(device) + multiset{avail[0]};
  }

  lemma Returned(avail: seq<nat>, device: set<nat>, used: seq<nat>, p: seq<nat>)
    requires Distinct(p) && Elements(p) <= device
    ensures Together(avail, device - Elements(p), used + p) == Together(avail, device, used)
  {
    DistinctCount(p);
    assert device == (device - Elements(p)) + Elements(p);
    assert multiset(device) == multiset(device - Elements(p)) + multiset(Elements(p));
  }

  lemma HeadMoves(w: seq<nat>)
    requires w != []
    ensures multiset(w) == multiset{w[0]} + multiset(w[1..])
  {
    assert w == [w[0]] + w[1..];
  }

  /** Every driver statement and every device step keeps the invariant. */
  lemma StepKeeps(s: Rx, a: Action)
    requires RxOk(s) && Enabled(s, a)
    ensures RxOk(Next(s, a))
  {
    var s' := Next(s, a);
    StepMoves(s, a);
    MovesKeepPartition(s, a, s');
    DriverStays(s, a);
    DeviceStays(s, a);
  }

  lemma DriverStays(s: Rx, a: Action)
    requires RxOk(s) && Enabled(s, a) && Moves(s, a, Next(s, a))
    ensures DriverOk(Next(s, a))
  {
    match a
    case Load => WindowPop(s.usedRing, s.lastUsed, s.usedIdx);
    case Bump => DistOfInc(s.lastUsed, s.rxAvailIdx);
    case Finish => DistOfInc(s.lastUsed, s.rxAvailIdx);
    case _ =>
  }

  lemma DeviceStays(s: Rx, a: Action)
    requires RxOk(s) && Enabled(s, a) && Moves(s, a, Next(s, a))
    ensures DeviceOk(Next(s, a))
  {
    hide Window, Partitioned, DriverOk, Together;
    match a
    case PutElem(id) => ElemUnseen(s, id);
    case PutIdx(n) => WindowSplit(s.usedRing, s.usedIdx, s.devUsed, n);
    case _ => assert Pending(Next(s, a)) == Pending(s);
  }

  // ---------- the start ----------

  /** After virtio_net_init: all buffers offered in order, nothing used. */
  predicate IsInit(s: Rx) {
    && Shaped(s)
    && s.availIdx == Size(s) && s.rxAvailIdx == Size(s) && s.usedIdx == 0 && s.lastUsed == 0 && s.devNext == 0
    && s.devUsed == 0 && s.inDevice == {} && s.pc == Idle
    && (forall i :: 0 <= i < Size(s) ==> s.availRing[i] == i)
  }

  lemma {:induction false} IotaIsBelow(w: seq<nat>)
    requires forall i :: 0 <= i < |w| ==> w[i] == i
    ensures multiset(w) == multiset(Below(|w|))
  {
    hide *;
    if w != [] {
      var n := |w| - 1;
      IotaIsBelow(w[..n]);
      assert w == w[..n] + [n];
    }
  }

  lemma InitOk(s: Rx)
    requires IsInit(s)
    ensures RxOk(s)
  {
    var w := Avail(s);
    assert |w| == Size(s);
    forall i | 0 <= i < |w|
      ensures w[i] == i
    {
      assert SlotOf(0, i, Size(s)) == i;
    }
    IotaIsBelow(w);
    assert Used(s) == [];
  }

  // ---------- runs ----------

  /** Any interleaving of driver statements and device steps. */
  ghost predicate IsRun(ss: seq<Rx>, acts: seq<Action>) {
    && |ss| == |acts| + 1 && IsInit(ss[0])
    && (forall i :: 0 <= i < |acts| ==> Enabled(ss[i], acts[i]) && ss[i + 1] == Next(ss[i], acts[i]))
  }

  lemma {:induction false} RunOk(ss: seq<Rx>, acts: seq<Action>, n: nat)
    requires IsRun(ss, acts) && n <= |acts|
    ensures RxOk(ss[n])
  {
    if n == 0 {
      InitOk(ss[0]);
    } else {
      RunOk(ss, acts, n - 1);
      StepKeeps(ss[n - 1], acts[n - 1]);
    }
  }

  /** Between rounds of the poll loop the counters differ by the queue size, modulo 2^16. */
  lemma BetweenRounds(ss: seq<Rx>, acts: seq<Action>, n: nat)
    requires IsRun(ss, acts) && n <= |acts| && ss[n].pc == Idle
    ensures (ss[n].rxAvailIdx + WRAP - ss[n].lastUsed) % WRAP == Size(ss[n])
    ensures ss[n].availIdx == ss[n].rxAvailIdx
  {
    hide IsRun, Partitioned, DeviceOk, Used, Avail, Pending, Next;
    RunOk(ss, acts, n);
  }

  /** Ids the device took, the driver offered again, and the device returned, in order. */
  datatype Log = Log(taken: seq<nat>, offered: seq<nat>, returned: seq<nat>)

  function Logged(log: Log, s: Rx, a: Action): Log
    requires Enabled(s, a)
  {
    match a
    case Take => log.(taken := log.taken + [s.availRing[s.devNext % Size(s)]])
    case Publish => log.(offered := log.offered + [s.id])
    case PutIdx(n) => log.(returned := log.returned + Pending(s)[..n])
    case _ => log
  }

  function LogOf(ss: seq<Rx>, acts: seq<Action>, n: nat): Log
    requires n <= |acts| && |ss| == |acts| + 1 && forall i :: 0 <= i < n ==> Enabled(ss[i], acts[i])
  {
    if n == 0 then Log([], [], []) else Logged(LogOf(ss, acts, n - 1), ss[n - 1], acts[n - 1])
  }

  /** The log accounts for everything on the rings. */
  ghost predicate Balanced(start: seq<nat>, log: Log, s: Rx)
    requires Shaped(s)
  {
    log.returned == log.offered + Used(s) && start + log.offered == log.taken + Avail(s)
  }

  lemma TakesHead(s: Rx)
    requires RxOk(s) && Enabled(s, Take)
    ensures Avail(s) != [] && s.availRing[s.devNext % Size(s)] == Avail(s)[0]
  {
    WindowPop(s.availRing, s.devNext, s.availIdx);
  }

  lemma HeadPasses(all: seq<nat>, left: seq<nat>, right: seq<nat>)
    requires all == left + right && right != []
    ensures all == left + [right[0]] + right[1..]
  {
  }

  lemma TailGrows(all: seq<nat>, left: seq<nat>, right: seq<nat>, p: seq<nat>)
    requires all == left + right
    ensures all + p == left + (right + p)
  {
  }

  lemma StaysBalanced(start: seq<nat>, log: Log, s: Rx, a: Action)
    requires RxOk(s) && Enabled(s, a) && Balanced(start, log, s)
    ensures Balanced(start, Logged(log, s, a), Next(s, a))
  {
    hide Avail, Used, Pending, Window, Next, Partitioned, DeviceOk, Elements;
    StepMoves(s, a);
    match a
    case Take =>
      TakesHead(s);
      HeadPasses(start + log.offered, log.taken, Avail(s));
    case Publish =>
      HeadPasses(log.returned, log.offered, Used(s));
      TailGrows(start + log.offered, log.taken, Avail(s), [s.id]);
      assert start + log.offered + [s.id] == start + (log.offered + [s.id]);
    case PutIdx(n) =>
      TailGrows(log.returned, log.offered, Used(s), Pending(s)[..n]);
    case _ =>
  }

  /**
    Nothing is lost, duplicated or overwritten on either ring, across any number of wrap-arounds:
    what the device returned is what the driver offered again plus what it has still to poll, and
    the initial buffers plus those offered again are what the device took plus what it may still take.
   */
  lemma {:induction false} NothingLost(ss: seq<Rx>, acts: seq<Action>, n: nat)
    requires IsRun(ss, acts) && n <= |acts|
    ensures Shaped(ss[n]) && Shaped(ss[0]) && Balanced(Avail(ss[0]), LogOf(ss, acts, n), ss[n])
  {
    if n == 0 {
      assert Used(ss[0]) == [];
    } else {
      NothingLost(ss, acts, n - 1);
      RunOk(ss, acts, n - 1);
      StaysBalanced(Avail(ss[0]), LogOf(ss, acts, n - 1), ss[n - 1], acts[n - 1]);
    }
  }
}
