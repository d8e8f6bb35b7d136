/** The receive side of the network driver over shared ring arrays, beside a device that acts between statements. */
module VirtioNet {
  import opened VirtioRings
  import opened VirtioRx

  /** What the device does next; `Pause` hands the turn back to the driver. */
  datatype DevOp = DevTake | DevPut(id: nat) | DevPublish(n: nat) | Pause

  function Budget(script: seq<DevOp>): nat {
    if script == [] then 0 else (if script[0].DevPublish? then 1 + script[0].n else 1) + Budget(script[1..])
  }

  lemma BalancedAtStart(s: Rx)
    requires IsInit(s)
    ensures Balanced(Avail(s), Log([], [], []), s)
  {
    assert Used(s) == [];
  }

  class NetRx {
    const availRing: array<nat>
    const usedRing: array<nat>
    var availIdx: nat
    var usedIdx: nat
    var rxAvailIdx: nat
    var lastUsed: nat
    var devNext: nat
    var devUsed: nat
    var inDevice: set<nat>
    var script: seq<DevOp>
    ghost var pc: Pc
    ghost var cur: nat
    ghost var start: seq<nat>
    ghost var log: Log

    ghost function State(): Rx
      reads this, availRing, usedRing
    {
      Rx(availRing[..], availIdx, usedRing[..], usedIdx, rxAvailIdx, lastUsed, pc, cur, devNext, devUsed, inDevice)
    }

    ghost predicate Valid()
      reads this, availRing, usedRing
    {
      availRing != usedRing && RxOk(State()) && Balanced(start, log, State())
    }

    /** The part of virtio_net_init that offers every buffer. */
    constructor (qmax: nat, used: array<nat>, script: seq<DevOp>)
      requires IsQueueSize(qmax) && used.Length == qmax
      ensures IsInit(State()) && Valid() && pc == Idle && usedRing == used && this.script == script
    {
      var ring := new nat[qmax];
      for i := 0 to qmax
        invariant forall k :: 0 <= k < i ==> ring[k] == k
      {
        ring[i] := i;
      }
      availRing, usedRing := ring, used;
      rxAvailIdx, availIdx := qmax, qmax;
      usedIdx, lastUsed, devNext, devUsed, inDevice := 0, 0, 0, 0, {};
      this.script := script;
      pc, cur := Idle, 0;
      log := Log([], [], []);
      new;
      hide RxOk, Balanced;
      start := Avail(State());
      InitOk(State());
      BalancedAtStart(State());
    }

    /** The statement just executed was step `a` from `before`. */
    ghost method Record(before: Rx, a: Action)
      requires availRing != usedRing && RxOk(before) && Balanced(start, log, before)
      requires Enabled(before, a) && State() == Next(before, a)
      modifies this`log
      ensures Valid() && log == Logged(old(log), before, a)
    {
      StepKeeps(before, a);
      StaysBalanced(start, log, before, a);
      log := Logged(log, before, a);
    }

    /** The used entries that the device has written and not yet published. */
    function Unpublished(): seq<nat>
      reads this, usedRing
      requires usedRing.Length > 0 && usedIdx < WRAP && devUsed < WRAP
    {
      Window(usedRing[..], usedIdx, devUsed)
    }

    /** Measure of the work left: device steps to come, entries they may publish, and returned buffers to poll. */
    ghost function Work(): nat
      reads this, availRing, usedRing
      requires Shaped(State())
    {
      Budget(script) + |Used(State())|
    }

    /** The device acts until it pauses; steps it cannot take are skipped. */
    method DeviceTurn()
      requires Valid()
      modifies this`usedIdx, this`devNext, this`devUsed, this`inDevice, this`script, this`log, usedRing
      ensures Valid() && Work() <= old(Work())
    {
      while script != [] && script[0] != Pause
        invariant Valid() && Work() <= old(Work())
        decreases |script|
      {
        DeviceStep();
      }
      if script != [] {
        script := script[1..];
      }
    }

    method DeviceStep()
      requires Valid() && script != []
      modifies this`usedIdx, this`devNext, this`devUsed, this`inDevice, this`script, this`log, usedRing
      ensures Valid() && script == old(script)[1..] && Work() <= old(Work())
    {
      var op := script[0];
      script := script[1..];
      match op
      case DevTake =>
        if devNext != availIdx {
          TakeBuffer();
        }
      case DevPut(id) =>
        if id in inDevice && id !in Unpublished() {
          PutBuffer(id);
        }
      case DevPublish(n) =>
        if 1 <= n <= |Unpublished()| {
          PublishUsed(n);
        }
      case Pause =>
    }

    /** The device takes the next available buffer. */
    method TakeBuffer()
      requires Valid() && devNext != availIdx
      modifies this`devNext, this`inDevice, this`log
      ensures Valid() && |Used(State())| == |old(Used(State()))|
    {
      ghost var before := State();
      inDevice := inDevice + {availRing[devNext % availRing.Length]};
      devNext := Inc(devNext);
      StepMoves(before, Take);
      Record(before, Take);
    }

    /** The device writes a used entry for a buffer it has, behind those it has written already. */
    method PutBuffer(id: nat)
      requires Valid() && id in inDevice && id !in Unpublished()
      modifies this`devUsed, this`log, usedRing
      ensures Valid() && |Used(State())| == |old(Used(State()))|
    {
      ghost var before := State();
      usedRing[devUsed % usedRing.Length] := id;
      assert usedRing[..] == before.usedRing[before.devUsed % usedRing.Length := id];
      devUsed := Inc(devUsed);
      StepMoves(before, PutElem(id));
      Record(before, PutElem(id));
    }

    /** The device advances the used index over `n` of the entries it wrote. */
    method PublishUsed(n: nat)
      requires Valid() && 1 <= n <= |Unpublished()|
      modifies this`usedIdx, this`inDevice, this`log
      ensures Valid() && |Used(State())| == |old(Used(State()))| + n
    {
      ghost var before := State();
      inDevice := inDevice - Elements(Unpublished()[..n]);
      usedIdx := Ahead(usedIdx, n);
      StepMoves(before, PutIdx(n));
      Record(before, PutIdx(n));
    }

    /**
      The receive loop of virtio_net_poll. The device may act before every statement. When the
      loop ends every buffer returned so far has been offered again, in the order of return.
     */
    method Poll()
      requires Valid() && pc == Idle
      modifies this`availIdx, this`usedIdx, this`rxAvailIdx, this`lastUsed, this`devNext, this`devUsed, this`inDevice,
               this`script, this`pc, this`cur, this`log, availRing, usedRing
      ensures Valid() && pc == Idle && log.offered == log.returned
    {
      DeviceTurn();
      while lastUsed != usedIdx
        invariant Valid() && pc == Idle
        decreases Work()
      {
        Round();
        DeviceTurn();
      }
      NothingUsed(State());
    }

    /** One round: load the id, put it back on the available ring, publish, count it as polled. */
    method Round()
      requires Valid() && pc == Idle && lastUsed != usedIdx
      modifies this`availIdx, this`usedIdx, this`rxAvailIdx, this`lastUsed, this`devNext, this`devUsed, this`inDevice,
               this`script, this`pc, this`cur, this`log, availRing, usedRing
      ensures Valid() && pc == Idle && Work() < old(Work())
    {
      var id := LoadId();
      DeviceTurn();
      WriteSlot(id);
      DeviceTurn();
      BumpIdx();
      DeviceTurn();
      PublishIdx();
      DeviceTurn();
      CountPolled();
    }

    method LoadId() returns (id: nat)
      requires Valid() && pc == Idle && lastUsed != usedIdx
      modifies this`pc, this`cur, this`log
      ensures Valid() && pc == Loaded && cur == id && Work() == old(Work())
    {
      ghost var before := State();
      var ringIdx := lastUsed % availRing.Length;
      id := usedRing[ringIdx];
      pc, cur := Loaded, id;
      StepMoves(before, Load);
      Record(before, Load);
    }

    method WriteSlot(id: nat)
      requires Valid() && pc == Loaded && cur == id
      modifies this`pc, this`log, availRing
      ensures Valid() && pc == Written && Work() == old(Work())
    {
      ghost var before := State();
      availRing[rxAvailIdx % availRing.Length] := id;
      pc := Written;
      assert availRing[..] == before.availRing[before.rxAvailIdx % availRing.Length := id];
      StepMoves(before, Write);
      Record(before, Write);
    }

    method BumpIdx()
      requires Valid() && pc == Written
      modifies this`pc, this`log, this`rxAvailIdx
      ensures Valid() && pc == Bumped && Work() == old(Work())
    {
      hide Partitioned, DeviceOk, Window, Avail, Pending;
      ghost var before := State();
      rxAvailIdx := Inc(rxAvailIdx);
      pc := Bumped;
      StepMoves(before, Bump);
      Record(before, Bump);
    }

    method PublishIdx()
      requires Valid() && pc == Bumped
      modifies this`pc, this`log, this`availIdx
      ensures Valid() && pc == Published && Work() == old(Work()) - 1
    {
      hide Partitioned, DeviceOk, Window, Avail, Pending;
      ghost var before := State();
      availIdx := rxAvailIdx;
      pc := Published;
      StepMoves(before, Publish);
      Record(before, Publish);
    }

    method CountPolled()
      requires Valid() && pc == Published
      modifies this`pc, this`log, this`lastUsed
      ensures Valid() && pc == Idle && Work() == old(Work())
    {
      hide Partitioned, DriverOk, DeviceOk, Window, Balanced;
      ghost var before := State();
      lastUsed := Inc(lastUsed);
      pc := Idle;
      StepMoves(before, Finish);
      Record(before, Finish);
    }
  }
}
