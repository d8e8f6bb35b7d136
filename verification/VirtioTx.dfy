/** The transmit side of the network driver, and where the queue structures lie in memory. */
module VirtioTx {
  import opened Bytes
  import opened VirtioRings
  import Pmm

  const BUFFERS := 1024
  const BUFFER_SIZE := 2048
  const HEADER_SIZE := 10
  const FLAG_NEXT := 1

  /** A descriptor; `buffer` is the index of the transmit buffer whose address it carries. */
  datatype Desc = Desc(buffer: nat, len: nat, flags: nat, next: nat)

  /** Where transmit buffer `i` starts; the buffers follow each other in memory. */
  function BufferAt(i: nat): nat { i * BUFFER_SIZE }

  // ---------- send ----------

  /** The k-th send uses descriptors 2k and 2k + 1 and available slot k, all modulo the queue size. */
  function HeadOf(k: nat, q: nat): nat requires q > 0 { 2 * k % q }
  function TailOf(k: nat, q: nat): nat requires q > 0 { (2 * k + 1) % q }

  /** Among any q/2 consecutive sends no two share a descriptor, whatever the 16-bit counters do. */
  lemma DescriptorsDisjoint(k: nat, n: nat, q: nat)
    requires IsQueueSize(q) && q >= 2 && k < n < k + q / 2
    ensures {HeadOf(k, q), TailOf(k, q)} !! {HeadOf(n, q), TailOf(n, q)}
    ensures k % q != n % q
  {
    assert 2 * (q / 2) == q;
    SlotsApart(2 * k, 2 * n, q);
    SlotsApart(2 * k, 2 * n + 1, q);
    SlotsApart(2 * k + 1, 2 * n, q);
    SlotsApart(2 * k + 1, 2 * n + 1, q);
    SlotsApart(k, n, q);
  }

  /** The bound is sharp: the send q/2 places later uses the same two descriptors. */
  lemma DescriptorsReused(k: nat, q: nat)
    requires IsQueueSize(q) && q >= 2
    ensures HeadOf(k + q / 2, q) == HeadOf(k, q) && TailOf(k + q / 2, q) == TailOf(k, q)
  {
    assert 2 * (k + q / 2) == q * 1 + 2 * k && 2 * (k + q / 2) + 1 == q * 1 + (2 * k + 1);
    ModOfSum(2 * k, 1, q);
    ModOfSum(2 * k + 1, 1, q);
  }

  lemma EvenSlot(k: nat, h: nat)
    requires h > 0
    ensures 2 * k % (2 * h) == 2 * (k % h)
  {
    var a, b := k / h, k % h;
    assert k == a * h + b;
    DoubleProduct(a, h);
    DivModIs(2 * k, 2 * h, a, 2 * b);
  }

  lemma DoubleProduct(a: nat, h: nat)
    ensures a * (2 * h) == 2 * (a * h)
  {
  }

  lemma PairApart(k: nat, q: nat)
    requires IsQueueSize(q) && q >= 2
    ensures HeadOf(k, q) != TailOf(k, q) && HeadOf(k, q) % 2 == 0 && TailOf(k, q) == HeadOf(k, q) + 1
  {
    var h := q / 2;
    EvenSlot(k, h);
    assert 2 * h == q;
    NextSlot(2 * k, k % h, q);
  }

  lemma NextSlot(x: nat, m: nat, q: nat)
    requires q > 0 && q % 2 == 0 && x % q == 2 * m
    ensures x % q % 2 == 0 && (x + 1) % q == x % q + 1
  {
    assert x == x / q * q + x % q && 2 * m + 1 != q;
    DivModIs(x + 1, q, x / q, x % q + 1);
  }

  /** What the driver's 16-bit counters compute are these positions. */
  lemma CountersAgree(n: nat, q: nat)
    requires IsQueueSize(q) && q >= 2
    ensures (2 * n % WRAP) % q == HeadOf(n, q) && (2 * n % WRAP + 1) % q == TailOf(n, q)
    ensures (n % WRAP) % q == n % q
    ensures (2 * n % WRAP + 2) % WRAP == 2 * (n + 1) % WRAP && Inc(n % WRAP) == (n + 1) % WRAP
  {
    WrapKeepsSlot(2 * n, q);
    WrapKeepsSlot(2 * n + 1, q);
    WrapKeepsSlot(n, q);
    EvenWrap(n);
    WrapSum(2 * n, 2);
    WrapSum(n, 1);
  }

  lemma WrapSum(a: nat, b: nat)
    ensures (a % WRAP + b) % WRAP == (a + b) % WRAP
  {
    var c := a % WRAP + b;
    DivModIs(a + b, WRAP, a / WRAP + c / WRAP, c % WRAP);
  }

  lemma EvenWrap(n: nat)
    ensures 2 * n % WRAP + 1 == (2 * n + 1) % WRAP
  {
    DivModIs(2 * n + 1, WRAP, 2 * n / WRAP, 2 * n % WRAP + 1);
  }

  /** Two ranges of memory share a byte. */
  predicate Meet(a: nat, n: nat, b: nat, m: nat) {
    a < b + m && b < a + n && n > 0 && m > 0
  }

  /** Ranges inside different buffers share none. */
  lemma BuffersApart(a: nat, n: nat, b: nat, m: nat)
    requires a != b && n <= BUFFER_SIZE && m <= BUFFER_SIZE
    ensures !Meet(BufferAt(a), n, BufferAt(b), m)
  {
    if a < b {
      MulStep(a, b, BUFFER_SIZE);
    } else {
      MulStep(b, a, BUFFER_SIZE);
    }
  }

  /** The bytes at `at` are `s`. */
  predicate Shows(mem: seq<byte>, at: nat, s: seq<byte>) {
    at + |s| <= |mem| && mem[at..at + |s|] == s
  }

  function Stored(mem: seq<byte>, at: nat, s: seq<byte>): (r: seq<byte>)
    requires at + |s| <= |mem|
    ensures |r| == |mem|
  {
    mem[..at] + s + mem[at + |s|..]
  }

  lemma StoredIs(mem: seq<byte>, at: nat, s: seq<byte>, mem': seq<byte>)
    requires at + |s| <= |mem| == |mem'|
    requires forall x: nat :: x < |mem| ==> mem'[x] == if at <= x < at + |s| then s[x - at] else mem[x]
    ensures mem' == Stored(mem, at, s)
  {
  }

  lemma StoredShows(mem: seq<byte>, at: nat, s: seq<byte>)
    requires at + |s| <= |mem|
    ensures Shows(Stored(mem, at, s), at, s)
  {
  }

  lemma StoredKeeps(mem: seq<byte>, at: nat, s: seq<byte>, b: nat, r: seq<byte>)
    requires at + |s| <= |mem| && Shows(mem, b, r) && !Meet(b, |r|, at, |s|)
    ensures Shows(Stored(mem, at, s), b, r)
  {
    var mem' := Stored(mem, at, s);
    forall i | 0 <= i < |r|
      ensures mem'[b..b + |r|][i] == r[i]
    {
      assert mem[b..b + |r|][i] == mem[b + i];
      assert mem'[b + i] == mem[b + i];
    }
  }

  function Header(): (s: seq<byte>)
    ensures |s| == HEADER_SIZE
  {
    seq(HEADER_SIZE, i => 0)
  }

  /** Memory after a send: the header in one buffer, the packet from the start of the next. */
  function AfterSend(mem: seq<byte>, head: nat, next: nat, packet: seq<byte>): (r: seq<byte>)
    requires BufferAt(head) + HEADER_SIZE <= |mem| && BufferAt(next) + |packet| <= |mem|
    ensures |r| == |mem|
  {
    Stored(Stored(mem, BufferAt(head), Header()), BufferAt(next), packet)
  }

  lemma SendShows(mem: seq<byte>, head: nat, next: nat, packet: seq<byte>)
    requires BufferAt(head) + HEADER_SIZE <= |mem| && BufferAt(next) + |packet| <= |mem| && head < next
    ensures Shows(AfterSend(mem, head, next, packet), BufferAt(head), Header())
    ensures Shows(AfterSend(mem, head, next, packet), BufferAt(next), packet)
  {
    var mid := Stored(mem, BufferAt(head), Header());
    StoredShows(mem, BufferAt(head), Header());
    StoredKeeps(mid, BufferAt(next), packet, BufferAt(head), Header());
    StoredShows(mid, BufferAt(next), packet);
  }

  /** What a send puts at an address: bytes of its packet, or of its header where the packet does not reach. */
  function PutAt(head: nat, next: nat, packet: seq<byte>, x: nat): Option<byte> {
    if BufferAt(next) <= x < BufferAt(next) + |packet| then Some(packet[x - BufferAt(next)])
    else if BufferAt(head) <= x < BufferAt(head) + HEADER_SIZE then Some(0)
    else None
  }

  /** The send puts nothing else at the bytes `r` from `at` on. */
  ghost predicate Agrees(head: nat, next: nat, packet: seq<byte>, at: nat, r: seq<byte>) {
    forall i :: 0 <= i < |r| ==> PutAt(head, next, packet, at + i) in {None, Some(r[i])}
  }

  lemma ByteAfterSend(mem: seq<byte>, head: nat, next: nat, packet: seq<byte>, x: nat)
    requires BufferAt(head) + HEADER_SIZE <= |mem| && BufferAt(next) + |packet| <= |mem| && x < |mem|
    ensures AfterSend(mem, head, next, packet)[x]
      == (match PutAt(head, next, packet, x) case Some(b) => b case None => mem[x])
  {
  }

  /** Bytes shown before a send are shown after it exactly if the send agrees with them. */
  lemma ShownAfterSend(mem: seq<byte>, head: nat, next: nat, packet: seq<byte>, at: nat, r: seq<byte>)
    requires BufferAt(head) + HEADER_SIZE <= |mem| && BufferAt(next) + |packet| <= |mem| && Shows(mem, at, r)
    ensures Shows(AfterSend(mem, head, next, packet), at, r) <==> Agrees(head, next, packet, at, r)
  {
    hide AfterSend, PutAt;
    var mem' := AfterSend(mem, head, next, packet);
    forall i | 0 <= i < |r|
      ensures mem'[at..at + |r|][i] == r[i] <==> PutAt(head, next, packet, at + i) in {None, Some(r[i])}
    {
      assert mem[at..at + |r|][i] == mem[at + i];
      ByteAfterSend(mem, head, next, packet, at + i);
    }
  }

  /** Descriptor table, available ring and transmit buffers, and the packets sent so far. */
  datatype Tx = Tx(desc: seq<Desc>, avail: seq<nat>, memory: seq<byte>, sent: seq<seq<byte>>)

  predicate TxShaped(s: Tx) {
    IsQueueSize(|s.desc|) && |s.desc| >= 2 && |s.avail| == |s.desc| && |s.memory| == BUFFERS * BUFFER_SIZE
  }

  /** The device, following available entry `k`, finds a zero header and then the k-th packet. */
  ghost predicate Intact(s: Tx, k: nat)
    requires TxShaped(s) && k < |s.sent|
  {
    var q := |s.desc|;
    var h, t := HeadOf(k, q), TailOf(k, q);
    && s.avail[k % q] == h && s.desc[h] == Desc(h, HEADER_SIZE, FLAG_NEXT, t) && s.desc[t] == Desc(t, |s.sent[k]|, 0, 0)
    && Shows(s.memory, BufferAt(h), Header()) && Shows(s.memory, BufferAt(t), s.sent[k])
  }

  /** The fields fit their places. */
  predicate Encodable(d: Desc, buffers: nat) {
    && d.buffer < BUFFERS && buffers < 0xFFFF_FFFF_0000_0000
    && d.len < 0x1_0000_0000 && d.flags < 0x1_0000 && d.next < 0x1_0000
  }

  /**
   * The 16 bytes of a descriptor: address, length, flags and next, each with its low byte first (VIRTIO 1.1,
   * section 2.6.5). `buffers` is where the transmit buffers lie.
   */
  function InBytes(d: Desc, buffers: nat): (b: seq<byte>)
    requires Encodable(d, buffers)
    ensures |b| == 16
  {
    var a := buffers + BufferAt(d.buffer);
    Le32(a % 0x1_0000_0000) + Le32(a / 0x1_0000_0000) + Le32(d.len) + Le16(d.flags) + Le16(d.next)
  }

  lemma FieldsOf(d: Desc, buffers: nat)
    requires Encodable(d, buffers)
    ensures var b := InBytes(d, buffers);
      && U32(b, 0) + 0x1_0000_0000 * U32(b, 4) == buffers + 2048 * d.buffer
      && U32(b, 8) == d.len && U16(b, 12) == d.flags && U16(b, 14) == d.next
  {
    var a := buffers + BufferAt(d.buffer);
    assert a == a / 0x1_0000_0000 * 0x1_0000_0000 + a % 0x1_0000_0000;
  }

  /** What the device reads of descriptor `i`. */
  ghost predicate Reads(s: Tx, buffers: nat, i: nat, address: nat, len: nat, flags: nat) {
    && i < |s.desc| && Encodable(s.desc[i], buffers)
    && var b := InBytes(s.desc[i], buffers);
       U32(b, 0) + 0x1_0000_0000 * U32(b, 4) == address && U32(b, 8) == len && U16(b, 12) == flags
  }

  /**
   * A complete packet as a device finds it: behind the available entry a descriptor of ten zero bytes with the
   * next flag alone, and behind that one, without flags, the packet.
   */
  lemma DeviceReads(s: Tx, k: nat, buffers: nat)
    requires TxShaped(s) && k < |s.sent| && Intact(s, k) && |s.desc| <= 1024 && buffers < 0xFFFF_FFFF_0000_0000
    ensures var a := s.avail[k % |s.desc|]; var packet := s.sent[k];
      && Reads(s, buffers, a, buffers + 2048 * a, 10, 1)
      && var b := U16(InBytes(s.desc[a], buffers), 14);
         && Reads(s, buffers, b, buffers + 2048 * b, |packet|, 0)
         && s.memory[2048 * a..2048 * a + 10] == [0, 0, 0, 0, 0, 0, 0, 0, 0, 0]
         && s.memory[2048 * b..2048 * b + |packet|] == packet
  {
    hide InBytes, U16, U32;
    var a := s.avail[k % |s.desc|];
    FieldsOf(s.desc[a], buffers);
    FieldsOf(s.desc[s.desc[a].next], buffers);
    assert Header() == [0, 0, 0, 0, 0, 0, 0, 0, 0, 0];
  }

  /** The last q/2 packets fit their buffers and are complete. */
  ghost predicate AllIntact(s: Tx) {
    TxShaped(s) && forall k: nat :: k < |s.sent| < k + |s.desc| / 2 + 1 ==> |s.sent[k]| <= BUFFER_SIZE && Intact(s, k)
  }

  /** The packet ends inside the transmit buffers. */
  predicate InMemory(s: Tx, packet: seq<byte>) {
    TxShaped(s) && BufferAt(TailOf(|s.sent|, |s.desc|)) + |packet| <= |s.memory|
  }

  lemma HeadInMemory(s: Tx)
    requires TxShaped(s)
    ensures BufferAt(HeadOf(|s.sent|, |s.desc|)) + HEADER_SIZE <= |s.memory|
  {
    MulStep(HeadOf(|s.sent|, |s.desc|), BUFFERS, BUFFER_SIZE);
  }

  function Sent(s: Tx, packet: seq<byte>): (r: Tx)
    requires InMemory(s, packet)
    ensures TxShaped(r)
  {
    HeadInMemory(s);
    var q, n := |s.desc|, |s.sent|;
    var h, t := HeadOf(n, q), TailOf(n, q);
    Tx(s.desc[h := Desc(h, HEADER_SIZE, FLAG_NEXT, t)][t := Desc(t, |packet|, 0, 0)], s.avail[n % q := h],
       AfterSend(s.memory, h, t, packet), s.sent + [packet])
  }

  /** The next send puts nothing else where the header and the packet of send `k` lie. */
  ghost predicate Compatible(s: Tx, packet: seq<byte>, k: nat)
    requires TxShaped(s) && k < |s.sent|
  {
    var q, n := |s.desc|, |s.sent|;
    && Agrees(HeadOf(n, q), TailOf(n, q), packet, BufferAt(HeadOf(k, q)), Header())
    && Agrees(HeadOf(n, q), TailOf(n, q), packet, BufferAt(TailOf(k, q)), s.sent[k])
  }

  /** The packet just sent is complete, however long it is. */
  lemma NewIntact(s: Tx, packet: seq<byte>)
    requires InMemory(s, packet)
    ensures Intact(Sent(s, packet), |s.sent|)
  {
    var q, n := |s.desc|, |s.sent|;
    HeadInMemory(s);
    PairApart(n, q);
    SendShows(s.memory, HeadOf(n, q), TailOf(n, q), packet);
  }

  /** A packet of the last q/2 stays complete exactly if the new send agrees with it wherever they overlap. */
  lemma OldIntactExactlyWhen(s: Tx, packet: seq<byte>, k: nat)
    requires InMemory(s, packet) && k < |s.sent| < k + |s.desc| / 2 && Intact(s, k)
    ensures Intact(Sent(s, packet), k) <==> Compatible(s, packet, k)
  {
    hide AfterSend, Agrees, Shows;
    var q, n := |s.desc|, |s.sent|;
    HeadInMemory(s);
    PairApart(n, q);
    DescriptorsDisjoint(k, n, q);
    ShownAfterSend(s.memory, HeadOf(n, q), TailOf(n, q), packet, BufferAt(HeadOf(k, q)), Header());
    ShownAfterSend(s.memory, HeadOf(n, q), TailOf(n, q), packet, BufferAt(TailOf(k, q)), s.sent[k]);
  }

  /** A packet longer than 2048 bytes destroys the header in the next buffer, unless it happens to continue with 0. */
  lemma LongPacketBreaks(s: Tx, packet: seq<byte>)
    requires InMemory(s, packet) && |packet| > BUFFER_SIZE && packet[BUFFER_SIZE] != 0
    requires |s.desc| / 2 >= 2 && |s.sent| + 1 >= |s.desc| / 2 && TailOf(|s.sent|, |s.desc|) != |s.desc| - 1
    requires Intact(s, |s.sent| + 1 - |s.desc| / 2)
    ensures !Intact(Sent(s, packet), |s.sent| + 1 - |s.desc| / 2)
  {
    hide Sent, Intact, HeadOf, TailOf, PutAt;
    var q, n := |s.desc|, |s.sent|;
    var k := n + 1 - q / 2;
    OldIntactExactlyWhen(s, packet, k);
    DescriptorsReused(k, q);
    NextHead(n, q);
    PutPastEnd(HeadOf(n, q), TailOf(n, q), packet);
    assert Header()[0] == 0;
    assert BufferAt(HeadOf(k, q)) + 0 == BufferAt(TailOf(n, q) + 1);
  }

  lemma PutPastEnd(head: nat, next: nat, packet: seq<byte>)
    requires |packet| > BUFFER_SIZE
    ensures PutAt(head, next, packet, BufferAt(next + 1)) == Some(packet[BUFFER_SIZE])
  {
    assert BufferAt(next + 1) == BufferAt(next) + BUFFER_SIZE;
  }

  lemma NextHead(n: nat, q: nat)
    requires IsQueueSize(q) && q >= 2 && TailOf(n, q) != q - 1
    ensures HeadOf(n + 1, q) == TailOf(n, q) + 1
  {
    var x := 2 * n + 1;
    assert x == x / q * q + x % q;
    DivModIs(x + 1, q, x / q, x % q + 1);
  }

  /** A packet of at most 2048 bytes reaches none of the others. */
  lemma FittingAgrees(s: Tx, packet: seq<byte>, k: nat)
    requires TxShaped(s) && k < |s.sent| < k + |s.desc| / 2 && |s.sent[k]| <= BUFFER_SIZE && |packet| <= BUFFER_SIZE
    ensures Compatible(s, packet, k)
  {
    var q, n := |s.desc|, |s.sent|;
    DescriptorsDisjoint(k, n, q);
    OtherBufferAgrees(HeadOf(n, q), TailOf(n, q), packet, HeadOf(k, q), Header());
    OtherBufferAgrees(HeadOf(n, q), TailOf(n, q), packet, TailOf(k, q), s.sent[k]);
  }

  lemma OtherBufferAgrees(head: nat, next: nat, packet: seq<byte>, b: nat, r: seq<byte>)
    requires b != head && b != next && |packet| <= BUFFER_SIZE && |r| <= BUFFER_SIZE
    ensures Agrees(head, next, packet, BufferAt(b), r)
  {
    BuffersApart(b, |r|, head, HEADER_SIZE);
    BuffersApart(b, |r|, next, |packet|);
  }

  /** Sending packets of at most 2048 bytes keeps the last q/2 of them complete. */
  lemma SendKeepsIntact(s: Tx, packet: seq<byte>)
    requires AllIntact(s) && InMemory(s, packet) && |packet| <= BUFFER_SIZE
    ensures AllIntact(Sent(s, packet))
  {
    var s' := Sent(s, packet);
    NewIntact(s, packet);
    forall k: nat | k < |s'.sent| < k + |s.desc| / 2 + 1
      ensures |s'.sent[k]| <= BUFFER_SIZE && Intact(s', k)
    {
      if k < |s.sent| {
        assert Intact(s, k);
        FittingAgrees(s, packet, k);
        OldIntactExactlyWhen(s, packet, k);
      }
    }
  }

  /** Only packets longer than 2048 bytes can miss the end of the transmit buffers. */
  lemma FittingInMemory(s: Tx, packet: seq<byte>)
    requires TxShaped(s) && |packet| <= BUFFER_SIZE
    ensures InMemory(s, packet)
  {
    MulStep(TailOf(|s.sent|, |s.desc|), BUFFERS, BUFFER_SIZE);
  }

  class NetTx {
    const desc: array<Desc>
    const availRing: array<nat>
    const memory: array<byte>
    var availIdx: nat
    var txAvailIdx: nat
    var txDescIdx: nat
    var lastTxUsed: nat
    ghost var sent: seq<seq<byte>>

    constructor (qmax: nat)
      requires IsQueueSize(qmax) && qmax >= 2
      ensures Valid() && AllIntact(State()) && sent == [] && desc.Length == qmax
    {
      desc := new Desc[qmax](_ => Desc(0, 0, 0, 0));
      availRing := new nat[qmax](_ => 0);
      memory := new byte[BUFFERS * BUFFER_SIZE](_ => 0);
      availIdx, txAvailIdx, txDescIdx, lastTxUsed := 0, 0, 0, 0;
      sent := [];
    }

    ghost function State(): Tx
      reads this, desc, availRing, memory
    {
      Tx(desc[..], availRing[..], memory[..], sent)
    }

    ghost predicate Valid()
      reads this, desc, availRing, memory
    {
      && TxShaped(State())
      && txDescIdx == 2 * |sent| % WRAP && txAvailIdx == |sent| % WRAP && availIdx == txAvailIdx
    }

    /** virtio_net_send, for every packet that ends inside the transmit buffers. */
    method Send(packet: seq<byte>)
      requires Valid() && InMemory(State(), packet)
      modifies this`availIdx, this`txAvailIdx, this`txDescIdx, this`sent, desc, availRing, memory
      ensures Valid() && State() == Sent(old(State()), packet)
    {
      var q := desc.Length;
      ghost var n, s := |sent|, State();
      CountersAgree(n, q);
      PairApart(n, q);
      HeadInMemory(s);
      var head := txDescIdx % q;
      var next := (txDescIdx + 1) % q;
      txDescIdx := (txDescIdx + 2) % WRAP;
      Store(BufferAt(head), Header());
      Store(BufferAt(next), packet);
      desc[head] := Desc(head, HEADER_SIZE, FLAG_NEXT, next);
      desc[next] := Desc(next, |packet|, 0, 0);
      availRing[txAvailIdx % q] := head;
      txAvailIdx := Inc(txAvailIdx);
      availIdx := txAvailIdx;
      sent := sent + [packet];
      assert desc[..] == s.desc[head := Desc(head, HEADER_SIZE, FLAG_NEXT, next)][next := Desc(next, |packet|, 0, 0)];
      assert availRing[..] == s.avail[n % q := head];
    }

    /** memset and memcpy to the transmit buffers. */
    method Store(at: nat, s: seq<byte>)
      requires at + |s| <= memory.Length
      modifies memory
      ensures memory[..] == Stored(old(memory[..]), at, s)
    {
      forall i | 0 <= i < |s| {
        memory[at + i] := s[i];
      }
      StoredIs(old(memory[..]), at, s, memory[..]);
    }

    /** The first loop of virtio_net_poll: counts the sends the device has acknowledged. */
    method AckSent(usedIdx: nat)
      requires usedIdx < WRAP && lastTxUsed < WRAP
      modifies this`lastTxUsed
      ensures lastTxUsed == usedIdx
    {
      while lastTxUsed != usedIdx
        invariant lastTxUsed < WRAP
        decreases Dist(lastTxUsed, usedIdx)
      {
        DistOfInc(lastTxUsed, usedIdx);
        lastTxUsed := Inc(lastTxUsed);
      }
    }
  }

  // ---------- queue memory ----------

  const PAGE := 4096
  const DESC_BYTES := 16
  const QUEUE_MEM := 32768

  /** (x + 4095) & ~4095 */
  function PageUp(x: nat): (r: nat)
    ensures r % PAGE == 0 && x <= r < x + PAGE
  {
    (x + PAGE - 1) / PAGE * PAGE
  }

  /** Sizes of the descriptor table and the two rings for `q` entries (VIRTIO 1.1, section 2.6.2). */
  function DescBytes(q: nat): nat { DESC_BYTES * q }
  function AvailBytes(q: nat): nat { 6 + 2 * q }
  function UsedBytes(q: nat): nat { 6 + 8 * q }

  /** Three regions that follow each other without overlap inside `size` bytes from `base`. */
  predicate LaidOut(base: nat, size: nat, q: nat, desc: nat, avail: nat, used: nat) {
    && desc == base && desc + DescBytes(q) <= avail
    && avail + AvailBytes(q) <= used && used + UsedBytes(q) <= base + size
  }

  lemma StartsAligned(base: nat, q: nat)
    requires base % PAGE == 0
    ensures base % 16 == 0 && (base + DESC_BYTES * q) % 2 == 0
  {
    var p := base / PAGE;
    assert base == PAGE * p;
    DivModIs(base, 16, 256 * p, 0);
    DivModIs(base + DESC_BYTES * q, 2, 2048 * p + 8 * q, 0);
  }

  /** setup_queue: descriptor table, available ring, page-aligned used ring. */
  method SetupQueue(base: nat, qmax: nat) returns (desc: nat, avail: nat, used: nat)
    requires base % PAGE == 0 && 1 <= qmax <= 1024
    ensures LaidOut(base, QUEUE_MEM, qmax, desc, avail, used)
    ensures used % PAGE == 0 && desc % 16 == 0 && avail % 2 == 0
    ensures desc == base && avail == base + 16 * qmax
    ensures used % 4096 == 0 && avail + 6 + 2 * qmax <= used < avail + 6 + 2 * qmax + 4096
  {
    hide PageUp;
    StartsAligned(base, qmax);
    desc := base;
    avail := desc + DESC_BYTES * qmax;
    used := avail + 4 + qmax * 2 + 2;
    used := PageUp(used);
  }

  const BLK_QUEUE_SIZE := 16

  /** The block driver's queue: its used ring starts on the page behind `page`. */
  method LayOutBlkQueue(page: nat) returns (desc: nat, avail: nat, used: nat)
    requires page % PAGE == 0
    ensures LaidOut(page, 2 * PAGE, BLK_QUEUE_SIZE, desc, avail, used) && used == page + PAGE
    ensures desc == page && avail == page + 256 && used == page + 4096
  {
    desc := page;
    avail := desc + DESC_BYTES * BLK_QUEUE_SIZE;
    used := avail + AvailBytes(BLK_QUEUE_SIZE);
    used := PageUp(used);
  }

  /**
   * The allocation in virtio_blk_init: when no page was released before, the page of the used ring is the
   * one the second call reserved, unless memory ended with the first page.
   */
  method AllocateBlkQueue(pmm: Pmm.PageAllocator) returns (ok: bool, desc: nat, avail: nat, used: nat)
    requires pmm.Valid() && Pmm.IsPrefix(pmm.State().used, pmm.hint)
    modifies pmm, pmm.bitmap, pmm.ram
    ensures pmm.Valid() && Pmm.IsPrefix(pmm.State().used, pmm.hint)
    ensures ok <==> old(pmm.freePages) > 0
    ensures ok ==> (var first := old(pmm.hint);
      desc == Pmm.AddressOf(first) && LaidOut(desc, 2 * PAGE, BLK_QUEUE_SIZE, desc, avail, used)
      && used == Pmm.AddressOf(first + 1)
      && (old(pmm.freePages) >= 2 ==>
          {first, first + 1} !! old(pmm.State().used) && {first, first + 1} <= pmm.State().used))
  {
    ghost var s := pmm.State();
    var first := pmm.AllocPage();
    ghost var s1 := pmm.State();
    var second := pmm.AllocPage();
    Pmm.NextIsHint(s, if first.Some? then Pmm.Got(Pmm.PageIndex(first.value)) else Pmm.Failed, s1);
    Pmm.NextIsHint(s1, if second.Some? then Pmm.Got(Pmm.PageIndex(second.value)) else Pmm.Failed, pmm.State());
    Pmm.RoomLeft(s);
    Pmm.RoomLeft(s1);
    if first.None? {
      return false, 0, 0, 0;
    }
    ok := true;
    desc, avail, used := LayOutBlkQueue(first.value);
  }
}
