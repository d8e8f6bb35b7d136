/**
  Rings indexed by free-running 16-bit counters (VIRTIO 1.1, sections 2.6.6 and 2.6.8): the
  entries between two counters, across wrap-around.
 */
module VirtioRings {
  import opened Bytes

  const WRAP := 0x1_0000

  /** Queue sizes: powers of two up to 1024. */
  predicate IsQueueSize(q: nat) {
    q in {1, 2, 4, 8, 16, 32, 64, 128, 256, 512, 1024}
  }

  /** A uint16_t increment. */
  function Inc(x: nat): (r: nat)
    ensures r < WRAP
  {
    (x + 1) % WRAP
  }

  /** How far `b` is ahead of `a`. */
  function Dist(a: nat, b: nat): (d: nat)
    requires a < WRAP && b < WRAP
    ensures d < WRAP
  {
    (b + WRAP - a) % WRAP
  }

  lemma DistIs(a: nat, b: nat)
    requires a < WRAP && b < WRAP
    ensures Dist(a, b) == if a <= b then b - a else b + WRAP - a
  {
    if a <= b {
      DivModIs(b + WRAP - a, WRAP, 1, b - a);
    }
  }

  lemma WrapIs(x: nat)
    requires x < 2 * WRAP
    ensures x % WRAP == if x < WRAP then x else x - WRAP
  {
    if x >= WRAP {
      DivModIs(x, WRAP, 1, x - WRAP);
    }
  }

  lemma DistOfInc(a: nat, b: nat)
    requires a < WRAP && b < WRAP
    ensures Dist(a, b) < WRAP - 1 ==> Dist(a, Inc(b)) == Dist(a, b) + 1
    ensures Dist(a, b) > 0 ==> Dist(Inc(a), b) == Dist(a, b) - 1
  {
    hide Dist;
    WrapIs(a + 1);
    WrapIs(b + 1);
    DistIs(a, b);
    DistIs(a, Inc(b));
    DistIs(Inc(a), b);
  }

  /** The slot of the entry `i` places behind counter `a`. */
  function SlotOf(a: nat, i: nat, q: nat): (r: nat)
    requires q > 0
    ensures r < q
  {
    (a + i) % WRAP % q
  }

  /** The ring entries from counter `a` up to, not including, counter `b`. */
  function Window(ring: seq<nat>, a: nat, b: nat): (w: seq<nat>)
    requires |ring| > 0 && a < WRAP && b < WRAP
    ensures |w| == Dist(a, b)
  {
    seq(Dist(a, b), i requires 0 <= i < Dist(a, b) => ring[SlotOf(a, i, |ring|)])
  }

  lemma WrapKeepsSlot(x: nat, q: nat)
    requires IsQueueSize(q)
    ensures x % WRAP % q == x % q
  {
    var m := WRAP / q;
    assert WRAP == q * m;
    var k := x / WRAP;
    assert x == WRAP * k + x % WRAP;
    assert WRAP * k == q * (m * k);
    ModOfSum(x % WRAP, m * k, q);
  }

  lemma ModOfSum(r: nat, k: nat, q: nat)
    requires q > 0
    ensures (q * k + r) % q == r % q
  {
    var x := q * k + r;
    var a, b := r / q, r % q;
    assert r == a * q + b;
    assert x == (k + a) * q + b;
    DivModIs(x, q, k + a, b);
  }

  /** Two positions less than a ring apart use different slots. */
  lemma SlotsApart(a: nat, b: nat, q: nat)
    requires q > 0 && a < b < a + q
    ensures a % q != b % q
  {
    var i, j := a / q, b / q;
    assert a == i * q + a % q && b == j * q + b % q;
    if a % q == b % q {
      if i < j {
        MulStep(i, j, q);
      } else {
        MulBound(j, q, i, q);
      }
    }
  }

  /** Advancing the upper counter appends the entry of its slot. */
  lemma WindowPush(ring: seq<nat>, a: nat, b: nat)
    requires IsQueueSize(|ring|) && a < WRAP && b < WRAP && Dist(a, b) < WRAP - 1
    ensures Dist(a, Inc(b)) == Dist(a, b) + 1
    ensures Window(ring, a, Inc(b)) == Window(ring, a, b) + [ring[b % |ring|]]
  {
    var n := Dist(a, b);
    assert (a + n) % WRAP == b;
    WrapKeepsSlot(b, |ring|);
  }

  /** As long as the window is not full, writing the slot of the upper counter is invisible. */
  lemma WindowWrite(ring: seq<nat>, a: nat, b: nat, x: nat)
    requires IsQueueSize(|ring|) && a < WRAP && b < WRAP && Dist(a, b) < |ring|
    ensures Window(ring[b % |ring| := x], a, b) == Window(ring, a, b)
  {
    forall i | 0 <= i < Dist(a, b)
      ensures SlotOf(a, i, |ring|) != b % |ring|
    {
      UpperSlotUnused(a, b, i, |ring|);
    }
  }

  lemma UpperSlotUnused(a: nat, b: nat, i: nat, q: nat)
    requires IsQueueSize(q) && a < WRAP && b < WRAP && i < Dist(a, b) < q
    ensures SlotOf(a, i, q) != b % q
  {
    var n := Dist(a, b);
    assert (a + n) % WRAP == b;
    WrapKeepsSlot(a + n, q);
    WrapKeepsSlot(a + i, q);
    SlotsApart(a + i, a + n, q);
  }

  /** Writing that slot and then advancing the counter appends the written entry. */
  lemma WindowTail(ring: seq<nat>, a: nat, b: nat, x: nat)
    requires IsQueueSize(|ring|) && a < WRAP && b < WRAP && Dist(a, b) < |ring|
    ensures Window(ring[b % |ring| := x], a, Inc(b)) == Window(ring, a, b) + [x]
  {
    WindowWrite(ring, a, b, x);
    WindowPush(ring[b % |ring| := x], a, b);
  }

  /** A counter `n` places further on. */
  function Ahead(b: nat, n: nat): (r: nat)
    ensures r < WRAP
  {
    (b + n) % WRAP
  }

  lemma AheadDist(a: nat, b: nat, n: nat)
    requires a < WRAP && b < WRAP && Dist(a, b) + n < WRAP
    ensures Dist(a, Ahead(b, n)) == Dist(a, b) + n
    ensures Ahead(b, Dist(b, a)) == a
  {
    hide Dist;
    DistIs(a, b);
    DistIs(b, a);
    WrapIs(b + n);
    WrapIs(b + Dist(b, a));
    DistIs(a, Ahead(b, n));
  }

  lemma SlotFurther(a: nat, b: nat, i: nat, q: nat)
    requires q > 0 && a < WRAP && b < WRAP
    ensures SlotOf(a, Dist(a, b) + i, q) == SlotOf(b, i, q)
  {
    assert (a + (Dist(a, b) + i)) % WRAP == (b + i) % WRAP;
  }

  /** Advancing the upper counter by several places appends that many entries. */
  lemma WindowExtend(ring: seq<nat>, a: nat, b: nat, n: nat)
    requires |ring| > 0 && a < WRAP && b < WRAP && Dist(a, b) + n < WRAP
    ensures Window(ring, a, Ahead(b, n)) == Window(ring, a, b) + Window(ring, b, Ahead(b, n))
  {
    hide SlotOf;
    var c := Ahead(b, n);
    AheadDist(a, b, n);
    AheadDist(b, b, n);
    forall i | 0 <= i < Dist(a, c)
      ensures Window(ring, a, c)[i] == (Window(ring, a, b) + Window(ring, b, c))[i]
    {
      if i >= Dist(a, b) {
        SlotFurther(a, b, i - Dist(a, b), |ring|);
      }
    }
  }

  lemma AheadRest(b: nat, c: nat, n: nat)
    requires b < WRAP && c < WRAP && n <= Dist(b, c)
    ensures Dist(b, Ahead(b, n)) == n && Dist(Ahead(b, n), c) == Dist(b, c) - n
    ensures Ahead(Ahead(b, n), Dist(b, c) - n) == c
  {
    hide Dist;
    DistIs(b, c);
    WrapIs(b + n);
    DistIs(b, Ahead(b, n));
    DistIs(Ahead(b, n), c);
    WrapIs(Ahead(b, n) + (Dist(b, c) - n));
  }

  /** A counter inside a window divides it. */
  lemma WindowSplit(ring: seq<nat>, b: nat, c: nat, n: nat)
    requires |ring| > 0 && b < WRAP && c < WRAP && n <= Dist(b, c)
    ensures Window(ring, b, Ahead(b, n)) == Window(ring, b, c)[..n]
    ensures Window(ring, Ahead(b, n), c) == Window(ring, b, c)[n..]
  {
    hide Window, SlotOf, Ahead;
    AheadRest(b, c, n);
    WindowExtend(ring, b, Ahead(b, n), Dist(b, c) - n);
  }

  /** Advancing the lower counter drops the first entry. */
  lemma WindowPop(ring: seq<nat>, a: nat, b: nat)
    requires IsQueueSize(|ring|) && a < WRAP && b < WRAP && a != b
    ensures Dist(a, b) > 0 && Dist(Inc(a), b) == Dist(a, b) - 1
    ensures Window(ring, a, b)[0] == ring[a % |ring|]
    ensures Window(ring, Inc(a), b) == Window(ring, a, b)[1..]
  {
    DistOfInc(a, b);
    assert Inc(a) == Ahead(a, 1);
    WindowSplit(ring, a, b, 1);
  }
}
