/** The physical page allocator: a bitmap with a free counter and a search hint, and its runs. */
module Pmm {
  import opened Bytes

  const PAGE_SIZE := 4096
  const RAM_BASE := 0x4000_0000
  const RAM_SIZE := 128 * 1024 * 1024
  const TOTAL_PAGES := 32768
  const BITMAP_SIZE := 4096

  type Page = s: seq<byte> | |s| == PAGE_SIZE witness seq(PAGE_SIZE, i => 0)

  const ZERO_PAGE: Page := seq(PAGE_SIZE, i => 0)

  function AddressOf(page: nat): nat { RAM_BASE + page * PAGE_SIZE }

  // ---------- bits ----------

  function Mask(i: nat): bv8
    requires i < 8
  {
    1 << i
  }

  predicate TestBit(b: bv8, i: nat)
    requires i < 8
  {
    b & Mask(i) != 0
  }

  lemma SetBit(b: bv8, i: nat, j: nat)
    requires i < 8 && j < 8
    ensures TestBit(b | Mask(i), j) <==> i == j || TestBit(b, j)
  {
    MaskValue(i);
    MaskValue(j);
  }

  lemma ClearBit(b: bv8, i: nat, j: nat)
    requires i < 8 && j < 8
    ensures TestBit(b & !Mask(i), j) <==> i != j && TestBit(b, j)
  {
    MaskValue(i);
    MaskValue(j);
  }

  lemma MaskValue(i: nat)
    requires i < 8
    ensures Mask(i) == [1, 2, 4, 8, 16, 32, 64, 128][i]
  {
  }

  lemma NoBits(i: nat)
    requires i < 8
    ensures !TestBit(0, i)
  {
  }

  predicate TestPage(bitmap: seq<bv8>, page: nat)
    requires |bitmap| == BITMAP_SIZE && page < TOTAL_PAGES
  {
    TestBit(bitmap[page / 8], page % 8)
  }

  /** The pages whose bit is set. */
  ghost function UsedSet(bitmap: seq<bv8>): set<nat>
    requires |bitmap| == BITMAP_SIZE
  {
    set p: nat | p < TOTAL_PAGES && TestPage(bitmap, p)
  }

  /** Rewriting the byte of one page leaves the bits of the pages in other bytes. */
  lemma OtherByte(bitmap: seq<bv8>, page: nat, b: bv8, p: nat)
    requires |bitmap| == BITMAP_SIZE && page < TOTAL_PAGES && p < TOTAL_PAGES
    ensures TestPage(bitmap[page / 8 := b], p) == if p / 8 == page / 8 then TestBit(b, p % 8) else TestPage(bitmap, p)
    ensures p == page <==> p / 8 == page / 8 && p % 8 == page % 8
  {
  }

  lemma SetPage(bitmap: seq<bv8>, page: nat)
    requires |bitmap| == BITMAP_SIZE && page < TOTAL_PAGES
    ensures UsedSet(bitmap[page / 8 := bitmap[page / 8] | Mask(page % 8)]) == UsedSet(bitmap) + {page}
  {
    var b := bitmap[page / 8] | Mask(page % 8);
    forall p: nat | p < TOTAL_PAGES
      ensures TestPage(bitmap[page / 8 := b], p) <==> p == page || TestPage(bitmap, p)
    {
      OtherByte(bitmap, page, b, p);
      SetBit(bitmap[page / 8], page % 8, p % 8);
    }
  }

  lemma ClearPage(bitmap: seq<bv8>, page: nat)
    requires |bitmap| == BITMAP_SIZE && page < TOTAL_PAGES
    ensures UsedSet(bitmap[page / 8 := bitmap[page / 8] & !Mask(page % 8)]) == UsedSet(bitmap) - {page}
  {
    var b := bitmap[page / 8] & !Mask(page % 8);
    forall p: nat | p < TOTAL_PAGES
      ensures TestPage(bitmap[page / 8 := b], p) <==> p != page && TestPage(bitmap, p)
    {
      OtherByte(bitmap, page, b, p);
      ClearBit(bitmap[page / 8], page % 8, p % 8);
    }
  }

  // ---------- the allocator as a state ----------

  datatype Pm = Pm(used: set<nat>, freePages: int, hint: nat)

  ghost predicate AllUsedBelow(used: set<nat>, n: nat) {
    forall p: nat :: p < n ==> p in used
  }

  /** The counter counts the clear bits, and every page below the hint is in use. */
  ghost predicate PmOk(s: Pm) {
    && (forall p :: p in s.used ==> p < TOTAL_PAGES) && s.freePages == TOTAL_PAGES - |s.used|
    && s.hint <= TOTAL_PAGES && AllUsedBelow(s.used, s.hint)
  }

  ghost predicate IsLowestFree(s: Pm, p: nat) {
    p < TOTAL_PAGES && p !in s.used && AllUsedBelow(s.used, p)
  }

  /** Allocation fails exactly when all pages are in use; otherwise it takes the lowest free page. */
  ghost predicate Allocs(s: Pm, r: Option<nat>, s': Pm) {
    match r
    case None => AllUsedBelow(s.used, TOTAL_PAGES) && s' == s
    case Some(p) => IsLowestFree(s, p) && s' == Pm(s.used + {p}, s.freePages - 1, p + 1)
  }

  /** Freeing clears the page's bit; addresses out of range, unaligned or not in use are refused. */
  ghost predicate Frees(s: Pm, addr: nat, s': Pm) {
    if IsPageAddress(addr) && PageIndex(addr) in s.used then
      var p := PageIndex(addr);
      s' == Pm(s.used - {p}, s.freePages + 1, Min(s.hint, p))
    else s' == s
  }

  /** Exactly the pages below `n` are in use. */
  ghost predicate IsPrefix(used: set<nat>, n: nat) {
    forall p: nat :: p in used <==> p < n
  }

  lemma PrefixCount(used: set<nat>, n: nat)
    requires IsPrefix(used, n)
    ensures |used| == n
  {
    assert used == Below(n);
  }

  lemma AllocKeeps(s: Pm, r: Option<nat>, s': Pm)
    requires PmOk(s) && Allocs(s, r, s')
    ensures PmOk(s')
  {
  }

  lemma FreeKeeps(s: Pm, addr: nat, s': Pm)
    requires PmOk(s) && Frees(s, addr, s')
    ensures PmOk(s')
  {
    if s' != s {
      assert |s.used - {PageIndex(addr)}| == |s.used| - 1;
    }
  }

  /** The counter is zero exactly when no page is free. */
  lemma RoomLeft(s: Pm)
    requires PmOk(s)
    ensures s.freePages >= 0 && (s.freePages == 0 <==> AllUsedBelow(s.used, TOTAL_PAGES))
  {
    FullExactlyWhen(s.used, TOTAL_PAGES);
  }

  lemma FullExactlyWhen(used: set<nat>, n: nat)
    requires forall p :: p in used ==> p < n
    ensures |used| <= n && (|used| == n <==> AllUsedBelow(used, n))
  {
    SubsetCount(used, Below(n));
    if p: nat :| p < n && p !in used {
      SubsetCount(used, Below(n) - {p});
    } else {
      PrefixCount(used, n);
    }
  }

  predicate IsPageAddress(addr: nat) {
    RAM_BASE <= addr < RAM_BASE + RAM_SIZE && addr % PAGE_SIZE == 0
  }

  function PageIndex(addr: nat): nat {
    if addr < RAM_BASE then 0 else (addr - RAM_BASE) / PAGE_SIZE
  }

  lemma AddressRoundTrip(page: nat)
    requires page < TOTAL_PAGES
    ensures IsPageAddress(AddressOf(page)) && PageIndex(AddressOf(page)) == page
  {
    DivModIs(AddressOf(page), PAGE_SIZE, page + RAM_BASE / PAGE_SIZE, 0);
    DivModIs(page * PAGE_SIZE, PAGE_SIZE, page, 0);
  }

  // ---------- the allocator in memory ----------

  class PageAllocator {
    const bitmap: array<bv8>
    const ram: array<Page>
    var freePages: int
    var hint: nat

    constructor ()
      ensures bitmap.Length == BITMAP_SIZE && ram.Length == TOTAL_PAGES
    {
      bitmap := new bv8[BITMAP_SIZE];
      ram := new Page[TOTAL_PAGES](_ => ZERO_PAGE);
      freePages, hint := TOTAL_PAGES, 0;
    }

    ghost function State(): Pm
      reads this, bitmap
      requires bitmap.Length == BITMAP_SIZE
    {
      Pm(UsedSet(bitmap[..]), freePages, hint)
    }

    ghost predicate Valid()
      reads this, bitmap
    {
      bitmap.Length == BITMAP_SIZE && ram.Length == TOTAL_PAGES && PmOk(State())
    }

    method BitmapSet(bit: nat)
      requires bitmap.Length == BITMAP_SIZE && bit < TOTAL_PAGES
      modifies bitmap
      ensures UsedSet(bitmap[..]) == old(UsedSet(bitmap[..])) + {bit}
    {
      SetPage(bitmap[..], bit);
      bitmap[bit / 8] := bitmap[bit / 8] | Mask(bit % 8);
      assert bitmap[..] == old(bitmap[..])[bit / 8 := old(bitmap[..])[bit / 8] | Mask(bit % 8)];
    }

    method BitmapClear(bit: nat)
      requires bitmap.Length == BITMAP_SIZE && bit < TOTAL_PAGES
      modifies bitmap
      ensures UsedSet(bitmap[..]) == old(UsedSet(bitmap[..])) - {bit}
    {
      ClearPage(bitmap[..], bit);
      bitmap[bit / 8] := bitmap[bit / 8] & !Mask(bit % 8);
      assert bitmap[..] == old(bitmap[..])[bit / 8 := old(bitmap[..])[bit / 8] & !Mask(bit % 8)];
    }

    method BitmapTest(bit: nat) returns (isSet: bool)
      requires bitmap.Length == BITMAP_SIZE && bit < TOTAL_PAGES
      ensures isSet <==> bit in UsedSet(bitmap[..])
    {
      isSet := bitmap[bit / 8] & Mask(bit % 8) != 0;
      assert isSet == TestPage(bitmap[..], bit);
    }

    /** pmm_init: the pages of the kernel image, whole or part, are in use. */
    method Init(kernelEnd: nat)
      requires bitmap.Length == BITMAP_SIZE && ram.Length == TOTAL_PAGES
      requires RAM_BASE <= kernelEnd <= RAM_BASE + RAM_SIZE
      modifies this, bitmap
      ensures Valid() && hint == KernelPages(kernelEnd) && IsPrefix(State().used, hint)
    {
      ClearAll();
      var end := kernelEnd;
      if end % PAGE_SIZE != 0 {
        end := end + PAGE_SIZE - (end + PAGE_SIZE) % PAGE_SIZE;
      }
      var kernelPages := (end - RAM_BASE) / PAGE_SIZE;
      assert kernelPages == KernelPages(kernelEnd);
      MarkKernel(kernelPages);
      freePages := TOTAL_PAGES - kernelPages;
      hint := kernelPages;
      PrefixCount(UsedSet(bitmap[..]), kernelPages);
    }

    method ClearAll()
      requires bitmap.Length == BITMAP_SIZE
      modifies bitmap
      ensures IsPrefix(UsedSet(bitmap[..]), 0)
    {
      forall i | 0 <= i < BITMAP_SIZE {
        bitmap[i] := 0;
      }
      forall p: nat | p < TOTAL_PAGES
        ensures !TestPage(bitmap[..], p)
      {
        NoBits(p % 8);
      }
    }

    method MarkKernel(kernelPages: nat)
      requires bitmap.Length == BITMAP_SIZE && kernelPages <= TOTAL_PAGES && IsPrefix(UsedSet(bitmap[..]), 0)
      modifies bitmap
      ensures IsPrefix(UsedSet(bitmap[..]), kernelPages)
    {
      for i := 0 to kernelPages
        invariant IsPrefix(UsedSet(bitmap[..]), i)
      {
        BitmapSet(i);
      }
    }

    /** pmm_alloc_page: the lowest free page, zeroed; nothing only if no page is free. */
    method AllocPage() returns (r: Option<nat>)
      requires Valid()
      modifies this, bitmap, ram
      ensures Valid()
      ensures Allocs(old(State()), if r.Some? then Some(PageIndex(r.value)) else None, State())
      ensures r.Some? ==>
        IsPageAddress(r.value) && r.value == AddressOf(PageIndex(r.value)) && ram[PageIndex(r.value)] == ZERO_PAGE
      ensures r.Some? ==> 0x4000_0000 <= r.value <= 0x4800_0000 - 4096 && r.value % 4096 == 0
      ensures forall p :: 0 <= p < ram.Length && (r.None? || p != PageIndex(r.value)) ==> ram[p] == old(ram[p])
    {
      RoomLeft(State());
      if freePages == 0 {
        return None;
      }
      var i := hint;
      while i < TOTAL_PAGES
        invariant hint <= i <= TOTAL_PAGES && AllUsedBelow(State().used, i)
        invariant State() == old(State()) && forall p :: 0 <= p < ram.Length ==> ram[p] == old(ram[p])
      {
        var isSet := BitmapTest(i);
        if !isSet {
          var addr := TakePage(i);
          return Some(addr);
        }
        i := i + 1;
      }
      return None;
    }

    /** Marks the free page `i`, moves the hint behind it and clears its memory. */
    method TakePage(i: nat) returns (addr: nat)
      requires Valid() && IsLowestFree(State(), i)
      modifies this, bitmap, ram
      ensures Valid() && Allocs(old(State()), Some(i), State())
      ensures addr == AddressOf(i) && IsPageAddress(addr) && PageIndex(addr) == i && ram[i] == ZERO_PAGE
      ensures forall p :: 0 <= p < ram.Length && p != i ==> ram[p] == old(ram[p])
    {
      ghost var s := State();
      BitmapSet(i);
      freePages := freePages - 1;
      hint := i + 1;
      ram[i] := ZERO_PAGE;
      addr := RAM_BASE + i * PAGE_SIZE;
      AddressRoundTrip(i);
      AllocKeeps(s, Some(i), State());
    }

    /** pmm_free_page */
    method FreePage(addr: nat)
      requires Valid()
      modifies this, bitmap
      ensures Valid() && Frees(old(State()), addr, State())
    {
      ghost var s := State();
      if addr < RAM_BASE || addr >= RAM_BASE + RAM_SIZE {
        return;
      }
      if addr % PAGE_SIZE != 0 {
        return;
      }
      var page := (addr - RAM_BASE) / PAGE_SIZE;
      var isSet := BitmapTest(page);
      if !isSet {
        return;
      }
      BitmapClear(page);
      freePages := freePages + 1;
      if page < hint {
        hint := page;
      }
      FreeKeeps(s, addr, State());
    }
  }

  // ---------- runs ----------

  /** A step of a run after pmm_init: an allocation that got a page or failed, or the release of a page. */
  datatype Step = Got(page: nat) | Failed | Freed(page: nat)

  /** The allocator together with the pages its callers hold. */
  datatype Held = Held(pm: Pm, out: set<nat>)

  /** One call; callers free only pages that an allocation gave them and that they still hold. */
  ghost predicate Moves(a: Held, step: Step, b: Held) {
    match step
    case Got(p) => Allocs(a.pm, Some(p), b.pm) && b.out == a.out + {p}
    case Failed => Allocs(a.pm, None, b.pm) && b.out == a.out
    case Freed(p) => p in a.out && Frees(a.pm, AddressOf(p), b.pm) && b.out == a.out - {p}
  }

  ghost predicate IsRun(kernel: nat, steps: seq<Step>, states: seq<Held>) {
    && |states| == |steps| + 1
    && IsFresh(kernel, states[0])
    && forall i {:trigger MoveAt(steps, states, i)} :: 0 <= i < |steps| ==> MoveAt(steps, states, i)
  }

  /** What pmm_init leaves. */
  ghost predicate IsFresh(kernel: nat, a: Held) {
    a.out == {} && PmOk(a.pm) && a.pm.hint == kernel && IsPrefix(a.pm.used, kernel)
  }

  ghost predicate MoveAt(steps: seq<Step>, states: seq<Held>, i: nat)
    requires i < |steps| && |states| == |steps| + 1
  {
    Moves(states[i], steps[i], states[i + 1])
  }

  /** Every page belongs to the kernel, to one caller, or to the free pages, and the counter counts the latter. */
  ghost predicate Balanced(kernel: nat, a: Held) {
    && PmOk(a.pm) && kernel <= TOTAL_PAGES
    && a.pm.used == Below(kernel) + a.out && Below(kernel) !! a.out
    && a.pm.freePages == TOTAL_PAGES - kernel - |a.out|
  }

  lemma MoveKeepsBalance(kernel: nat, a: Held, step: Step, b: Held)
    requires Balanced(kernel, a) && Moves(a, step, b)
    ensures Balanced(kernel, b)
    ensures step.Got? ==> kernel <= step.page < TOTAL_PAGES && step.page !in a.out
    ensures step.Got? ==> |a.out| < TOTAL_PAGES - kernel
    ensures step.Failed? ==> |a.out| == TOTAL_PAGES - kernel
  {
    RoomLeft(a.pm);
    match step
    case Got(p) => GotKeepsBalance(kernel, a, p, b);
    case Failed =>
    case Freed(p) => FreedKeepsBalance(kernel, a, p, b);
  }

  lemma GotKeepsBalance(kernel: nat, a: Held, p: nat, b: Held)
    requires Balanced(kernel, a) && Moves(a, Got(p), b)
    ensures Balanced(kernel, b) && kernel <= p < TOTAL_PAGES && p !in a.out && |a.out| < TOTAL_PAGES - kernel
  {
    AllocKeeps(a.pm, Some(p), b.pm);
    RoomLeft(b.pm);
    assert p in b.pm.used && p !in a.out && p !in Below(kernel);
  }

  lemma FreedKeepsBalance(kernel: nat, a: Held, p: nat, b: Held)
    requires Balanced(kernel, a) && Moves(a, Freed(p), b)
    ensures Balanced(kernel, b)
  {
    AddressRoundTrip(p);
    FreeKeeps(a.pm, AddressOf(p), b.pm);
  }

  lemma FreshBalanced(kernel: nat, a: Held)
    requires IsFresh(kernel, a)
    ensures Balanced(kernel, a)
  {
    PrefixCount(a.pm.used, kernel);
    assert a.pm.used == Below(kernel);
  }

  /** pmm_init's kernel pages and the pages handed out stay apart and account for every page in use. */
  lemma {:induction false} RunStaysBalanced(kernel: nat, steps: seq<Step>, states: seq<Held>, n: nat)
    requires IsRun(kernel, steps, states) && n < |states|
    ensures Balanced(kernel, states[n])
  {
    if n == 0 {
      FreshBalanced(kernel, states[0]);
    } else {
      RunStaysBalanced(kernel, steps, states, n - 1);
      assert MoveAt(steps, states, n - 1);
      MoveKeepsBalance(kernel, states[n - 1], steps[n - 1], states[n]);
    }
  }

  /** No allocation returns a kernel page or a page still held, and one fails only with every page handed out. */
  lemma AllocationsExclusive(kernel: nat, steps: seq<Step>, states: seq<Held>, n: nat)
    requires IsRun(kernel, steps, states) && n < |steps|
    ensures steps[n].Got? ==> kernel <= steps[n].page < TOTAL_PAGES && steps[n].page !in states[n].out
    ensures steps[n].Failed? ==> |states[n].out| == TOTAL_PAGES - kernel
    ensures steps[n].Got? ==> |states[n].out| < TOTAL_PAGES - kernel
  {
    RunStaysBalanced(kernel, steps, states, n);
    assert MoveAt(steps, states, n);
    MoveKeepsBalance(kernel, states[n], steps[n], states[n + 1]);
  }

  /** Without releases the n-th allocation gets the n-th page behind the kernel, until memory ends. */
  lemma {:induction false} AllocationsAdjacent(kernel: nat, steps: seq<Step>, states: seq<Held>, n: nat)
    requires IsRun(kernel, steps, states) && n < |steps|
    requires forall i :: 0 <= i <= n ==> !steps[i].Freed?
    ensures steps[n] == if kernel + n < TOTAL_PAGES then Got(kernel + n) else Failed
    ensures IsPrefix(states[n + 1].pm.used, states[n + 1].pm.hint)
    ensures states[n + 1].pm.hint == Min(kernel + n + 1, TOTAL_PAGES)
  {
    RunStaysBalanced(kernel, steps, states, n);
    if n > 0 {
      AllocationsAdjacent(kernel, steps, states, n - 1);
    }
    assert MoveAt(steps, states, n);
    NextIsHint(states[n].pm, steps[n], states[n + 1].pm);
  }

  lemma NextIsHint(s: Pm, step: Step, s': Pm)
    requires PmOk(s) && IsPrefix(s.used, s.hint)
    requires !step.Freed? && Allocs(s, if step.Got? then Some(step.page) else None, s')
    ensures step == if s.hint < TOTAL_PAGES then Got(s.hint) else Failed
    ensures IsPrefix(s'.used, s'.hint) && s'.hint == Min(s.hint + 1, TOTAL_PAGES)
  {
    if s.hint < TOTAL_PAGES {
      assert s.hint !in s.used;
    }
  }

  /** The kernel's share of memory in pages, rounded up. */
  function KernelPages(kernelEnd: nat): (n: nat)
    requires RAM_BASE <= kernelEnd <= RAM_BASE + RAM_SIZE
    ensures n <= TOTAL_PAGES && kernelEnd <= AddressOf(n) < kernelEnd + PAGE_SIZE
  {
    (kernelEnd - RAM_BASE + PAGE_SIZE - 1) / PAGE_SIZE
  }

}
