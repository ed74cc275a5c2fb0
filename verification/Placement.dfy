/** Where kernel.c puts its heap, the page allocator its bitmap, and what keeps the allocator's pages out of
    both. */
module Placement {
  import opened BootAbi
  import opened Pages
  import opened Pmm
  import opened Paging
  import opened PageTables
  import opened BootTables
  import MultibootMap

  /** kernel.c: 4 MiB at 4 MiB */
  const HEAP_ADDRESS := 0x40_0000
  const HEAP_SIZE := 0x40_0000

  predicate HeapFrame(f: nat) {
    HEAP_ADDRESS / PAGE_SIZE <= f < (HEAP_ADDRESS + HEAP_SIZE) / PAGE_SIZE
  }

  /** The bitmap, which grows with memory, runs into the heap exactly when there are more than 2^23 frames,
      32 GiB of physical addresses. */
  lemma BitmapMeetsHeapIff(total: nat)
    ensures (exists b {:trigger InBoth(total, b)} :: InBoth(total, b)) <==> total > 0x80_0000
  {
    if total > 0x80_0000 {
      assert InBoth(total, HEAP_ADDRESS);
    }
  }

  /** A byte of the heap and of the bitmap */
  predicate InBoth(total: nat, b: nat) {
    HEAP_ADDRESS <= b < HEAP_ADDRESS + HEAP_SIZE && BITMAP_ADDRESS <= b < BITMAP_ADDRESS + BitmapBytes(total)
  }

  /** Allocations alone get to any clear frame. */
  lemma {:induction false} AllocationsReach(p: Pages, held: set<nat>, f: nat) returns (ops: seq<PageOp>)
    requires f < |p.used| && !p.used[f]
    ensures FreesHeld(p, held, ops)
    ensures Alloc(Run(p, ops)).0 != Run(p, ops) && Alloc(Run(p, ops)).1 == f * PAGE_SIZE
    decreases f - FirstClear(p.used)
  {
    var g := FirstClear(p.used);
    AllocTakesLowest(p);
    if g == f {
      ops := [];
    } else {
      assert FirstClear(Step(p, AllocPage).used) > g;
      var rest := AllocationsReach(Step(p, AllocPage), HeldStep(p, held, AllocPage), f);
      ops := [AllocPage] + rest;
      assert ops[1..] == rest;
    }
  }

  /** After a run, the next allocation gives out one of these frames. */
  ghost predicate GivesOut(p: Pages, ops: seq<PageOp>, frames: iset<nat>) {
    Alloc(Run(p, ops)).0 != Run(p, ops) && Alloc(Run(p, ops)).1 / PAGE_SIZE in frames
  }

  /** No run whose callers free only what they hold gives out any of the frames. */
  ghost predicate Spares(p: Pages, frames: iset<nat>) {
    forall ops :: FreesHeld(p, {}, ops) ==> !GivesOut(p, ops, frames)
  }

  /** Frames that someone else relies on, whichever they are, are spared if and only if the memory map offers none of
      them but frame 0 and the bitmap's own. */
  lemma FramesAreSparedIff(p: Pages, regions: seq<Region>, frames: iset<nat>)
    requires Initialised(p, regions)
    ensures Spares(p, frames) <==>
      forall f :: f in frames && f < |p.used| && Usable(regions, f) ==> Reserved(|p.used|, f)
  {
    hide Usable, Run, Alloc, FreesHeld, Reserved;
    var offered := iset f: nat | f < |p.used| && !p.used[f];
    if f :| f in frames && f < |p.used| && Usable(regions, f) && !Reserved(|p.used|, f) {
      var ops := AllocationsReach(p, {}, f);
      assert GivesOut(p, ops, frames);
    } else {
      forall ops | FreesHeld(p, {}, ops)
        ensures !GivesOut(p, ops, frames)
      {
        RunStaysWithin(p, {}, ops, offered);
      }
    }
  }

  /** The pages that hold a byte of the bitmap are never given out, whatever the map. */
  lemma BitmapIsSpared(p: Pages, regions: seq<Region>, ops: seq<PageOp>, b: nat)
    requires Initialised(p, regions) && FreesHeld(p, {}, ops)
    requires 0x30_0000 <= b < 0x30_0000 + (|p.used| + 7) / 8
    ensures var (q, page) := Alloc(Run(p, ops));
      q != Run(p, ops) ==> !(page <= b < page + 4096)
  {
    hide Usable, Run, Alloc, FreesHeld, Reserved;
    var bitmap := iset f: nat | Reserved(|p.used|, f);
    FramesAreSparedIff(p, regions, bitmap);
    assert !GivesOut(p, ops, bitmap);
    PageIsAligned(Run(p, ops));
    BitmapIsReserved(|p.used|);
    assert b / 4096 in bitmap;
  }

  lemma PageIsAligned(p: Pages)
    ensures Alloc(p).1 % PAGE_SIZE == 0
  {
    AllocTakesLowest(p);
  }

  ghost function HeapFrames(): iset<nat> {
    iset f: nat | HeapFrame(f)
  }

  /** The allocator does not know of the heap: it is spared if and only if the memory map offers no frame of it that
      the bitmap does not take itself. */
  lemma HeapIsSparedIff(p: Pages, regions: seq<Region>)
    requires Initialised(p, regions)
    ensures Spares(p, HeapFrames()) <==>
      (forall f: nat {:trigger Usable(regions, f)} ::
        HeapFrame(f) && f < |p.used| && Usable(regions, f) ==> BitmapFrame(|p.used|, f))
  {
    hide Usable, Spares, BitmapFrame;
    FramesAreSparedIff(p, regions, HeapFrames());
  }

  ghost function StaticFrames(s: Statics): iset<nat> {
    iset{s.pml4, s.pdpt, s.pd, s.ptLow}
  }

  /** Nor does it know of the static page tables in the kernel image. */
  lemma StaticsAreSparedIff(p: Pages, regions: seq<Region>, s: Statics)
    requires Initialised(p, regions)
    ensures Spares(p, StaticFrames(s)) <==>
      forall f :: f in StaticFrames(s) && f < |p.used| && Usable(regions, f) ==> Reserved(|p.used|, f)
  {
    hide Usable, Spares, Reserved;
    FramesAreSparedIff(p, regions, StaticFrames(s));
  }

  /** vmm_init finds their bits set, as the shape invariant needs them, if and only if they lie below the end of the map
      and it offers none of them but frames the bitmap takes. */
  lemma StaticsAreOwnedIff(m: Machine, regions: seq<Region>, s: Statics)
    requires Initialised(m.pages, regions) && |m.pages.used| * 512 <= |m.mem| <= 512 * FRAME_LIMIT
    ensures Owned(m, BootTree(s)) <==>
      forall f :: f in StaticFrames(s) ==>
        f < |m.pages.used| && (Usable(regions, f) ==> Reserved(|m.pages.used|, f))
  {
    hide Usable, Reserved;
    var t := BootTree(s);
    assert t[Top] == s.pml4 && t[Sub(Top, 0)] == s.pdpt && t[Sub(Sub(Top, 0), 0)] == s.pd;
    assert t[Sub(Sub(Sub(Top, 0), 0), 0)] == s.ptLow;
    forall q | q in t
      ensures t[q] in StaticFrames(s)
    {
    }
  }

  /** Where the kernel image starts */
  const KERNEL_ADDRESS := 0x10_0000

  /** With the 16 MiB that stage 1 reports from the two basic sizes, enough allocations give out the first frame of
      the kernel image. */
  lemma KernelImageIsGivenOut(p: Pages) returns (ops: seq<PageOp>)
    requires Initialised(p, MultibootMap.Basic(640, 15360))
    ensures FreesHeld(p, {}, ops) && Alloc(Run(p, ops)).1 == KERNEL_ADDRESS
  {
    hide BitmapBytes;
    var rs := MultibootMap.Basic(640, 15360);
    var low, high := Region(0, 0xA_0000, MEM_USABLE, 0), Region(KERNEL_ADDRESS, 0xF0_0000, MEM_USABLE, 0);
    assert rs == [low, high];
    assert HighestEnd(rs) == RegionEnd(high) by { assert rs[..1] == [low] && [low][..0] == []; }
    assert rs[1] == high && Covers(high, 256);
    ops := AllocationsReach(p, {}, 256);
  }

  /** 16 MiB of usable memory from 0 */
  const PLAIN_MAP := [Region(0, 0x100_0000, MEM_USABLE, 0)]

  /** On a plain map it does: enough allocations give out the first frame of the heap. */
  lemma PlainMapGivesOutHeap(p: Pages) returns (ops: seq<PageOp>)
    requires Initialised(p, PLAIN_MAP)
    ensures FreesHeld(p, {}, ops) && Alloc(Run(p, ops)).1 == HEAP_ADDRESS
  {
    var r := PLAIN_MAP[0];
    assert HighestEnd(PLAIN_MAP) == RegionEnd(r) by { assert PLAIN_MAP[..0] == []; }
    assert Covers(r, 1024);
    ops := AllocationsReach(p, {}, 1024);
  }
}
