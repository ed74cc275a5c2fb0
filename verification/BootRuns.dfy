/** Runs of calls from the boot tables on: which frames they can turn into page tables, and what that means
    for the 2 MiB leaves of the identity map. */
module BootRuns {
  import opened Bits
  import opened Pages
  import opened Paging
  import opened PageTables
  import opened PageRuns
  import Placement
  import opened BootTables
  import opened Window
  import opened Wrappers

  /** The kernel at the end of vmm_init, or later with the boot tables as they were */
  ghost predicate Booted(k: Kernel, s: Statics) {
    KernelTables(k.m.mem, s) && Invariant(k, BootTree(s), s.pml4)
  }

  lemma BootWindowIsEmpty(m: Machine, s: Statics)
    requires Sound(m, BootTree(s), s.pml4)
    ensures Ready(m, BootTree(s), s.pml4)
  {
    hide Tree, Owned;
  }

  lemma TopOf(mem: Memory, tables: Tables, root: nat)
    requires Tree(mem, tables, root)
    ensures Top in tables && tables[Top] == root
  {
  }

  // ---------- The lowest clear frame becomes a table ----------

  /** Mapping the first page of the window makes the lowest clear frame a table, the PDPT of root slot 288; with
      three clear frames the page is mapped. */
  lemma FirstTableIsLowest(m: Machine, s: Statics, f: nat, phys: Word, flags: Word) returns (tables: Tables)
    requires KernelTables(m.mem, s) && Sound(m, BootTree(s), s.pml4)
    requires FirstClear(m.pages.used) == f && 0 < f < |m.pages.used|
    ensures var m1 := Map(m, s.pml4, BASE, phys, flags);
      && Sound(m1, tables, s.pml4) && SameLarge(m, m1, s.pml4)
      && Sub(Top, FIRST_SLOT) in tables && tables[Sub(Top, FIRST_SLOT)] == f
      && (3 <= Clear(m.pages.used) ==> Walk(m1.mem, s.pml4, PageOf(BASE)) == Some(Asked(phys, flags)))
  {
    hide KernelTables, Tree, Owned, Clear, Entry, Present, Large, Writable, EntryFrame, MakeEntry, Walk, OnLarge, Lookup,
      NextLevel, Filled, FirstClear;
    var root, v := s.pml4, PageOf(BASE);
    BootWindowIsEmpty(m, s);
    PageOfWindow(0);
    EmptyWindow(m.mem, BootTree(s), root, v);
    WalkIsLookup(m.mem, BootTree(s), root, v);
    NoLeafAbove(m.mem, BootTree(s), v);
    DescentCost(m, BootTree(s), root, v);
    var (m', next) := NextLevel(m, root, v.i4, true);
    TopOf(m.mem, BootTree(s), root);
    var t := StepIsSound(m, BootTree(s), root, Top, v.i4);
    SlotIsEmpty(m, s);
    HangsAt(m'.mem, t, root, Child(Top, v.i4));
    FitsAt(m'.mem, t, root, Top, v.i4);
    TopOf(m'.mem, t, root);
    MapAgain(m, m', root, f, phys, flags);
    ExtendsKeepsWalks(m, BootTree(s), m', t, root);
    tables := MapIsExact(m', t, root, BASE, phys, flags);
  }

  lemma SlotIsEmpty(m: Machine, s: Statics)
    requires KernelTables(m.mem, s) && FirstClear(m.pages.used) < |m.pages.used|
    ensures !Present(Entry(m.mem, s.pml4, FIRST_SLOT))
    ensures NextLevel(m, s.pml4, FIRST_SLOT, true).1 == FirstClear(m.pages.used)
  {
    LeafFlags();
    assert Entry(m.mem, s.pml4, FIRST_SLOT) == RootEntry(s, FIRST_SLOT);
  }

  /** Once its first table is there, mapping the page starts from it. */
  lemma MapAgain(m: Machine, m': Machine, root: nat, f: nat, phys: Word, flags: Word)
    requires f > 0 && (m', f) == NextLevel(m, root, PageOf(BASE).i4, true)
    requires Present(Entry(m'.mem, root, PageOf(BASE).i4)) && EntryFrame(Entry(m'.mem, root, PageOf(BASE).i4)) == f
    ensures Map(m', root, BASE, phys, flags) == Map(m, root, BASE, phys, flags)
    ensures MapReaches(m', root, BASE) == MapReaches(m, root, BASE)
  {
    hide PageOf, Entry, Present, EntryFrame, Alloc;
  }

  // ---------- Any clear frame can become one ----------

  /** The state that allocations alone bring about: nothing is mapped or written. */
  ghost predicate OnlyTaken(k: Kernel, s: Statics, k': Kernel, f: nat) {
    && k'.m.mem == k.m.mem && Booted(k', s) && |k'.m.pages.used| == |k.m.pages.used|
    && f < |k'.m.pages.used| && !k'.m.pages.used[f]
  }

  /** Calls that move no page: they are allowed, whatever the tables */
  predicate MovesNoPage(op: Op) {
    op.TakePage? || op.GivePage?
  }

  /** Taking pages gets to any frame that is clear. */
  lemma TakesReach(k: Kernel, s: Statics, start: seq<Op>, f: nat) returns (ops: seq<Op>)
    requires Booted(k, s) && AllAllowed(k, s.pml4, start) && FreesOwn(k, s.pml4, start)
    requires OnlyTaken(k, s, PageRuns.Run(k, s.pml4, start), f) && forall op :: op in start ==> MovesNoPage(op)
    ensures AllAllowed(k, s.pml4, ops) && FreesOwn(k, s.pml4, ops) && forall op :: op in ops ==> MovesNoPage(op)
    ensures OnlyTaken(k, s, PageRuns.Run(k, s.pml4, ops), f)
    ensures FirstClear(PageRuns.Run(k, s.pml4, ops).m.pages.used) == f
  {
    hide KernelTables, Tree, Owned, Clear, AllAllowed, FreesOwn, PageRuns.Run, Alloc, Sound;
    ops := start;
    while FirstClear(PageRuns.Run(k, s.pml4, ops).m.pages.used) != f
      invariant AllAllowed(k, s.pml4, ops) && FreesOwn(k, s.pml4, ops) && forall op :: op in ops ==> MovesNoPage(op)
      invariant OnlyTaken(k, s, PageRuns.Run(k, s.pml4, ops), f)
      decreases f - FirstClear(PageRuns.Run(k, s.pml4, ops).m.pages.used)
    {
      var k1 := PageRuns.Run(k, s.pml4, ops);
      RunSnoc(k, s.pml4, ops, TakePage);
      TakeGoesOn(k1, s, f);
      ops := ops + [TakePage];
    }
  }

  lemma TakeGoesOn(k: Kernel, s: Statics, f: nat)
    requires Booted(k, s) && f < |k.m.pages.used| && !k.m.pages.used[f] && FirstClear(k.m.pages.used) != f
    ensures FirstClear(k.m.pages.used) < f && Allowed(k, s.pml4, TakePage)
    ensures var k' := PageRuns.Step(k, s.pml4, TakePage);
      OnlyTaken(k, s, k', f) && FirstClear(k'.m.pages.used) > FirstClear(k.m.pages.used)
  {
    hide KernelTables, Tree;
    var t := StepKeeps(k, BootTree(s), s.pml4, TakePage);
    AllocTakesLowest(k.m.pages);
    TakeKeepsBooted(k, s);
  }

  lemma TakeKeepsBooted(k: Kernel, s: Statics)
    requires Booted(k, s)
    ensures Booted(PageRuns.Step(k, s.pml4, TakePage), s)
  {
    hide KernelTables, Tree;
    AllocTakesLowest(k.m.pages);
  }

  lemma GiveKeepsBooted(k: Kernel, s: Statics, f: nat)
    requires Booted(k, s) && f in k.held
    ensures var op := GivePage(f * PAGE_SIZE);
      Allowed(k, s.pml4, op) && OnlyTaken(k, s, PageRuns.Step(k, s.pml4, op), f)
  {
    hide KernelTables, Tree;
    DivModUnique(f * PAGE_SIZE, PAGE_SIZE, f, 0);
    var k' := PageRuns.Step(k, s.pml4, GivePage(f * PAGE_SIZE));
    forall q | q in BootTree(s)
      ensures BootTree(s)[q] != f
    {
      assert BootTree(s)[q] in BootTree(s).Values;
    }
  }

  /** The call that makes the first table */
  const MAP_WINDOW := MapPage(BASE, 0, 0)

  /** A frame that is clear, or that a client holds and may free, becomes a page table in some run that is
      allowed and moves no page but the first of the display window. */
  lemma CanBecomeTable(k: Kernel, s: Statics, f: nat) returns (ops: seq<Op>)
    requires Booted(k, s) && 0 < f < |k.m.pages.used| && (f in k.held || !k.m.pages.used[f])
    ensures AllAllowed(k, s.pml4, ops) && FreesOwn(k, s.pml4, ops)
    ensures forall op :: op in ops ==> MovesNoPage(op) || op == MAP_WINDOW
    ensures LiveTable(PageRuns.Run(k, s.pml4, ops).m.mem, s.pml4, f)
    ensures SameLarge(k.m, PageRuns.Run(k, s.pml4, ops).m, s.pml4)
  {
    hide KernelTables, Tree, Owned, Clear, AllAllowed, FreesOwn, PageRuns.Run, PageRuns.Step, Alloc, Map, LiveTable, OnLarge,
      PageOf, LeafFrame, FirstClear;
    var root := s.pml4;
    var start: seq<Op> := [];
    NoCalls(k, root);
    if f in k.held {
      start := [] + [GivePage(f * PAGE_SIZE)];
      RunSnoc(k, root, [], GivePage(f * PAGE_SIZE));
      GiveKeepsBooted(k, s, f);
      DivModUnique(f * PAGE_SIZE, PAGE_SIZE, f, 0);
    }
    var taken := TakesReach(k, s, start, f);
    var k1 := PageRuns.Run(k, root, taken);
    var t := FirstTableIsLowest(k1.m, s, f, 0, 0);
    RunSnoc(k, root, taken, MAP_WINDOW);
    WindowIsNoLeaf(k1, s);
    ops := taken + [MAP_WINDOW];
    assert f in t.Values;
    LiveTables(Map(k1.m, root, BASE, 0, 0).mem, t, root, f);
    assert PageRuns.Run(k, root, ops).m == Map(k1.m, root, BASE, 0, 0) by { StepOfMap(k1, root); }
    SameLargeOf(k.m, k1.m, PageRuns.Run(k, root, ops).m, root);
  }

  lemma NoCalls(k: Kernel, root: nat)
    ensures PageRuns.Run(k, root, []) == k && AllAllowed(k, root, []) && FreesOwn(k, root, [])
  {
  }

  lemma StepOfMap(k: Kernel, root: nat)
    ensures PageRuns.Step(k, root, MAP_WINDOW).m == Map(k.m, root, BASE, 0, 0)
  {
    hide Map;
  }

  lemma SameLargeOf(m: Machine, m1: Machine, m2: Machine, root: nat)
    requires m1.mem == m.mem && SameLarge(m1, m2, root)
    ensures SameLarge(m, m2, root)
  {
    hide OnLarge, LeafFrame;
  }

  lemma WindowIsNoLeaf(k: Kernel, s: Statics)
    requires Booted(k, s)
    ensures Target(k.m.mem, s.pml4, MAP_WINDOW) == None && Allowed(k, s.pml4, MAP_WINDOW)
    ensures PageOf(BASE).i4 == FIRST_SLOT
  {
    hide KernelTables, Tree, Owned, OnLarge, PageOf, Filled, Walk, LiveTable;
    BootWindowIsEmpty(k.m, s);
    PageOfWindow(0);
    EmptyWindow(k.m.mem, BootTree(s), s.pml4, PageOf(BASE));
  }

  // ---------- The leaves of the identity map ----------

  /** Root slots 0 and 510 have a leaf for each 2 MiB from 2 to 16 MiB, which maps frames from i2 * 512 on;
      there are no others. */
  lemma BootLeafFrame(mem: Memory, s: Statics, v: Page)
    requires KernelTables(mem, s) && IsPage(v)
    ensures LeafFrame(mem, s.pml4, v) ==
      if Slot(Top, v.i4) == 0 && v.i3 == 0 && 1 <= v.i2 < EARLY_IDENTITY_LARGE_PAGES then Some(v.i2 * 512) else None
  {
    hide Present, Large, Writable, EntryFrame, Entry, MakeEntry;
    LeafFlags();
    assert Entry(mem, s.pml4, v.i4) == RootEntry(s, v.i4);
    assert Entry(mem, s.pdpt, v.i3) == PdptEntry(s, v.i3);
    assert Entry(mem, s.pd, v.i2) == PdEntry(s, v.i2);
  }

  /** A page of block i of the identity map */
  function BlockPage(i: nat): (virt: Word)
    requires i < EARLY_IDENTITY_LARGE_PAGES
  {
    i * 2 * MIB
  }

  lemma BlockIsLeaf(mem: Memory, s: Statics, i: nat)
    requires KernelTables(mem, s) && 1 <= i < EARLY_IDENTITY_LARGE_PAGES
    ensures LeafFrame(mem, s.pml4, PageOf(BlockPage(i))) == Some(i * 512)
  {
    hide KernelTables, LargeFrame, OnLarge;
    LargeFrameIsBlock(mem, s, BlockPage(i));
  }

  /** No run can make the frame a page table: it is none, and nobody holds it or is offered it. */
  ghost predicate OutOfReach(k: Kernel, s: Statics, f: nat) {
    f !in BootTree(s).Values && f !in k.held && (f < |k.m.pages.used| ==> k.m.pages.used[f])
  }

  /** From boot, no run whose clients free only what they hold ever stores into a page table by way of a 2 MiB
      leaf, whatever pages it is called on, if and only if the seven frames from 2 to 14 MiB in steps of 2 MiB are
      no boot tables, are not held and are not clear. */
  lemma TablesSparedIff(k: Kernel, s: Statics)
    requires Booted(k, s)
    ensures (forall ops :: FreesOwn(k, s.pml4, ops) ==> AllAllowed(k, s.pml4, ops)) <==>
      forall i :: 1 <= i < EARLY_IDENTITY_LARGE_PAGES ==> OutOfReach(k, s, i * 512)
  {
    hide KernelTables, Tree, Owned, AllAllowed, FreesOwn, LeavesKeptBack, OutOfReach, Sound;
    if i :| 1 <= i < EARLY_IDENTITY_LARGE_PAGES && !OutOfReach(k, s, i * 512) {
      var ops := HitTable(k, s, i);
    } else {
      forall ops | FreesOwn(k, s.pml4, ops)
        ensures AllAllowed(k, s.pml4, ops)
      {
        LeavesAreKeptBack(k, s, ops);
        ReservedLeavesAllow(k, BootTree(s), s.pml4, ops);
      }
    }
  }

  lemma LeavesAreKeptBack(k: Kernel, s: Statics, ops: seq<Op>)
    requires Booted(k, s) && forall i :: 1 <= i < EARLY_IDENTITY_LARGE_PAGES ==> OutOfReach(k, s, i * 512)
    ensures LeavesKeptBack(k, s.pml4, ops)
  {
    hide KernelTables, Tree, Owned, LeafFrame, LiveTable, Slot;
    forall v | IsPage(v) && LeafFrame(k.m.mem, s.pml4, v).Some?
      ensures var f := LeafFrame(k.m.mem, s.pml4, v).value; KeptBack(k, ops, f) && !LiveTable(k.m.mem, s.pml4, f)
    {
      BootLeafFrame(k.m.mem, s, v);
      assert OutOfReach(k, s, v.i2 * 512);
      LiveTables(k.m.mem, BootTree(s), s.pml4, v.i2 * 512);
    }
  }

  /** Otherwise some run does. */
  lemma HitTable(k: Kernel, s: Statics, i: nat) returns (ops: seq<Op>)
    requires Booted(k, s) && 1 <= i < EARLY_IDENTITY_LARGE_PAGES && !OutOfReach(k, s, i * 512)
    ensures FreesOwn(k, s.pml4, ops) && !AllAllowed(k, s.pml4, ops)
  {
    hide KernelTables, Tree, Owned, AllAllowed, FreesOwn, PageRuns.Run, LeafFrame, LiveTable, PageOf;
    var root, f, hit := s.pml4, i * 512, UnmapPage(BlockPage(i));
    ops := [];
    NoCalls(k, root);
    SameLargeItself(k.m, root);
    LiveTables(k.m.mem, BootTree(s), root, f);
    if f !in BootTree(s).Values {
      ops := CanBecomeTable(k, s, f);
    }
    BlockIsLeaf(k.m.mem, s, i);
    TargetStays(k, PageRuns.Run(k, root, ops), root, hit);
    RunSnoc(k, root, ops, hit);
    ops := ops + [hit];
  }

  lemma SameLargeItself(m: Machine, root: nat)
    ensures SameLarge(m, m, root)
  {
    hide OnLarge, LeafFrame;
  }

  // ---------- The heap under two of the leaves ----------

  /** A page from 4 to 8 MiB, or its alias in root slot 510: the leaves there map the heap. */
  predicate HeapPage(virt: Word) {
    var v := PageOf(virt);
    Slot(Top, v.i4) == 0 && v.i3 == 0 && (v.i2 == 2 || v.i2 == 3)
  }

  /** From boot, a run that is not called on pages from 4 to 8 MiB leaves every word of a heap whose frames it cannot
      take. */
  lemma HeapSurvives(k: Kernel, s: Statics, ops: seq<Op>)
    requires Booted(k, s) && AllAllowed(k, s.pml4, ops)
    requires forall f: nat :: Placement.HeapFrame(f) ==> OutOfReach(k, s, f)
    requires forall op :: op in ops ==> (op.MapPage? || op.UnmapPage? ==> !HeapPage(op.virt))
    ensures forall f: nat, i: nat :: Placement.HeapFrame(f) && i < 512 ==>
      Entry(PageRuns.Run(k, s.pml4, ops).m.mem, f, i) == Entry(k.m.mem, f, i)
  {
    hide KernelTables, Tree, Owned, AllAllowed, PageRuns.Run, LiveTable, Entry, Target;
    forall f: nat | Placement.HeapFrame(f)
      ensures forall i: nat :: i < 512 ==> Entry(PageRuns.Run(k, s.pml4, ops).m.mem, f, i) == Entry(k.m.mem, f, i)
    {
      assert OutOfReach(k, s, f);
      LiveTables(k.m.mem, BootTree(s), s.pml4, f);
      forall op | op in ops
        ensures Target(k.m.mem, s.pml4, op) != Some(f)
      {
        TargetOffHeap(k, s, op, f);
      }
      KeptBackIsNotWritten(k, BootTree(s), s.pml4, ops, f);
    }
  }

  lemma TargetOffHeap(k: Kernel, s: Statics, op: Op, f: nat)
    requires KernelTables(k.m.mem, s) && Placement.HeapFrame(f) && (op.MapPage? || op.UnmapPage? ==> !HeapPage(op.virt))
    ensures Target(k.m.mem, s.pml4, op) != Some(f)
  {
    hide KernelTables, LeafFrame, PageOf, Slot;
    if op.MapPage? || op.UnmapPage? {
      BootLeafFrame(k.m.mem, s, PageOf(op.virt));
    }
  }

  /** Unmapping the page at 4 MiB stores 0 into the first word of the heap, the size of its first block. */
  lemma UnmapClearsHeapHeader(m: Machine, s: Statics)
    requires KernelTables(m.mem, s) && Sound(m, BootTree(s), s.pml4)
    ensures Entry(Unmap(m, s.pml4, Placement.HEAP_ADDRESS).mem, Placement.HEAP_ADDRESS / PAGE_SIZE, 0) == 0
  {
    hide KernelTables, Tree, Owned, Entry, LargeFrame, OnLarge, Unmap, Map, SetEntry;
    LargeFrameIsBlock(m.mem, s, Placement.HEAP_ADDRESS);
    StoreUnderLarge(m, BootTree(s), s.pml4, Placement.HEAP_ADDRESS, 0, 0);
  }
}
