/** Once CR3 is loaded the kernel reaches a table only through the map itself, at the virtual address that
    equals the table's physical one: which tables stay within reach. */
module TableReach {
  import opened Bits
  import opened Pages
  import opened Paging
  import opened PageTables
  import opened PageRuns
  import opened BootTables
  import opened BootRuns
  import opened Wrappers

  /** Frames whose physical addresses are canonical addresses of the lower half */
  const LOW_FRAMES := 0x8_0000_0000

  /** The frames of the first 16 MiB */
  const IDENTITY_FRAMES := 4096

  /** The kernel can read and write a frame at the address it uses for it. */
  predicate Reachable(mem: Memory, root: nat, f: nat)
    requires f < FRAME_LIMIT
  {
    Translate(mem, root, f * PAGE_SIZE) == Some(Access(f * PAGE_SIZE, true))
  }

  function HomePage(f: nat): (v: Page)
    requires f < LOW_FRAMES
    ensures IsPage(v) && v.i4 < 256
    ensures f < 0x800_0000 <==> v.i4 == 0
  {
    assert f * PAGE_SIZE < 0x8000_0000_0000;
    PageOf(f * PAGE_SIZE)
  }

  lemma HomeIsWalk(mem: Memory, root: nat, f: nat)
    requires f < FRAME_LIMIT
    ensures Reachable(mem, root, f) <==> f < LOW_FRAMES && Walk(mem, root, HomePage(f)) == Some(Mapping(f, true))
  {
    hide Walk, PageOf;
    var virt := f * PAGE_SIZE;
    DivModUnique(virt, PAGE_SIZE, f, 0);
    if f < LOW_FRAMES && Walk(mem, root, HomePage(f)).Some? {
      var to := Walk(mem, root, HomePage(f)).value;
      if to.frame * PAGE_SIZE == virt {
        DivModUnique(virt, PAGE_SIZE, to.frame, 0);
      }
    }
  }

  /** Over every run a frame is within reach exactly when the history of calls says that its page is
      mapped to it, writable. */
  lemma ReachableIff(k: Kernel, tables: Tables, root: nat, ops: seq<Op>, f: nat)
    requires Invariant(k, tables, root) && AllAllowed(k, root, ops) && f < FRAME_LIMIT
    ensures Reachable(PageRuns.Run(k, root, ops).m.mem, root, f) <==>
      f < LOW_FRAMES && Recorded(k, root, ops, HomePage(f)) == Some(Mapping(f, true))
  {
    hide Walk, PageOf, Invariant, AllAllowed, PageRuns.Run, Recorded, Reachable, HomePage;
    var t := RunKeepsTables(k, tables, root, ops);
    HomeIsWalk(PageRuns.Run(k, root, ops).m.mem, root, f);
  }

  /** A call that leaves the lower half, and root slot 510 with it, alone: it is on a page of the upper
      half, as the display window's are, or under a 2 MiB leaf, where it moves nothing. */
  predicate LeavesLowHalf(mem: Memory, root: nat, op: Op) {
    match op
    case MapPage(virt, _, _) => OnLarge(mem, root, PageOf(virt)) || (PageOf(virt).i4 >= 256 && PageOf(virt).i4 != 510)
    case UnmapPage(virt) => OnLarge(mem, root, PageOf(virt)) || (PageOf(virt).i4 >= 256 && PageOf(virt).i4 != 510)
    case TakePage => true
    case GivePage(_) => true
  }

  lemma {:induction false} LowHalfRecorded(k: Kernel, root: nat, ops: seq<Op>, v: Page)
    requires IsPage(v) && v.i4 < 256
    requires forall op :: op in ops ==> LeavesLowHalf(k.m.mem, root, op)
    ensures Recorded(k, root, ops, v) == Walk(k.m.mem, root, v)
  {
    hide Walk, PageOf, OnLarge, MapReaches, PageRuns.Run;
    if ops != [] {
      assert ops[|ops| - 1] in ops;
      LowHalfRecorded(k, root, ops[..|ops| - 1], v);
    }
  }

  /** The boot tables reach exactly the first 16 MiB. */
  lemma BootReach(mem: Memory, s: Statics, f: nat)
    requires KernelTables(mem, s) && f < LOW_FRAMES
    ensures Walk(mem, s.pml4, HomePage(f)) == Some(Mapping(f, true)) <==> f < IDENTITY_FRAMES
  {
    hide Present, Large, Writable, EntryFrame, Entry, MakeEntry, PageOf, KernelTables, OnLarge, Walk;
    HomeIsWalk(mem, s.pml4, f);
    if f < 0x800_0000 {
      KernelIdentity(mem, s, f * PAGE_SIZE);
    } else {
      EmptySlot(mem, s, HomePage(f));
    }
  }

  lemma EmptySlot(mem: Memory, s: Statics, v: Page)
    requires KernelTables(mem, s) && IsPage(v) && v.i4 != 0 && v.i4 != 510
    ensures Walk(mem, s.pml4, v) == None
  {
    hide Present, Large, Writable, EntryFrame, Entry, MakeEntry;
    LeafFlags();
    assert Entry(mem, s.pml4, v.i4) == RootEntry(s, v.i4);
  }

  /** From boot, over every run whose calls leave the lower half alone, a frame is within the kernel's reach
      if and only if it lies below 16 MiB. */
  lemma FramesReachableIff(k: Kernel, s: Statics, ops: seq<Op>)
    requires Booted(k, s) && AllAllowed(k, s.pml4, ops)
    requires forall op :: op in ops ==> LeavesLowHalf(k.m.mem, s.pml4, op)
    ensures var m := PageRuns.Run(k, s.pml4, ops).m;
      forall f {:trigger Reachable(m.mem, s.pml4, f)} :: 0 <= f < FRAME_LIMIT ==>
        (Reachable(m.mem, s.pml4, f) <==> f < IDENTITY_FRAMES)
  {
    hide KernelTables, Tree, AllAllowed, PageRuns.Run, Recorded, Reachable, HomePage, LeavesLowHalf, Walk;
    forall f | 0 <= f < FRAME_LIMIT
      ensures Reachable(PageRuns.Run(k, s.pml4, ops).m.mem, s.pml4, f) <==> f < IDENTITY_FRAMES
    {
      ReachableIff(k, BootTree(s), s.pml4, ops, f);
      if f < LOW_FRAMES {
        LowHalfRecorded(k, s.pml4, ops, HomePage(f));
        BootReach(k.m.mem, s, f);
      }
    }
  }

  // ---------- When every table stays within reach ----------

  /** Every page table of `root`, and the frame the next table would be made of, is within reach by way of the
      tables of `via`. */
  ghost predicate TablesWithin(m: Machine, root: nat, via: nat) {
    forall f {:trigger Reachable(m.mem, via, f)} :: 0 <= f < FRAME_LIMIT && (LiveTable(m.mem, root, f) || Next(m, f)) ==>
      Reachable(m.mem, via, f)
  }

  /** alloc_page hands out this frame next. */
  predicate Next(m: Machine, f: nat) {
    f == FirstClear(m.pages.used) < |m.pages.used|
  }

  ghost predicate AllLeaveLowHalf(k: Kernel, root: nat, ops: seq<Op>) {
    forall op :: op in ops ==> LeavesLowHalf(k.m.mem, root, op)
  }

  /** A frame out of reach of every run is neither a table after one nor the next to become one. */
  lemma NeverTable(k: Kernel, s: Statics, ops: seq<Op>, f: nat)
    requires Booted(k, s) && AllAllowed(k, s.pml4, ops) && OutOfReach(k, s, f)
    ensures var m := PageRuns.Run(k, s.pml4, ops).m;
      !LiveTable(m.mem, s.pml4, f) && !Next(m, f)
  {
    hide KernelTables, Tree, Owned, AllAllowed, PageRuns.Run, LiveTable, Entry, Target;
    LiveTables(k.m.mem, BootTree(s), s.pml4, f);
    KeptBackIsNotWritten(k, BootTree(s), s.pml4, ops, f);
  }

  /** From boot, a frame at 16 MiB or above that is clear becomes, by pages taken and the first page of the
      window mapped, a table that the kernel cannot reach. */
  lemma HighIsLost(k: Kernel, s: Statics, f: nat) returns (ops: seq<Op>)
    requires Booted(k, s) && IDENTITY_FRAMES <= f < FRAME_LIMIT && !OutOfReach(k, s, f)
    ensures AllAllowed(k, s.pml4, ops) && FreesOwn(k, s.pml4, ops) && AllLeaveLowHalf(k, s.pml4, ops)
    ensures var m := PageRuns.Run(k, s.pml4, ops).m;
      LiveTable(m.mem, s.pml4, f) && !Reachable(m.mem, s.pml4, f)
  {
    hide KernelTables, Tree, Owned, AllAllowed, FreesOwn, PageRuns.Run, LiveTable, Reachable, OnLarge, PageOf;
    ops := BecomesTable(k, s, f);
    WindowIsNoLeaf(k, s);
    FramesReachableIff(k, s, ops);
  }

  /** No calls at all if it is one already */
  lemma BecomesTable(k: Kernel, s: Statics, f: nat) returns (ops: seq<Op>)
    requires Booted(k, s) && 0 < f && !OutOfReach(k, s, f)
    ensures AllAllowed(k, s.pml4, ops) && FreesOwn(k, s.pml4, ops)
    ensures forall op :: op in ops ==> MovesNoPage(op) || op == MAP_WINDOW
    ensures LiveTable(PageRuns.Run(k, s.pml4, ops).m.mem, s.pml4, f)
  {
    hide KernelTables, Tree, Owned, AllAllowed, FreesOwn, PageRuns.Run, LiveTable;
    if f in BootTree(s).Values {
      ops := [];
      NoCalls(k, s.pml4);
      LiveTables(k.m.mem, BootTree(s), s.pml4, f);
    } else {
      ops := CanBecomeTable(k, s, f);
    }
  }

  /** From boot, every run that leaves the lower half alone keeps all tables, and the frames that become tables,
      within the kernel's reach if and only if no frame at 16 MiB or above is a boot table, held, or clear. */
  lemma ReachKeptIff(k: Kernel, s: Statics)
    requires Booted(k, s)
    ensures (forall ops :: AllAllowed(k, s.pml4, ops) && AllLeaveLowHalf(k, s.pml4, ops) ==>
        TablesWithin(PageRuns.Run(k, s.pml4, ops).m, s.pml4, s.pml4)) <==>
      forall f :: IDENTITY_FRAMES <= f < FRAME_LIMIT ==> OutOfReach(k, s, f)
  {
    hide KernelTables, Tree, Owned, AllAllowed, PageRuns.Run, LiveTable, Reachable, OutOfReach, LeavesLowHalf, Next;
    if f :| IDENTITY_FRAMES <= f < FRAME_LIMIT && !OutOfReach(k, s, f) {
      var ops := HighIsLost(k, s, f);
      assert !TablesWithin(PageRuns.Run(k, s.pml4, ops).m, s.pml4, s.pml4);
    } else {
      forall ops | AllAllowed(k, s.pml4, ops) && AllLeaveLowHalf(k, s.pml4, ops)
        ensures TablesWithin(PageRuns.Run(k, s.pml4, ops).m, s.pml4, s.pml4)
      {
        FramesReachableIff(k, s, ops);
        LowTablesWithin(k, s, ops, IDENTITY_FRAMES, s.pml4);
      }
    }
  }

  lemma LowTablesWithin(k: Kernel, s: Statics, ops: seq<Op>, limit: nat, via: nat)
    requires Booted(k, s) && AllAllowed(k, s.pml4, ops)
    requires forall f :: limit <= f < FRAME_LIMIT ==> OutOfReach(k, s, f)
    requires var m := PageRuns.Run(k, s.pml4, ops).m;
      forall f {:trigger Reachable(m.mem, via, f)} :: 0 <= f < limit && f < FRAME_LIMIT ==> Reachable(m.mem, via, f)
    ensures TablesWithin(PageRuns.Run(k, s.pml4, ops).m, s.pml4, via)
  {
    hide KernelTables, Tree, Owned, AllAllowed, PageRuns.Run, LiveTable, Reachable, OutOfReach, Next;
    var m := PageRuns.Run(k, s.pml4, ops).m;
    forall f {:trigger Reachable(m.mem, via, f)} | 0 <= f < FRAME_LIMIT && (LiveTable(m.mem, s.pml4, f) || Next(m, f))
      ensures Reachable(m.mem, via, f)
    {
      if f >= limit {
        NeverTable(k, s, ops, f);
      }
    }
  }

  // ---------- Before the load of CR3 ----------

  /** The frames of stage 1's three tables */
  datatype Stage1Frames = Stage1Frames(pml4: nat, pdpt: nat, pdLow: nat)

  /** The frames of the first GiB */
  const LOADER_FRAMES := 0x4_0000

  /** Stage 1's tables reach exactly the first GiB. */
  lemma LoaderReach(mem: Memory, l: Stage1Frames, f: nat)
    requires LoaderTables(mem, l.pml4, l.pdpt, l.pdLow) && f < FRAME_LIMIT
    ensures Reachable(mem, l.pml4, f) <==> f < LOADER_FRAMES
  {
    hide Present, Large, Writable, EntryFrame, Entry, MakeEntry, PageOf, LoaderTables, Walk;
    HomeIsWalk(mem, l.pml4, f);
    if f < 0x800_0000 {
      LoaderIdentity(mem, l.pml4, l.pdpt, l.pdLow, f * PAGE_SIZE);
    } else if f < LOW_FRAMES {
      LoaderSlotIsEmpty(mem, l, HomePage(f));
    }
  }

  lemma LoaderSlotIsEmpty(mem: Memory, l: Stage1Frames, v: Page)
    requires LoaderTables(mem, l.pml4, l.pdpt, l.pdLow) && IsPage(v) && v.i4 != 0 && v.i4 != 510
    ensures Walk(mem, l.pml4, v) == None
  {
    hide Present, Large, Writable, EntryFrame, MakeEntry;
    LeafFlags();
    assert Entry(mem, l.pml4, v.i4) == 0;
  }

  /** Stage 1's tables are in memory, and no run of the kernel takes their frames. */
  ghost predicate UnderLoader(k: Kernel, s: Statics, l: Stage1Frames) {
    && LoaderTables(k.m.mem, l.pml4, l.pdpt, l.pdLow)
    && OutOfReach(k, s, l.pml4) && OutOfReach(k, s, l.pdpt) && OutOfReach(k, s, l.pdLow)
  }

  /** No call is on a page under a 2 MiB leaf of the kernel that maps one of them. */
  ghost predicate SparesLoader(k: Kernel, s: Statics, l: Stage1Frames, ops: seq<Op>) {
    forall op, f :: op in ops && Target(k.m.mem, s.pml4, op) == Some(f) ==> f != l.pml4 && f != l.pdpt && f != l.pdLow
  }

  lemma LoaderStays(k: Kernel, s: Statics, l: Stage1Frames, ops: seq<Op>)
    requires Booted(k, s) && UnderLoader(k, s, l) && AllAllowed(k, s.pml4, ops) && SparesLoader(k, s, l, ops)
    ensures LoaderTables(PageRuns.Run(k, s.pml4, ops).m.mem, l.pml4, l.pdpt, l.pdLow)
  {
    hide KernelTables, Tree, Owned, AllAllowed, PageRuns.Run, LiveTable, Entry, MakeEntry, Target;
    FrameStays(k, s, l.pml4, ops);
    FrameStays(k, s, l.pdpt, ops);
    FrameStays(k, s, l.pdLow, ops);
  }

  lemma FrameStays(k: Kernel, s: Statics, f: nat, ops: seq<Op>)
    requires Booted(k, s) && OutOfReach(k, s, f) && AllAllowed(k, s.pml4, ops)
    requires forall op :: op in ops ==> Target(k.m.mem, s.pml4, op) != Some(f)
    ensures forall i: nat :: i < 512 ==> Entry(PageRuns.Run(k, s.pml4, ops).m.mem, f, i) == Entry(k.m.mem, f, i)
  {
    hide KernelTables, Tree, Owned, AllAllowed, PageRuns.Run, LiveTable, Entry, Target;
    LiveTables(k.m.mem, BootTree(s), s.pml4, f);
    KeptBackIsNotWritten(k, BootTree(s), s.pml4, ops, f);
  }

  /** While the kernel still runs on stage 1's tables, every run keeps its own tables within reach if and only if no
      frame at 1 GiB or above is a boot table, held, or clear. */
  lemma EarlyReachKeptIff(k: Kernel, s: Statics, l: Stage1Frames)
    requires Booted(k, s) && UnderLoader(k, s, l)
    ensures (forall ops :: AllAllowed(k, s.pml4, ops) && SparesLoader(k, s, l, ops) ==>
        TablesWithin(PageRuns.Run(k, s.pml4, ops).m, s.pml4, l.pml4)) <==>
      forall f :: LOADER_FRAMES <= f < FRAME_LIMIT ==> OutOfReach(k, s, f)
  {
    hide KernelTables, Tree, Owned, AllAllowed, FreesOwn, PageRuns.Run, LiveTable, Reachable, OutOfReach, LoaderTables, Next,
      PageOf, OnLarge;
    if f :| LOADER_FRAMES <= f < FRAME_LIMIT && !OutOfReach(k, s, f) {
      var ops := BecomesTable(k, s, f);
      WindowIsNoLeaf(k, s);
      assert SparesLoader(k, s, l, ops);
      LoaderStays(k, s, l, ops);
      LoaderReach(PageRuns.Run(k, s.pml4, ops).m.mem, l, f);
      assert !TablesWithin(PageRuns.Run(k, s.pml4, ops).m, s.pml4, l.pml4);
    } else {
      forall ops | AllAllowed(k, s.pml4, ops) && SparesLoader(k, s, l, ops)
        ensures TablesWithin(PageRuns.Run(k, s.pml4, ops).m, s.pml4, l.pml4)
      {
        LoaderStays(k, s, l, ops);
        forall f | 0 <= f < FRAME_LIMIT
          ensures Reachable(PageRuns.Run(k, s.pml4, ops).m.mem, l.pml4, f) <==> f < LOADER_FRAMES
        {
          LoaderReach(PageRuns.Run(k, s.pml4, ops).m.mem, l, f);
        }
        LowTablesWithin(k, s, ops, LOADER_FRAMES, l.pml4);
      }
    }
  }
}
