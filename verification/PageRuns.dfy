/** Every interleaving of map, unmap, page allocation and page free. */
module PageRuns {
  import opened Bits
  import opened Pages
  import opened Paging
  import opened PageTables
  import opened Wrappers

  datatype Op =
    | MapPage(virt: Word, phys: Word, flags: Word)
    | UnmapPage(virt: Word)
    | TakePage
    | GivePage(page: nat)

  /** The machine, and the frames that clients of the page allocator hold */
  datatype Kernel = Kernel(m: Machine, held: set<nat>)

  function Step(k: Kernel, root: nat, op: Op): Kernel {
    match op
    case MapPage(virt, phys, flags) => k.(m := Map(k.m, root, virt, phys, flags))
    case UnmapPage(virt) => k.(m := Unmap(k.m, root, virt))
    case TakePage =>
      var (pages, page) := Alloc(k.m.pages);
      Kernel(k.m.(pages := pages), if page == 0 then k.held else k.held + {page / PAGE_SIZE})
    case GivePage(page) =>
      Kernel(k.m.(pages := Free(k.m.pages, page)), k.held - {page / PAGE_SIZE})
  }

  function Run(k: Kernel, root: nat, ops: seq<Op>): Kernel {
    if ops == [] then k else Step(Run(k, root, ops[..|ops| - 1]), root, ops[|ops| - 1])
  }

  /** The data frame a call on a page under a 2 MiB leaf stores into, instead of a table */
  function Target(mem: Memory, root: nat, op: Op): Option<nat> {
    match op
    case MapPage(virt, _, _) => LeafFrame(mem, root, PageOf(virt))
    case UnmapPage(virt) => LeafFrame(mem, root, PageOf(virt))
    case TakePage => None
    case GivePage(_) => None
  }

  /** A call may store into the frame of a 2 MiB leaf as long as that frame is not itself a live table,
      and clients free only what they hold. */
  ghost predicate Allowed(k: Kernel, root: nat, op: Op) {
    && (Target(k.m.mem, root, op).Some? ==> !LiveTable(k.m.mem, root, Target(k.m.mem, root, op).value))
    && (op.GivePage? ==> op.page / PAGE_SIZE in k.held)
  }

  ghost predicate AllAllowed(k: Kernel, root: nat, ops: seq<Op>) {
    ops == [] ||
    (AllAllowed(k, root, ops[..|ops| - 1]) && Allowed(Run(k, root, ops[..|ops| - 1]), root, ops[|ops| - 1]))
  }

  /** Clients hold marked frames, none of which is a table. */
  ghost predicate Apart(k: Kernel, tables: Tables) {
    forall f :: f in k.held ==> f < |k.m.pages.used| && k.m.pages.used[f] && f !in tables.Values
  }

  ghost predicate Invariant(k: Kernel, tables: Tables, root: nat) {
    Sound(k.m, tables, root) && Apart(k, tables)
  }

  /** What the history of calls says a page translates to: the last map or unmap of the page that
      got through decides, and before any the initial tables do. Under a 2 MiB leaf no call counts. */
  ghost function Recorded(k: Kernel, root: nat, ops: seq<Op>, v: Page): Option<Mapping>
    requires IsPage(v)
  {
    if ops == [] then Walk(k.m.mem, root, v) else
    var before, op := ops[..|ops| - 1], ops[|ops| - 1];
    if Target(k.m.mem, root, op).Some? then Recorded(k, root, before, v) else
    match op
    case MapPage(virt, phys, flags) =>
      if SamePage(v, PageOf(virt)) && MapReaches(Run(k, root, before).m, root, virt) then Some(Asked(phys, flags))
      else Recorded(k, root, before, v)
    case UnmapPage(virt) =>
      if SamePage(v, PageOf(virt)) then None else Recorded(k, root, before, v)
    case TakePage => Recorded(k, root, before, v)
    case GivePage(_) => Recorded(k, root, before, v)
  }

  /** A step moves the page it is called on, unless that lies under a 2 MiB leaf, and no other. */
  ghost predicate Moves(k: Kernel, k': Kernel, root: nat, op: Op) {
    if Target(k.m.mem, root, op).Some? then SameWalks(k.m, k'.m, root) else
    match op
    case MapPage(virt, phys, flags) =>
      if MapReaches(k.m, root, virt) then OnlyMoves(k.m, k'.m, root, PageOf(virt), Some(Asked(phys, flags)))
      else SameWalks(k.m, k'.m, root)
    case UnmapPage(virt) => OnlyMoves(k.m, k'.m, root, PageOf(virt), None)
    case TakePage => SameWalks(k.m, k'.m, root)
    case GivePage(_) => SameWalks(k.m, k'.m, root)
  }

  /** A step writes to no frame but tables and its target. */
  ghost predicate WritesOnly(k: Kernel, k': Kernel, tables': Tables, target: Option<nat>) {
    forall f: nat, i: nat {:trigger Entry(k'.m.mem, f, i)} :: i < 512 && f !in tables'.Values && target != Some(f) ==>
      Entry(k'.m.mem, f, i) == Entry(k.m.mem, f, i)
  }

  /** New tables come from clear frames, and only a free clears a frame. */
  ghost predicate FromClear(k: Kernel, tables: Tables, k': Kernel, tables': Tables, op: Op) {
    && |k'.m.pages.used| == |k.m.pages.used|
    && (forall f :: f in tables'.Values ==> f in tables.Values || (f < |k.m.pages.used| && !k.m.pages.used[f]))
    && (forall f {:trigger k'.m.pages.used[f]} :: 0 <= f < |k.m.pages.used| && k.m.pages.used[f] ==>
         k'.m.pages.used[f] || (op.GivePage? && op.page / PAGE_SIZE == f))
  }

  /** One step keeps the invariant, moves no page but the one it is called on, and writes to no frame
      that a client holds, unless a 2 MiB leaf on the page's path maps that frame. */
  lemma StepKeeps(k: Kernel, tables: Tables, root: nat, op: Op) returns (tables': Tables)
    requires Invariant(k, tables, root) && Allowed(k, root, op)
    ensures var k' := Step(k, root, op);
      && Invariant(k', tables', root) && SameLarge(k.m, k'.m, root)
      && Moves(k, k', root, op)
      && WritesOnly(k, k', tables', Target(k.m.mem, root, op))
      && FromClear(k, tables, k', tables', op)
  {
    hide Tree, MapReaches, Walk, OnLarge, Map, Unmap, PageOf, Entry, Present, Large, Writable, EntryFrame, LargeFrame, LiveTable,
      SetEntry;
    var k' := Step(k, root, op);
    tables' := tables;
    match op
    case MapPage(virt, phys, flags) =>
      if OnLarge(k.m.mem, root, PageOf(virt)) {
        StepUnderLarge(k, tables, root, op, virt, phys, flags);
      } else {
        tables' := StepMaps(k, tables, root, virt, phys, flags);
      }
    case UnmapPage(virt) =>
      if OnLarge(k.m.mem, root, PageOf(virt)) {
        StepUnderLarge(k, tables, root, op, virt, 0, 0);
      } else {
        UnmapIsExact(k.m, tables, root, virt);
      }
    case TakePage =>
      StepTakes(k, tables, root);
    case GivePage(page) =>
      StepGives(k, tables, root, page);
  }

  lemma StepTakes(k: Kernel, tables: Tables, root: nat)
    requires Invariant(k, tables, root)
    ensures var k' := Step(k, root, TakePage);
      && Invariant(k', tables, root) && k'.m.mem == k.m.mem && FromClear(k, tables, k', tables, TakePage)
  {
    hide Tree;
    AllocTakesLowest(k.m.pages);
  }

  lemma StepGives(k: Kernel, tables: Tables, root: nat, page: nat)
    requires Invariant(k, tables, root) && page / PAGE_SIZE in k.held
    ensures var k' := Step(k, root, GivePage(page));
      && Invariant(k', tables, root) && k'.m.mem == k.m.mem && FromClear(k, tables, k', tables, GivePage(page))
  {
    hide Tree;
    var k' := Step(k, root, GivePage(page));
    assert page / PAGE_SIZE !in tables.Values;
    forall q | q in tables
      ensures tables[q] < |k'.m.pages.used| && k'.m.pages.used[tables[q]]
    {
      assert tables[q] in tables.Values;
    }
  }

  lemma StepMaps(k: Kernel, tables: Tables, root: nat, virt: Word, phys: Word, flags: Word) returns (tables': Tables)
    requires Invariant(k, tables, root) && !OnLarge(k.m.mem, root, PageOf(virt))
    ensures var op := MapPage(virt, phys, flags);
      var k' := Step(k, root, op);
      && Invariant(k', tables', root) && SameLarge(k.m, k'.m, root) && Moves(k, k', root, op)
      && WritesOnly(k, k', tables', None) && FromClear(k, tables, k', tables', op)
  {
    hide Tree, MapReaches, Walk, OnLarge, Map, PageOf, Entry, Present, Large, Writable, EntryFrame, LargeFrame;
    tables' := MapIsExact(k.m, tables, root, virt, phys, flags);
    forall q | q in tables'
      ensures tables'[q] !in k.held
      ensures tables'[q] in tables.Values || (tables'[q] < |k.m.pages.used| && !k.m.pages.used[tables'[q]])
    {
      if q in tables {
        assert tables[q] in tables.Values;
      }
    }
  }

  lemma StepUnderLarge(k: Kernel, tables: Tables, root: nat, op: Op, virt: Word, phys: Word, flags: Word)
    requires Invariant(k, tables, root) && Allowed(k, root, op) && OnLarge(k.m.mem, root, PageOf(virt))
    requires op == MapPage(virt, phys, flags) || op == UnmapPage(virt)
    ensures var k' := Step(k, root, op);
      && Invariant(k', tables, root) && SameLarge(k.m, k'.m, root) && SameWalks(k.m, k'.m, root)
      && WritesOnly(k, k', tables, Target(k.m.mem, root, op)) && k'.m.pages == k.m.pages && k'.held == k.held
  {
    hide Tree, Walk, OnLarge, Map, Unmap, PageOf, Entry, Present, Large, Writable, EntryFrame, LargeFrame, LiveTable, SetEntry;
    LiveTables(k.m.mem, tables, root, LargeFrame(k.m.mem, root, PageOf(virt)));
    StoreUnderLarge(k.m, tables, root, virt, phys, flags);
  }

  /** Over every run: the tables stay a tree of distinct, marked frames that no client holds, and
      every page translates to what the history of calls says. */
  lemma {:induction false} RunKeepsTables(k: Kernel, tables: Tables, root: nat, ops: seq<Op>)
    returns (tables': Tables)
    requires Invariant(k, tables, root) && AllAllowed(k, root, ops)
    ensures var k' := Run(k, root, ops);
      && Invariant(k', tables', root) && SameLarge(k.m, k'.m, root)
      && forall v {:trigger Walk(k'.m.mem, root, v)} :: IsPage(v) ==> Walk(k'.m.mem, root, v) == Recorded(k, root, ops, v)
  {
    hide Walk, OnLarge, LeafFrame, Invariant, Step, Allowed, SamePage, PageOf, MapReaches, WritesOnly, FromClear;
    if ops == [] {
      tables' := tables;
    } else {
      var before, op := ops[..|ops| - 1], ops[|ops| - 1];
      var t := RunKeepsTables(k, tables, root, before);
      tables' := StepKeeps(Run(k, root, before), t, root, op);
      TargetStays(k, Run(k, root, before), root, op);
      forall v | IsPage(v)
        ensures Walk(Run(k, root, ops).m.mem, root, v) == Recorded(k, root, ops, v)
      {
        assert Walk(Run(k, root, before).m.mem, root, v) == Recorded(k, root, before, v);
      }
    }
  }

  lemma TargetStays(k: Kernel, k': Kernel, root: nat, op: Op)
    requires SameLarge(k.m, k'.m, root)
    ensures Target(k'.m.mem, root, op) == Target(k.m.mem, root, op)
  {
    hide LeafFrame, OnLarge, PageOf;
  }

  /** A frame a client holds throughout a run is never written by the kernel, unless a call is on a page
      under the 2 MiB leaf that maps it. */
  lemma {:induction false} HeldFramesAreNotWritten(k: Kernel, tables: Tables, root: nat, ops: seq<Op>, f: nat)
    requires Invariant(k, tables, root) && AllAllowed(k, root, ops)
    requires f in k.held
    requires forall op :: op in ops && op.GivePage? ==> op.page / PAGE_SIZE != f
    requires forall op :: op in ops ==> Target(k.m.mem, root, op) != Some(f)
    ensures f in Run(k, root, ops).held
    ensures forall i: nat :: i < 512 ==> Entry(Run(k, root, ops).m.mem, f, i) == Entry(k.m.mem, f, i)
  {
    hide Walk, OnLarge, LeafFrame, Allowed, SamePage, PageOf, MapReaches, Tree, Map, Unmap, Entry, SameLarge, Target, Moves;
    if ops != [] {
      var before, op := ops[..|ops| - 1], ops[|ops| - 1];
      HeldFramesAreNotWritten(k, tables, root, before, f);
      assert op in ops;
      var t := RunKeepsTables(k, tables, root, before);
      var t' := StepKeeps(Run(k, root, before), t, root, op);
      TargetStays(k, Run(k, root, before), root, op);
      assert f in Run(k, root, ops).held;
    }
  }

  /** No run hands a client a frame that another client holds or that is a live table. */
  lemma TakenPageIsFresh(k: Kernel, tables: Tables, root: nat, ops: seq<Op>) returns (tables': Tables)
    requires Invariant(k, tables, root) && AllAllowed(k, root, ops)
    ensures var k' := Run(k, root, ops);
      var page := Alloc(k'.m.pages).1;
      && Invariant(k', tables', root)
      && (page != 0 ==>
        && page / PAGE_SIZE !in k'.held && page / PAGE_SIZE !in tables'.Values
        && page / PAGE_SIZE in Step(k', root, TakePage).held)
  {
    hide Tree, Map, Unmap, Allowed;
    tables' := RunKeepsTables(k, tables, root, ops);
    AllocTakesLowest(Run(k, root, ops).m.pages);
  }

  // ---------- Frames the allocator keeps back ----------

  /** Clients free only frames they hold. */
  ghost predicate FreesOwn(k: Kernel, root: nat, ops: seq<Op>) {
    ops == [] ||
    (FreesOwn(k, root, ops[..|ops| - 1]) &&
     var op := ops[|ops| - 1];
     op.GivePage? ==> op.page / PAGE_SIZE in Run(k, root, ops[..|ops| - 1]).held)
  }

  /** The bitmap does not offer the frame, and a client that holds it does not free it. */
  ghost predicate KeptBack(k: Kernel, ops: seq<Op>, f: nat) {
    && (f < |k.m.pages.used| ==> k.m.pages.used[f])
    && (f in k.held ==> forall op :: op in ops && op.GivePage? ==> op.page / PAGE_SIZE != f)
  }

  /** Such a frame never becomes a table over a run, nobody gets hold of it, and unless a call is on a page
      under a 2 MiB leaf that maps it, the kernel never writes it. */
  lemma {:induction false} KeptBackIsNotWritten(k: Kernel, tables: Tables, root: nat, ops: seq<Op>, f: nat)
    requires Invariant(k, tables, root) && AllAllowed(k, root, ops)
    requires !LiveTable(k.m.mem, root, f) && KeptBack(k, ops, f)
    ensures var k' := Run(k, root, ops);
      && |k'.m.pages.used| == |k.m.pages.used| && (f < |k'.m.pages.used| ==> k'.m.pages.used[f])
      && (f in k'.held ==> f in k.held)
      && !LiveTable(k'.m.mem, root, f)
      && ((forall op :: op in ops ==> Target(k.m.mem, root, op) != Some(f)) ==>
           forall i: nat :: i < 512 ==> Entry(k'.m.mem, f, i) == Entry(k.m.mem, f, i))
  {
    hide Walk, OnLarge, LeafFrame, PageOf, MapReaches, Tree, Map, Unmap, Entry, SameLarge, Target, Moves, LiveTable, Owned;
    if ops != [] {
      var before, op := ops[..|ops| - 1], ops[|ops| - 1];
      var k1 := Run(k, root, before);
      KeptBackIsNotWritten(k, tables, root, before, f);
      assert op in ops;
      var t := RunKeepsTables(k, tables, root, before);
      LiveTables(k1.m.mem, t, root, f);
      var t' := StepKeeps(k1, t, root, op);
      LiveTables(Run(k, root, ops).m.mem, t', root, f);
      TargetStays(k, k1, root, op);
      HeldOfMarked(k1, root, op, f);
    }
  }

  lemma HeldOfMarked(k: Kernel, root: nat, op: Op, f: nat)
    requires f < |k.m.pages.used| ==> k.m.pages.used[f]
    ensures f in Step(k, root, op).held ==> f in k.held
  {
    AllocTakesLowest(k.m.pages);
  }

  /** No 2 MiB leaf maps a table, and the frames of all of them are kept back. */
  ghost predicate LeavesKeptBack(k: Kernel, root: nat, ops: seq<Op>) {
    forall v {:trigger LeafFrame(k.m.mem, root, v)} :: IsPage(v) && LeafFrame(k.m.mem, root, v).Some? ==>
      var f := LeafFrame(k.m.mem, root, v).value; KeptBack(k, ops, f) && !LiveTable(k.m.mem, root, f)
  }

  /** Then every interleaving of calls is allowed: no call, on whatever page, stores into a table. */
  lemma {:induction false} ReservedLeavesAllow(k: Kernel, tables: Tables, root: nat, ops: seq<Op>)
    requires Invariant(k, tables, root) && FreesOwn(k, root, ops) && LeavesKeptBack(k, root, ops)
    ensures AllAllowed(k, root, ops)
  {
    hide LeafFrame, Invariant, KeptBack, LiveTable, Run, PageOf;
    if ops != [] {
      var before, op := ops[..|ops| - 1], ops[|ops| - 1];
      LeavesOfPrefix(k, root, ops, before);
      ReservedLeavesAllow(k, tables, root, before);
      var k1 := Run(k, root, before);
      var t := RunKeepsTables(k, tables, root, before);
      TargetStays(k, k1, root, op);
      if Target(k.m.mem, root, op).Some? {
        KeptBackIsNotWritten(k, tables, root, before, Target(k.m.mem, root, op).value);
      }
    }
  }

  lemma LeavesOfPrefix(k: Kernel, root: nat, ops: seq<Op>, before: seq<Op>)
    requires LeavesKeptBack(k, root, ops) && forall op :: op in before ==> op in ops
    ensures LeavesKeptBack(k, root, before)
  {
    hide LeafFrame, LiveTable;
    forall v | IsPage(v) && LeafFrame(k.m.mem, root, v).Some?
      ensures KeptBack(k, before, LeafFrame(k.m.mem, root, v).value)
    {
      assert KeptBack(k, ops, LeafFrame(k.m.mem, root, v).value);
    }
  }

  /** What one more call adds to a run */
  lemma RunSnoc(k: Kernel, root: nat, ops: seq<Op>, op: Op)
    ensures Run(k, root, ops + [op]) == Step(Run(k, root, ops), root, op)
    ensures AllAllowed(k, root, ops + [op]) <==> AllAllowed(k, root, ops) && Allowed(Run(k, root, ops), root, op)
    ensures FreesOwn(k, root, ops + [op]) <==>
      FreesOwn(k, root, ops) && (op.GivePage? ==> op.page / PAGE_SIZE in Run(k, root, ops).held)
  {
    hide Step, Allowed;
    assert (ops + [op])[..|ops + [op]| - 1] == ops;
  }
}
