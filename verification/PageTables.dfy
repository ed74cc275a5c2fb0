/** The kernel's page-table code as functions on values, and the shape of the tree it builds. */
module PageTables {
  import opened Bits
  import opened Pages
  import opened Paging
  import opened Wrappers

  datatype Machine = Machine(mem: Memory, pages: Pages)

  // ---------- kernel/src/x86_64/vmm.c as functions ----------

  function Store(mem: Memory, frame: nat, index: nat, e: Word): Memory
    requires index < 512
  {
    if InMemory(mem, frame) then SetEntry(mem, frame, index, e) else mem
  }

  function Wipe(mem: Memory, frame: nat): Memory {
    if InMemory(mem, frame) then ZeroFrame(mem, frame) else mem
  }

  /** vmm_get_next_level; a table is named by its frame, and frame 0 is NULL. */
  function NextLevel(m: Machine, current: nat, index: nat, create: bool): (Machine, nat)
    requires index < 512
  {
    var e := Entry(m.mem, current, index);
    if Present(e) then (m, EntryFrame(e))
    else if !create then (m, 0)
    else
      var (pages, page) := Alloc(m.pages);
      var frame := page / PAGE_SIZE;
      if page == 0 then (m.(pages := pages), 0)
      else (Machine(Store(Wipe(m.mem, frame), current, index, MakeEntry(frame % FRAME_LIMIT, WRITABLE)), pages), frame)
  }

  /** The three steps down from the root that map_page and unmap_page share */
  function Descend(m: Machine, root: nat, v: Page, create: bool): (Machine, nat)
    requires IsPage(v)
  {
    var (m1, f1) := NextLevel(m, root, v.i4, create);
    if f1 == 0 then (m1, 0) else
    var (m2, f2) := NextLevel(m1, f1, v.i3, create);
    if f2 == 0 then (m2, 0) else
    NextLevel(m2, f2, v.i2, create)
  }

  function Map(m: Machine, root: nat, virt: Word, phys: Word, flags: Word): Machine {
    var v := PageOf(virt);
    var (m', table) := Descend(m, root, v, true);
    if table == 0 then m'
    else m'.(mem := Store(m'.mem, table, v.i1, MakeEntry(EntryFrame(phys), flags)))
  }

  function Unmap(m: Machine, root: nat, virt: Word): Machine {
    var v := PageOf(virt);
    var (m', table) := Descend(m, root, v, false);
    if table == 0 then m' else m'.(mem := Store(m'.mem, table, v.i1, 0))
  }

  /** map_page found or made every table it needed. */
  predicate MapReaches(m: Machine, root: nat, virt: Word) {
    Descend(m, root, PageOf(virt), true).1 != 0
  }

  // ---------- The tree of tables ----------

  /** Where a table hangs: the slots followed from the root */
  datatype Path = Top | Sub(up: Path, slot: nat)

  type Tables = map<Path, nat>

  function Depth(p: Path): nat {
    match p
    case Top => 0
    case Sub(up, _) => 1 + Depth(up)
  }

  /** Root slots 0 and 510 hold the same PDPT. */
  function Slot(p: Path, i: nat): nat {
    if p.Top? && i == 510 then 0 else i
  }

  function Child(p: Path, i: nat): Path {
    Sub(p, Slot(p, i))
  }

  predicate LargeLeaf(p: Path, e: Word) {
    Depth(p) == 2 && Large(e)
  }

  /** A present entry of a table above the last level is a 2 MiB leaf or leads, writable, to the table
      hung there. */
  ghost predicate EntryFits(mem: Memory, tables: Tables, p: Path, i: nat)
    requires p in tables && i < 512
  {
    var e := Entry(mem, tables[p], i);
    Present(e) ==>
      if LargeLeaf(p, e) then EntryFrame(e) > 0 && InMemory(mem, EntryFrame(e))
      else !Large(e) && Writable(e) && Child(p, i) in tables && tables[Child(p, i)] == EntryFrame(e)
  }

  /** Every table but the root hangs from a present entry of a table. */
  ghost predicate Hangs(mem: Memory, tables: Tables, p: Path) {
    p.Sub? ==>
      && p.up in tables && p.slot < 512 && p.slot == Slot(p.up, p.slot)
      && var e := Entry(mem, tables[p.up], p.slot); Present(e) && !LargeLeaf(p.up, e)
  }

  /** The table-shape invariant: the reachable tables are pairwise distinct frames, apart from the
      one PDPT that two root slots share. */
  ghost predicate Tree(mem: Memory, tables: Tables, root: nat) {
    && Top in tables && tables[Top] == root
    && (forall p :: p in tables ==> tables[p] > 0 && InMemory(mem, tables[p]) && Depth(p) <= 3)
    && (forall p, q :: p in tables && q in tables && tables[p] == tables[q] ==> p == q)
    && (forall p, i {:trigger EntryFits(mem, tables, p, i)} ::
         p in tables && Depth(p) < 3 && 0 <= i < 512 ==> EntryFits(mem, tables, p, i))
    && (forall p {:trigger Hangs(mem, tables, p)} :: p in tables ==> Hangs(mem, tables, p))
    && Present(Entry(mem, root, 0)) && Present(Entry(mem, root, 510))
  }

  /** The allocator owns no frame beyond memory, and every table's bit is set. */
  ghost predicate Owned(m: Machine, tables: Tables) {
    && |m.pages.used| * 512 <= |m.mem| <= 512 * FRAME_LIMIT
    && forall p :: p in tables ==> tables[p] < |m.pages.used| && m.pages.used[tables[p]]
  }

  ghost predicate Sound(m: Machine, tables: Tables, root: nat) {
    Tree(m.mem, tables, root) && Owned(m, tables)
  }

  // ---------- Walks by way of the tree ----------

  function Pd(v: Page): Path {
    Sub(Sub(Top, Slot(Top, v.i4)), v.i3)
  }

  function Pt(v: Page): Path {
    Sub(Pd(v), v.i2)
  }

  /** Two virtual pages that no mapping can tell apart: equal, up to root slots 0 and 510 */
  predicate SamePage(u: Page, v: Page) {
    Slot(Top, u.i4) == Slot(Top, v.i4) && u.i3 == v.i3 && u.i2 == v.i2 && u.i1 == v.i1
  }

  /** What a last-level entry maps */
  function LeafMapping(e: Word): Option<Mapping> {
    if Present(e) then Some(Mapping(EntryFrame(e), Writable(e))) else None
  }

  /** What map_page is asked for */
  function Asked(phys: Word, flags: Word): Mapping {
    Mapping(EntryFrame(phys), flags / WRITABLE % 2 == 1)
  }

  ghost function Lookup(mem: Memory, tables: Tables, v: Page): Option<Mapping>
    requires IsPage(v)
  {
    if Pd(v) !in tables then None else
    var e2 := Entry(mem, tables[Pd(v)], v.i2);
    if !Present(e2) then None else
    if Large(e2) then Some(Mapping(EntryFrame(e2) / 512 * 512 + v.i1, Writable(e2))) else
    if Pt(v) !in tables then None else
    var e1 := Entry(mem, tables[Pt(v)], v.i1);
    LeafMapping(e1)
  }

  /** The entry of the page directory on a page's path is a 2 MiB leaf. */
  function OnLarge(mem: Memory, root: nat, v: Page): bool
    requires IsPage(v)
  {
    var e4 := Entry(mem, root, v.i4);
    Present(e4) &&
    var e3 := Entry(mem, EntryFrame(e4), v.i3);
    Present(e3) &&
    var e2 := Entry(mem, EntryFrame(e3), v.i2);
    Present(e2) && Large(e2)
  }

  /** The frame a 2 MiB leaf on a page's path maps, which the kernel's walk takes for a page table */
  function LargeFrame(mem: Memory, root: nat, v: Page): nat
    requires IsPage(v) && OnLarge(mem, root, v)
  {
    EntryFrame(Entry(mem, EntryFrame(Entry(mem, EntryFrame(Entry(mem, root, v.i4)), v.i3)), v.i2))
  }

  function LeafFrame(mem: Memory, root: nat, v: Page): Option<nat>
    requires IsPage(v)
  {
    if OnLarge(mem, root, v) then Some(LargeFrame(mem, root, v)) else None
  }

  lemma WalkIsLookup(mem: Memory, tables: Tables, root: nat, v: Page)
    requires Tree(mem, tables, root) && IsPage(v)
    ensures Walk(mem, root, v) == Lookup(mem, tables, v)
    ensures LeafFrame(mem, root, v) == LeafIn(mem, tables, v)
    ensures OnLarge(mem, root, v) <==>
      Pd(v) in tables && Present(Entry(mem, tables[Pd(v)], v.i2)) && Large(Entry(mem, tables[Pd(v)], v.i2))
    ensures !OnLarge(mem, root, v) ==> SoftwareWalk(mem, root, v) == FrameOf(Walk(mem, root, v))
  {
    var e4 := Entry(mem, root, v.i4);
    assert EntryFits(mem, tables, Top, v.i4);
    var p1 := Child(Top, v.i4);
    if Pd(v) in tables {
      assert Hangs(mem, tables, Pd(v)) && Hangs(mem, tables, p1);
      assert EntryFits(mem, tables, Top, 0) && EntryFits(mem, tables, Top, p1.slot);
    }
    if Present(e4) {
      assert EntryFits(mem, tables, p1, v.i3);
      if Present(Entry(mem, tables[p1], v.i3)) {
        assert Depth(Pd(v)) == 2;
        assert EntryFits(mem, tables, Pd(v), v.i2);
      }
    }
  }

  // ---------- One step down ----------

  /** The tree after vmm_get_next_level has stepped down from `p`, making a table if it must */
  ghost function Grown(m: Machine, tables: Tables, p: Path, i: nat): Tables
    requires p in tables && i < 512
  {
    var page := Alloc(m.pages).1;
    if Present(Entry(m.mem, tables[p], i)) || page == 0 then tables
    else tables[Child(p, i) := page / PAGE_SIZE]
  }

  ghost function GrownEntry(mem: Memory, current: nat, i: nat, newest: nat, t: nat, k: nat): Word
    requires newest < FRAME_LIMIT && k < 512
  {
    if t == current && k == i then MakeEntry(newest, WRITABLE)
    else if t == newest then 0 else Entry(mem, t, k)
  }

  /** What can be told about a fresh table: it was no table, and now holds no entry. */
  ghost predicate IsGrown(m: Machine, m': Machine, tables: Tables, p: Path, i: nat, newest: nat)
    requires p in tables && i < 512
  {
    && 0 < newest < |m.pages.used| && !m.pages.used[newest] && m'.pages.used == m.pages.used[newest := true]
    && |m'.mem| == |m.mem| && newest < FRAME_LIMIT
    && forall t: nat, k: nat :: k < 512 ==> Entry(m'.mem, t, k) == GrownEntry(m.mem, tables[p], i, newest, t, k)
  }

  lemma StepGrows(m: Machine, tables: Tables, root: nat, p: Path, i: nat)
    requires Sound(m, tables, root) && p in tables && i < 512
    ensures var (m', next) := NextLevel(m, tables[p], i, true);
      if Present(Entry(m.mem, tables[p], i)) then m' == m && next == EntryFrame(Entry(m.mem, tables[p], i))
      else if next == 0 then m'.mem == m.mem && |m'.pages.used| == |m.pages.used|
        && (forall f :: 0 <= f < |m.pages.used| && m.pages.used[f] ==> m'.pages.used[f])
        && Grown(m, tables, p, i) == tables
      else IsGrown(m, m', tables, p, i, next) && Grown(m, tables, p, i) == tables[Child(p, i) := next]
  {
    hide Present, Large, Writable, EntryFrame, Entry, MakeEntry, SetEntry, ZeroFrame;
    AllocTakesLowest(m.pages);
  }

  /** A present entry that is not a 2 MiB leaf, or none at all */
  predicate NoLeaf(p: Path, e: Word) {
    Present(e) ==> !LargeLeaf(p, e)
  }

  lemma HangsAt(mem: Memory, tables: Tables, root: nat, p: Path)
    requires Tree(mem, tables, root) && p in tables
    ensures Hangs(mem, tables, p)
  {
  }

  lemma ZeroIsAbsent()
    ensures !Present(0)
  {
  }

  lemma GrownIsNew(m: Machine, tables: Tables, root: nat, p: Path, i: nat)
    requires Sound(m, tables, root) && p in tables && i < 512 && !Present(Entry(m.mem, tables[p], i))
    ensures Child(p, i) !in tables && Child(p, i) == Sub(p, i)
  {
    hide Present, Large, Writable, EntryFrame, Entry;
    if Child(p, i) in tables {
      HangsAt(m.mem, tables, root, Child(p, i));
    }
  }

  lemma GrownEntriesFit(m: Machine, m': Machine, tables: Tables, root: nat, p: Path, i: nat, newest: nat, q: Path, k: nat)
    requires Sound(m, tables, root) && p in tables && Depth(p) < 3 && i < 512
    requires !Present(Entry(m.mem, tables[p], i)) && IsGrown(m, m', tables, p, i, newest)
    requires q in tables[Child(p, i) := newest] && Depth(q) < 3 && k < 512
    ensures EntryFits(m'.mem, tables[Child(p, i) := newest], q, k)
  {
    hide Present, Large, Writable, EntryFrame, Entry, MakeEntry;
    ZeroIsAbsent();
    GrownIsNew(m, tables, root, p, i);
    if q != Child(p, i) {
      FitsAt(m.mem, tables, root, q, k);
      assert tables[q] != newest;
      assert tables[q] == tables[p] ==> q == p;
      assert Entry(m'.mem, tables[q], k) == GrownEntry(m.mem, tables[p], i, newest, tables[q], k);
    } else {
      assert Entry(m'.mem, newest, k) == GrownEntry(m.mem, tables[p], i, newest, newest, k);
    }
  }

  lemma GrownTablesHang(m: Machine, m': Machine, tables: Tables, root: nat, p: Path, i: nat, newest: nat, q: Path)
    requires Sound(m, tables, root) && p in tables && Depth(p) < 3 && i < 512
    requires !Present(Entry(m.mem, tables[p], i)) && IsGrown(m, m', tables, p, i, newest)
    requires q in tables[Child(p, i) := newest]
    ensures Hangs(m'.mem, tables[Child(p, i) := newest], q)
  {
    hide Present, Large, Writable, EntryFrame, Entry, MakeEntry;
    GrownIsNew(m, tables, root, p, i);
    if q != Child(p, i) {
      HangsAt(m.mem, tables, root, q);
      if q.Sub? {
        var up := tables[q.up];
        assert Entry(m'.mem, up, q.slot) == GrownEntry(m.mem, tables[p], i, newest, up, q.slot);
      }
    } else {
      assert Entry(m'.mem, tables[p], i) == GrownEntry(m.mem, tables[p], i, newest, tables[p], i);
    }
  }

  lemma GrownIsTree(m: Machine, m': Machine, tables: Tables, root: nat, p: Path, i: nat, newest: nat)
    requires Sound(m, tables, root) && p in tables && Depth(p) < 3 && i < 512
    requires !Present(Entry(m.mem, tables[p], i)) && IsGrown(m, m', tables, p, i, newest)
    ensures Child(p, i) !in tables && Child(p, i) == Sub(p, i)
    ensures Sound(m', tables[Child(p, i) := newest], root)
  {
    hide Present, Large, Writable, EntryFrame, Entry, MakeEntry, EntryFits, Hangs;
    GrownIsNew(m, tables, root, p, i);
    var tables' := tables[Child(p, i) := newest];
    forall q, k | q in tables' && Depth(q) < 3 && 0 <= k < 512
      ensures EntryFits(m'.mem, tables', q, k)
    {
      GrownEntriesFit(m, m', tables, root, p, i, newest, q, k);
    }
    forall q | q in tables'
      ensures Hangs(m'.mem, tables', q)
    {
      GrownTablesHang(m, m', tables, root, p, i, newest, q);
    }
    assert Entry(m'.mem, root, 0) == GrownEntry(m.mem, tables[p], i, newest, root, 0);
    assert Entry(m'.mem, root, 510) == GrownEntry(m.mem, tables[p], i, newest, root, 510);
  }

  lemma GrownKeepsLookup(m: Machine, m': Machine, tables: Tables, root: nat, p: Path, i: nat, newest: nat, v: Page)
    requires Sound(m, tables, root) && p in tables && Depth(p) < 3 && i < 512
    requires !Present(Entry(m.mem, tables[p], i)) && IsGrown(m, m', tables, p, i, newest)
    requires IsPage(v)
    ensures Lookup(m'.mem, tables[Child(p, i) := newest], v) == Lookup(m.mem, tables, v)
  {
    hide Present, Large, Writable, EntryFrame, Entry, MakeEntry;
    ZeroIsAbsent();
    GrownIsTree(m, m', tables, root, p, i, newest);
    if Pd(v) in tables {
      assert Hangs(m.mem, tables, Pd(v)) && Hangs(m.mem, tables, Pd(v).up);
    }
    if Pt(v) in tables {
      assert Hangs(m.mem, tables, Pt(v));
    }
  }

  /** The frame of the 2 MiB leaf that covers a page */
  ghost function LeafIn(mem: Memory, tables: Tables, v: Page): Option<nat>
    requires IsPage(v)
  {
    if Pd(v) !in tables then None else
    var e := Entry(mem, tables[Pd(v)], v.i2);
    if Present(e) && Large(e) then Some(EntryFrame(e)) else None
  }

  ghost predicate LargeIn(mem: Memory, tables: Tables, v: Page)
    requires IsPage(v)
  {
    LeafIn(mem, tables, v).Some?
  }

  /** Some more tables, taken from clear frames, and nothing else: every page translates as before
      and every frame that is not a table holds what it held. */
  ghost predicate Extends(m: Machine, tables: Tables, m': Machine, tables': Tables) {
    && |m'.mem| == |m.mem| && |m'.pages.used| == |m.pages.used|
    && (forall q :: q in tables ==> q in tables' && tables'[q] == tables[q])
    && (forall q :: q in tables' && q !in tables ==>
         tables'[q] < |m.pages.used| && !m.pages.used[tables'[q]])
    && (forall f :: 0 <= f < |m.pages.used| && m.pages.used[f] ==> m'.pages.used[f])
    && (forall v {:trigger Lookup(m'.mem, tables', v)} :: IsPage(v) ==>
         Lookup(m'.mem, tables', v) == Lookup(m.mem, tables, v))
    && (forall v {:trigger LeafIn(m'.mem, tables', v)} :: IsPage(v) ==>
         LeafIn(m'.mem, tables', v) == LeafIn(m.mem, tables, v))
    && (forall f: nat, k: nat {:trigger Entry(m'.mem, f, k)} :: k < 512 && f !in tables'.Values ==>
         Entry(m'.mem, f, k) == Entry(m.mem, f, k))
  }

  lemma ExtendsTransitive(m: Machine, t: Tables, m1: Machine, t1: Tables, m2: Machine, t2: Tables)
    requires Extends(m, t, m1, t1) && Extends(m1, t1, m2, t2)
    ensures Extends(m, t, m2, t2)
  {
    hide Lookup, LeafIn, Entry, IsPage;
    forall q | q in t1
      ensures t1[q] in t2.Values
    {
      assert t2[q] == t1[q];
    }
    forall v | IsPage(v)
      ensures Lookup(m2.mem, t2, v) == Lookup(m.mem, t, v) && LeafIn(m2.mem, t2, v) == LeafIn(m.mem, t, v)
    {
      assert Lookup(m1.mem, t1, v) == Lookup(m.mem, t, v) && LeafIn(m1.mem, t1, v) == LeafIn(m.mem, t, v);
    }
    forall f: nat, k: nat | k < 512 && f !in t2.Values
      ensures Entry(m2.mem, f, k) == Entry(m.mem, f, k)
    {
      assert Entry(m1.mem, f, k) == Entry(m.mem, f, k);
    }
  }

  lemma GrownExtends(m: Machine, m': Machine, tables: Tables, root: nat, p: Path, i: nat, newest: nat)
    requires Sound(m, tables, root) && p in tables && Depth(p) < 3 && i < 512
    requires !Present(Entry(m.mem, tables[p], i)) && IsGrown(m, m', tables, p, i, newest)
    ensures Extends(m, tables, m', tables[Child(p, i) := newest])
  {
    hide Present, Large, Writable, EntryFrame, Entry, MakeEntry;
    var tables' := tables[Child(p, i) := newest];
    GrownIsTree(m, m', tables, root, p, i, newest);
    forall v | IsPage(v)
      ensures Lookup(m'.mem, tables', v) == Lookup(m.mem, tables, v)
      ensures LeafIn(m'.mem, tables', v) == LeafIn(m.mem, tables, v)
    {
      GrownKeepsLookup(m, m', tables, root, p, i, newest, v);
      GrownKeepsLarge(m, m', tables, root, p, i, newest, v);
    }
    assert tables'[p] == tables[p] && tables'[Child(p, i)] == newest;
  }

  lemma GrownKeepsLarge(m: Machine, m': Machine, tables: Tables, root: nat, p: Path, i: nat, newest: nat, v: Page)
    requires Sound(m, tables, root) && p in tables && Depth(p) < 3 && i < 512
    requires !Present(Entry(m.mem, tables[p], i)) && IsGrown(m, m', tables, p, i, newest)
    requires IsPage(v)
    ensures LeafIn(m'.mem, tables[Child(p, i) := newest], v) == LeafIn(m.mem, tables, v)
  {
    hide Present, Large, Writable, EntryFrame, Entry, MakeEntry;
    ZeroIsAbsent();
    GrownIsTree(m, m', tables, root, p, i, newest);
  }

  lemma SameExtends(m: Machine, m': Machine, tables: Tables)
    requires m'.mem == m.mem && |m'.pages.used| == |m.pages.used|
    requires forall f :: 0 <= f < |m.pages.used| && m.pages.used[f] ==> m'.pages.used[f]
    ensures Extends(m, tables, m', tables)
  {
    hide Lookup, LeafIn, Entry;
  }

  /** vmm_get_next_level with allocation keeps the shape invariant and every translation. */
  lemma StepIsSound(m: Machine, tables: Tables, root: nat, p: Path, i: nat) returns (tables': Tables)
    requires Sound(m, tables, root) && p in tables && Depth(p) < 3 && i < 512
    requires NoLeaf(p, Entry(m.mem, tables[p], i))
    ensures var (m', next) := NextLevel(m, tables[p], i, true);
      && Sound(m', tables', root) && Extends(m, tables, m', tables')
      && (next != 0 ==> Child(p, i) in tables' && tables'[Child(p, i)] == next)
      && (next == 0 ==> tables' == tables)
      && (next != 0 ==> tables'.Keys == tables.Keys + {Child(p, i)})
  {
    hide Present, Large, Writable, EntryFrame, Entry, MakeEntry, Lookup, LeafIn;
    var (m', next) := NextLevel(m, tables[p], i, true);
    StepGrows(m, tables, root, p, i);
    if Present(Entry(m.mem, tables[p], i)) {
      FitsAt(m.mem, tables, root, p, i);
      SameExtends(m, m', tables);
      tables' := tables;
    } else if next == 0 {
      SameExtends(m, m', tables);
      tables' := tables;
    } else {
      GrownIsTree(m, m', tables, root, p, i, next);
      GrownExtends(m, m', tables, root, p, i, next);
      tables' := tables[Child(p, i) := next];
    }
  }

  lemma FitsAt(mem: Memory, tables: Tables, root: nat, p: Path, i: nat)
    requires Tree(mem, tables, root) && p in tables && Depth(p) < 3 && i < 512
    ensures EntryFits(mem, tables, p, i)
  {
  }

  /** The tables below the root that a page needs */
  function TablesOf(v: Page): set<Path> {
    {Child(Top, v.i4), Pd(v), Pt(v)}
  }

  /** The descent of map_page: with no 2 MiB leaf on the way it reaches the page's table, or runs out
      of frames having moved no translation. */
  lemma DescentIsSound(m: Machine, tables: Tables, root: nat, v: Page) returns (tables': Tables)
    requires Sound(m, tables, root) && IsPage(v) && !LargeIn(m.mem, tables, v)
    ensures var (m', table) := Descend(m, root, v, true);
      && Sound(m', tables', root) && Extends(m, tables, m', tables')
      && (table != 0 ==> Pt(v) in tables' && tables'[Pt(v)] == table)
      && (table != 0 ==> tables'.Keys == tables.Keys + TablesOf(v))
  {
    hide Present, Large, Writable, EntryFrame, Entry, NextLevel, Extends, Tree, Owned;
    var (m1, f1) := NextLevel(m, root, v.i4, true);
    NoLeafAbove(m.mem, tables, v);
    TablesHangTogether(m.mem, tables, root, v);
    var t1 := StepIsSound(m, tables, root, Top, v.i4);
    tables' := t1;
    if f1 != 0 {
      var p1 := Child(Top, v.i4);
      var (m2, f2) := NextLevel(m1, f1, v.i3, true);
      ExtendsKeepsLarge(m, tables, m1, t1, v);
      NoLeafAbove(m1.mem, t1, v);
      var t2 := StepIsSound(m1, t1, root, p1, v.i3);
      ExtendsTransitive(m, tables, m1, t1, m2, t2);
      tables' := t2;
      if f2 != 0 {
        var (m3, f3) := NextLevel(m2, f2, v.i2, true);
        ExtendsKeepsLarge(m, tables, m2, t2, v);
        NoLeafAbove(m2.mem, t2, v);
        tables' := StepIsSound(m2, t2, root, Pd(v), v.i2);
        ExtendsTransitive(m, tables, m2, t2, m3, tables');
      }
    }
  }

  lemma ExtendsKeepsLarge(m: Machine, tables: Tables, m': Machine, tables': Tables, v: Page)
    requires Extends(m, tables, m', tables') && IsPage(v)
    ensures LeafIn(m'.mem, tables', v) == LeafIn(m.mem, tables, v)
  {
  }

  lemma NoLeafAbove(mem: Memory, tables: Tables, v: Page)
    requires IsPage(v) && !LargeIn(mem, tables, v)
    ensures Top in tables ==> NoLeaf(Top, Entry(mem, tables[Top], v.i4))
    ensures Child(Top, v.i4) in tables ==> NoLeaf(Child(Top, v.i4), Entry(mem, tables[Child(Top, v.i4)], v.i3))
    ensures Pd(v) in tables ==> NoLeaf(Pd(v), Entry(mem, tables[Pd(v)], v.i2))
    ensures Depth(Child(Top, v.i4)) == 1 && Depth(Pd(v)) == 2
  {
    DepthOfTables(v);
  }

  // ---------- Writing a leaf ----------

  lemma LeafKeepsTree(mem: Memory, mem': Memory, tables: Tables, root: nat, p: Path, i: nat, e: Word)
    requires Tree(mem, tables, root) && p in tables && Depth(p) == 3 && i < 512
    requires mem' == SetEntry(mem, tables[p], i, e)
    ensures Tree(mem', tables, root)
  {
    hide Present, Large, Writable, EntryFrame, Entry, SetEntry, Slot;
    forall q, k | q in tables && Depth(q) < 3 && 0 <= k < 512
      ensures EntryFits(mem', tables, q, k)
    {
      assert tables[q] == tables[p] ==> q == p;
      FitsAt(mem, tables, root, q, k);
    }
    forall q | q in tables
      ensures Hangs(mem', tables, q)
    {
      HangsAt(mem, tables, root, q);
      if q.Sub? {
        assert Depth(q.up) < Depth(q) <= 3;
        assert tables[q.up] != tables[p];
      }
    }
  }

  lemma DepthOfTables(v: Page)
    ensures Depth(Pt(v)) == 3 && Depth(Pd(v)) == 2
  {
    assert Depth(Pd(v).up) == 1;
  }

  lemma LeafMovesOnePage(mem: Memory, mem': Memory, tables: Tables, root: nat, v: Page, e: Word, u: Page)
    requires Tree(mem, tables, root) && IsPage(v) && IsPage(u) && Pt(v) in tables && !LargeIn(mem, tables, v)
    requires mem' == SetEntry(mem, tables[Pt(v)], v.i1, e)
    ensures Lookup(mem', tables, u) ==
      if SamePage(u, v) then LeafMapping(e) else Lookup(mem, tables, u)
    ensures LeafIn(mem', tables, u) == LeafIn(mem, tables, u)
  {
    hide Present, Large, Writable, EntryFrame, Entry, SetEntry, Slot;
    HangsAt(mem, tables, root, Pt(v));
    DepthOfTables(v);
    DepthOfTables(u);
    if Pd(u) in tables {
      assert tables[Pd(u)] != tables[Pt(v)];
    }
    if Pt(u) in tables {
      assert tables[Pt(u)] == tables[Pt(v)] ==> Pt(u) == Pt(v);
    }
  }

  /** The translations after a store that touches one page's leaf */
  ghost predicate OnlyMoves(m: Machine, m': Machine, root: nat, v: Page, to: Option<Mapping>) {
    forall u {:trigger Walk(m'.mem, root, u)} :: IsPage(u) ==>
      Walk(m'.mem, root, u) == if SamePage(u, v) then to else Walk(m.mem, root, u)
  }

  /** The frames that hold no table of the tree keep their contents. */
  ghost predicate DataKept(m: Machine, m': Machine, tables': Tables) {
    forall f: nat, k: nat {:trigger Entry(m'.mem, f, k)} :: k < 512 && f !in tables'.Values ==>
      Entry(m'.mem, f, k) == Entry(m.mem, f, k)
  }

  ghost predicate SameWalks(m: Machine, m': Machine, root: nat) {
    forall u {:trigger Walk(m'.mem, root, u)} :: IsPage(u) ==>
      Walk(m'.mem, root, u) == Walk(m.mem, root, u)
  }

  /** The same pages lie under 2 MiB leaves, and under the same ones. */
  ghost predicate SameLarge(m: Machine, m': Machine, root: nat) {
    forall u {:trigger OnLarge(m'.mem, root, u)} {:trigger LeafFrame(m'.mem, root, u)} :: IsPage(u) ==>
      && OnLarge(m'.mem, root, u) == OnLarge(m.mem, root, u)
      && LeafFrame(m'.mem, root, u) == LeafFrame(m.mem, root, u)
  }

  lemma ExtendsKeepsWalks(m: Machine, tables: Tables, m': Machine, tables': Tables, root: nat)
    requires Sound(m, tables, root) && Sound(m', tables', root) && Extends(m, tables, m', tables')
    ensures SameWalks(m, m', root) && SameLarge(m, m', root) && DataKept(m, m', tables')
  {
    hide Present, Large, Writable, EntryFrame, Entry, Lookup, Walk, OnLarge, Slot, Hangs, EntryFits;
    forall u | IsPage(u)
      ensures Walk(m'.mem, root, u) == Walk(m.mem, root, u)
      ensures LeafFrame(m'.mem, root, u) == LeafFrame(m.mem, root, u) && OnLarge(m'.mem, root, u) == OnLarge(m.mem, root, u)
    {
      WalkIsLookup(m.mem, tables, root, u);
      WalkIsLookup(m'.mem, tables', root, u);
      assert LeafIn(m'.mem, tables', u) == LeafIn(m.mem, tables, u);
    }
  }

  lemma LeafIsSound(m: Machine, tables: Tables, root: nat, v: Page, e: Word)
    requires Sound(m, tables, root) && IsPage(v) && Pt(v) in tables && !LargeIn(m.mem, tables, v)
    ensures var m' := m.(mem := SetEntry(m.mem, tables[Pt(v)], v.i1, e));
      && Sound(m', tables, root) && DataKept(m, m', tables)
      && OnlyMoves(m, m', root, v, LeafMapping(e))
      && SameLarge(m, m', root)
  {
    hide Present, Large, Writable, EntryFrame, Entry, SetEntry, Lookup, Walk, OnLarge, Slot, Hangs, EntryFits;
    var m' := m.(mem := SetEntry(m.mem, tables[Pt(v)], v.i1, e));
    DepthOfTables(v);
    LeafKeepsTree(m.mem, m'.mem, tables, root, Pt(v), v.i1, e);
    forall u | IsPage(u)
      ensures Walk(m'.mem, root, u) ==
        if SamePage(u, v) then LeafMapping(e) else Walk(m.mem, root, u)
      ensures LeafFrame(m'.mem, root, u) == LeafFrame(m.mem, root, u)
      ensures OnLarge(m'.mem, root, u) == OnLarge(m.mem, root, u)
    {
      LeafMovesOnePage(m.mem, m'.mem, tables, root, v, e, u);
      WalkIsLookup(m.mem, tables, root, u);
      WalkIsLookup(m'.mem, tables, root, u);
    }
  }

  // ---------- The operations ----------

  /** The frames marked in use only grow, and every new table was a clear frame. */
  ghost predicate TablesGrow(m: Machine, tables: Tables, m': Machine, tables': Tables) {
    && (forall q :: q in tables ==> q in tables' && tables'[q] == tables[q])
    && (forall q :: q in tables' && q !in tables ==> tables'[q] < |m.pages.used| && !m.pages.used[tables'[q]])
    && |m'.pages.used| == |m.pages.used|
    && (forall f :: 0 <= f < |m.pages.used| && m.pages.used[f] ==> m'.pages.used[f])
  }

  /** map_page on a page with no 2 MiB leaf on its path: either every table could be had, and then the
      page and its alias translate to the frame asked for and no other page moves; or the frames ran
      out, and then nothing moves. Tables stay distinct allocated frames and data frames are not written. */
  lemma MapIsExact(m: Machine, tables: Tables, root: nat, virt: Word, phys: Word, flags: Word)
    returns (tables': Tables)
    requires Sound(m, tables, root) && !OnLarge(m.mem, root, PageOf(virt))
    ensures var m' := Map(m, root, virt, phys, flags);
      && Sound(m', tables', root) && DataKept(m, m', tables') && TablesGrow(m, tables, m', tables')
      && (MapReaches(m, root, virt) ==> OnlyMoves(m, m', root, PageOf(virt), Some(Asked(phys, flags))))
      && (!MapReaches(m, root, virt) ==> SameWalks(m, m', root))
      && (MapReaches(m, root, virt) ==> tables'.Keys == tables.Keys + TablesOf(PageOf(virt)))
      && SameLarge(m, m', root)
  {
    hide Present, Large, Writable, EntryFrame, Entry, SetEntry, Lookup, Walk, OnLarge, Slot, Hangs, EntryFits, PageOf, Descend;
    var v := PageOf(virt);
    WalkIsLookup(m.mem, tables, root, v);
    tables' := DescentIsSound(m, tables, root, v);
    var (m1, table) := Descend(m, root, v, true);
    ExtendsKeepsWalks(m, tables, m1, tables', root);
    if table != 0 {
      assert LeafIn(m1.mem, tables', v) == LeafIn(m.mem, tables, v);
      var e := MakeEntry(EntryFrame(phys), flags);
      LeafIsSound(m1, tables', root, v, e);
      assert InMemory(m1.mem, tables'[Pt(v)]);
      var m2 := m1.(mem := SetEntry(m1.mem, tables'[Pt(v)], v.i1, e));
      assert m2 == Map(m, root, virt, phys, flags);
      MoveAfterSame(m, m1, m2, tables', root, v, Some(Asked(phys, flags)));
    }
  }

  lemma MoveAfterSame(m: Machine, m1: Machine, m2: Machine, tables: Tables, root: nat, v: Page, to: Option<Mapping>)
    requires SameWalks(m, m1, root) && SameLarge(m, m1, root) && DataKept(m, m1, tables)
    requires OnlyMoves(m1, m2, root, v, to) && SameLarge(m1, m2, root) && DataKept(m1, m2, tables)
    ensures OnlyMoves(m, m2, root, v, to) && SameLarge(m, m2, root) && DataKept(m, m2, tables)
  {
    hide Entry, Walk, OnLarge, SamePage, IsPage;
  }

  /** unmap_page on such a page takes its translation away, and its alias's, and no other. */
  lemma UnmapIsExact(m: Machine, tables: Tables, root: nat, virt: Word)
    requires Sound(m, tables, root) && !OnLarge(m.mem, root, PageOf(virt))
    ensures var m' := Unmap(m, root, virt);
      && Sound(m', tables, root) && DataKept(m, m', tables) && m'.pages == m.pages
      && OnlyMoves(m, m', root, PageOf(virt), None)
      && SameLarge(m, m', root)
  {
    hide Present, Large, Writable, EntryFrame, Entry, SetEntry, Lookup, Walk, OnLarge, Slot, Hangs, EntryFits, PageOf;
    var v := PageOf(virt);
    WalkIsLookup(m.mem, tables, root, v);
    DescentFinds(m, tables, root, v);
    ZeroIsAbsent();
    if Pt(v) in tables {
      LeafIsSound(m, tables, root, v, 0);
    } else {
      AliasWalksAlike(m.mem, tables, root, v);
    }
  }

  /** Mapping an unmapped page and unmapping it again restores every translation. */
  lemma UnmapUndoesMap(m: Machine, tables: Tables, root: nat, virt: Word, phys: Word, flags: Word)
    requires Sound(m, tables, root) && !OnLarge(m.mem, root, PageOf(virt)) && Walk(m.mem, root, PageOf(virt)) == None
    ensures SameWalks(m, Unmap(Map(m, root, virt, phys, flags), root, virt), root)
  {
    hide Present, Large, Writable, EntryFrame, Entry, Walk, OnLarge, PageOf, Map, Unmap, MapReaches, Tree, Owned;
    var m1 := Map(m, root, virt, phys, flags);
    var t := MapIsExact(m, tables, root, virt, phys, flags);
    UnmapIsExact(m1, t, root, virt);
    AliasWalksAlike(m.mem, tables, root, PageOf(virt));
    var m2 := Unmap(m1, root, virt);
    forall u | IsPage(u)
      ensures Walk(m2.mem, root, u) == Walk(m.mem, root, u)
    {
      assert !SamePage(u, PageOf(virt)) ==> Walk(m1.mem, root, u) == Walk(m.mem, root, u);
    }
  }

  /** Without allocation the descent finds a page's table when there is one. */
  lemma DescentFinds(m: Machine, tables: Tables, root: nat, v: Page)
    requires Sound(m, tables, root) && IsPage(v) && !LargeIn(m.mem, tables, v)
    ensures Descend(m, root, v, false) == (m, if Pt(v) in tables then tables[Pt(v)] else 0)
  {
    hide Present, Large, Writable, EntryFrame, Entry;
    FitsAt(m.mem, tables, root, Top, v.i4);
    FitsAt(m.mem, tables, root, Top, Slot(Top, v.i4));
    FitsAt(m.mem, tables, root, Top, 0);
    var p1 := Child(Top, v.i4);
    if Pt(v) in tables {
      HangsAt(m.mem, tables, root, Pt(v));
    }
    if Pd(v) in tables {
      HangsAt(m.mem, tables, root, Pd(v));
      FitsAt(m.mem, tables, root, Pd(v), v.i2);
    }
    if p1 in tables {
      HangsAt(m.mem, tables, root, p1);
      FitsAt(m.mem, tables, root, p1, v.i3);
    }
  }

  lemma AliasWalksAlike(mem: Memory, tables: Tables, root: nat, v: Page)
    requires Tree(mem, tables, root) && IsPage(v)
    ensures forall u {:trigger Walk(mem, root, u)} :: IsPage(u) && SamePage(u, v) ==> Walk(mem, root, u) == Walk(mem, root, v)
  {
    hide Present, Large, Writable, EntryFrame, Entry, Walk, OnLarge, Slot, Hangs, EntryFits;
    forall u | IsPage(u) && SamePage(u, v)
      ensures Walk(mem, root, u) == Walk(mem, root, v)
    {
      WalkIsLookup(mem, tables, root, u);
      WalkIsLookup(mem, tables, root, v);
    }
  }

  // ---------- The words themselves ----------

  lemma EntryWord(frame: nat)
    requires frame < FRAME_LIMIT
    ensures MakeEntry(frame, WRITABLE) == frame * 4096 + 3
    ensures MakeEntry(frame, WRITABLE + LARGE) == MakeEntry(frame, 0x83) == frame * 4096 + 0x83
  {
    assert LowFlags(2) == 3 && LowFlags(0x82) == 0x83 && LowFlags(0x83) == 0x83;
    hide LowFlags, Present, Large, Writable, EntryFrame;
    assert MakeEntry(frame, 2) == frame * 0x1000 + LowFlags(2);
    assert MakeEntry(frame, 0x82) == frame * 0x1000 + LowFlags(0x82);
    assert MakeEntry(frame, 0x83) == frame * 0x1000 + LowFlags(0x83);
  }

  /** A new table is a frame of zeros, and the entry it hangs from is its address with bits 0 and 1. */
  lemma NewTableWords(m: Machine, tables: Tables, root: nat, p: Path, i: nat)
    requires Sound(m, tables, root) && p in tables && Depth(p) < 3 && i < 512 && !Present(Entry(m.mem, tables[p], i))
    ensures var (m', next) := NextLevel(m, tables[p], i, true);
      next != 0 ==>
        && Entry(m'.mem, tables[p], i) == next * 4096 + 3
        && forall k: nat :: k < 512 ==> Entry(m'.mem, next, k) == 0
  {
    hide Present, Large, Writable, EntryFrame, Entry, MakeEntry, NextLevel, Tree;
    var (m', next) := NextLevel(m, tables[p], i, true);
    StepGrows(m, tables, root, p, i);
    if next != 0 {
      EntryWord(next);
      assert tables[p] != next;
      assert Entry(m'.mem, tables[p], i) == GrownEntry(m.mem, tables[p], i, next, tables[p], i);
      forall k: nat | k < 512
        ensures Entry(m'.mem, next, k) == 0
      {
        assert Entry(m'.mem, next, k) == GrownEntry(m.mem, tables[p], i, next, next, k);
      }
    }
  }

  /** The last-level entry on the processor's way to a page */
  function LeafEntry(mem: Memory, root: nat, v: Page): Word
    requires IsPage(v)
  {
    var f1 := EntryFrame(Entry(mem, root, v.i4));
    var f2 := EntryFrame(Entry(mem, f1, v.i3));
    Entry(mem, EntryFrame(Entry(mem, f2, v.i2)), v.i1)
  }

  lemma LeafEntryIs(mem: Memory, tables: Tables, root: nat, v: Page)
    requires Tree(mem, tables, root) && IsPage(v) && Pt(v) in tables
    ensures LeafEntry(mem, root, v) == Entry(mem, tables[Pt(v)], v.i1)
  {
    hide Present, Large, Writable, EntryFrame, Entry;
    TablesHangTogether(mem, tables, root, v);
    DepthOfTables(v);
    HangsAt(mem, tables, root, Pt(v));
    HangsAt(mem, tables, root, Pd(v));
    HangsAt(mem, tables, root, Child(Top, v.i4));
    FitsAt(mem, tables, root, Top, v.i4);
    FitsAt(mem, tables, root, Top, 0);
    FitsAt(mem, tables, root, Child(Top, v.i4), v.i3);
    FitsAt(mem, tables, root, Pd(v), v.i2);
  }

  /** What map_page leaves for the processor to find: the address and the low twelve flags asked for, and bit 0. */
  lemma MapStoresEntry(m: Machine, tables: Tables, root: nat, virt: Word, phys: Word, flags: Word)
    requires Sound(m, tables, root) && !OnLarge(m.mem, root, PageOf(virt)) && MapReaches(m, root, virt)
    ensures LeafEntry(Map(m, root, virt, phys, flags).mem, root, PageOf(virt)) ==
      Or(Or(And(phys, ADDRESS_MASK), And(flags, 0xFFF)), PRESENT)
  {
    hide Present, Large, Writable, EntryFrame, Entry, SetEntry, Lookup, Walk, OnLarge, Slot, Hangs, EntryFits, PageOf,
      Descend, And, Or, LeafEntry, MakeEntry;
    var v := PageOf(virt);
    WalkIsLookup(m.mem, tables, root, v);
    var t := DescentIsSound(m, tables, root, v);
    var (m1, table) := Descend(m, root, v, true);
    var e := MakeEntry(EntryFrame(phys), flags);
    assert LeafIn(m1.mem, t, v) == LeafIn(m.mem, tables, v);
    LeafIsSound(m1, t, root, v, e);
    assert InMemory(m1.mem, table);
    LeafEntryIs(SetEntry(m1.mem, table, v.i1, e), t, root, v);
    MakeEntryBits(phys, flags);
  }

  /** unmap_page leaves 0. */
  lemma UnmapStoresZero(m: Machine, tables: Tables, root: nat, virt: Word)
    requires Sound(m, tables, root) && !OnLarge(m.mem, root, PageOf(virt)) && Pt(PageOf(virt)) in tables
    ensures LeafEntry(Unmap(m, root, virt).mem, root, PageOf(virt)) == 0
  {
    hide Present, Large, Writable, EntryFrame, Entry, SetEntry, Lookup, Walk, OnLarge, Slot, Hangs, EntryFits, PageOf,
      Descend, LeafEntry;
    var v := PageOf(virt);
    WalkIsLookup(m.mem, tables, root, v);
    DescentFinds(m, tables, root, v);
    LeafIsSound(m, tables, root, v, 0);
    assert InMemory(m.mem, tables[Pt(v)]);
    LeafEntryIs(SetEntry(m.mem, tables[Pt(v)], v.i1, 0), tables, root, v);
  }

  /** An entry that leads to frame 0 reads as no table: whatever the memory, map_page and unmap_page then do nothing and
      get_physical finds nothing. */
  lemma NullTableStops(m: Machine, root: nat, virt: Word, phys: Word, flags: Word)
    requires var v := PageOf(virt);
      var e4 := Entry(m.mem, root, v.i4);
      var e3 := Entry(m.mem, EntryFrame(e4), v.i3);
      var e2 := Entry(m.mem, EntryFrame(e3), v.i2);
      Present(e4) && (EntryFrame(e4) == 0 || (Present(e3) && (EntryFrame(e3) == 0 || (Present(e2) && EntryFrame(e2) == 0))))
    ensures Map(m, root, virt, phys, flags) == m && Unmap(m, root, virt) == m
    ensures SoftwareWalk(m.mem, root, PageOf(virt)) == None
  {
    hide Present, EntryFrame, Entry, PageOf, Store;
  }

  // ---------- What a mapping costs ----------

  function Need(tables: Tables, p: Path): nat {
    if p in tables then 0 else 1
  }

  /** How many of a page's tables are still to be made */
  function Missing(tables: Tables, v: Page): nat {
    Need(tables, Child(Top, v.i4)) + Need(tables, Pd(v)) + Need(tables, Pt(v))
  }

  /** While frame 0 is marked, no frame that is handed out is taken for NULL. */
  predicate NullMarked(m: Machine) {
    0 < |m.pages.used| && m.pages.used[0]
  }

  lemma StepCost(m: Machine, tables: Tables, root: nat, p: Path, i: nat)
    requires Sound(m, tables, root) && NullMarked(m) && p in tables && Depth(p) < 3 && i < 512
    requires NoLeaf(p, Entry(m.mem, tables[p], i))
    ensures var (m', next) := NextLevel(m, tables[p], i, true);
      var need := Need(tables, Child(p, i));
      && NullMarked(m')
      && (next == 0 <==> need > Clear(m.pages.used))
      && Clear(m'.pages.used) == if next == 0 then 0 else Clear(m.pages.used) - need
  {
    hide Present, Large, Writable, EntryFrame, Entry, MakeEntry;
    AllocTakesLowest(m.pages);
    CountAll(m.pages.used);
    FitsAt(m.mem, tables, root, p, i);
    if Child(p, i) in tables {
      HangsAt(m.mem, tables, root, Child(p, i));
    }
  }

  /** map_page succeeds exactly when there are as many clear frames as tables to make, and takes
      exactly those; when it fails it has taken every clear frame. */
  lemma DescentCost(m: Machine, tables: Tables, root: nat, v: Page)
    requires Sound(m, tables, root) && NullMarked(m) && IsPage(v) && !LargeIn(m.mem, tables, v)
    ensures var (m', table) := Descend(m, root, v, true);
      && NullMarked(m')
      && (table != 0 <==> Missing(tables, v) <= Clear(m.pages.used))
      && Clear(m'.pages.used) == if table == 0 then 0 else Clear(m.pages.used) - Missing(tables, v)
  {
    hide Present, Large, Writable, EntryFrame, Entry, NextLevel, Extends, Tree, Owned, Clear;
    var (m1, f1) := NextLevel(m, root, v.i4, true);
    NoLeafAbove(m.mem, tables, v);
    TablesHangTogether(m.mem, tables, root, v);
    var t1 := StepIsSound(m, tables, root, Top, v.i4);
    StepCost(m, tables, root, Top, v.i4);
    if f1 != 0 {
      var p1 := Child(Top, v.i4);
      var (m2, f2) := NextLevel(m1, f1, v.i3, true);
      ExtendsKeepsLarge(m, tables, m1, t1, v);
      NoLeafAbove(m1.mem, t1, v);
      var t2 := StepIsSound(m1, t1, root, p1, v.i3);
      StepCost(m1, t1, root, p1, v.i3);
      if f2 != 0 {
        ExtendsKeepsLarge(m1, t1, m2, t2, v);
        NoLeafAbove(m2.mem, t2, v);
        StepCost(m2, t2, root, Pd(v), v.i2);
      }
    }
  }

  lemma TablesHangTogether(mem: Memory, tables: Tables, root: nat, v: Page)
    requires Tree(mem, tables, root)
    ensures Top in tables && tables[Top] == root
    ensures Pt(v) in tables ==> Pd(v) in tables
    ensures Pd(v) in tables ==> Child(Top, v.i4) in tables
  {
    hide Present, Large, Writable, EntryFrame, Entry;
    if Pt(v) in tables {
      HangsAt(mem, tables, root, Pt(v));
    }
    if Pd(v) in tables {
      HangsAt(mem, tables, root, Pd(v));
    }
  }

  // ---------- Pages under a 2 MiB leaf ----------

  lemma LargeFrameIsLeaf(m: Machine, tables: Tables, root: nat, v: Page)
    requires Sound(m, tables, root) && IsPage(v) && OnLarge(m.mem, root, v)
    ensures var f := LargeFrame(m.mem, root, v);
      && f > 0 && InMemory(m.mem, f)
      && FrameOf(Walk(m.mem, root, v)) == Some(f / 512 * 512 + v.i1)
      && (forall create :: Descend(m, root, v, create) == (m, f))
      && SoftwareWalk(m.mem, root, v) ==
         var e := Entry(m.mem, f, v.i1); if Present(e) then Some(EntryFrame(e)) else None
  {
    hide Present, Large, Writable, EntryFrame, Entry;
    FitsAt(m.mem, tables, root, Top, v.i4);
    var p1 := Child(Top, v.i4);
    FitsAt(m.mem, tables, root, p1, v.i3);
    assert Depth(Pd(v)) == 2;
    FitsAt(m.mem, tables, root, Pd(v), v.i2);
  }

  /** A store into a frame that is no table moves no translation. */
  lemma DataStoreKeepsWalks(m: Machine, tables: Tables, root: nat, f: nat, i: nat, e: Word)
    requires Sound(m, tables, root) && f !in tables.Values && InMemory(m.mem, f) && i < 512
    ensures var m' := m.(mem := SetEntry(m.mem, f, i, e));
      Sound(m', tables, root) && SameWalks(m, m', root) && SameLarge(m, m', root)
  {
    hide Present, Large, Writable, EntryFrame, Entry, SetEntry, Slot, Walk, OnLarge;
    var m' := m.(mem := SetEntry(m.mem, f, i, e));
    forall q, k: nat | q in tables && k < 512
      ensures Entry(m'.mem, tables[q], k) == Entry(m.mem, tables[q], k)
    {
      assert tables[q] in tables.Values;
    }
    forall q, k | q in tables && Depth(q) < 3 && 0 <= k < 512
      ensures EntryFits(m'.mem, tables, q, k)
    {
      FitsAt(m.mem, tables, root, q, k);
    }
    forall q | q in tables
      ensures Hangs(m'.mem, tables, q)
    {
      HangsAt(m.mem, tables, root, q);
    }
    forall u | IsPage(u)
      ensures Walk(m'.mem, root, u) == Walk(m.mem, root, u)
      ensures LeafFrame(m'.mem, root, u) == LeafFrame(m.mem, root, u) && OnLarge(m'.mem, root, u) == OnLarge(m.mem, root, u)
    {
      WalkIsLookup(m.mem, tables, root, u);
      WalkIsLookup(m'.mem, tables, root, u);
    }
  }

  /** map_page and unmap_page under a 2 MiB leaf overwrite one word of the frame of the leaf. Unless that
      frame is a table, every translation stays. */
  lemma StoreUnderLarge(m: Machine, tables: Tables, root: nat, virt: Word, phys: Word, flags: Word)
    requires Sound(m, tables, root) && OnLarge(m.mem, root, PageOf(virt))
    ensures var v := PageOf(virt); var f := LargeFrame(m.mem, root, v);
      var mapped, unmapped := Map(m, root, virt, phys, flags), Unmap(m, root, virt);
      && InMemory(m.mem, f)
      && mapped == m.(mem := SetEntry(m.mem, f, v.i1, MakeEntry(EntryFrame(phys), flags)))
      && unmapped == m.(mem := SetEntry(m.mem, f, v.i1, 0))
      && (f !in tables.Values ==>
        && SameWalks(m, mapped, root) && SameLarge(m, mapped, root) && Sound(mapped, tables, root)
        && SameWalks(m, unmapped, root) && SameLarge(m, unmapped, root) && Sound(unmapped, tables, root))
  {
    hide Present, Large, Writable, EntryFrame, Entry, SetEntry, Walk, OnLarge, PageOf, Tree, LargeFrame;
    var v := PageOf(virt);
    LargeFrameIsLeaf(m, tables, root, v);
    var f := LargeFrame(m.mem, root, v);
    if f !in tables.Values {
      DataStoreKeepsWalks(m, tables, root, f, v.i1, MakeEntry(EntryFrame(phys), flags));
      DataStoreKeepsWalks(m, tables, root, f, v.i1, 0);
    }
  }

  /** A frame the processor's walk takes for a table on its way to a page */
  predicate TableOnWay(mem: Memory, root: nat, v: Page, f: nat)
    requires IsPage(v)
  {
    var e4 := Entry(mem, root, v.i4);
    Present(e4) && (EntryFrame(e4) == f ||
      var e3 := Entry(mem, EntryFrame(e4), v.i3);
      Present(e3) && (EntryFrame(e3) == f ||
        var e2 := Entry(mem, EntryFrame(e3), v.i2);
        Present(e2) && !Large(e2) && EntryFrame(e2) == f))
  }

  /** The root, or a table on the way to some page */
  ghost predicate LiveTable(mem: Memory, root: nat, f: nat) {
    f == root || exists v :: IsPage(v) && TableOnWay(mem, root, v, f)
  }

  lemma LiveTables(mem: Memory, tables: Tables, root: nat, f: nat)
    requires Tree(mem, tables, root)
    ensures LiveTable(mem, root, f) <==> f in tables.Values
  {
    hide Present, Large, Writable, EntryFrame, Entry, TableOnWay;
    assert Top in tables && tables[Top] == root;
    if f in tables.Values {
      var p :| p in tables && tables[p] == f;
      TreeTableIsLive(mem, tables, root, p);
    } else if exists v :: IsPage(v) && TableOnWay(mem, root, v, f) {
      var v :| IsPage(v) && TableOnWay(mem, root, v, f);
      TableOnWayIsInTree(mem, tables, root, v, f);
    }
  }

  lemma TableOnWayIsInTree(mem: Memory, tables: Tables, root: nat, v: Page, f: nat)
    requires Tree(mem, tables, root) && IsPage(v) && TableOnWay(mem, root, v, f)
    ensures f in tables.Values
  {
    hide Present, Large, Writable, EntryFrame, Entry;
    FitsAt(mem, tables, root, Top, v.i4);
    var p1 := Child(Top, v.i4);
    FitsAt(mem, tables, root, p1, v.i3);
    if Pd(v) in tables {
      DepthOfTables(v);
      FitsAt(mem, tables, root, Pd(v), v.i2);
    }
  }

  lemma TreeTableIsLive(mem: Memory, tables: Tables, root: nat, p: Path)
    requires Tree(mem, tables, root) && p in tables
    ensures LiveTable(mem, root, tables[p])
  {
    hide Present, Large, Writable, EntryFrame, Entry;
    if p.Sub? {
      HangsAt(mem, tables, root, p);
      FitsAt(mem, tables, root, p.up, p.slot);
      if p.up.Sub? {
        HangsAt(mem, tables, root, p.up);
        FitsAt(mem, tables, root, p.up.up, p.up.slot);
        if p.up.up.Sub? {
          HangsAt(mem, tables, root, p.up.up);
          FitsAt(mem, tables, root, p.up.up.up, p.up.up.slot);
          assert p.up.up.up == Top;
          assert TableOnWay(mem, root, Page(p.up.up.slot, p.up.slot, p.slot, 0), tables[p]);
        } else {
          assert TableOnWay(mem, root, Page(p.up.slot, p.slot, 0, 0), tables[p]);
        }
      } else {
        assert TableOnWay(mem, root, Page(p.slot, 0, 0, 0), tables[p]);
      }
    }
  }

  /** Exactly when map_page and unmap_page do what they are called for. Under a 2 MiB leaf neither does
      anything to the page, which map_page may find mapped as asked; elsewhere map_page needs a clear
      frame for every table missing and unmap_page always works. */
  lemma MapWorksIff(m: Machine, tables: Tables, root: nat, virt: Word, phys: Word, flags: Word)
    requires Sound(m, tables, root) && NullMarked(m)
    requires OnLarge(m.mem, root, PageOf(virt)) ==> LargeFrame(m.mem, root, PageOf(virt)) !in tables.Values
    ensures var v := PageOf(virt);
      Walk(Map(m, root, virt, phys, flags).mem, root, v) == Some(Asked(phys, flags)) <==>
        if OnLarge(m.mem, root, v) then Walk(m.mem, root, v) == Some(Asked(phys, flags))
        else Missing(tables, v) <= Clear(m.pages.used)
    ensures Walk(Unmap(m, root, virt).mem, root, PageOf(virt)) == None <==> !OnLarge(m.mem, root, PageOf(virt))
  {
    hide Present, Large, Writable, EntryFrame, Entry, SetEntry, Walk, OnLarge, PageOf, Tree, Map, Unmap, LargeFrame, Descend;
    var v := PageOf(virt);
    if OnLarge(m.mem, root, v) {
      StoreUnderLarge(m, tables, root, virt, phys, flags);
      LargeFrameIsLeaf(m, tables, root, v);
    } else {
      var t := MapIsExact(m, tables, root, virt, phys, flags);
      UnmapIsExact(m, tables, root, virt);
      WalkIsLookup(m.mem, tables, root, v);
      DescentCost(m, tables, root, v);
      TablesHangTogether(m.mem, tables, root, v);
      CountAll(m.pages.used);
    }
  }
}
