/** vmm_map_framebuffer: the display mapped page by page into an empty window of the address space. */
module Window {
  import opened Bits
  import opened Pages
  import opened Paging
  import opened PageTables
  import opened BootAbi
  import opened Wrappers

  /** VMM_FRAMEBUFFER_BASE */
  const BASE := 0xFFFF_9000_0000_0000

  const FIRST_SLOT := 288
  const SLOTS := 64
  const PT_PAGES := 0x200
  const PD_PAGES := 0x4_0000
  const PDPT_PAGES := 0x800_0000

  /** Pages in the window: root slots 288 to 351 */
  const WINDOW_PAGES := 0x2_0000_0000

  /** Page n of the window mapped to page n from a physical base */
  function MapNth(m: Machine, root: nat, physical: Word, n: nat): Machine {
    Map(m, root, (BASE + n * PAGE_SIZE) % WORD_LIMIT, (physical + n * PAGE_SIZE) % WORD_LIMIT, WRITABLE)
  }

  /** The first n pages of the window, mapped in order */
  function MapRange(m: Machine, root: nat, physical: Word, n: nat): Machine {
    if n == 0 then m else MapNth(MapRange(m, root, physical, n - 1), root, physical, n - 1)
  }

  // ---------- Where the pages of the window lie ----------

  function Slot1(a: nat): Path { Sub(Top, FIRST_SLOT + a) }
  function Slot2(q: nat): Path { Sub(Slot1(q / 512), q % 512) }
  function Slot3(r: nat): Path { Sub(Slot2(r / 512), r % 512) }

  function WindowPage(n: nat): Page {
    Page(FIRST_SLOT + n / PDPT_PAGES, n / PD_PAGES % 512, n / PT_PAGES % 512, n % 512)
  }

  lemma PageOfWindow(n: nat)
    requires n < WINDOW_PAGES
    ensures BASE + n * PAGE_SIZE < WORD_LIMIT
    ensures PageOf(BASE + n * PAGE_SIZE) == WindowPage(n) && IsPage(WindowPage(n))
    ensures Canonical(BASE + n * PAGE_SIZE)
    ensures FIRST_SLOT <= WindowPage(n).i4 < FIRST_SLOT + SLOTS
  {
    var virt := BASE + n * PAGE_SIZE;
    // BASE is 0x1FFFF20 blocks of 2^39 bytes, and 0x1FFFF20 mod 512 is 288
    var c := 0x1FF_FF20;
    DivModUnique(virt, 0x1000, c * 0x800_0000 + n, 0);
    DivModUnique(virt, 0x20_0000, c * 0x4_0000 + n / 512, n % 512 * 0x1000);
    DivModUnique(virt, 0x4000_0000, c * 512 + n / PD_PAGES, n % PD_PAGES * 0x1000);
    DivModUnique(virt, 0x80_0000_0000, c + n / PDPT_PAGES, n % PDPT_PAGES * 0x1000);
    SameRemainder(c * 0x4_0000, n);
    SameRemainder(c * 512, n / 512);
    SameRemainder(c, n / PD_PAGES);
    DivModUnique(c + n / PDPT_PAGES, 512, 0xFFFF, FIRST_SLOT + n / PDPT_PAGES);
  }

  lemma MapNthInWindow(m: Machine, root: nat, physical: Word, n: nat)
    requires n < WINDOW_PAGES
    ensures BASE + n * PAGE_SIZE < WORD_LIMIT
    ensures MapNth(m, root, physical, n) ==
      Map(m, root, BASE + n * PAGE_SIZE, (physical + n * PAGE_SIZE) % WORD_LIMIT, WRITABLE)
  {
    hide Map;
    DivModUnique(BASE + n * PAGE_SIZE, WORD_LIMIT, 0, BASE + n * PAGE_SIZE);
  }

  lemma DivideAgain(n: nat)
    ensures n / PT_PAGES / 512 == n / PD_PAGES && n / PD_PAGES / 512 == n / PDPT_PAGES
  {
  }

  lemma TablesOfWindow(n: nat)
    requires n < WINDOW_PAGES
    ensures Child(Top, WindowPage(n).i4) == Slot1(n / PDPT_PAGES)
    ensures Pd(WindowPage(n)) == Slot2(n / PD_PAGES)
    ensures Pt(WindowPage(n)) == Slot3(n / PT_PAGES)
  {
    DivideAgain(n);
  }

  lemma WindowPagesDiffer(j: nat, k: nat)
    requires j < WINDOW_PAGES && k < WINDOW_PAGES && SamePage(WindowPage(j), WindowPage(k))
    ensures j == k
  {
    DivideAgain(j);
    DivideAgain(k);
    assert j / PD_PAGES == j / PDPT_PAGES * 512 + j / PD_PAGES % 512;
    assert k / PD_PAGES == k / PDPT_PAGES * 512 + k / PD_PAGES % 512;
    assert j / PT_PAGES == j / PD_PAGES * 512 + j / PT_PAGES % 512;
    assert k / PT_PAGES == k / PD_PAGES * 512 + k / PT_PAGES % 512;
  }

  // ---------- What mapping a range costs ----------

  function CeilDiv(n: nat, d: nat): nat
    requires d > 0
  {
    (n + d - 1) / d
  }

  /** Tables for n pages of an empty window */
  function RangeCost(n: nat): nat {
    CeilDiv(n, PT_PAGES) + CeilDiv(n, PD_PAGES) + CeilDiv(n, PDPT_PAGES)
  }

  function Starts(n: nat, d: nat): nat
    requires d > 0
  {
    if n % d == 0 then 1 else 0
  }

  lemma CeilDivNext(n: nat, d: nat)
    requires d > 0
    ensures CeilDiv(n + 1, d) == CeilDiv(n, d) + Starts(n, d)
    ensures CeilDiv(n + 1, d) == n / d + 1
  {
    var q, r := n / d, n % d;
    assert n == d * q + r;
    DivModUnique(n + d, d, q + 1, r);
    if r == 0 {
      DivModUnique(n + d - 1, d, q, d - 1);
    } else {
      DivModUnique(n + d - 1, d, q + 1, r - 1);
    }
  }

  /** The window's tables after its first n pages are mapped */
  ghost predicate Filled(tables: Tables, n: nat) {
    && (forall a: nat {:trigger Slot1(a)} :: a < SLOTS ==> (Slot1(a) in tables <==> a * PDPT_PAGES < n))
    && (forall q: nat {:trigger Slot2(q)} :: q < SLOTS * 512 ==> (Slot2(q) in tables <==> q * PD_PAGES < n))
    && (forall r: nat {:trigger Slot3(r)} :: r < SLOTS * 0x4_0000 ==> (Slot3(r) in tables <==> r * PT_PAGES < n))
  }

  lemma FilledNext(tables: Tables, tables': Tables, n: nat)
    requires n < WINDOW_PAGES && Filled(tables, n)
    requires tables'.Keys == tables.Keys + TablesOf(WindowPage(n))
    ensures Filled(tables', n + 1)
    ensures Missing(tables, WindowPage(n)) == Starts(n, PT_PAGES) + Starts(n, PD_PAGES) + Starts(n, PDPT_PAGES)
  {
    TablesOfWindow(n);
    Multiples(n, PT_PAGES);
    Multiples(n, PD_PAGES);
    Multiples(n, PDPT_PAGES);
    forall a: nat | a < SLOTS
      ensures Slot1(a) in tables' <==> a * PDPT_PAGES < n + 1
    {
    }
    forall q: nat | q < SLOTS * 512
      ensures Slot2(q) in tables' <==> q * PD_PAGES < n + 1
    {
      assert Slot2(q) == Slot2(n / PD_PAGES) ==> q == n / PD_PAGES by {
        assert q == q / 512 * 512 + q % 512;
      }
      assert Slot2(q) in tables' <==> Slot2(q) in tables || q == n / PD_PAGES;
    }
    forall r: nat | r < SLOTS * 0x4_0000
      ensures Slot3(r) in tables' <==> r * PT_PAGES < n + 1
    {
      assert Slot3(r) == Slot3(n / PT_PAGES) ==> r == n / PT_PAGES by {
        assert r == r / 512 * 512 + r % 512;
      }
      assert Slot3(r) in tables' <==> Slot3(r) in tables || r == n / PT_PAGES;
    }
  }

  /** A multiple of d lies below n + 1 when it lies below n or is the one n starts. */
  lemma Multiples(n: nat, d: nat)
    requires d > 0
    ensures n / d * d <= n
    ensures n / d * d < n <==> n % d != 0
    ensures forall a: nat {:trigger a * d} :: a * d < n + 1 <==> a * d < n || (a == n / d)
  {
    var q, r := n / d, n % d;
    assert n == q * d + r;
    forall a: nat
      ensures a * d < n + 1 <==> a * d < n || a == q
    {
      if a * d == n {
        DivModUnique(n, d, a, 0);
      }
    }
  }

  // ---------- Mapping a range ----------

  /** The machine has no table in the window yet. */
  ghost predicate Ready(m: Machine, tables: Tables, root: nat) {
    Sound(m, tables, root) && Filled(tables, 0)
  }

  predicate InWindow(v: Page) {
    FIRST_SLOT <= v.i4 < FIRST_SLOT + SLOTS
  }

  lemma EmptyWindow(mem: Memory, tables: Tables, root: nat, v: Page)
    requires Tree(mem, tables, root) && Filled(tables, 0) && IsPage(v) && InWindow(v)
    ensures Walk(mem, root, v) == None && !OnLarge(mem, root, v)
  {
    hide Present, Large, Writable, EntryFrame, Entry, EntryFits, Walk, OnLarge;
    WalkIsLookup(mem, tables, root, v);
    var a := v.i4 - FIRST_SLOT;
    assert Slot1(a) !in tables;
    TablesHangTogether(mem, tables, root, v);
    assert Child(Top, v.i4) == Slot1(a);
  }

  /** However many frames there are: the tables stay a tree, data is not written, pages outside
      the window keep their translation and no page of it comes under a large leaf. */
  lemma {:induction false} RangeIsSound(m: Machine, tables: Tables, root: nat, physical: Word, n: nat)
    returns (tables': Tables)
    requires Ready(m, tables, root) && n <= WINDOW_PAGES
    ensures var m' := MapRange(m, root, physical, n);
      && Sound(m', tables', root) && TablesGrow(m, tables, m', tables') && DataKept(m, m', tables')
      && SameLarge(m, m', root)
      && forall u :: IsPage(u) && !InWindow(u) ==> Walk(m'.mem, root, u) == Walk(m.mem, root, u)
  {
    hide Tree, Walk, OnLarge, Map, PageOf, MapReaches, Filled, WindowPage, Entry, Slot;
    if n == 0 {
      tables' := tables;
    } else {
      var t := RangeIsSound(m, tables, root, physical, n - 1);
      var k := MapRange(m, root, physical, n - 1);
      var k' := MapRange(m, root, physical, n);
      PageOfWindow(n - 1);
      EmptyWindow(m.mem, tables, root, WindowPage(n - 1));
      tables' := MapIsExact(k, t, root, BASE + (n - 1) * PAGE_SIZE,
        (physical + (n - 1) * PAGE_SIZE) % WORD_LIMIT, WRITABLE);
      GrowTwice(m, tables, k, t, k', tables');
      forall u | IsPage(u) && !InWindow(u)
        ensures Walk(k'.mem, root, u) == Walk(m.mem, root, u)
      {
        OutsideDiffers(u, WindowPage(n - 1));
        assert Walk(k.mem, root, u) == Walk(m.mem, root, u);
      }
    }
  }

  lemma OutsideDiffers(u: Page, v: Page)
    requires InWindow(v) && !InWindow(u)
    ensures !SamePage(u, v)
  {
  }

  lemma GrowTwice(m: Machine, t: Tables, m1: Machine, t1: Tables, m2: Machine, t2: Tables)
    requires TablesGrow(m, t, m1, t1) && DataKept(m, m1, t1) && TablesGrow(m1, t1, m2, t2) && DataKept(m1, m2, t2)
    ensures TablesGrow(m, t, m2, t2) && DataKept(m, m2, t2)
  {
    hide Entry;
    forall q | q in t1
      ensures t1[q] in t2.Values
    {
      assert t2[q] == t1[q];
    }
    forall f: nat, k: nat | k < 512 && f !in t2.Values
      ensures Entry(m2.mem, f, k) == Entry(m.mem, f, k)
    {
      assert Entry(m1.mem, f, k) == Entry(m.mem, f, k);
    }
  }

  /** The frame that the n-th page of the window should show */
  function WindowFrame(physical: Word, n: nat): nat {
    EntryFrame((physical + n * PAGE_SIZE) % WORD_LIMIT)
  }

  /** With enough clear frames every page of the range is mapped, and exactly RangeCost(n) frames go. */
  lemma {:induction false} RangeIsMapped(m: Machine, tables: Tables, root: nat, physical: Word, n: nat)
    returns (tables': Tables)
    requires Ready(m, tables, root) && NullMarked(m) && n <= WINDOW_PAGES
    requires RangeCost(n) <= Clear(m.pages.used)
    ensures var m' := MapRange(m, root, physical, n);
      && Sound(m', tables', root) && Filled(tables', n) && NullMarked(m') && SameLarge(m, m', root)
      && Clear(m'.pages.used) == Clear(m.pages.used) - RangeCost(n)
      && Shows(m', root, physical, n)
  {
    hide Tree, Walk, OnLarge, PageOf, Filled, WindowPage, Entry, Slot, Clear, Missing, EntryFrame, MapRange,
      OnlyMoves, Shows, MapNth, RangeCost;
    MapRangeUnfolds(m, root, physical, n);
    if n == 0 {
      assert RangeCost(0) == 0 by { RangeCostZero(); }
      assert Shows(m, root, physical, 0) by { ShowsNothing(m, root, physical); }
      tables' := tables;
    } else {
      RangeCostNext(n - 1);
      var t := RangeIsMapped(m, tables, root, physical, n - 1);
      var k := MapRange(m, root, physical, n - 1);
      PageOfWindow(n - 1);
      EmptyWindow(m.mem, tables, root, WindowPage(n - 1));
      tables' := NextPage(k, t, root, physical, n - 1);
      ShowsOneMore(k, MapNth(k, root, physical, n - 1), root, physical, n - 1);
    }
  }

  lemma RangeCostZero()
    ensures RangeCost(0) == 0
  {
  }

  lemma ShowsNothing(m: Machine, root: nat, physical: Word)
    ensures Shows(m, root, physical, 0)
  {
  }

  lemma RangeCostNext(n: nat)
    ensures RangeCost(n + 1) == RangeCost(n) + Starts(n, PT_PAGES) + Starts(n, PD_PAGES) + Starts(n, PDPT_PAGES)
  {
    CeilDivNext(n, PT_PAGES);
    CeilDivNext(n, PD_PAGES);
    CeilDivNext(n, PDPT_PAGES);
  }

  /** One page further: it is mapped exactly when its missing tables can be had. */
  lemma NextPage(k: Machine, t: Tables, root: nat, physical: Word, n: nat) returns (tables': Tables)
    requires Sound(k, t, root) && Filled(t, n) && NullMarked(k) && n < WINDOW_PAGES
    requires IsPage(WindowPage(n)) && !OnLarge(k.mem, root, WindowPage(n))
    ensures var k' := MapNth(k, root, physical, n);
      var cost := RangeCost(n + 1) - RangeCost(n);
      && Sound(k', tables', root) && NullMarked(k') && SameLarge(k, k', root)
      && (cost <= Clear(k.pages.used) ==>
           && Filled(tables', n + 1) && Clear(k'.pages.used) == Clear(k.pages.used) - cost
           && OnlyMoves(k, k', root, WindowPage(n), Some(Mapping(WindowFrame(physical, n), true))))
      && (cost > Clear(k.pages.used) ==> SameWalks(k, k', root))
  {
    hide Tree, Walk, OnLarge, PageOf, Filled, WindowPage, Entry, Slot, Clear, Missing, EntryFrame, Descend,
      TablesGrow, DataKept, OnlyMoves, SameWalks, SameLarge, RangeCost, MapNth;
    var v := WindowPage(n);
    MapNthInWindow(k, root, physical, n);
    PageOfWindow(n);
    RangeCostNext(n);
    var virt := BASE + n * PAGE_SIZE;
    WalkIsLookup(k.mem, t, root, v);
    DescentCost(k, t, root, v);
    tables' := MapIsExact(k, t, root, virt, (physical + n * PAGE_SIZE) % WORD_LIMIT, WRITABLE);
    FilledCosts(t, n);
    if MapReaches(k, root, virt) {
      FilledNext(t, tables', n);
    }
  }

  lemma FilledCosts(tables: Tables, n: nat)
    requires n < WINDOW_PAGES && Filled(tables, n)
    ensures Missing(tables, WindowPage(n)) == Starts(n, PT_PAGES) + Starts(n, PD_PAGES) + Starts(n, PDPT_PAGES)
  {
    TablesOfWindow(n);
    Multiples(n, PT_PAGES);
    Multiples(n, PD_PAGES);
    Multiples(n, PDPT_PAGES);
  }

  lemma WindowPagesArePages()
    ensures forall k: nat {:trigger WindowPage(k)} :: k < WINDOW_PAGES ==> IsPage(WindowPage(k))
  {
    forall k: nat | k < WINDOW_PAGES
      ensures IsPage(WindowPage(k))
    {
      PageOfWindow(k);
    }
  }

  ghost predicate Shows(k: Machine, root: nat, physical: Word, n: nat)
    requires n <= WINDOW_PAGES
  {
    forall j: nat {:trigger WindowPage(j)} :: j < n ==>
      IsPage(WindowPage(j)) && Walk(k.mem, root, WindowPage(j)) == Some(Mapping(WindowFrame(physical, j), true))
  }

  lemma ShowsOneMore(k: Machine, k': Machine, root: nat, physical: Word, n: nat)
    requires n < WINDOW_PAGES && Shows(k, root, physical, n)
    requires OnlyMoves(k, k', root, WindowPage(n), Some(Mapping(WindowFrame(physical, n), true)))
    ensures Shows(k', root, physical, n + 1)
  {
    hide Walk, WindowPage, WindowFrame, SamePage;
    WindowPagesArePages();
    forall j: nat | j < n + 1
      ensures Walk(k'.mem, root, WindowPage(j)) == Some(Mapping(WindowFrame(physical, j), true))
    {
      if SamePage(WindowPage(j), WindowPage(n)) {
        WindowPagesDiffer(j, n);
      } else if j == n {
        SamePageReflexive(WindowPage(j));
      }
    }
  }

  lemma SamePageReflexive(v: Page)
    ensures SamePage(v, v)
  {
  }

  /** With too few, some page of the range is left unmapped: the call does not notice. */
  lemma {:induction false} RangeFallsShort(m: Machine, tables: Tables, root: nat, physical: Word, n: nat)
    returns (k: nat)
    requires Ready(m, tables, root) && NullMarked(m) && n <= WINDOW_PAGES
    requires RangeCost(n) > Clear(m.pages.used)
    ensures k < n && IsPage(WindowPage(k)) && Walk(MapRange(m, root, physical, n).mem, root, WindowPage(k)) == None
  {
    hide Tree, Walk, OnLarge, PageOf, Filled, WindowPage, Entry, Slot, Clear, Missing, EntryFrame, MapRange,
      OnlyMoves, Shows, MapNth, RangeCost, WindowFrame;
    assert n > 0 by { RangeCostZero(); }
    var before := MapRange(m, root, physical, n - 1);
    MapRangeUnfolds(m, root, physical, n);
    if RangeCost(n - 1) <= Clear(m.pages.used) {
      var t := RangeIsMapped(m, tables, root, physical, n - 1);
      k := n - 1;
      PageOfWindow(k);
      EmptyWindow(m.mem, tables, root, WindowPage(k));
      var t' := NextPage(before, t, root, physical, k);
      UnmappedSoFar(m, tables, root, physical, n - 1, k);
    } else {
      k := RangeFallsShort(m, tables, root, physical, n - 1);
      LaterPagesDoNotMap(m, tables, root, physical, n, k);
    }
  }

  /** A page of the window past the range has no translation. */
  lemma {:induction false} UnmappedSoFar(m: Machine, tables: Tables, root: nat, physical: Word, n: nat, k: nat)
    requires Ready(m, tables, root) && n <= k < WINDOW_PAGES
    ensures IsPage(WindowPage(k)) && Walk(MapRange(m, root, physical, n).mem, root, WindowPage(k)) == None
  {
    hide Tree, Walk, OnLarge, PageOf, Filled, WindowPage, Entry, Slot, MapRange, SamePage;
    PageOfWindow(k);
    if n == 0 {
      EmptyWindow(m.mem, tables, root, WindowPage(k));
      assert MapRange(m, root, physical, 0) == m by { MapRangeUnfolds(m, root, physical, 0); }
    } else {
      UnmappedSoFar(m, tables, root, physical, n - 1, k);
      LaterPagesDoNotMap(m, tables, root, physical, n, k);
    }
  }

  lemma MapRangeUnfolds(m: Machine, root: nat, physical: Word, n: nat)
    ensures n == 0 ==> MapRange(m, root, physical, n) == m
    ensures n > 0 ==> MapRange(m, root, physical, n) == MapNth(MapRange(m, root, physical, n - 1), root, physical, n - 1)
  {
    hide Map, MapNth;
  }

  /** Mapping the last page of a range moves no other page of the window. */
  lemma LaterPagesDoNotMap(m: Machine, tables: Tables, root: nat, physical: Word, n: nat, k: nat)
    requires Ready(m, tables, root) && 0 < n <= WINDOW_PAGES && k < WINDOW_PAGES && k != n - 1
    ensures IsPage(WindowPage(k))
    ensures Walk(MapRange(m, root, physical, n).mem, root, WindowPage(k)) ==
      Walk(MapRange(m, root, physical, n - 1).mem, root, WindowPage(k))
  {
    hide Tree, Walk, OnLarge, PageOf, Filled, WindowPage, Entry, Slot, MapRange, SamePage, Map, MapReaches;
    var t := RangeIsSound(m, tables, root, physical, n - 1);
    var before := MapRange(m, root, physical, n - 1);
    PageOfWindow(n - 1);
    PageOfWindow(k);
    EmptyWindow(m.mem, tables, root, WindowPage(n - 1));
    MapRangeUnfolds(m, root, physical, n);
    var t' := MapIsExact(before, t, root, BASE + (n - 1) * PAGE_SIZE,
      (physical + (n - 1) * PAGE_SIZE) % WORD_LIMIT, WRITABLE);
    if SamePage(WindowPage(k), WindowPage(n - 1)) {
      WindowPagesDiffer(k, n - 1);
    }
  }

  // ---------- The framebuffer ----------

  function PhysicalOffset(fb: Framebuffer): (o: nat)
    ensures o < PAGE_SIZE && o <= fb.address
  {
    fb.address % PAGE_SIZE
  }

  function PhysicalBase(fb: Framebuffer): (b: Word)
    ensures b == fb.address / PAGE_SIZE * PAGE_SIZE
  {
    fb.address - PhysicalOffset(fb)
  }

  function ByteCount(fb: Framebuffer): nat {
    fb.pitch * fb.height
  }

  /** Pages from the one holding the first byte to the one holding the last */
  function PagesOf(fb: Framebuffer): nat {
    CeilDiv(PhysicalOffset(fb) + ByteCount(fb), PAGE_SIZE)
  }

  /** The bytes of the display, and from where they are mapped, in the descriptor's own fields */
  lemma BytesOf(fb: Framebuffer)
    ensures ByteCount(fb) == fb.pitch * fb.height
    ensures PhysicalBase(fb) % 4096 == 0 && PhysicalBase(fb) <= fb.address < PhysicalBase(fb) + 4096
    ensures PhysicalBase(fb) + PhysicalOffset(fb) == fb.address
  {
  }

  predicate Refused(fb: Framebuffer) {
    || fb.address == 0 || fb.width == 0 || fb.height == 0 || fb.pitch == 0 || fb.bpp == 0
    || ByteCount(fb) > WORD_LIMIT - 1 - PhysicalOffset(fb)
  }

  /** vmm_map_framebuffer: the machine after it, and the address it returns (0 for NULL) */
  function MapFramebuffer(m: Machine, root: nat, fb: Framebuffer): (Machine, Word) {
    if Refused(fb) then (m, 0)
    else
      var offset := PhysicalOffset(fb);
      (MapRange(m, root, PhysicalBase(fb), PagesOf(fb)), (BASE + offset) % WORD_LIMIT)
  }

  /** NULL is returned exactly for a descriptor with a field of 0, and then nothing is mapped. */
  lemma NullIff(m: Machine, root: nat, fb: Framebuffer)
    ensures MapFramebuffer(m, root, fb).1 == 0 <==>
      fb.address == 0 || fb.width == 0 || fb.height == 0 || fb.pitch == 0 || fb.bpp == 0
    ensures MapFramebuffer(m, root, fb).1 == 0 ==> MapFramebuffer(m, root, fb).0 == m
  {
    hide MapRange;
    MulMonotone(fb.pitch, 0xFFFF_FFFF, fb.height, 0xFFFF_FFFF);
    var window := BASE + PhysicalOffset(fb);
    DivModUnique(window, WORD_LIMIT, 0, window);
  }

  /** The page and the offset in it at which byte k of the framebuffer shows */
  lemma BytePlace(fb: Framebuffer, k: nat)
    requires Accepted(fb) && k < ByteCount(fb)
    ensures !Refused(fb) && PagesOf(fb) <= WINDOW_PAGES
    ensures var offset := PhysicalOffset(fb);
      var n := (offset + k) / PAGE_SIZE;
      && n < PagesOf(fb)
      && BASE + offset + k < WORD_LIMIT
      && BASE + offset + k == BASE + n * PAGE_SIZE + (offset + k) % PAGE_SIZE
      && WindowFrame(PhysicalBase(fb), n) * PAGE_SIZE + (offset + k) % PAGE_SIZE ==
         (fb.address + k) % (FRAME_LIMIT * PAGE_SIZE)
  {
    hide ByteCount, Accepted, EntryFrame, Refused, CeilDiv, PhysicalBase;
    BytesFit(fb);
    var offset := PhysicalOffset(fb);
    var n, o := (offset + k) / PAGE_SIZE, (offset + k) % PAGE_SIZE;
    var b := fb.address / PAGE_SIZE;
    assert fb.address == b * PAGE_SIZE + offset;
    assert offset + k == n * PAGE_SIZE + o;
    PageIndexBound(offset + k, offset + ByteCount(fb));
    assert PhysicalBase(fb) + n * PAGE_SIZE == (b + n) * PAGE_SIZE;
    FrameOfBlock(b + n);
    assert fb.address + k == (b + n) * PAGE_SIZE + o;
    BlockAndOffset(b + n, o);
  }

  lemma PageIndexBound(x: nat, total: nat)
    requires x < total
    ensures x / PAGE_SIZE < CeilDiv(total, PAGE_SIZE)
  {
  }

  lemma LastPage(total: nat, n: nat)
    requires n <= CeilDiv(total, PAGE_SIZE) && n * PAGE_SIZE >= total
    ensures n == CeilDiv(total, PAGE_SIZE)
  {
  }

  lemma FrameOfBlock(x: nat)
    ensures EntryFrame((x * PAGE_SIZE) % WORD_LIMIT) == x % FRAME_LIMIT
  {
    var blocks := WORD_LIMIT / PAGE_SIZE;
    var q, r := x / blocks, x % blocks;
    DivModUnique(x * PAGE_SIZE, WORD_LIMIT, q, r * PAGE_SIZE);
    DivModUnique(r * PAGE_SIZE, 0x1000, r, 0);
    DivModUnique(x, FRAME_LIMIT, q * 0x1000 + r / FRAME_LIMIT, r % FRAME_LIMIT);
  }

  lemma BlockAndOffset(x: nat, o: nat)
    requires o < PAGE_SIZE
    ensures (x * PAGE_SIZE + o) % (FRAME_LIMIT * PAGE_SIZE) == x % FRAME_LIMIT * PAGE_SIZE + o
  {
    DivModUnique(x * PAGE_SIZE + o, FRAME_LIMIT * PAGE_SIZE, x / FRAME_LIMIT, x % FRAME_LIMIT * PAGE_SIZE + o);
  }

  lemma BytesFit(fb: Framebuffer)
    requires Accepted(fb)
    ensures fb.pitch > 0
    ensures PhysicalOffset(fb) + ByteCount(fb) <= WINDOW_PAGES * PAGE_SIZE
    ensures PagesOf(fb) <= WINDOW_PAGES && !Refused(fb)
  {
    assert fb.width * (fb.bpp / 8) >= fb.width by { MulAtLeast(fb.bpp / 8, fb.width); }
    assert fb.pitch * fb.height <= 0xFFFF_FFFF * MAX_DIMENSION by {
      MulMonotone(fb.pitch, 0xFFFF_FFFF, fb.height, MAX_DIMENSION);
    }
  }

  lemma ByteTranslates(mem: Memory, root: nat, n: nat, o: nat)
    requires n < WINDOW_PAGES && o < PAGE_SIZE && IsPage(WindowPage(n))
    requires BASE + n * PAGE_SIZE + o < WORD_LIMIT
    ensures Translate(mem, root, BASE + n * PAGE_SIZE + o) ==
      match Walk(mem, root, WindowPage(n)) case None => None case Some(to) => Some(Access(to.frame * PAGE_SIZE + o, to.writable))
  {
    hide Walk, WindowPage;
    PageOfWindow(n);
    SamePageNumber(BASE / PAGE_SIZE + n, o);
  }

  lemma SamePageNumber(x: nat, o: nat)
    requires o < PAGE_SIZE && x * PAGE_SIZE + o < WORD_LIMIT
    ensures PageOf(x * PAGE_SIZE + o) == PageOf(x * PAGE_SIZE)
    ensures (x * PAGE_SIZE + o) % PAGE_SIZE == o
  {
    var v := x * PAGE_SIZE;
    DivModUnique(v + o, 0x1000, x, o);
    DivModUnique(v, 0x1000, x, 0);
    DivModUnique(v + o, 0x20_0000, x / 0x200, x % 0x200 * PAGE_SIZE + o);
    DivModUnique(v, 0x20_0000, x / 0x200, x % 0x200 * PAGE_SIZE);
    DivModUnique(v + o, 0x4000_0000, x / 0x4_0000, x % 0x4_0000 * PAGE_SIZE + o);
    DivModUnique(v, 0x4000_0000, x / 0x4_0000, x % 0x4_0000 * PAGE_SIZE);
    DivModUnique(v + o, 0x80_0000_0000, x / 0x800_0000, x % 0x800_0000 * PAGE_SIZE + o);
    DivModUnique(v, 0x80_0000_0000, x / 0x800_0000, x % 0x800_0000 * PAGE_SIZE);
  }

  /** With RangeCost frames clear, every byte of an accepted framebuffer shows, writable, at the returned address:
      byte k translates to `address + k`, as far as 52 address bits go, and exactly those frames are taken. */
  lemma FramebufferIsMapped(m: Machine, tables: Tables, root: nat, fb: Framebuffer, k: nat)
    requires Ready(m, tables, root) && NullMarked(m) && Accepted(fb) && k < fb.pitch * fb.height
    requires RangeCost(PagesOf(fb)) <= Clear(m.pages.used)
    ensures var (m', window) := MapFramebuffer(m, root, fb);
      && window == BASE + PhysicalOffset(fb) && window + k < WORD_LIMIT
      && Translate(m'.mem, root, window + k) == Some(Access((fb.address + k) % (FRAME_LIMIT * PAGE_SIZE), true))
      && Clear(m'.pages.used) == Clear(m.pages.used) - RangeCost(PagesOf(fb))
  {
    hide Translate, Tree, Walk, WindowPage, RangeCost, PagesOf, Clear, WindowFrame, Accepted, Filled, SameLarge, MapRange, ByteCount;
    BytesOf(fb);
    var offset := PhysicalOffset(fb);
    BytePlace(fb, k);
    var t := RangeIsMapped(m, tables, root, PhysicalBase(fb), PagesOf(fb));
    var (m', window) := MapFramebuffer(m, root, fb);
    var n, o := (offset + k) / PAGE_SIZE, (offset + k) % PAGE_SIZE;
    assert IsPage(WindowPage(n));
    ByteTranslates(m'.mem, root, n, o);
  }

  /** With fewer, the call still returns the window, but some byte of it has no translation. */
  lemma FramebufferFallsShort(m: Machine, tables: Tables, root: nat, fb: Framebuffer) returns (k: nat)
    requires Ready(m, tables, root) && NullMarked(m) && Accepted(fb)
    requires RangeCost(PagesOf(fb)) > Clear(m.pages.used)
    ensures var (m', window) := MapFramebuffer(m, root, fb);
      && window == BASE + PhysicalOffset(fb) && k < fb.pitch * fb.height && window + k < WORD_LIMIT
      && Translate(m'.mem, root, window + k) == None
  {
    BytesOf(fb);
    hide Translate, Tree, Walk, WindowPage, RangeCost, Clear, WindowFrame, Accepted, Filled, SameLarge, MapRange, ByteCount;
    ByteCountPositive(fb);
    var offset := PhysicalOffset(fb);
    BytesFit(fb);
    var n := RangeFallsShort(m, tables, root, PhysicalBase(fb), PagesOf(fb));
    k := if n == 0 then 0 else n * PAGE_SIZE - offset;
    BytePlace(fb, k);
    var (m', window) := MapFramebuffer(m, root, fb);
    ByteTranslates(m'.mem, root, n, (offset + k) % PAGE_SIZE);
  }

  lemma ByteCountPositive(fb: Framebuffer)
    requires Accepted(fb)
    ensures ByteCount(fb) > 0
  {
    BytesFit(fb);
    MulAtLeast(fb.height, fb.pitch);
  }

  /** Byte k of the framebuffer shows at the window's address + k. */
  ghost predicate ByteShows(mem: Memory, root: nat, fb: Framebuffer, k: nat) {
    var virt := BASE + PhysicalOffset(fb) + k;
    virt < WORD_LIMIT && Translate(mem, root, virt) == Some(Access((fb.address + k) % (FRAME_LIMIT * PAGE_SIZE), true))
  }

  /** vmm_map_framebuffer does its work, every byte of the framebuffer showing, if and only if the
      allocator has the frames for the tables. It returns the same window either way. */
  lemma FramebufferShowsIff(m: Machine, tables: Tables, root: nat, fb: Framebuffer)
    requires Ready(m, tables, root) && NullMarked(m) && Accepted(fb)
    ensures var (m', window) := MapFramebuffer(m, root, fb);
      && window == BASE + PhysicalOffset(fb)
      && (RangeCost(PagesOf(fb)) <= Clear(m.pages.used) <==>
           forall k: nat {:trigger ByteShows(m'.mem, root, fb, k)} :: k < fb.pitch * fb.height ==> ByteShows(m'.mem, root, fb, k))
  {
    BytesOf(fb);
    hide Translate, Tree, RangeCost, PagesOf, Clear, Accepted, Filled, MapRange, ByteCount, MapFramebuffer;
    var (m', window) := MapFramebuffer(m, root, fb);
    if RangeCost(PagesOf(fb)) <= Clear(m.pages.used) {
      ByteCountPositive(fb);
      FramebufferIsMapped(m, tables, root, fb, 0);
      forall k: nat {:trigger ByteShows(m'.mem, root, fb, k)} | k < ByteCount(fb)
        ensures ByteShows(m'.mem, root, fb, k)
      {
        FramebufferIsMapped(m, tables, root, fb, k);
      }
    } else {
      var k := FramebufferFallsShort(m, tables, root, fb);
      assert !ByteShows(m'.mem, root, fb, k);
    }
  }
}
