/** kernel/src/x86_64/vmm.c in place: page tables written into physical memory. */
module Vmm {
  import opened Bits
  import opened Pages
  import opened Pmm
  import opened BootAbi
  import opened Paging
  import opened PageTables
  import opened BootTables
  import opened PhysicalMemory
  import opened Window
  import opened Wrappers

  /** A call on a page under a 2 MiB leaf stores into the frame of that leaf; the tables keep their shape
      as long as that frame is not itself one of them. */
  ghost predicate LargeIsData(m: Machine, tables: Tables, root: nat, v: Page)
    requires IsPage(v)
  {
    OnLarge(m.mem, root, v) ==> LargeFrame(m.mem, root, v) !in tables.Values
  }

  lemma NextLevelMakes(m: Machine, current: nat, index: nat)
    requires index < 512 && !Present(Entry(m.mem, current, index)) && |m.pages.used| <= FRAME_LIMIT
    ensures var (pages, page) := Alloc(m.pages);
      var frame := page / PAGE_SIZE;
      && (page == 0 ==> NextLevel(m, current, index, true) == (m.(pages := pages), 0))
      && (page != 0 ==> frame < FRAME_LIMIT)
      && (page != 0 ==>
           NextLevel(m, current, index, true) ==
           (Machine(Store(Wipe(m.mem, frame), current, index, MakeEntry(frame, WRITABLE)), pages), frame))
  {
    hide EntryFrame, Present, Large, Writable, MakeEntry, Entry, Store, Wipe, Clear;
    AllocTakesLowest(m.pages);
  }

  class Manager {
    /** Physical memory, 512 words a frame */
    const mem: array<Word>
    const pmm: PageAllocator
    const statics: Statics
    ghost var tables: Tables

    ghost predicate Wired()
      reads this, mem, pmm, pmm.bitmap
    {
      && mem as object != pmm.bitmap as object
      && pmm.Valid() && pmm.total * 512 <= mem.Length <= 512 * FRAME_LIMIT
      && Placed(statics, mem.Length)
    }

    ghost function State(): Machine
      requires pmm.Valid()
      reads this, mem, pmm, pmm.bitmap
    {
      Machine(mem[..], pmm.State())
    }

    ghost predicate Valid()
      reads this, mem, pmm, pmm.bitmap
    {
      Wired() && Sound(State(), tables, statics.pml4)
    }

    constructor (memory: array<Word>, allocator: PageAllocator, arrays: Statics)
      requires memory as object != allocator.bitmap as object
      requires allocator.Valid() && allocator.total * 512 <= memory.Length <= 512 * FRAME_LIMIT
      requires Placed(arrays, memory.Length)
      ensures Wired() && mem == memory && pmm == allocator && statics == arrays
    {
      mem, pmm, statics, tables := memory, allocator, arrays, map[];
    }

    method GetNextLevel(current: nat, index: nat, create: bool) returns (next: nat)
      requires Wired() && index < 512
      modifies mem, pmm`free, pmm.bitmap
      ensures Wired() && (State(), next) == NextLevel(old(State()), current, index, create)
      ensures !create ==> State() == old(State())
    {
      hide EntryFrame, Present, Large, Writable, MakeEntry, Entry, Store, Wipe, Alloc;
      var e := ReadWord(mem, current, index);
      if Present(e) {
        return EntryFrame(e);
      }
      if create {
        next := NewTable(current, index);
        return;
      }
      return 0;
    }

    /** The allocating half of vmm_get_next_level */
    method NewTable(current: nat, index: nat) returns (next: nat)
      requires Wired() && index < 512
      requires !Present(Entry(mem[..], current, index))
      modifies mem, pmm`free, pmm.bitmap
      ensures Wired() && (State(), next) == NextLevel(old(State()), current, index, true)
    {
      hide EntryFrame, Present, Large, Writable, MakeEntry, Entry, Store, Wipe, Alloc, Used, Clear, Placed, NextLevel;
      ghost var m := State();
      AllocTakesLowest(m.pages);
      var page := pmm.AllocPage();
      assert mem[..] == m.mem;
      ghost var pages := pmm.State();
      NextLevelMakes(m, current, index);
      if page == 0 {
        return 0;
      }
      var frame := page / PAGE_SIZE;
      WipeFrame(mem, frame);
      WriteWord(mem, current, index, MakeEntry(frame, WRITABLE));
      assert pmm.State() == pages;
      return frame;
    }

    /** Zeroing and filling the four static tables */
    method BuildTables()
      requires Wired()
      modifies mem
      ensures Wired() && KernelTables(mem[..], statics)
      ensures forall f: nat, k: nat :: k < 512 && f != statics.pml4 && f != statics.pdpt && f != statics.pd && f != statics.ptLow ==>
        Entry(mem[..], f, k) == Entry(old(mem[..]), f, k)
    {
      hide EntryFrame, Present, Large, Writable, MakeEntry, Entry, SetEntry;
      var s := statics;
      ghost var was := mem[..];
      for i := 0 to 512
        invariant forall k {:trigger Entry(mem[..], s.pml4, k)} :: 0 <= k < i ==> Entry(mem[..], s.pml4, k) == 0
        invariant forall k {:trigger Entry(mem[..], s.pdpt, k)} :: 0 <= k < i ==> Entry(mem[..], s.pdpt, k) == 0
        invariant forall k {:trigger Entry(mem[..], s.pd, k)} :: 0 <= k < i ==> Entry(mem[..], s.pd, k) == 0
        invariant forall k {:trigger Entry(mem[..], s.ptLow, k)} :: 0 <= k < i ==> Entry(mem[..], s.ptLow, k) == 0
        invariant forall f: nat, k: nat {:trigger Entry(mem[..], f, k)} ::
          k < 512 && f != s.pml4 && f != s.pdpt && f != s.pd && f != s.ptLow ==> Entry(mem[..], f, k) == Entry(was, f, k)
      {
        WriteWord(mem, s.pml4, i, 0);
        WriteWord(mem, s.pdpt, i, 0);
        WriteWord(mem, s.pd, i, 0);
        WriteWord(mem, s.ptLow, i, 0);
      }
      WriteWord(mem, s.pml4, 0, MakeEntry(s.pdpt, WRITABLE));
      WriteWord(mem, s.pdpt, 0, MakeEntry(s.pd, WRITABLE));
      WriteWord(mem, s.pd, 0, MakeEntry(s.ptLow, WRITABLE));
      for i := 0 to 512
        invariant forall k {:trigger Entry(mem[..], s.pml4, k)} :: 0 <= k < 512 ==>
          Entry(mem[..], s.pml4, k) == if k == 0 then MakeEntry(s.pdpt, WRITABLE) else 0
        invariant forall k {:trigger Entry(mem[..], s.pdpt, k)} :: 0 <= k < 512 ==> Entry(mem[..], s.pdpt, k) == PdptEntry(s, k)
        invariant forall k {:trigger Entry(mem[..], s.pd, k)} :: 0 <= k < 512 ==>
          Entry(mem[..], s.pd, k) == if k == 0 then MakeEntry(s.ptLow, WRITABLE) else 0
        invariant forall k {:trigger Entry(mem[..], s.ptLow, k)} :: 0 <= k < i ==> Entry(mem[..], s.ptLow, k) == LowEntry(k)
        invariant forall f: nat, k: nat {:trigger Entry(mem[..], f, k)} ::
          k < 512 && f != s.pml4 && f != s.pdpt && f != s.pd && f != s.ptLow ==> Entry(mem[..], f, k) == Entry(was, f, k)
      {
        WriteWord(mem, s.ptLow, i, MakeEntry(i, WRITABLE));
      }
      for i := 1 to EARLY_IDENTITY_LARGE_PAGES
        invariant forall k {:trigger Entry(mem[..], s.pml4, k)} :: 0 <= k < 512 ==>
          Entry(mem[..], s.pml4, k) == if k == 0 then MakeEntry(s.pdpt, WRITABLE) else 0
        invariant forall k {:trigger Entry(mem[..], s.pdpt, k)} :: 0 <= k < 512 ==> Entry(mem[..], s.pdpt, k) == PdptEntry(s, k)
        invariant forall k {:trigger Entry(mem[..], s.pd, k)} :: 0 <= k < 512 ==>
          Entry(mem[..], s.pd, k) == if k < i then PdEntry(s, k) else 0
        invariant forall k {:trigger Entry(mem[..], s.ptLow, k)} :: 0 <= k < 512 ==> Entry(mem[..], s.ptLow, k) == LowEntry(k)
        invariant forall f: nat, k: nat {:trigger Entry(mem[..], f, k)} ::
          k < 512 && f != s.pml4 && f != s.pdpt && f != s.pd && f != s.ptLow ==> Entry(mem[..], f, k) == Entry(was, f, k)
      {
        WriteWord(mem, s.pd, i, MakeEntry(i * 512, WRITABLE + LARGE));
      }
      WriteWord(mem, s.pml4, 510, MakeEntry(s.pdpt, WRITABLE));
    }

    /** vmm_init up to the load of CR3. The shape invariant holds after it if the static tables' frames
        are marked in the bitmap, memory reaches past 16 MiB and the descriptor is one MapDisplay keeps it for. */
    method Init(fb: Option<Framebuffer>) returns (window: Word, ghost boot: Machine)
      requires Wired()
      modifies mem, pmm`free, pmm.bitmap, this`tables
      ensures Wired() && KernelTables(boot.mem, statics) && boot.pages == old(State()).pages
      ensures forall f: nat, k: nat :: k < 512 && f != statics.pml4 && f != statics.pdpt && f != statics.pd && f != statics.ptLow ==>
        Entry(boot.mem, f, k) == Entry(old(mem[..]), f, k)
      ensures (State(), window) == if fb.Some? then MapFramebuffer(boot, statics.pml4, fb.value) else (boot, 0)
      ensures old(Owned(State(), BootTree(statics)) && InMemory(mem[..], EARLY_IDENTITY_LARGE_PAGES * 512)) ==>
        && Ready(boot, BootTree(statics), statics.pml4)
        && (fb.None? || KeepsShape(fb.value) ==> Valid())
    {
      hide Tree, Owned, KernelTables, MapFramebuffer, Ready, Placed, Entry;
      ghost var was := State();
      BuildTables();
      tables := BootTree(statics);
      boot := State();
      if Owned(was, BootTree(statics)) && InMemory(was.mem, EARLY_IDENTITY_LARGE_PAGES * 512) {
        OwnedAlike(was, boot, BootTree(statics));
        BootIsReady(boot, statics);
        ReadyIsSound(boot, BootTree(statics), statics.pml4);
      }
      window := 0;
      if fb.Some? {
        window := MapDisplay(fb.value);
      }
    }

    /** vmm_map_framebuffer */
    method MapDisplay(fb: Framebuffer) returns (window: Word)
      requires Wired()
      modifies mem, pmm`free, pmm.bitmap, this`tables
      ensures Wired() && (State(), window) == MapFramebuffer(old(State()), statics.pml4, fb)
      ensures old(Ready(State(), tables, statics.pml4)) && KeepsShape(fb) ==> Valid()
    {
      hide Accepted, Refused, ByteCount, PhysicalBase, MapRange, Tree, Owned, Placed;
      ghost var ready := Ready(State(), tables, statics.pml4);
      if Refused(fb) {
        return 0;
      }
      BytesEnd(fb);
      MapBytes(PhysicalBase(fb), PhysicalOffset(fb) + ByteCount(fb));
      return (BASE + PhysicalOffset(fb)) % WORD_LIMIT;
    }

    /** The loop of vmm_map_framebuffer */
    method MapBytes(physicalBase: Word, mappedBytes: nat)
      requires Wired() && mappedBytes + PAGE_SIZE < WORD_LIMIT
      modifies mem, pmm`free, pmm.bitmap, this`tables
      ensures Wired() && State() == MapRange(old(State()), statics.pml4, physicalBase, CeilDiv(mappedBytes, PAGE_SIZE))
      ensures old(Ready(State(), tables, statics.pml4)) && CeilDiv(mappedBytes, PAGE_SIZE) <= WINDOW_PAGES ==> Valid()
    {
      hide EntryFrame, Present, Large, Writable, MakeEntry, Entry, SetEntry, Tree, Owned, Walk, OnLarge, Map, Filled, PageOf,
        CeilDiv, MapRange, Ready, TablesGrow, Placed;
      ghost var m, t, n := State(), tables, 0;
      ghost var good := Ready(m, t, statics.pml4) && CeilDiv(mappedBytes, PAGE_SIZE) <= WINDOW_PAGES;
      MapRangeUnfolds(m, statics.pml4, physicalBase, 0);
      if good {
        ReadyIsSound(m, t, statics.pml4);
      }
      var offset := 0;
      while offset < mappedBytes
        invariant offset == n * PAGE_SIZE && n <= CeilDiv(mappedBytes, PAGE_SIZE)
        invariant Wired() && State() == MapRange(m, statics.pml4, physicalBase, n)
        invariant good ==> Valid()
      {
        PageIndexBound(offset, mappedBytes);
        MapRangeUnfolds(m, statics.pml4, physicalBase, n + 1);
        if good {
          WindowNotLarge(m, t, statics.pml4, physicalBase, n);
        }
        MapPage((BASE + offset) % WORD_LIMIT, (physicalBase + offset) % WORD_LIMIT, WRITABLE);
        offset := (offset + PAGE_SIZE) % WORD_LIMIT;
        n := n + 1;
      }
      LastPage(mappedBytes, n);
    }

    method MapPage(virt: Word, phys: Word, flags: Word)
      requires Wired()
      modifies mem, pmm`free, pmm.bitmap, this`tables
      ensures Wired() && State() == Map(old(State()), statics.pml4, virt, phys, flags)
      ensures old(Valid() && LargeIsData(State(), tables, statics.pml4, PageOf(virt))) ==>
        && Valid()
        && (old(OnLarge(mem[..], statics.pml4, PageOf(virt))) ==> tables == old(tables))
        && (!old(OnLarge(mem[..], statics.pml4, PageOf(virt))) ==> TablesGrow(old(State()), old(tables), State(), tables))
    {
      hide EntryFrame, Present, Large, Writable, MakeEntry, Entry, Store, Alloc, NextLevel, Tree, Owned, Walk, OnLarge,
        LargeFrame, Placed, TablesGrow;
      var v := PageOf(virt);
      ghost var m := State();
      if Valid() && LargeIsData(m, tables, statics.pml4, v) {
        tables := AfterMap(m, tables, statics.pml4, virt, phys, flags);
      }
      var p := GetNextLevel(statics.pml4, v.i4, true);
      if p == 0 {
        return;
      }
      p := GetNextLevel(p, v.i3, true);
      if p == 0 {
        return;
      }
      p := GetNextLevel(p, v.i2, true);
      if p == 0 {
        return;
      }
      WriteWord(mem, p, v.i1, MakeEntry(EntryFrame(phys), flags));
    }

    method UnmapPage(virt: Word)
      requires Wired()
      modifies mem
      ensures Wired() && State() == Unmap(old(State()), statics.pml4, virt)
      ensures old(Valid() && LargeIsData(State(), tables, statics.pml4, PageOf(virt))) ==> Valid()
    {
      hide EntryFrame, Present, Large, Writable, MakeEntry, Entry, Store, Alloc, NextLevel, Tree, Owned, Walk, OnLarge,
        LargeFrame, Placed;
      var v := PageOf(virt);
      ghost var m := State();
      if Valid() && LargeIsData(m, tables, statics.pml4, v) {
        AfterUnmap(m, tables, statics.pml4, virt);
      }
      var p := Lookup(statics.pml4, v.i4);
      if p == 0 {
        return;
      }
      p := Lookup(p, v.i3);
      if p == 0 {
        return;
      }
      p := Lookup(p, v.i2);
      if p == 0 {
        return;
      }
      WriteWord(mem, p, v.i1, 0);
    }

    /** vmm_get_next_level called not to allocate */
    method Lookup(current: nat, index: nat) returns (next: nat)
      requires Wired() && index < 512
      ensures (State(), next) == NextLevel(State(), current, index, false)
    {
      var e := ReadWord(mem, current, index);
      return if Present(e) then EntryFrame(e) else 0;
    }

    method GetPhysical(virt: Word) returns (phys: nat)
      requires Wired()
      ensures phys == match SoftwareWalk(mem[..], statics.pml4, PageOf(virt)) case None => 0 case Some(f) => f * PAGE_SIZE
    {
      hide EntryFrame, Present, Large, Writable, MakeEntry, Entry, Store;
      var v := PageOf(virt);
      var p := Lookup(statics.pml4, v.i4);
      if p == 0 {
        return 0;
      }
      p := Lookup(p, v.i3);
      if p == 0 {
        return 0;
      }
      p := Lookup(p, v.i2);
      if p == 0 {
        return 0;
      }
      var e := ReadWord(mem, p, v.i1);
      if !Present(e) {
        return 0;
      }
      return EntryFrame(e) * PAGE_SIZE;
    }
  }

  /** The descriptors for which the display mapping stays inside the window: those refused, and those whose
      bytes fit its 32 TiB. */
  predicate KeepsShape(fb: Framebuffer) {
    Refused(fb) || PagesOf(fb) <= WINDOW_PAGES
  }

  /** Every accepted descriptor is one of them. */
  lemma AcceptedKeepsShape(fb: Framebuffer)
    requires Accepted(fb)
    ensures KeepsShape(fb)
  {
    hide Accepted, Refused, ByteCount;
    BytesFit(fb);
  }

  /** pitch * height leaves room above it in 64 bits, so that the loop counter does not wrap. */
  lemma BytesEnd(fb: Framebuffer)
    ensures PhysicalOffset(fb) + ByteCount(fb) + PAGE_SIZE < WORD_LIMIT
  {
    MulMonotone(fb.pitch, 0xFFFF_FFFF, fb.height, 0xFFFF_FFFF);
  }

  lemma OwnedAlike(m: Machine, m': Machine, tables: Tables)
    requires Owned(m, tables) && m'.pages == m.pages && |m'.mem| == |m.mem|
    ensures Owned(m', tables)
  {
  }

  lemma ReadyIsSound(m: Machine, tables: Tables, root: nat)
    requires Ready(m, tables, root)
    ensures Sound(m, tables, root)
  {
  }

  /** No page of the window is under a 2 MiB leaf, before or after part of it is mapped. */
  lemma WindowNotLarge(m: Machine, tables: Tables, root: nat, physical: Word, n: nat)
    requires Ready(m, tables, root) && n < WINDOW_PAGES
    ensures BASE + n * PAGE_SIZE < WORD_LIMIT
    ensures !OnLarge(MapRange(m, root, physical, n).mem, root, PageOf(BASE + n * PAGE_SIZE))
  {
    hide Tree, Walk, OnLarge, PageOf, Filled, WindowPage, Entry, Slot, MapRange;
    PageOfWindow(n);
    EmptyWindow(m.mem, tables, root, WindowPage(n));
    var t := RangeIsSound(m, tables, root, physical, n);
  }

  /** The boot tables leave the display window empty. */
  lemma BootIsReady(m: Machine, s: Statics)
    requires KernelTables(m.mem, s) && Owned(m, BootTree(s)) && InMemory(m.mem, EARLY_IDENTITY_LARGE_PAGES * 512)
    ensures Ready(m, BootTree(s), s.pml4)
  {
    hide KernelTables, Owned;
    BootTreeIsTree(m.mem, s);
  }

  lemma AfterMap(m: Machine, tables: Tables, root: nat, virt: Word, phys: Word, flags: Word) returns (tables': Tables)
    requires Sound(m, tables, root) && LargeIsData(m, tables, root, PageOf(virt))
    ensures Sound(Map(m, root, virt, phys, flags), tables', root)
    ensures OnLarge(m.mem, root, PageOf(virt)) ==> tables' == tables
    ensures !OnLarge(m.mem, root, PageOf(virt)) ==> TablesGrow(m, tables, Map(m, root, virt, phys, flags), tables')
  {
    hide EntryFrame, Present, Large, Writable, MakeEntry, Entry, SetEntry, Tree, Walk, OnLarge, PageOf;
    if OnLarge(m.mem, root, PageOf(virt)) {
      StoreUnderLarge(m, tables, root, virt, phys, flags);
      tables' := tables;
    } else {
      tables' := MapIsExact(m, tables, root, virt, phys, flags);
    }
  }

  lemma AfterUnmap(m: Machine, tables: Tables, root: nat, virt: Word)
    requires Sound(m, tables, root) && LargeIsData(m, tables, root, PageOf(virt))
    ensures Sound(Unmap(m, root, virt), tables, root)
  {
    hide EntryFrame, Present, Large, Writable, MakeEntry, Entry, SetEntry, Tree, Walk, OnLarge, PageOf;
    if OnLarge(m.mem, root, PageOf(virt)) {
      StoreUnderLarge(m, tables, root, virt, 0, 0);
    } else {
      UnmapIsExact(m, tables, root, virt);
    }
  }
}
