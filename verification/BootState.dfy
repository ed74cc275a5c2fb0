/** The address space the kernel runs in once vmm_init is done. */
module BootState {
  import opened Bits
  import opened BootAbi
  import opened Pages
  import opened Paging
  import opened PageTables
  import opened BootTables
  import opened BootRuns
  import opened Window
  import opened Vmm
  import opened Wrappers

  /** With the display mapped, low memory is still the identity and every byte of an accepted
      framebuffer shows in the window: the mapping has disturbed none of the boot tables. */
  lemma BootAddressSpace(boot: Machine, s: Statics, fb: Framebuffer, virt: Word, k: nat)
    requires KernelTables(boot.mem, s) && Owned(boot, BootTree(s)) && InMemory(boot.mem, EARLY_IDENTITY_LARGE_PAGES * 512)
    requires NullMarked(boot) && Accepted(fb) && RangeCost(PagesOf(fb)) <= Clear(boot.pages.used)
    requires virt < 16 * MIB && k < fb.pitch * fb.height
    ensures var (m, window) := MapFramebuffer(boot, s.pml4, fb);
      && Translate(m.mem, s.pml4, virt) == Some(Access(virt, true))
      && window == BASE + PhysicalOffset(fb) && window + k < WORD_LIMIT
      && Translate(m.mem, s.pml4, window + k) == Some(Access((fb.address + k) % (FRAME_LIMIT * PAGE_SIZE), true))
  {
    hide KernelTables, Tree, Owned, RangeCost, PagesOf, Clear, Accepted, ByteCount, Filled, MapRange, Walk, PhysicalBase;
    BytesOf(fb);
    BootIsReady(boot, s);
    FramebufferIsMapped(boot, BootTree(s), s.pml4, fb, k);
    KernelIdentity(boot.mem, s, virt);
    BytePlace(fb, k);
    var t := RangeIsSound(boot, BootTree(s), s.pml4, PhysicalBase(fb), PagesOf(fb));
    SlotsOfLow(virt);
  }

  // ---------- A table under a 2 MiB leaf ----------

  /** The case that runs leave out does come up. With the frames below 2 MiB taken, mapping the first page of the
      window makes frame 512 a page table. Unmapping the page at 2 MiB, which the leaf there maps to frame 512,
      then stores into that table, and the window's page, mapped by the last call on it, has no translation. */
  lemma UnmapUnderLeafBreaksWindow(m: Machine, s: Statics, phys: Word, flags: Word)
    requires KernelTables(m.mem, s) && Owned(m, BootTree(s)) && InMemory(m.mem, EARLY_IDENTITY_LARGE_PAGES * 512)
    requires FirstClear(m.pages.used) == 512 && 3 <= Clear(m.pages.used)
    ensures var m1 := Map(m, s.pml4, BASE, phys, flags);
      && Walk(m1.mem, s.pml4, PageOf(BASE)) == Some(Asked(phys, flags))
      && LiveTable(m1.mem, s.pml4, 512)
      && Walk(Unmap(m1, s.pml4, 2 * MIB).mem, s.pml4, PageOf(BASE)) == None
  {
    hide KernelTables, Tree, Owned, Entry, Present, Large, Writable, EntryFrame, MakeEntry, Walk, OnLarge, LargeFrame, Map,
      Unmap, FirstClear, PageOf, LiveTable, SetEntry;
    var root := s.pml4;
    BootTreeIsTree(m.mem, s);
    CountAll(m.pages.used);
    var t := FirstTableIsLowest(m, s, 512, phys, flags);
    var m1 := Map(m, root, BASE, phys, flags);
    LiveTables(m1.mem, t, root, 512);
    LargeFrameIsBlock(m.mem, s, 2 * MIB);
    assert LeafFrame(m1.mem, root, PageOf(2 * MIB)) == LeafFrame(m.mem, root, PageOf(2 * MIB)) == Some(512);
    StoreUnderLarge(m1, t, root, 2 * MIB, 0, 0);
    FirstEntryGone(m1, t, root);
  }

  lemma FirstEntryGone(m1: Machine, tables: Tables, root: nat)
    requires Sound(m1, tables, root) && Sub(Top, FIRST_SLOT) in tables && tables[Sub(Top, FIRST_SLOT)] == 512
    requires InMemory(m1.mem, 512)
    ensures PageOf(2 * MIB).i1 == 0
    ensures Walk(SetEntry(m1.mem, 512, 0, 0), root, PageOf(BASE)) == None
  {
    hide Present, Large, Writable, EntryFrame, Entry, SetEntry;
    PageOfWindow(0);
    TopOf(m1.mem, tables, root);
    HangsAt(m1.mem, tables, root, Sub(Top, FIRST_SLOT));
    FitsAt(m1.mem, tables, root, Top, FIRST_SLOT);
    ZeroIsAbsent();
  }
}
