/** The tables the kernel and the stage-1 loader build before the switch of CR3. */
module BootTables {
  import opened Bits
  import opened Pages
  import opened Paging
  import opened PageTables
  import opened Wrappers

  const EARLY_IDENTITY_LARGE_PAGES := 8
  const MIB := 0x10_0000

  /** The frames of the static arrays pml4, pdpt, pd and pt_low */
  datatype Statics = Statics(pml4: nat, pdpt: nat, pd: nat, ptLow: nat)

  predicate Placed(s: Statics, words: nat) {
    && 0 < s.pml4 < FRAME_LIMIT && 0 < s.pdpt < FRAME_LIMIT && 0 < s.pd < FRAME_LIMIT && 0 < s.ptLow < FRAME_LIMIT
    && s.pml4 != s.pdpt && s.pml4 != s.pd && s.pml4 != s.ptLow && s.pdpt != s.pd && s.pdpt != s.ptLow && s.pd != s.ptLow
    && (s.pml4 + 1) * 512 <= words && (s.pdpt + 1) * 512 <= words && (s.pd + 1) * 512 <= words && (s.ptLow + 1) * 512 <= words
  }

  /** vmm.c:57 and 75, 58, 59 and 64-67, 61-63 */
  function RootEntry(s: Statics, i: nat): Word
    requires s.pdpt < FRAME_LIMIT
  {
    if i == 0 || i == 510 then MakeEntry(s.pdpt, WRITABLE) else 0
  }

  function PdptEntry(s: Statics, i: nat): Word
    requires s.pd < FRAME_LIMIT
  {
    if i == 0 then MakeEntry(s.pd, WRITABLE) else 0
  }

  function PdEntry(s: Statics, i: nat): Word
    requires s.ptLow < FRAME_LIMIT
  {
    if i == 0 then MakeEntry(s.ptLow, WRITABLE)
    else if i < EARLY_IDENTITY_LARGE_PAGES then MakeEntry(i * 512, WRITABLE + LARGE)
    else 0
  }

  function LowEntry(i: nat): Word
    requires i < 512
  {
    MakeEntry(i, WRITABLE)
  }

  ghost predicate KernelTables(mem: Memory, s: Statics) {
    && Placed(s, |mem|)
    && (forall i {:trigger Entry(mem, s.pml4, i)} :: 0 <= i < 512 ==> Entry(mem, s.pml4, i) == RootEntry(s, i))
    && (forall i {:trigger Entry(mem, s.pdpt, i)} :: 0 <= i < 512 ==> Entry(mem, s.pdpt, i) == PdptEntry(s, i))
    && (forall i {:trigger Entry(mem, s.pd, i)} :: 0 <= i < 512 ==> Entry(mem, s.pd, i) == PdEntry(s, i))
    && (forall i {:trigger Entry(mem, s.ptLow, i)} :: 0 <= i < 512 ==> Entry(mem, s.ptLow, i) == LowEntry(i))
  }

  /** setup_paging of stage 1: one PDPT and one PD of 512 large pages, flags 0x83 */
  ghost predicate LoaderTables(mem: Memory, pml4: nat, pdpt: nat, pdLow: nat) {
    && pdpt < FRAME_LIMIT && pdLow < FRAME_LIMIT
    && (forall i {:trigger Entry(mem, pml4, i)} :: 0 <= i < 512 ==>
         Entry(mem, pml4, i) == if i == 0 || i == 510 then MakeEntry(pdpt, WRITABLE) else 0)
    && (forall i {:trigger Entry(mem, pdpt, i)} :: 0 <= i < 512 ==>
         Entry(mem, pdpt, i) == if i == 0 then MakeEntry(pdLow, WRITABLE) else 0)
    && (forall i {:trigger Entry(mem, pdLow, i)} :: 0 <= i < 512 ==>
         Entry(mem, pdLow, i) == MakeEntry(i * 512, 0x83))
  }

  /** The boot tables word by word: address and flags of each entry, and 0 where there is none */
  lemma KernelWords(mem: Memory, s: Statics, i: nat)
    requires KernelTables(mem, s) && i < 512
    ensures Entry(mem, s.pml4, i) == if i == 0 || i == 510 then s.pdpt * 4096 + 3 else 0
    ensures Entry(mem, s.pdpt, i) == if i == 0 then s.pd * 4096 + 3 else 0
    ensures Entry(mem, s.pd, i) == if i == 0 then s.ptLow * 4096 + 3 else if i < 8 then i * 0x20_0000 + 0x83 else 0
    ensures Entry(mem, s.ptLow, i) == i * 4096 + 3
  {
    hide Entry, MakeEntry;
    EntryWord(s.pdpt);
    EntryWord(s.pd);
    EntryWord(s.ptLow);
    EntryWord(i);
    EntryWord(i * 512);
    assert Entry(mem, s.pml4, i) == RootEntry(s, i);
    assert Entry(mem, s.pdpt, i) == PdptEntry(s, i);
    assert Entry(mem, s.pd, i) == PdEntry(s, i);
    assert Entry(mem, s.ptLow, i) == LowEntry(i);
  }

  /** And stage 1's */
  lemma LoaderWords(mem: Memory, pml4: nat, pdpt: nat, pdLow: nat, i: nat)
    requires LoaderTables(mem, pml4, pdpt, pdLow) && i < 512
    ensures Entry(mem, pml4, i) == if i == 0 || i == 510 then pdpt * 4096 + 3 else 0
    ensures Entry(mem, pdpt, i) == if i == 0 then pdLow * 4096 + 3 else 0
    ensures Entry(mem, pdLow, i) == i * 0x20_0000 + 0x83
  {
    hide Entry, MakeEntry;
    EntryWord(pdpt);
    EntryWord(pdLow);
    EntryWord(i * 512);
  }

  ghost function BootTree(s: Statics): Tables {
    map[Top := s.pml4, Sub(Top, 0) := s.pdpt, Sub(Sub(Top, 0), 0) := s.pd, Sub(Sub(Sub(Top, 0), 0), 0) := s.ptLow]
  }

  lemma LeafFlags()
    ensures !Present(0)
    ensures WRITABLE / 2 % 2 == 1 && (WRITABLE + LARGE) / 2 % 2 == 1 && 0x83 / 2 % 2 == 1
    ensures WRITABLE / 0x80 % 2 == 0 && (WRITABLE + LARGE) / 0x80 % 2 == 1 && 0x83 / 0x80 % 2 == 1
  {
  }

  lemma BootEntriesFit(mem: Memory, s: Statics, p: Path, i: nat)
    requires KernelTables(mem, s) && InMemory(mem, EARLY_IDENTITY_LARGE_PAGES * 512)
    requires p in BootTree(s) && Depth(p) < 3 && i < 512
    ensures EntryFits(mem, BootTree(s), p, i)
  {
    hide Present, Large, Writable, EntryFrame, Entry, MakeEntry;
    LeafFlags();
    var p1 := Sub(Top, 0);
    var p2 := Sub(p1, 0);
    assert Depth(p1) == 1 && Depth(p2) == 2;
    if p == Top {
      assert Entry(mem, s.pml4, i) == RootEntry(s, i);
    } else if p == p1 {
      assert Entry(mem, s.pdpt, i) == PdptEntry(s, i);
    } else {
      assert p == p2;
      assert Entry(mem, s.pd, i) == PdEntry(s, i);
    }
  }

  lemma BootTablesHang(mem: Memory, s: Statics, p: Path)
    requires KernelTables(mem, s) && p in BootTree(s)
    ensures Hangs(mem, BootTree(s), p)
  {
    hide Present, Large, Writable, EntryFrame, Entry, MakeEntry;
    LeafFlags();
    assert Depth(Sub(Sub(Top, 0), 0)) == 2;
    assert Entry(mem, s.pml4, 0) == RootEntry(s, 0);
    assert Entry(mem, s.pdpt, 0) == PdptEntry(s, 0);
    assert Entry(mem, s.pd, 0) == PdEntry(s, 0);
  }

  lemma BootTreeIsTree(mem: Memory, s: Statics)
    requires KernelTables(mem, s) && InMemory(mem, EARLY_IDENTITY_LARGE_PAGES * 512)
    ensures Tree(mem, BootTree(s), s.pml4)
  {
    hide Present, Large, Writable, EntryFrame, Entry, MakeEntry, EntryFits, Hangs;
    var t := BootTree(s);
    assert Depth(Sub(Sub(Sub(Top, 0), 0), 0)) == 3 && Depth(Sub(Sub(Top, 0), 0)) == 2;
    forall p, i | p in t && Depth(p) < 3 && 0 <= i < 512
      ensures EntryFits(mem, t, p, i)
    {
      BootEntriesFit(mem, s, p, i);
    }
    forall p | p in t
      ensures Hangs(mem, t, p)
    {
      BootTablesHang(mem, s, p);
    }
    assert Entry(mem, s.pml4, 0) == RootEntry(s, 0) && Entry(mem, s.pml4, 510) == RootEntry(s, 510);
  }

  /** Below 16 MiB the kernel's tables are the identity; the rest of root slot 0 is unmapped. */
  lemma KernelIdentity(mem: Memory, s: Statics, virt: Word)
    requires KernelTables(mem, s) && virt < 0x80_0000_0000
    ensures Translate(mem, s.pml4, virt) == if virt < 16 * MIB then Some(Access(virt, true)) else None
    ensures OnLarge(mem, s.pml4, PageOf(virt)) <==> 2 * MIB <= virt < 16 * MIB
  {
    hide Present, Large, Writable, EntryFrame, Entry, MakeEntry;
    LeafFlags();
    SlotsOfLow(virt);
    var v := PageOf(virt);
    if v.i3 == 0 && v.i2 != 0 && v.i2 < EARLY_IDENTITY_LARGE_PAGES {
      assert v.i2 * 512 / 512 == v.i2;
    }
  }

  lemma SlotsOfLow(virt: Word)
    requires virt < 0x80_0000_0000
    ensures var v := PageOf(virt);
      && v.i4 == 0
      && virt == ((v.i3 * 512 + v.i2) * 512 + v.i1) * PAGE_SIZE + virt % PAGE_SIZE
  {
    var n := virt / PAGE_SIZE;
    assert virt == n * PAGE_SIZE + virt % PAGE_SIZE;
    Nested(virt, 0x1000);
    Nested(virt, 0x20_0000);
    Nested(virt, 0x4000_0000);
    assert virt / 0x4000_0000 < 512;
  }

  lemma Nested(x: nat, d: nat)
    requires d > 0
    ensures x / d == x / (d * 512) * 512 + x / d % 512
  {
    var q := x / d;
    assert q == q / 512 * 512 + q % 512;
    var r := q % 512 * d + x % d;
    Distribute(q / 512 * 512, q % 512, d);
    Regroup(q / 512, 512, d);
    MulMonotone(q % 512, 511, d, d);
    DivModUnique(x, d * 512, q / 512, r);
  }

  /** The loader's tables are the identity on the first GiB. */
  lemma LoaderIdentity(mem: Memory, pml4: nat, pdpt: nat, pdLow: nat, virt: Word)
    requires LoaderTables(mem, pml4, pdpt, pdLow) && virt < 0x80_0000_0000
    ensures Translate(mem, pml4, virt) == if virt < 1024 * MIB then Some(Access(virt, true)) else None
  {
    hide Present, Large, Writable, EntryFrame, Entry, MakeEntry;
    LeafFlags();
    SlotsOfLow(virt);
    var v := PageOf(virt);
    assert v.i2 * 512 / 512 == v.i2;
  }

  /** Loading CR3 moves no address below 16 MiB. */
  lemma SwitchKeepsLowMemory(mem: Memory, s: Statics, pml4: nat, pdpt: nat, pdLow: nat, virt: Word)
    requires KernelTables(mem, s) && LoaderTables(mem, pml4, pdpt, pdLow)
    requires virt < 16 * MIB
    ensures Translate(mem, s.pml4, virt) == Translate(mem, pml4, virt) == Some(Access(virt, true))
  {
    hide Translate, KernelTables, LoaderTables, OnLarge;
    KernelIdentity(mem, s, virt);
    LoaderIdentity(mem, pml4, pdpt, pdLow, virt);
  }

  const HIGHER_HALF := 0xFFFF_FFFF_8000_0000
  const SLOT_510 := 0xFFFF_FF00_0000_0000

  /** What the comments call the higher-half mapping is not there: VMM_HIGHER_HALF decodes to root
      slot 511. Slot 510 shows the first 16 MiB again. */
  lemma HigherHalf(mem: Memory, s: Statics, low: nat)
    requires KernelTables(mem, s) && low < 16 * MIB
    ensures Translate(mem, s.pml4, HIGHER_HALF + low) == None
    ensures Translate(mem, s.pml4, SLOT_510 + low) == Some(Access(low, true))
  {
    hide Present, Large, Writable, EntryFrame, Entry, MakeEntry;
    LeafFlags();
    SlotsOfLow(low);
    SlotsOfHigh(low);
    var v := PageOf(SLOT_510 + low);
    if v.i2 != 0 {
      assert v.i2 * 512 / 512 == v.i2;
    }
  }

  lemma SlotsOfHigh(low: nat)
    requires low < 16 * MIB
    ensures PageOf(HIGHER_HALF + low).i4 == 511
    ensures PageOf(SLOT_510 + low) == PageOf(low).(i4 := 510)
    ensures (SLOT_510 + low) % PAGE_SIZE == low % PAGE_SIZE
  {
    var h, s := HIGHER_HALF + low, SLOT_510 + low;
    assert h / 0x80_0000_0000 == 0x1FF_FFFF by {
      DivModUnique(h, 0x80_0000_0000, 0x1FF_FFFF, 0x7F_8000_0000 + low);
    }
    assert s / 0x80_0000_0000 == 0x1FF_FFFE by {
      DivModUnique(s, 0x80_0000_0000, 0x1FF_FFFE, low);
    }
    assert s / 0x4000_0000 == 0x1FF_FFFE * 512 + low / 0x4000_0000 by {
      DivModUnique(s, 0x4000_0000, 0x1FF_FFFE * 512 + low / 0x4000_0000, low % 0x4000_0000);
    }
    assert s / 0x20_0000 == 0x1FF_FFFE * 0x4_0000 + low / 0x20_0000 by {
      DivModUnique(s, 0x20_0000, 0x1FF_FFFE * 0x4_0000 + low / 0x20_0000, low % 0x20_0000);
    }
    assert s / 0x1000 == 0x1FF_FFFE * 0x800_0000 + low / 0x1000 && s % 0x1000 == low % 0x1000 by {
      DivModUnique(s, 0x1000, 0x1FF_FFFE * 0x800_0000 + low / 0x1000, low % 0x1000);
    }
    SameRemainder(0x1FF_FFFE, low / 0x4000_0000);
    SameRemainder(0x1FF_FFFE * 512, low / 0x20_0000);
    SameRemainder(0x1FF_FFFE * 0x4_0000, low / 0x1000);
  }

  /** Right after boot, mapping any page from 2 MiB up to 16 MiB leaves it mapped to itself and
      overwrites a word at the start of its 2 MiB block instead. */
  lemma MapInIdentityWindow(m: Machine, s: Statics, virt: Word, phys: Word, flags: Word)
    requires KernelTables(m.mem, s) && Owned(m, BootTree(s)) && InMemory(m.mem, EARLY_IDENTITY_LARGE_PAGES * 512)
    requires 2 * MIB <= virt < 16 * MIB
    requires virt / (2 * MIB) * 512 !in BootTree(s).Values
    ensures var m' := Map(m, s.pml4, virt, phys, flags);
      && Translate(m'.mem, s.pml4, virt) == Some(Access(virt, true))
      && Entry(m'.mem, virt / (2 * MIB) * 512, virt / PAGE_SIZE % 512) == MakeEntry(EntryFrame(phys), flags)
  {
    hide Present, Large, Writable, EntryFrame, MakeEntry, Walk, OnLarge, Tree, Map, Unmap, Entry, KernelTables, LargeFrame;
    BootTreeIsTree(m.mem, s);
    KernelIdentity(m.mem, s, virt);
    LargeFrameIsBlock(m.mem, s, virt);
    StoreUnderLarge(m, BootTree(s), s.pml4, virt, phys, flags);
  }

  lemma LargeFrameIsBlock(mem: Memory, s: Statics, virt: Word)
    requires KernelTables(mem, s) && 2 * MIB <= virt < 16 * MIB
    ensures OnLarge(mem, s.pml4, PageOf(virt))
    ensures LargeFrame(mem, s.pml4, PageOf(virt)) == virt / (2 * MIB) * 512
  {
    hide Present, Large, Writable, EntryFrame, Entry, MakeEntry;
    LeafFlags();
    SlotsOfLow(virt);
  }
}
