/** boot/stage1/multiboot.c: the tables the 32-bit loader enters long mode with. */
module Stage1Paging {
  import opened Bits
  import opened Paging
  import opened BootTables
  import opened PhysicalMemory

  /** The three static arrays of stage 1 lie in memory, apart. */
  predicate Separate(pml4: nat, pdpt: nat, pdLow: nat, words: nat) {
    && pml4 != pdpt && pml4 != pdLow && pdpt != pdLow && pdpt < FRAME_LIMIT && pdLow < FRAME_LIMIT
    && (pml4 + 1) * 512 <= words && (pdpt + 1) * 512 <= words && (pdLow + 1) * 512 <= words
  }

  method SetupPaging(mem: array<Word>, pml4: nat, pdpt: nat, pdLow: nat)
    requires Separate(pml4, pdpt, pdLow, mem.Length)
    modifies mem
    ensures LoaderTables(mem[..], pml4, pdpt, pdLow)
    ensures forall f: nat, k: nat :: k < 512 && f != pml4 && f != pdpt && f != pdLow ==>
      Entry(mem[..], f, k) == Entry(old(mem[..]), f, k)
  {
    hide EntryFrame, Present, Large, Writable, MakeEntry, Entry, SetEntry, ZeroFrame;
    ghost var was := mem[..];
    WipeFrame(mem, pml4);
    WipeFrame(mem, pdpt);
    WipeFrame(mem, pdLow);
    WriteWord(mem, pml4, 0, MakeEntry(pdpt, WRITABLE));
    WriteWord(mem, pml4, 510, MakeEntry(pdpt, WRITABLE));
    WriteWord(mem, pdpt, 0, MakeEntry(pdLow, WRITABLE));
    for i := 0 to 512
      invariant forall k {:trigger Entry(mem[..], pml4, k)} :: 0 <= k < 512 ==>
        Entry(mem[..], pml4, k) == if k == 0 || k == 510 then MakeEntry(pdpt, WRITABLE) else 0
      invariant forall k {:trigger Entry(mem[..], pdpt, k)} :: 0 <= k < 512 ==>
        Entry(mem[..], pdpt, k) == if k == 0 then MakeEntry(pdLow, WRITABLE) else 0
      invariant forall k {:trigger Entry(mem[..], pdLow, k)} :: 0 <= k < i ==>
        Entry(mem[..], pdLow, k) == MakeEntry(k * 512, 0x83)
      invariant forall f: nat, k: nat {:trigger Entry(mem[..], f, k)} ::
        k < 512 && f != pml4 && f != pdpt && f != pdLow ==> Entry(mem[..], f, k) == Entry(was, f, k)
    {
      WriteWord(mem, pdLow, i, MakeEntry(i * 512, 0x83));
    }
  }
}
