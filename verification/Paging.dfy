/** Four-level page tables inside a flat physical memory, and the two ways of walking them:
    the processor's (Intel SDM Volume 3A, section 4.5) and the kernel's own. */
module Paging {
  import opened Bits
  import opened Pages
  import opened Wrappers

  // ---------- Entries ----------

  const PRESENT := 1
  const WRITABLE := 2
  const LARGE := 0x80

  /** 0x000FFFFFFFFFF000 */
  const ADDRESS_MASK := 0x000F_FFFF_FFFF_F000

  predicate Present(e: Word) { e % 2 == 1 }

  /** PTE_LARGE, the PS bit */
  predicate Large(e: Word) { e / 0x80 % 2 == 1 }

  /** The R/W bit */
  predicate Writable(e: Word) { e / 2 % 2 == 1 }

  /** Physical addresses have 52 bits. */
  const FRAME_LIMIT := 0x100_0000_0000

  /** The frame an entry points to: bits 12 to 51 */
  function EntryFrame(e: Word): (f: nat)
    ensures f < FRAME_LIMIT
  {
    e / 0x1000 % FRAME_LIMIT
  }

  /** Frame and the low twelve flag bits, with PRESENT */
  function MakeEntry(frame: nat, flags: nat): (e: Word)
    requires frame < FRAME_LIMIT
    ensures Present(e) && EntryFrame(e) == frame && Large(e) == (flags / 0x80 % 2 == 1)
    ensures Writable(e) == (flags / 2 % 2 == 1)
  {
    EntryParts(frame, LowFlags(flags));
    frame * 0x1000 + LowFlags(flags)
  }

  /** The low twelve bits, bit 0 set */
  function LowFlags(flags: nat): (low: nat)
    ensures low < 0x1000 && low % 2 == 1 && low / 0x80 % 2 == flags / 0x80 % 2 && low / 2 % 2 == flags / 2 % 2
  {
    var low := flags % 0x1000;
    HighBitKept(flags, 2, 0x400);
    HighBitKept(flags, 0x80, 0x10);
    LowBitSet(low);
    low / 2 * 2 + 1
  }

  lemma HighBitKept(x: nat, d: nat, m: nat)
    requires (d == 2 && m == 0x400) || (d == 0x80 && m == 0x10)
    ensures x / d % 2 == x % 0x1000 / d % 2
  {
    var q, low := x / 0x1000, x % 0x1000;
    DivModUnique(x, d, q * (2 * m) + low / d, low % d);
    DivModUnique(x / d, 2, q * m + low / d / 2, low / d % 2);
  }

  lemma LowBitSet(x: nat)
    ensures (x / 2 * 2 + 1) / 2 == x / 2 && (x / 2 * 2 + 1) % 2 == 1 && (x / 2 * 2 + 1) / 0x80 == x / 0x80
  {
    DivModUnique(x / 2 * 2 + 1, 2, x / 2, 1);
    DivModUnique(x / 2 * 2 + 1, 0x80, x / 0x80, x % 0x80 / 2 * 2 + 1);
  }

  lemma EntryParts(frame: nat, low: nat)
    requires frame < FRAME_LIMIT && low < 0x1000
    ensures var e := frame * 0x1000 + low;
      e < WORD_LIMIT && e / 0x1000 == frame && e % 2 == low % 2 && e / 0x80 % 2 == low / 0x80 % 2 && e / 2 % 2 == low / 2 % 2
  {
    var e := frame * 0x1000 + low;
    DivModUnique(e, 0x1000, frame, low);
    DivModUnique(e, 2, frame * 0x800 + low / 2, low % 2);
    DivModUnique(frame * 0x800 + low / 2, 2, frame * 0x400 + low / 2 / 2, low / 2 % 2);
    var x := frame * 32 + low / 0x80;
    DivModUnique(x, 2, frame * 16 + low / 0x80 / 2, low / 0x80 % 2);
    assert e / 0x80 == frame * 32 + low / 0x80 by {
      DivModUnique(e, 0x80, frame * 32 + low / 0x80, low % 0x80);
    }
  }

  /** The arithmetic above is what the source's masks compute. */
  lemma EntryBits(e: Word)
    ensures And(e, ADDRESS_MASK) == EntryFrame(e) * 0x1000
    ensures And(e, PRESENT) != 0 <==> Present(e)
    ensures And(e, LARGE) != 0 <==> Large(e)
  {
    AddressBits(e);
    FlagBit(e, 0);
    FlagBit(e, 7);
    assert Pow2(0) == 1 && Pow2(7) == 0x80;
  }

  lemma FlagBit(e: nat, k: nat)
    ensures And(e, Pow2(k)) != 0 <==> e / Pow2(k) % 2 == 1
  {
    ShlIsMul(1, k);
    TestBit(e, k);
    ShrIsDiv(e, k);
  }

  lemma AddressBits(e: Word)
    ensures And(e, ADDRESS_MASK) == EntryFrame(e) * 0x1000
  {
    AndMask(e, 12, 40);
    PowersOfTwo();
    ShlIsMul(Pow2(40) - 1, 12);
    ShrIsDiv(e, 12);
    ShrIsDiv(e / 0x1000, 40);
    ShlIsMul(EntryFrame(e), 12);
  }

  lemma LowBits(x: nat, n: nat)
    ensures And(x, Pow2(n) - 1) == x % Pow2(n)
  {
    AndMask(x, 0, n);
    ShrIsDiv(x, n);
  }

  lemma PowersOfTwo()
    ensures Pow2(7) == 0x80 && Pow2(9) == 512 && Pow2(12) == 0x1000 && Pow2(21) == 0x20_0000
    ensures Pow2(30) == 0x4000_0000 && Pow2(39) == 0x80_0000_0000 && Pow2(40) == 0x100_0000_0000
  {
    assert Pow2(7) == 0x80 && Pow2(9) == 512 && Pow2(12) == 0x1000 && Pow2(18) == 0x4_0000;
    hide Pow2;
    Pow2Add(12, 9);
    Pow2Add(12, 18);
    Pow2Add(21, 18);
  }

  /** `(phys & 0x000FFFFFFFFFF000) | (flags & 0xFFF) | PTE_PRESENT` */
  lemma MakeEntryBits(phys: Word, flags: Word)
    ensures Or(Or(And(phys, ADDRESS_MASK), And(flags, 0xFFF)), PRESENT) == MakeEntry(EntryFrame(phys), flags)
  {
    hide And, Or, EntryFrame;
    var f, g := EntryFrame(phys), flags % 0x1000;
    assert And(phys, ADDRESS_MASK) == f * 0x1000 by { AddressBits(phys); }
    assert And(flags, 0xFFF) == g by {
      LowBits(flags, 12);
      PowersOfTwo();
    }
    assert Or(f * 0x1000, g) == f * 0x1000 + g by { OrAddress(f, g); }
    assert Or(f * 0x1000 + g, PRESENT) == (f * 0x1000 + g) / 2 * 2 + 1 by { OrOne(f * 0x1000 + g); }
    DivModUnique(f * 0x1000 + g, 2, f * 0x800 + g / 2, g % 2);
  }

  lemma OrAddress(f: nat, g: nat)
    requires g < 0x1000
    ensures Or(f * 0x1000, g) == f * 0x1000 + g
  {
    assert Pow2(12) == 0x1000;
    OrDisjoint(f, 12, g);
    ShlIsMul(f, 12);
  }

  lemma OrOne(x: nat)
    ensures Or(x, 1) == x / 2 * 2 + 1
  {
  }

  // ---------- Physical memory ----------

  /** Physical memory as 64-bit words, 512 to a frame */
  type Memory = seq<Word>

  predicate InMemory(mem: Memory, frame: nat) {
    frame * 512 + 512 <= |mem|
  }

  /** Word `index` of a frame; memory that is not there reads as zero. */
  function Entry(mem: Memory, frame: nat, index: nat): Word
    requires index < 512
  {
    if InMemory(mem, frame) then mem[frame * 512 + index] else 0
  }

  function SetEntry(mem: Memory, frame: nat, index: nat, e: Word): (m: Memory)
    requires index < 512 && InMemory(mem, frame)
    ensures |m| == |mem|
    ensures forall t, i :: 0 <= t && 0 <= i < 512 ==>
      Entry(m, t, i) == if t == frame && i == index then e else Entry(mem, t, i)
  {
    mem[frame * 512 + index := e]
  }

  function ZeroFrame(mem: Memory, frame: nat): (m: Memory)
    requires InMemory(mem, frame)
    ensures |m| == |mem|
    ensures forall t, i :: 0 <= t && 0 <= i < 512 ==>
      Entry(m, t, i) == if t == frame then 0 else Entry(mem, t, i)
  {
    mem[..frame * 512] + seq(512, _ => 0) + mem[frame * 512 + 512..]
  }

  // ---------- Virtual pages ----------

  /** The four table indices of a virtual address */
  datatype Page = Page(i4: nat, i3: nat, i2: nat, i1: nat)

  predicate IsPage(v: Page) {
    v.i4 < 512 && v.i3 < 512 && v.i2 < 512 && v.i1 < 512
  }

  function PageOf(virt: Word): (v: Page)
    ensures IsPage(v)
  {
    Page(virt / 0x80_0000_0000 % 512, virt / 0x4000_0000 % 512, virt / 0x20_0000 % 512, virt / 0x1000 % 512)
  }

  /** `(virt >> s) & 0x1FF` for s = 39, 30, 21, 12 */
  lemma PageBits(virt: Word)
    ensures And(Shr(virt, 39), 0x1FF) == PageOf(virt).i4 && And(Shr(virt, 30), 0x1FF) == PageOf(virt).i3
    ensures And(Shr(virt, 21), 0x1FF) == PageOf(virt).i2 && And(Shr(virt, 12), 0x1FF) == PageOf(virt).i1
  {
    NineBits(virt, 39);
    NineBits(virt, 30);
    NineBits(virt, 21);
    NineBits(virt, 12);
    PowersOfTwo();
  }

  lemma NineBits(virt: Word, s: nat)
    ensures And(Shr(virt, s), 0x1FF) == virt / Pow2(s) % 512
  {
    ShrIsDiv(virt, s);
    LowBits(virt / Pow2(s), 9);
    PowersOfTwo();
  }

  /** Bits 47 to 63 are all equal. */
  predicate Canonical(virt: Word) {
    virt < 0x8000_0000_0000 || virt >= 0xFFFF_8000_0000_0000
  }

  // ---------- The two walks ----------

  /** What a page is mapped to, and whether it may be written */
  datatype Mapping = Mapping(frame: nat, writable: bool)

  /** What the processor finds for a page. PS maps 1 GiB in a PDPT entry and 2 MiB in a PD entry; in a
      PML4 entry it is reserved. A page may be written if every entry on the way says so. */
  function Walk(mem: Memory, root: nat, v: Page): Option<Mapping>
    requires IsPage(v)
  {
    var e4 := Entry(mem, root, v.i4);
    if !Present(e4) || Large(e4) then None else
    var e3 := Entry(mem, EntryFrame(e4), v.i3);
    var w3 := Writable(e4) && Writable(e3);
    if !Present(e3) then None else
    if Large(e3) then Some(Mapping(EntryFrame(e3) / 0x4_0000 * 0x4_0000 + v.i2 * 512 + v.i1, w3)) else
    var e2 := Entry(mem, EntryFrame(e3), v.i2);
    var w2 := w3 && Writable(e2);
    if !Present(e2) then None else
    if Large(e2) then Some(Mapping(EntryFrame(e2) / 512 * 512 + v.i1, w2)) else
    var e1 := Entry(mem, EntryFrame(e2), v.i1);
    if !Present(e1) then None else Some(Mapping(EntryFrame(e1), w2 && Writable(e1)))
  }

  /** The physical address the processor uses for a virtual one */
  datatype Access = Access(address: nat, writable: bool)

  function Translate(mem: Memory, root: nat, virt: Word): Option<Access> {
    if !Canonical(virt) then None else
    match Walk(mem, root, PageOf(virt))
    case None => None
    case Some(to) => Some(Access(to.frame * PAGE_SIZE + virt % PAGE_SIZE, to.writable))
  }

  /** The frame of a mapping */
  function FrameOf(to: Option<Mapping>): Option<nat> {
    match to
    case None => None
    case Some(t) => Some(t.frame)
  }

  /** The entry the kernel's own walk reads: it ignores PS, and takes a table at frame 0 for none. */
  function SoftwareWalk(mem: Memory, root: nat, v: Page): Option<nat>
    requires IsPage(v)
  {
    var e4 := Entry(mem, root, v.i4);
    if !Present(e4) || EntryFrame(e4) == 0 then None else
    var e3 := Entry(mem, EntryFrame(e4), v.i3);
    if !Present(e3) || EntryFrame(e3) == 0 then None else
    var e2 := Entry(mem, EntryFrame(e3), v.i2);
    if !Present(e2) || EntryFrame(e2) == 0 then None else
    var e1 := Entry(mem, EntryFrame(e2), v.i1);
    if !Present(e1) then None else Some(EntryFrame(e1))
  }
}
