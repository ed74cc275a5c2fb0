/** The memory map as the firmware lays it out, read by convert_memory_map. */
module FirmwareMap {
  import opened Bits
  import opened BootAbi
  import opened Pages
  import opened Pmm
  import opened BootMap

  /** EFI_MEMORY_DESCRIPTOR of section 7.2 of the UEFI specification: Type at offset 0, PhysicalStart at
      8, VirtualStart at 16, NumberOfPages at 24 */
  datatype EfiDescriptor = EfiDescriptor(kind: Word32, padding: Word32, physicalStart: Word, virtualStart: Word, pages: Word)

  function EfiDescriptorAt(buffer: seq<Byte>, at: nat): EfiDescriptor
    requires at + 40 <= |buffer|
  {
    Pow2Of64();
    ReadFits(buffer, at, 4);
    ReadFits(buffer, at + 4, 4);
    ReadFits(buffer, at + 8, 8);
    ReadFits(buffer, at + 16, 8);
    ReadFits(buffer, at + 24, 8);
    EfiDescriptor(
      Read(buffer, at, 4), Read(buffer, at + 4, 4), Read(buffer, at + 8, 8), Read(buffer, at + 16, 8), Read(buffer, at + 24, 8))
  }

  /** 2^64 bytes in pages */
  const ALL_PAGES := 0x10_0000_0000_0000

  /** Type and the padding after it, read as one 64-bit number */
  function TypeWord(e: EfiDescriptor): Word {
    e.kind + U32 * e.padding
  }

  /** What the loader makes of it: the type word is taken for the start, the start for the page count and
      the low half of VirtualStart for the type. NumberOfPages is not looked at. */
  lemma MisreadDescriptor(buffer: seq<Byte>, at: nat)
    requires at + 40 <= |buffer|
    ensures var d, e := DescriptorAt(buffer, at), EfiDescriptorAt(buffer, at);
      && d.start == TypeWord(e)
      && d.pages == e.physicalStart
      && d.kind == e.virtualStart % U32
  {
    Pow2Of64();
    ReadSplit(buffer, at, 4, 4);
    ReadSplit(buffer, at + 16, 4, 4);
    ReadFits(buffer, at + 16, 4);
    DivModUnique(Read(buffer, at + 16, 8), U32, Read(buffer, at + 20, 4), Read(buffer, at + 16, 4));
  }

  /** The region that describes the memory a descriptor is about */
  function RightRegion(e: EfiDescriptor): Region {
    Region(e.physicalStart, e.pages * PAGE_SIZE % WORD_LIMIT, RegionKind(e.kind), 0)
  }

  lemma LengthOf(pages: Word)
    ensures pages * PAGE_SIZE % WORD_LIMIT == pages % ALL_PAGES * PAGE_SIZE
  {
    DivModUnique(pages * PAGE_SIZE, WORD_LIMIT, pages / ALL_PAGES, pages % ALL_PAGES * PAGE_SIZE);
  }

  /** The conversion is right for a descriptor if and only if its fields agree by accident: PhysicalStart
      with the type word, PhysicalStart with NumberOfPages modulo 2^52, and the low half of VirtualStart
      with Type as far as the kind of region goes. */
  lemma ConversionIsRightIff(buffer: seq<Byte>, at: nat)
    requires at + 40 <= |buffer|
    ensures var e := EfiDescriptorAt(buffer, at);
      RegionOf(DescriptorAt(buffer, at)) == RightRegion(e) <==>
        && e.physicalStart == TypeWord(e)
        && e.physicalStart % ALL_PAGES == e.pages % ALL_PAGES
        && RegionKind(e.virtualStart % U32) == RegionKind(e.kind)
  {
    MisreadDescriptor(buffer, at);
    var e := EfiDescriptorAt(buffer, at);
    LengthOf(e.physicalStart);
    LengthOf(e.pages);
  }

  /** It is never right for memory on a page boundary whose type is no multiple of 4096, as conventional
      memory's is not. */
  lemma AlignedIsNeverRight(buffer: seq<Byte>, at: nat)
    requires at + 40 <= |buffer|
    requires var e := EfiDescriptorAt(buffer, at); e.physicalStart % PAGE_SIZE == 0 && e.kind % PAGE_SIZE != 0
    ensures RegionOf(DescriptorAt(buffer, at)) != RightRegion(EfiDescriptorAt(buffer, at))
  {
    ConversionIsRightIff(buffer, at);
    TypeWordOffset(EfiDescriptorAt(buffer, at));
  }

  lemma TypeWordOffset(e: EfiDescriptor)
    ensures TypeWord(e) % PAGE_SIZE == e.kind % PAGE_SIZE
    ensures TypeWord(e) / PAGE_SIZE == e.padding * 0x10_0000 + e.kind / PAGE_SIZE
  {
    DivModUnique(TypeWord(e), PAGE_SIZE, e.padding * 0x10_0000 + e.kind / PAGE_SIZE, e.kind % PAGE_SIZE);
  }

  /** A descriptor the firmware wrote becomes a usable region exactly when the low half of its
      VirtualStart happens to be 7 and its PhysicalStart is not a multiple of 2^52, whatever memory it describes. */
  lemma BecomesUsableIff(buffer: seq<Byte>, at: nat)
    requires at + 40 <= |buffer|
    ensures var d, e := DescriptorAt(buffer, at), EfiDescriptorAt(buffer, at);
      Retained(d) && RegionOf(d).kind == MEM_USABLE <==>
        e.virtualStart % U32 == EFI_CONVENTIONAL_MEMORY && e.physicalStart % ALL_PAGES != 0
  {
    MisreadDescriptor(buffer, at);
    LengthOf(EfiDescriptorAt(buffer, at).physicalStart);
  }

  /** A map as the firmware writes it: n descriptors of at least 40 bytes */
  predicate IsEfiMap(buffer: seq<Byte>, size: nat, n: nat) {
    size >= 40 && n * size <= |buffer|
  }

  lemma EfiMapFits(buffer: seq<Byte>, size: nat, n: nat)
    requires IsEfiMap(buffer, size, n)
    ensures Fits(buffer, size, n)
    ensures forall i {:trigger i * size} :: 0 <= i < n ==> i * size + 40 <= |buffer|
  {
    if n > 0 {
      Distribute(n - 1, 1, size);
    }
    forall i {:trigger i * size} | 0 <= i < n
      ensures i * size + 40 <= |buffer|
    {
      MulMonotone(i + 1, n, size, size);
      Distribute(i, 1, size);
    }
  }

  function EfiDescriptors(buffer: seq<Byte>, size: nat, n: nat): (es: seq<EfiDescriptor>)
    requires IsEfiMap(buffer, size, n)
    ensures |es| == n
    ensures forall i {:trigger es[i]} :: 0 <= i < n ==> i * size + 40 <= |buffer| && es[i] == EfiDescriptorAt(buffer, i * size)
  {
    EfiMapFits(buffer, size, n);
    seq(n, i requires 0 <= i < n && i * size + 40 <= |buffer| => EfiDescriptorAt(buffer, i * size))
  }

  /** The frames the allocator gets for a descriptor of the firmware, in the firmware's own fields */
  predicate EfiReleases(e: EfiDescriptor, f: nat) {
    && e.virtualStart % U32 == EFI_CONVENTIONAL_MEMORY
    && TypeWord(e) / PAGE_SIZE <= f < (TypeWord(e) + e.physicalStart % ALL_PAGES * PAGE_SIZE) % WORD_LIMIT / PAGE_SIZE
  }

  lemma ReleasesInEfi(buffer: seq<Byte>, at: nat, f: nat)
    requires at + 40 <= |buffer|
    ensures Releases(DescriptorAt(buffer, at), f) <==> EfiReleases(EfiDescriptorAt(buffer, at), f)
  {
    MisreadDescriptor(buffer, at);
    LengthOf(EfiDescriptorAt(buffer, at).physicalStart);
  }

  predicate EfiReleased(es: seq<EfiDescriptor>, f: nat) {
    exists i :: 0 <= i < |es| && EfiReleases(es[i], f)
  }

  lemma ReleasedAlike(ds: seq<Descriptor>, es: seq<EfiDescriptor>, f: nat)
    requires |ds| == |es| && forall i :: 0 <= i < |ds| ==> Releases(ds[i], f) == EfiReleases(es[i], f)
    ensures Released(ds, f) == EfiReleased(es, f)
  {
    hide Releases, EfiReleases;
    if Released(ds, f) {
      var i :| 0 <= i < |ds| && Releases(ds[i], f);
      assert EfiReleases(es[i], f);
    }
    if EfiReleased(es, f) {
      var i :| 0 <= i < |es| && EfiReleases(es[i], f);
      assert Releases(ds[i], f);
    }
  }

  lemma ReleasesAt(buffer: seq<Byte>, size: nat, n: nat, i: nat, f: nat)
    requires IsEfiMap(buffer, size, n) && Fits(buffer, size, n) && i < n
    ensures Releases(Descriptors(buffer, size, n)[i], f) == EfiReleases(EfiDescriptors(buffer, size, n)[i], f)
  {
    hide DescriptorAt, EfiDescriptorAt, Releases, EfiReleases;
    var ds, es := Descriptors(buffer, size, n), EfiDescriptors(buffer, size, n);
    assert ds[i] == DescriptorAt(buffer, i * size) && es[i] == EfiDescriptorAt(buffer, i * size);
    ReleasesInEfi(buffer, i * size, f);
  }

  /** Of any map the firmware writes: after convert_memory_map and pmm_init a frame is clear exactly when a
      descriptor looked at has the low half of VirtualStart 7 and the frame from its type word on, for
      PhysicalStart pages; whatever memory the descriptors are about. */
  lemma ClearOfFirmwareMap(buffer: seq<Byte>, size: nat, n: nat, p: Pages, f: nat)
    requires IsEfiMap(buffer, size, n) && Fits(buffer, size, n)
    requires Initialised(p, Kept(Descriptors(buffer, size, n))) && f < |p.used|
    ensures var looked := Looked(Descriptors(buffer, size, n));
      !p.used[f] <==> EfiReleased(EfiDescriptors(buffer, size, n)[..looked], f) && !Reserved(|p.used|, f)
  {
    hide DescriptorAt, EfiDescriptorAt, Kept, Looked, Releases, Released, EfiReleases, EfiReleased, Reserved, Usable;
    var ds, es := Descriptors(buffer, size, n), EfiDescriptors(buffer, size, n);
    UsableIsReleased(ds, f);
    var looked := Looked(ds);
    forall i | 0 <= i < looked
      ensures Releases(ds[..looked][i], f) == EfiReleases(es[..looked][i], f)
    {
      ReleasesAt(buffer, size, n, i, f);
    }
    ReleasedAlike(ds[..looked], es[..looked], f);
  }

  /** And over every run whose callers free what they hold, only such frames are handed out. */
  lemma HandedOutOfFirmwareMap(buffer: seq<Byte>, size: nat, n: nat, p: Pages, ops: seq<PageOp>)
    requires IsEfiMap(buffer, size, n) && Fits(buffer, size, n)
    requires Initialised(p, Kept(Descriptors(buffer, size, n))) && FreesHeld(p, {}, ops)
    ensures var (q, page) := Alloc(Run(p, ops));
      q != Run(p, ops) ==>
        && EfiReleased(EfiDescriptors(buffer, size, n)[..Looked(Descriptors(buffer, size, n))], page / PAGE_SIZE)
        && !Reserved(|p.used|, page / PAGE_SIZE)
  {
    hide EfiDescriptorAt, Kept, Read, Looked, Initialised, Reserved, EfiReleased, Run, Alloc;
    var pool := iset f: nat | f < |p.used| && !p.used[f];
    RunStaysWithin(p, {}, ops, pool);
    var f := Alloc(Run(p, ops)).1 / PAGE_SIZE;
    if f in pool {
      ClearOfFirmwareMap(buffer, size, n, p, f);
    }
  }

  /** With a type below 4096 and zero padding, as firmware writes them, those are the frames from 0 up to
      PhysicalStart: the lower the memory described, the less of what lies below it is released. */
  lemma EfiReleasesFromZero(e: EfiDescriptor, f: nat)
    requires e.padding == 0 && e.kind < PAGE_SIZE
    ensures EfiReleases(e, f) <==> e.virtualStart % U32 == EFI_CONVENTIONAL_MEMORY && f < e.physicalStart % ALL_PAGES
  {
    var x := e.kind + e.physicalStart % ALL_PAGES * PAGE_SIZE;
    DivModUnique(x, WORD_LIMIT, 0, x);
    DivModUnique(x, PAGE_SIZE, e.physicalStart % ALL_PAGES, e.kind);
  }

  /** No conventional descriptor of the firmware is plain as the loader reads it. */
  lemma ConventionalIsNotPlain(buffer: seq<Byte>, at: nat)
    requires at + 40 <= |buffer| && EfiDescriptorAt(buffer, at).kind == EFI_CONVENTIONAL_MEMORY
    ensures !Plain(DescriptorAt(buffer, at))
  {
    hide DescriptorAt, EfiDescriptorAt;
    MisreadDescriptor(buffer, at);
    TypeWordOffset(EfiDescriptorAt(buffer, at));
  }

  /** No descriptor has 7 in the low half of its VirtualStart. */
  predicate NoVirtualSeven(es: seq<EfiDescriptor>) {
    forall i :: 0 <= i < |es| ==> es[i].virtualStart % U32 != EFI_CONVENTIONAL_MEMORY
  }

  /** With the VirtualStart fields that firmware leaves at 0 before SetVirtualAddressMap, or any others
      whose low half is not 7, no memory is usable: every bit stays set and every alloc_page fails. */
  lemma FirmwareMapGivesNoMemory(buffer: seq<Byte>, size: nat, n: nat, p: Pages)
    requires IsEfiMap(buffer, size, n) && Fits(buffer, size, n)
    requires NoVirtualSeven(EfiDescriptors(buffer, size, n))
    requires Initialised(p, Kept(Descriptors(buffer, size, n)))
    ensures forall f :: 0 <= f < |p.used| ==> p.used[f]
    ensures Alloc(p) == (p, 0)
  {
    hide EfiDescriptorAt, Kept, Read, Looked, Initialised, Reserved;
    forall f | 0 <= f < |p.used|
      ensures p.used[f]
    {
      ClearOfFirmwareMap(buffer, size, n, p, f);
    }
    AllocTakesLowest(p);
  }

  // ---------- Two maps of one descriptor ----------

  /** A descriptor as firmware lays it out, with its attributes left at 0 */
  function Encode(e: EfiDescriptor): (s: seq<Byte>)
    ensures |s| == 40
  {
    Write(e.kind, 4) + Write(e.padding, 4) + Write(e.physicalStart, 8) + Write(e.virtualStart, 8) + Write(e.pages, 8) +
    Write(0, 8)
  }

  lemma EncodeSlices(e: EfiDescriptor)
    ensures var b := Encode(e);
      && b[0..4] == Write(e.kind, 4) && b[4..8] == Write(e.padding, 4) && b[8..16] == Write(e.physicalStart, 8)
      && b[16..24] == Write(e.virtualStart, 8) && b[24..32] == Write(e.pages, 8)
  {
    hide Write;
  }

  lemma EncodeRoundTrip(e: EfiDescriptor)
    ensures EfiDescriptorAt(Encode(e), 0) == e
  {
    hide Read, Write, Pow2, Encode;
    Pow2Of64();
    EncodeSlices(e);
    var b := Encode(e);
    ReadOfWrite(b, 0, e.kind, 4);
    ReadOfWrite(b, 4, e.padding, 4);
    ReadOfWrite(b, 8, e.physicalStart, 8);
    ReadOfWrite(b, 16, e.virtualStart, 8);
    ReadOfWrite(b, 24, e.pages, 8);
  }

  lemma OneDescriptor(e: EfiDescriptor)
    ensures IsEfiMap(Encode(e), 40, 1) && Fits(Encode(e), 40, 1)
    ensures EfiDescriptors(Encode(e), 40, 1) == [e] && Looked(Descriptors(Encode(e), 40, 1)) == 1
  {
    hide Encode, EfiDescriptorAt, DescriptorAt;
    EncodeRoundTrip(e);
    var es, ds := EfiDescriptors(Encode(e), 40, 1), Descriptors(Encode(e), 40, 1);
    assert es[0] == EfiDescriptorAt(Encode(e), 0 * 40);
    assert ds[..|ds| - 1] == [];
  }

  /** The pages of memory from 1 MiB to 17 MiB */
  const SIXTEEN_MIB_FROM_ONE := EfiDescriptor(EFI_CONVENTIONAL_MEMORY, 0, 0x10_0000, 0, 0x1000)

  /** A map of 16 MiB of conventional memory is lost: no frame of it, or of anything else, is clear. */
  lemma ConventionalMemoryIsLost(p: Pages)
    requires Fits(Encode(SIXTEEN_MIB_FROM_ONE), 40, 1)
    requires Initialised(p, Kept(Descriptors(Encode(SIXTEEN_MIB_FROM_ONE), 40, 1)))
    ensures Alloc(p) == (p, 0)
  {
    hide Encode, Kept, Initialised;
    OneDescriptor(SIXTEEN_MIB_FROM_ONE);
    FirmwareMapGivesNoMemory(Encode(SIXTEEN_MIB_FROM_ONE), 40, 1, p);
  }

  const EFI_LOADER_DATA := 2

  /** One page of loader data at 1 MiB, with 7 in VirtualStart */
  const LOADER_PAGE := EfiDescriptor(EFI_LOADER_DATA, 0, 0x10_0000, 7, 1)

  lemma LoaderPageRegion()
    requires Fits(Encode(LOADER_PAGE), 40, 1)
    ensures Kept(Descriptors(Encode(LOADER_PAGE), 40, 1)) == [Region(2, 0x1_0000_0000, MEM_USABLE, 0)]
  {
    hide Encode, DescriptorAt, EfiDescriptorAt, Write;
    EncodeRoundTrip(LOADER_PAGE);
    MisreadDescriptor(Encode(LOADER_PAGE), 0);
    var ds := Descriptors(Encode(LOADER_PAGE), 40, 1);
    assert ds[0] == DescriptorAt(Encode(LOADER_PAGE), 0 * 40);
    assert ds[..|ds| - 1] == [] && Kept(ds[..|ds| - 1]) == [];
  }

  /** A map of one page of loader data releases the frames from 0 up, the page's own among them: the first
      one handed out is frame 1, which the map says nothing about. */
  lemma LoaderDataIsHandedOut(p: Pages)
    requires Fits(Encode(LOADER_PAGE), 40, 1)
    requires Initialised(p, Kept(Descriptors(Encode(LOADER_PAGE), 40, 1)))
    ensures |p.used| == 0x10_0000 && !p.used[1] && !p.used[0x100]
    ensures Alloc(p).1 == PAGE_SIZE
  {
    hide Encode, Kept, Descriptors, Alloc, Initialised;
    LoaderPageRegion();
    LowFourGibUsable(p);
    FirstClearIs(p.used, 1);
    AllocTakesLowest(p);
  }

  lemma LowFourGibUsable(p: Pages)
    requires Initialised(p, [Region(2, 0x1_0000_0000, MEM_USABLE, 0)])
    ensures |p.used| == 0x10_0000 && p.used[0] && !p.used[1] && !p.used[0x100]
  {
    hide BitmapBytes;
    var r := Region(2, 0x1_0000_0000, MEM_USABLE, 0);
    assert HighestEnd([r]) == RegionEnd(r) by { assert [r][..0] == []; }
    assert [r][0] == r && Covers(r, 1) && Covers(r, 0x100);
  }
}
