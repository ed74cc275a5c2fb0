/** convert_memory_map of boot/uefi/src/main.c, and what the page allocator makes of its result. */
module BootMap {
  import opened Bits
  import opened BootAbi
  import opened Pages
  import opened Pmm

  const MAX_MEMORY_REGIONS := 256

  // EFI memory types
  const EFI_CONVENTIONAL_MEMORY := 7
  const EFI_ACPI_RECLAIM_MEMORY := 9
  const EFI_ACPI_MEMORY_NVS := 10

  /** A memory descriptor as the loader reads it */
  datatype Descriptor = Descriptor(start: Word, pages: Word, kind: nat)

  /** The loader takes the start from offset 0, the page count from 8 and the type from 16. */
  function DescriptorAt(buffer: seq<Byte>, at: nat): Descriptor
    requires at + 20 <= |buffer|
  {
    ReadFits(buffer, at, 8);
    ReadFits(buffer, at + 8, 8);
    Pow2Of64();
    Descriptor(Read(buffer, at, 8), Read(buffer, at + 8, 8), Read(buffer, at + 16, 4))
  }

  function RegionKind(kind: nat): nat {
    if kind == EFI_CONVENTIONAL_MEMORY then MEM_USABLE
    else if kind == EFI_ACPI_RECLAIM_MEMORY then MEM_ACPI_RECLAIMABLE
    else if kind == EFI_ACPI_MEMORY_NVS then MEM_ACPI_NVS
    else MEM_RESERVED
  }

  /** The region made of a descriptor; the byte length is a uint64_t product. */
  function RegionOf(d: Descriptor): Region {
    Region(d.start, d.pages * PAGE_SIZE % WORD_LIMIT, RegionKind(d.kind), 0)
  }

  function Retained(d: Descriptor): bool {
    RegionOf(d).length > 0
  }

  /** The regions kept from the first n descriptors of a list */
  function Kept(ds: seq<Descriptor>): (rs: seq<Region>)
    ensures |rs| <= MAX_MEMORY_REGIONS
  {
    if ds == [] then []
    else
      var before := Kept(ds[..|ds| - 1]);
      var d := ds[|ds| - 1];
      if |before| < MAX_MEMORY_REGIONS && Retained(d) then before + [RegionOf(d)] else before
  }

  /** The 20 bytes read of each of n descriptors lie in the buffer. */
  predicate Fits(buffer: seq<Byte>, size: nat, n: nat) {
    n == 0 || (n - 1) * size + 20 <= |buffer|
  }

  lemma FitsAt(buffer: seq<Byte>, size: nat, n: nat, i: nat)
    requires Fits(buffer, size, n) && i < n
    ensures i * size + 20 <= |buffer|
  {
    MulMonotone(i, n - 1, size, size);
  }

  function Descriptors(buffer: seq<Byte>, size: nat, n: nat): (ds: seq<Descriptor>)
    requires Fits(buffer, size, n)
    ensures |ds| == n
    ensures forall i :: 0 <= i < n ==> i * size + 20 <= |buffer| && ds[i] == DescriptorAt(buffer, i * size)
  {
    if n == 0 then []
    else
      assert n > 1 ==> (n - 2) * size + 20 <= |buffer| by { if n > 1 { FitsAt(buffer, size, n, n - 2); } }
      Descriptors(buffer, size, n - 1) + [DescriptorAt(buffer, (n - 1) * size)]
  }

  class Loader {
    const regions: array<Region>
    var count: nat

    constructor ()
      ensures regions.Length == MAX_MEMORY_REGIONS && count == 0 && fresh(regions)
    {
      regions := new Region[MAX_MEMORY_REGIONS](_ => Region(0, 0, 0, 0));
      count := 0;
    }

    /** convert_memory_map */
    method ConvertMemoryMap(buffer: seq<Byte>, mapSize: nat, descSize: nat)
      requires regions.Length == MAX_MEMORY_REGIONS && descSize > 0 && Fits(buffer, descSize, mapSize / descSize)
      modifies regions, this`count
      ensures count <= MAX_MEMORY_REGIONS
      ensures regions[..count] == Kept(Descriptors(buffer, descSize, mapSize / descSize))
    {
      hide DescriptorAt, RegionOf;
      count := 0;
      var n := mapSize / descSize;
      ghost var ds := Descriptors(buffer, descSize, n);
      var i, at := 0, 0;
      while i < n && count < MAX_MEMORY_REGIONS
        invariant i <= n && at == i * descSize && count <= MAX_MEMORY_REGIONS
        invariant regions[..count] == Kept(ds[..i])
        decreases n - i
      {
        Distribute(i, 1, descSize);
        FitsAt(buffer, descSize, n, i);
        var d := DescriptorAt(buffer, at);
        assert ds[..i + 1][..i] == ds[..i] && ds[..i + 1][i] == d;
        if Retained(d) {
          regions[count] := RegionOf(d);
          count := count + 1;
        }
        at := at + descSize;
        i := i + 1;
      }
      KeptIsFull(ds, i);
      assert ds[..n] == ds;
    }
  }

  /** Once 256 regions are kept, later descriptors change nothing. */
  lemma {:induction false} KeptIsFull(ds: seq<Descriptor>, i: nat)
    requires i <= |ds| && (i == |ds| || |Kept(ds[..i])| == MAX_MEMORY_REGIONS)
    ensures Kept(ds) == Kept(ds[..i])
    decreases |ds|
  {
    if i < |ds| {
      var init := ds[..|ds| - 1];
      assert init[..i] == ds[..i];
      KeptIsFull(init, i);
    } else {
      assert ds[..i] == ds;
    }
  }

  /** Every region kept is one retained descriptor: same start, its pages in bytes, its kind. */
  lemma {:induction false} KeptRegion(ds: seq<Descriptor>, j: nat) returns (i: nat)
    requires j < |Kept(ds)|
    ensures i < |ds| && var r, d := Kept(ds)[j], ds[i];
      && r.base == d.start && r.length == d.pages * PAGE_SIZE % WORD_LIMIT > 0
      && (r.kind == MEM_USABLE <==> d.kind == EFI_CONVENTIONAL_MEMORY)
      && (r.kind == MEM_ACPI_RECLAIMABLE <==> d.kind == EFI_ACPI_RECLAIM_MEMORY)
      && (r.kind == MEM_ACPI_NVS <==> d.kind == EFI_ACPI_MEMORY_NVS)
    decreases |ds|
  {
    var init := ds[..|ds| - 1];
    if j < |Kept(init)| {
      i := KeptRegion(init, j);
      assert ds[i] == init[i];
    } else {
      i := |ds| - 1;
    }
  }

  /** While the table has room no descriptor with a length is lost. */
  lemma {:induction false} KeptIsComplete(ds: seq<Descriptor>, i: nat)
    requires i < |ds| && ds[i].pages * 4096 % WORD_LIMIT > 0 && |Kept(ds)| < 256
    ensures RegionOf(ds[i]) in Kept(ds)
    decreases |ds|
  {
    if i < |ds| - 1 {
      assert ds[..|ds| - 1][i] == ds[i];
      KeptIsComplete(ds[..|ds| - 1], i);
    }
  }

  // ---------- From the memory map to the page allocator ----------

  /** The frames of a descriptor, as the loader reads it: those pmm_init marks with its region */
  predicate Holds(d: Descriptor, f: nat) {
    Covers(RegionOf(d), f)
  }

  /** pmm_init releases a frame for a descriptor, as the loader reads it. */
  predicate Releases(d: Descriptor, f: nat) {
    d.kind == EFI_CONVENTIONAL_MEMORY && Holds(d, f)
  }

  predicate Released(ds: seq<Descriptor>, f: nat) {
    exists i :: 0 <= i < |ds| && Releases(ds[i], f)
  }

  /** How many descriptors are looked at before the table of regions is full */
  function Looked(ds: seq<Descriptor>): (n: nat)
    ensures n <= |ds|
  {
    if ds == [] then 0
    else if |Kept(ds[..|ds| - 1])| < MAX_MEMORY_REGIONS then |ds|
    else Looked(ds[..|ds| - 1])
  }

  lemma {:induction false} LookedAtAll(ds: seq<Descriptor>)
    requires |Kept(ds)| < MAX_MEMORY_REGIONS
    ensures Looked(ds) == |ds|
  {
    if ds != [] {
      assert |Kept(ds[..|ds| - 1])| <= |Kept(ds)|;
    }
  }

  lemma ReleasedSnoc(ds: seq<Descriptor>, f: nat)
    requires ds != []
    ensures Released(ds, f) <==> Released(ds[..|ds| - 1], f) || Releases(ds[|ds| - 1], f)
  {
    hide Releases;
    var init := ds[..|ds| - 1];
    if Released(init, f) {
      var i :| 0 <= i < |init| && Releases(init[i], f);
      assert ds[i] == init[i];
    }
    if Released(ds, f) {
      var i :| 0 <= i < |ds| && Releases(ds[i], f);
      assert i < |init| ==> init[i] == ds[i];
    }
  }

  lemma UsableLast(rs: seq<Region>, r: Region, f: nat)
    ensures Usable(rs + [r], f) <==> Usable(rs, f) || (r.kind == MEM_USABLE && Covers(r, f))
  {
    hide Covers;
    var all := rs + [r];
    UsableSnoc(all, |rs|, f);
    assert all[..|rs| + 1] == all && all[..|rs|] == rs;
  }

  lemma KindAndLength(d: Descriptor, f: nat)
    ensures RegionOf(d).kind == MEM_USABLE <==> d.kind == EFI_CONVENTIONAL_MEMORY
    ensures Covers(RegionOf(d), f) ==> Retained(d)
  {
    var b := RegionOf(d).base;
    if !Retained(d) {
      DivModUnique(b, WORD_LIMIT, 0, b);
    }
  }

  /** Of any map at all: a frame is in a usable region kept exactly when a descriptor looked at releases it. */
  lemma {:induction false} UsableIsReleased(ds: seq<Descriptor>, f: nat)
    ensures Usable(Kept(ds), f) <==> Released(ds[..Looked(ds)], f)
    decreases |ds|
  {
    hide Covers, RegionOf;
    if ds != [] {
      var init, d := ds[..|ds| - 1], ds[|ds| - 1];
      UsableIsReleased(init, f);
      KindAndLength(d, f);
      if |Kept(init)| < MAX_MEMORY_REGIONS {
        LookedAtAll(init);
        assert ds[..|ds|] == ds && init[..|init|] == init;
        ReleasedSnoc(ds, f);
        if Retained(d) {
          UsableLast(Kept(init), RegionOf(d), f);
        }
      } else {
        assert ds[..Looked(ds)] == init[..Looked(init)];
      }
    }
  }

  /** Over every run whose callers free what they hold, a frame handed out is one that a descriptor looked
      at releases, and neither frame 0 nor a frame of the bitmap. */
  lemma HandedOutIsReleased(p: Pages, ds: seq<Descriptor>, ops: seq<PageOp>)
    requires Initialised(p, Kept(ds)) && FreesHeld(p, {}, ops)
    ensures var (q, page) := Alloc(Run(p, ops));
      q != Run(p, ops) ==> Released(ds[..Looked(ds)], page / PAGE_SIZE) && !Reserved(|p.used|, page / PAGE_SIZE)
  {
    hide Run, Alloc, Reserved, Kept, Looked, Released;
    var pool := iset f: nat | f < |p.used| && !p.used[f];
    RunStaysWithin(p, {}, ops, pool);
    var f := Alloc(Run(p, ops)).1 / PAGE_SIZE;
    if f in pool {
      UsableIsReleased(ds, f);
    }
  }

  /** End to end: after convert_memory_map and pmm_init a frame is clear exactly when a conventional descriptor that
      was looked at holds it, and it is neither frame 0 nor a frame of the bitmap. */
  lemma ClearIsConventional(p: Pages, ds: seq<Descriptor>, f: nat)
    requires Initialised(p, Kept(ds)) && f < |p.used|
    ensures !p.used[f] <==> Released(ds[..Looked(ds)], f) && !Reserved(|p.used|, f)
  {
    hide Kept, Looked, Released, Usable, Reserved;
    UsableIsReleased(ds, f);
  }

  /** No two descriptors of the map share a frame. */
  ghost predicate NoOverlap(ds: seq<Descriptor>) {
    forall i, j, f: nat {:trigger Holds(ds[i], f), Holds(ds[j], f)} ::
      0 <= i < |ds| && 0 <= j < |ds| && Holds(ds[i], f) && Holds(ds[j], f) ==> i == j
  }

  /** Over every run whose callers free what they hold, a frame handed out is held by a conventional descriptor, and so
      by no other one, however the table of regions was cut short. */
  lemma HandedOutIsConventional(p: Pages, ds: seq<Descriptor>, ops: seq<PageOp>)
    requires NoOverlap(ds) && Initialised(p, Kept(ds)) && FreesHeld(p, {}, ops)
    ensures var (q, page) := Alloc(Run(p, ops));
      var f := page / PAGE_SIZE;
      q != Run(p, ops) ==>
        && Released(ds, f) && !Reserved(|p.used|, f)
        && forall i :: 0 <= i < |ds| && Holds(ds[i], f) ==> ds[i].kind == EFI_CONVENTIONAL_MEMORY
  {
    hide Holds, Run, Alloc, Initialised, Reserved, Kept, Looked;
    HandedOutIsReleased(p, ds, ops);
    var (q, page) := Alloc(Run(p, ops));
    if q != Run(p, ops) {
      var looked, f := ds[..Looked(ds)], page / PAGE_SIZE;
      var i :| 0 <= i < |looked| && Releases(looked[i], f);
      assert ds[i] == looked[i];
    }
  }

  /** A descriptor that starts on a page boundary and does not run past 2^64, as the loader reads it */
  predicate Plain(d: Descriptor) {
    d.start % PAGE_SIZE == 0 && d.start + d.pages * PAGE_SIZE < WORD_LIMIT
  }

  /** The frames of such a descriptor are its pages. */
  lemma PlainHoldsItsPages(d: Descriptor, f: nat)
    requires Plain(d)
    ensures Holds(d, f) <==> d.start / PAGE_SIZE <= f < d.start / PAGE_SIZE + d.pages
  {
    var r := RegionOf(d);
    assert r.length == d.pages * PAGE_SIZE;
    assert d.start == d.start / PAGE_SIZE * PAGE_SIZE;
    DivModUnique(RegionEnd(r), PAGE_SIZE, d.start / PAGE_SIZE + d.pages, 0);
  }
}
