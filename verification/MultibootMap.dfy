/** The memory map of boot/stage1/multiboot.c: a list of entries that each say how far the next one is. */
module MultibootMap {
  import opened Bits
  import opened BootAbi
  import opened BootMap
  import opened Pages
  import opened Pmm

  const MAX_REGIONS := 128
  const ENTRY_SIZE := 24

  datatype MmapEntry = MmapEntry(size: Word32, base: Word, length: Word, kind: Word32)

  /** A byte at a 32-bit address; memory that is not there reads as zero. */
  function ByteAt(mem: seq<Byte>, at: nat): Byte {
    if at % U32 < |mem| then mem[at % U32] else 0
  }

  /** n bytes from an address on as a little-endian number */
  function Load(mem: seq<Byte>, at: nat, n: nat): (v: nat)
    ensures v < Pow2(8 * n)
    decreases n
  {
    if n == 0 then 0 else
    LoadFits(n);
    ByteAt(mem, at) + 256 * Load(mem, at + 1, n - 1)
  }

  lemma LoadFits(n: nat)
    requires n > 0
    ensures Pow2(8 * n) == 256 * Pow2(8 * (n - 1))
  {
    assert Pow2(8) == 256;
    hide Pow2;
    Pow2Add(8, 8 * (n - 1));
  }

  /** struct multiboot_mmap_entry, packed */
  function EntryAt(mem: seq<Byte>, at: nat): MmapEntry {
    Pow2Of64();
    MmapEntry(Load(mem, at, 4), Load(mem, at + 4, 8), Load(mem, at + 12, 8), Load(mem, at + 20, 4))
  }

  function RegionOfEntry(e: MmapEntry): Region {
    var kind := if e.kind == 1 then MEM_USABLE else if e.kind == 3 then MEM_ACPI_RECLAIMABLE
                else if e.kind == 4 then MEM_ACPI_NVS else MEM_RESERVED;
    Region(e.base, e.length, kind, 0)
  }

  /** The regions of the first entries that have a length, up to the size of the table */
  function Collected(es: seq<MmapEntry>, room: nat): (rs: seq<Region>)
    ensures |rs| <= room
  {
    if es == [] then []
    else
      var before, e := Collected(es[..|es| - 1], room), es[|es| - 1];
      if |before| < room && e.length > 0 then before + [RegionOfEntry(e)] else before
  }

  /** Every region collected is an entry of the list with a length: its base, its length, its kind as the
      boot ABI names it (1, 3 and 4 have their own, all others are reserved), no flags. */
  lemma {:induction false} CollectedIsFaithful(es: seq<MmapEntry>, room: nat, j: nat) returns (i: nat)
    requires j < |Collected(es, room)|
    ensures i < |es| && var r, e := Collected(es, room)[j], es[i];
      && e.length > 0 && r.base == e.base && r.length == e.length && r.flags == 0
      && (r.kind == MEM_USABLE <==> e.kind == 1)
      && (r.kind == MEM_ACPI_RECLAIMABLE <==> e.kind == 3)
      && (r.kind == MEM_ACPI_NVS <==> e.kind == 4)
      && (r.kind == MEM_RESERVED <==> e.kind != 1 && e.kind != 3 && e.kind != 4)
    decreases |es|
  {
    var init := es[..|es| - 1];
    if j < |Collected(init, room)| {
      i := CollectedIsFaithful(init, room, j);
      assert es[i] == init[i];
    } else {
      i := |es| - 1;
    }
  }

  /** With room to spare nothing is lost: every entry with a length has its region. */
  lemma {:induction false} CollectedIsComplete(es: seq<MmapEntry>, room: nat, i: nat)
    requires i < |es| && es[i].length > 0 && |Collected(es, room)| < room
    ensures RegionOfEntry(es[i]) in Collected(es, room)
    decreases |es|
  {
    if i < |es| - 1 {
      assert es[..|es| - 1][i] == es[i];
      CollectedIsComplete(es[..|es| - 1], room, i);
    }
  }

  // ---------- The walk ----------

  /** Where the walk is, and how many regions it has */
  datatype Cursor = Cursor(addr: Word32, count: nat)

  /** The loop guard, with its 32-bit addition */
  predicate Going(c: Cursor, end: nat) {
    (c.addr + ENTRY_SIZE) % U32 <= end && c.count < MAX_REGIONS
  }

  function Turn(mem: seq<Byte>, c: Cursor): Cursor {
    var e := EntryAt(mem, c.addr);
    Cursor((c.addr + e.size + 4) % U32, if e.length > 0 then c.count + 1 else c.count)
  }

  function After(mem: seq<Byte>, c: Cursor, k: nat): Cursor {
    if k == 0 then c else Turn(mem, After(mem, c, k - 1))
  }

  /** The entries of the first k turns */
  function Visited(mem: seq<Byte>, c: Cursor, k: nat): (es: seq<MmapEntry>)
    ensures |es| == k
  {
    if k == 0 then [] else Visited(mem, c, k - 1) + [EntryAt(mem, After(mem, c, k - 1).addr)]
  }

  ghost predicate Ends(mem: seq<Byte>, c: Cursor, end: nat) {
    exists k: nat :: !Going(After(mem, c, k), end)
  }

  // ---------- When the walk ends ----------

  lemma {:induction false} AfterAdds(mem: seq<Byte>, c: Cursor, i: nat, k: nat)
    ensures After(mem, c, i + k) == After(mem, After(mem, c, i), k)
  {
    hide Turn;
    if k > 0 {
      AfterAdds(mem, c, i, k - 1);
      assert i + k - 1 == i + (k - 1);
    }
  }

  /** After turns i and j the walk is at the same address with as many regions, and has not ended before. */
  ghost predicate Recurs(mem: seq<Byte>, c: Cursor, end: nat, i: nat, j: nat) {
    && i < j && After(mem, c, i) == After(mem, c, j)
    && forall k: nat :: k < j ==> Going(After(mem, c, k), end)
  }

  lemma {:induction false} RecurringGoesOn(mem: seq<Byte>, c: Cursor, end: nat, i: nat, j: nat, k: nat)
    requires Recurs(mem, c, end, i, j)
    ensures Going(After(mem, c, k), end)
    decreases k
  {
    hide Turn, Going;
    if k >= j {
      RecurringGoesOn(mem, c, end, i, j, k - (j - i));
      AfterAdds(mem, c, i, k - j);
      AfterAdds(mem, c, j, k - j);
      assert After(mem, c, k - (j - i)) == After(mem, c, i + (k - j));
    }
  }

  const STATES := U32 * MAX_REGIONS

  /** Address and count of a walk that goes on, as one number */
  function Code(c: Cursor): nat {
    c.addr + U32 * c.count
  }

  lemma CodeIsUnique(c: Cursor, d: Cursor)
    requires Code(c) == Code(d)
    ensures c == d
  {
    DivModUnique(Code(c), U32, c.count, c.addr);
    DivModUnique(Code(d), U32, d.count, d.addr);
  }

  lemma {:induction false} Pigeonhole(s: seq<nat>, n: nat) returns (i: nat, j: nat)
    requires |s| > n && forall k :: 0 <= k < |s| ==> s[k] < n
    ensures i < j < |s| && s[i] == s[j]
    decreases n
  {
    var last := |s| - 1;
    if k :| 0 <= k < last && s[k] == s[last] {
      i, j := k, last;
    } else {
      // none before it equals the last: close the gap it leaves
      var t := seq(last, k requires 0 <= k < last => if s[k] > s[last] then s[k] - 1 else s[k]);
      i, j := Pigeonhole(t, n - 1);
    }
  }

  /** As its states are finitely many, the walk never ends if and only if one recurs. */
  lemma NeverEndsIffRecurs(mem: seq<Byte>, c: Cursor, end: nat)
    ensures !Ends(mem, c, end) <==> exists i: nat, j: nat :: Recurs(mem, c, end, i, j)
  {
    hide Turn, After;
    if i: nat, j: nat :| Recurs(mem, c, end, i, j) {
      forall k: nat
        ensures Going(After(mem, c, k), end)
      {
        RecurringGoesOn(mem, c, end, i, j, k);
      }
    }
    if !Ends(mem, c, end) {
      var s := seq(STATES + 1, k requires k >= 0 => Code(After(mem, c, k)));
      forall k | 0 <= k < |s|
        ensures s[k] < STATES
      {
        assert Going(After(mem, c, k), end);
      }
      var i, j := Pigeonhole(s, STATES);
      CodeIsUnique(After(mem, c, i), After(mem, c, j));
      assert Recurs(mem, c, end, i, j);
    }
  }

  /** How far turns i to j - 1 go, before any wrap */
  function Distance(mem: seq<Byte>, c: Cursor, i: nat, j: nat): nat
    requires i <= j
  {
    if i == j then 0 else Distance(mem, c, i, j - 1) + EntryAt(mem, After(mem, c, j - 1).addr).size + 4
  }

  /** No entry of turns i to j - 1 has a length. */
  ghost predicate NoLength(mem: seq<Byte>, c: Cursor, i: nat, j: nat) {
    forall k: nat {:trigger After(mem, c, k)} :: i <= k < j ==> EntryAt(mem, After(mem, c, k).addr).length == 0
  }

  lemma {:induction false} TurnsGoOn(mem: seq<Byte>, c: Cursor, i: nat, j: nat)
    requires i <= j
    ensures After(mem, c, j).addr == (After(mem, c, i).addr + Distance(mem, c, i, j)) % U32
  {
    hide EntryAt, After;
    if i < j {
      TurnsGoOn(mem, c, i, j - 1);
      AfterNext(mem, c, j);
      var e := EntryAt(mem, After(mem, c, j - 1).addr);
      AddTwice(After(mem, c, i).addr, Distance(mem, c, i, j - 1), e.size + 4);
    } else {
      DivModUnique(After(mem, c, i).addr, U32, 0, After(mem, c, i).addr);
    }
  }

  lemma {:induction false} TurnsCount(mem: seq<Byte>, c: Cursor, i: nat, j: nat)
    requires i <= j
    ensures After(mem, c, i).count <= After(mem, c, j).count
    ensures After(mem, c, i).count == After(mem, c, j).count <==> NoLength(mem, c, i, j)
  {
    hide EntryAt;
    if i < j {
      TurnsCount(mem, c, i, j - 1);
      CountStep(mem, c, j);
      hide After;
      if NoLength(mem, c, i, j) {
        assert NoLength(mem, c, i, j - 1);
      }
    }
  }

  lemma CountStep(mem: seq<Byte>, c: Cursor, j: nat)
    requires j > 0
    ensures var e := EntryAt(mem, After(mem, c, j - 1).addr);
      After(mem, c, j).count == After(mem, c, j - 1).count + if e.length > 0 then 1 else 0
  {
    hide EntryAt;
  }

  lemma AddTwice(a: nat, b: nat, d: nat)
    ensures ((a + b) % U32 + d) % U32 == (a + (b + d)) % U32
  {
    var q, r := (a + b) / U32, (a + b) % U32;
    DivModUnique(a + (b + d), U32, q + (r + d) / U32, (r + d) % U32);
  }

  lemma BackIff(a: nat, d: nat)
    requires a < U32
    ensures (a + d) % U32 == a <==> d % U32 == 0
  {
    var q, r := d / U32, d % U32;
    if a + r < U32 {
      DivModUnique(a + d, U32, q, a + r);
    } else {
      DivModUnique(a + d, U32, q + 1, a + r - U32);
    }
  }

  /** The entries of turns i to j - 1 lead back to the first of them: none has a length, and their sizes, each with
      the four bytes of the size field, add up to a multiple of 2^32. */
  ghost predicate IdleCycle(mem: seq<Byte>, c: Cursor, end: nat, i: nat, j: nat) {
    && i < j && (forall k: nat :: k < j ==> Going(After(mem, c, k), end))
    && NoLength(mem, c, i, j) && Distance(mem, c, i, j) % U32 == 0
  }

  lemma RecursIffIdle(mem: seq<Byte>, c: Cursor, end: nat, i: nat, j: nat)
    ensures Recurs(mem, c, end, i, j) <==> IdleCycle(mem, c, end, i, j)
  {
    hide After, Distance, NoLength, Going;
    if i < j {
      TurnsGoOn(mem, c, i, j);
      TurnsCount(mem, c, i, j);
      BackIff(After(mem, c, i).addr, Distance(mem, c, i, j));
    }
  }

  /** The walk never ends if and only if, with the guard holding all the way, it comes to entries without a length
      whose sizes lead round the address space and back. */
  lemma NeverEndsIff(mem: seq<Byte>, c: Cursor, end: nat)
    ensures !Ends(mem, c, end) <==> exists i: nat, j: nat :: IdleCycle(mem, c, end, i, j)
  {
    hide Ends, Recurs, IdleCycle;
    NeverEndsIffRecurs(mem, c, end);
    forall i: nat, j: nat
      ensures Recurs(mem, c, end, i, j) <==> IdleCycle(mem, c, end, i, j)
    {
      RecursIffIdle(mem, c, end, i, j);
    }
  }

  /** No address on the way comes near 2^32. */
  predicate Linked(mem: seq<Byte>, addr: nat, end: nat)
    decreases end - addr
  {
    addr + ENTRY_SIZE < U32 &&
    (addr + ENTRY_SIZE <= end ==> Linked(mem, addr + EntryAt(mem, addr).size + 4, end))
  }

  /** Such a walk ends, however short its entries are. */
  lemma {:induction false} LinkedEnds(mem: seq<Byte>, addr: Word32, end: nat, count: nat)
    requires Linked(mem, addr, end)
    ensures Ends(mem, Cursor(addr, count), end)
    decreases end - addr
  {
    hide EntryAt;
    var c := Cursor(addr, count);
    DivModUnique(addr + ENTRY_SIZE, U32, 0, addr + ENTRY_SIZE);
    if !Going(c, end) {
      assert !Going(After(mem, c, 0), end);
    } else {
      var e := EntryAt(mem, addr);
      var next := addr + e.size + 4;
      DivModUnique(next, U32, 0, next);
      var count' := if e.length > 0 then count + 1 else count;
      LinkedEnds(mem, next, end, count');
      var k: nat :| !Going(After(mem, Cursor(next, count'), k), end);
      AfterAdds(mem, c, 1, k);
      assert After(mem, c, 1) == Turn(mem, After(mem, c, 0)) == Cursor(next, count');
      assert !Going(After(mem, c, 1 + k), end);
    }
  }

  /** One turn that changes nothing: exactly an entry without a length whose size field is 0xFFFFFFFC. */
  lemma TurnIsStuckIff(mem: seq<Byte>, c: Cursor)
    ensures Turn(mem, c) == c <==> EntryAt(mem, c.addr).length == 0 && EntryAt(mem, c.addr).size == 0xFFFF_FFFC
  {
    hide EntryAt;
    var x := c.addr + EntryAt(mem, c.addr).size + 4;
    var q := if x < U32 then 0 else if x < 2 * U32 then 1 else 2;
    DivModUnique(x, U32, q, x - q * U32);
  }

  /** Two entries without a length, each of which leads to the other: sizes 20 and 0xFFFFFFE4 */
  const TWO_ENTRIES: seq<Byte> := [20, 0, 0, 0] + ZEROS + [0xE4, 0xFF, 0xFF, 0xFF] + ZEROS
  const ZEROS: seq<Byte> := seq(20, _ => 0)

  lemma TwoEntriesByte(at: nat)
    requires at < 48
    ensures |TWO_ENTRIES| == 48
    ensures ByteAt(TWO_ENTRIES, at) ==
      if at == 0 then 20 else if at == 24 then 0xE4 else if 25 <= at < 28 then 0xFF else 0
  {
    DivModUnique(at, U32, 0, at);
    assert TWO_ENTRIES[at] ==
      if at < 4 then [20, 0, 0, 0][at] else if at < 24 then ZEROS[at - 4]
      else if at < 28 then [0xE4, 0xFF, 0xFF, 0xFF][at - 24] else ZEROS[at - 28];
  }

  lemma TwoEntries()
    ensures |TWO_ENTRIES| == 48
    ensures EntryAt(TWO_ENTRIES, 0).size == 20 && EntryAt(TWO_ENTRIES, 0).length == 0
    ensures EntryAt(TWO_ENTRIES, 24).size == 0xFFFF_FFE4 && EntryAt(TWO_ENTRIES, 24).length == 0
  {
    hide TWO_ENTRIES, ZEROS, ByteAt, Load;
    forall at | 0 <= at < 48
      ensures |TWO_ENTRIES| == 48
      ensures ByteAt(TWO_ENTRIES, at) ==
        if at == 0 then 20 else if at == 24 then 0xE4 else if 25 <= at < 28 then 0xFF else 0
    {
      TwoEntriesByte(at);
    }
    assert |TWO_ENTRIES| == 48 by { TwoEntriesByte(0); }
    FourBytes(TWO_ENTRIES, 0);
    FourBytes(TWO_ENTRIES, 24);
    LoadZeros(TWO_ENTRIES, 12, 8);
    LoadZeros(TWO_ENTRIES, 36, 8);
  }

  lemma FourBytes(mem: seq<Byte>, at: nat)
    ensures Load(mem, at, 4) ==
      ByteAt(mem, at) + 256 * (ByteAt(mem, at + 1) + 256 * (ByteAt(mem, at + 2) + 256 * ByteAt(mem, at + 3)))
  {
    hide ByteAt;
    assert Load(mem, at + 3, 1) == ByteAt(mem, at + 3) + 256 * Load(mem, at + 4, 0);
  }

  lemma {:induction false} LoadZeros(mem: seq<Byte>, at: nat, n: nat)
    requires forall k :: at <= k < at + n ==> ByteAt(mem, k) == 0
    ensures Load(mem, at, n) == 0
    decreases n
  {
    if n > 0 {
      LoadZeros(mem, at + 1, n - 1);
    }
  }

  /** The walk over them never ends, although no turn of it stays where it is. */
  lemma CycleNeverEnds()
    ensures var c := Cursor(0, 0);
      && !Ends(TWO_ENTRIES, c, |TWO_ENTRIES|)
      && forall k: nat {:trigger After(TWO_ENTRIES, c, k)} ::
        Turn(TWO_ENTRIES, After(TWO_ENTRIES, c, k)) != After(TWO_ENTRIES, c, k)
  {
    hide EntryAt, TWO_ENTRIES;
    TwoEntries();
    var mem, c := TWO_ENTRIES, Cursor(0, 0);
    forall k: nat
      ensures After(mem, c, k) == if k % 2 == 0 then c else Cursor(24, 0)
    {
      Alternates(k);
    }
    assert Recurs(mem, c, |mem|, 0, 2);
    NeverEndsIffRecurs(mem, c, |mem|);
  }

  lemma {:induction false} Alternates(k: nat)
    ensures After(TWO_ENTRIES, Cursor(0, 0), k) == if k % 2 == 0 then Cursor(0, 0) else Cursor(24, 0)
  {
    hide EntryAt, TWO_ENTRIES;
    TwoEntries();
    if k > 0 {
      Alternates(k - 1);
    }
  }

  // ---------- From the Multiboot map to the page allocator ----------

  /** pmm_init releases a frame for an entry. */
  predicate EntryReleases(e: MmapEntry, f: nat) {
    e.kind == 1 && Covers(RegionOfEntry(e), f)
  }

  predicate EntryReleased(es: seq<MmapEntry>, f: nat) {
    exists i :: 0 <= i < |es| && EntryReleases(es[i], f)
  }

  lemma EntryReleasedSnoc(es: seq<MmapEntry>, e: MmapEntry, f: nat)
    ensures EntryReleased(es + [e], f) <==> EntryReleased(es, f) || EntryReleases(e, f)
  {
    hide EntryReleases;
    var all := es + [e];
    if EntryReleased(es, f) {
      var i :| 0 <= i < |es| && EntryReleases(es[i], f);
      assert all[i] == es[i];
    }
    assert all[|es|] == e;
  }

  lemma EmptyEntryReleases(e: MmapEntry, f: nat)
    ensures EntryReleases(e, f) ==> e.length > 0
    ensures EntryReleases(e, f) <==> RegionOfEntry(e).kind == MEM_USABLE && Covers(RegionOfEntry(e), f)
  {
    DivModUnique(e.base, WORD_LIMIT, 0, e.base);
  }

  /** While the walk goes on, its table has room: as many regions as entries with a length so far. */
  lemma {:induction false} CountIsCollected(mem: seq<Byte>, start: Word32, end: nat, k: nat)
    requires forall j: nat :: j < k ==> Going(After(mem, Cursor(start, 0), j), end)
    ensures |Collected(Visited(mem, Cursor(start, 0), k), MAX_REGIONS)| == After(mem, Cursor(start, 0), k).count
  {
    hide EntryAt, RegionOfEntry;
    if k > 0 {
      CountIsCollected(mem, start, end, k - 1);
      assert Going(After(mem, Cursor(start, 0), k - 1), end);
      hide After, Visited, Collected;
      NextTurn(mem, Cursor(start, 0), k - 1);
    } else {
      NoTurns(mem, Cursor(start, 0));
    }
  }

  /** Every entry the walk visits counts. */
  lemma {:induction false} UsableIsVisited(mem: seq<Byte>, start: Word32, end: nat, k: nat, f: nat)
    requires forall j: nat :: j < k ==> Going(After(mem, Cursor(start, 0), j), end)
    ensures Usable(Collected(Visited(mem, Cursor(start, 0), k), MAX_REGIONS), f) <==>
      EntryReleased(Visited(mem, Cursor(start, 0), k), f)
  {
    hide EntryAt, RegionOfEntry, EntryReleases, EntryReleased, After, Usable, Covers, Collected, Visited;
    var c := Cursor(start, 0);
    if k > 0 {
      var es := Visited(mem, c, k - 1);
      UsableIsVisited(mem, start, end, k - 1, f);
      CountIsCollected(mem, start, end, k - 1);
      assert Going(After(mem, c, k - 1), end);
      var e := EntryAt(mem, After(mem, c, k - 1).addr);
      NextTurn(mem, c, k - 1);
      VisitedSnoc(mem, c, k);
      EntryReleasedSnoc(es, e, f);
      EmptyEntryReleases(e, f);
      UsableLast(Collected(es, MAX_REGIONS), RegionOfEntry(e), f);
    } else {
      NoneVisited(mem, c, f);
    }
  }

  lemma VisitedSnoc(mem: seq<Byte>, c: Cursor, k: nat)
    requires k > 0
    ensures Visited(mem, c, k) == Visited(mem, c, k - 1) + [EntryAt(mem, After(mem, c, k - 1).addr)]
  {
  }

  lemma NoneVisited(mem: seq<Byte>, c: Cursor, f: nat)
    ensures !Usable(Collected(Visited(mem, c, 0), MAX_REGIONS), f) && !EntryReleased(Visited(mem, c, 0), f)
  {
  }

  /** Of any Multiboot map whose walk ends: after stage 1 and pmm_init a frame is clear exactly when an entry visited
      of type 1 covers it and it is neither frame 0 nor a frame of the bitmap. */
  lemma ClearOfMultibootMap(mem: seq<Byte>, start: Word32, end: nat, turns: nat, p: Pages, f: nat)
    requires IsWalked(mem, Cursor(start, 0), end, turns)
    requires Initialised(p, Collected(Visited(mem, Cursor(start, 0), turns), MAX_REGIONS)) && f < |p.used|
    ensures !p.used[f] <==> EntryReleased(Visited(mem, Cursor(start, 0), turns), f) && !Reserved(|p.used|, f)
  {
    hide Going, After, Visited, Collected, EntryReleased, Usable, Reserved;
    UsableIsVisited(mem, start, end, turns, f);
  }

  /** And over every run whose callers free what they hold, only such frames are handed out. */
  lemma HandedOutOfMultibootMap(mem: seq<Byte>, start: Word32, end: nat, turns: nat, p: Pages, ops: seq<PageOp>)
    requires IsWalked(mem, Cursor(start, 0), end, turns)
    requires Initialised(p, Collected(Visited(mem, Cursor(start, 0), turns), MAX_REGIONS)) && FreesHeld(p, {}, ops)
    ensures var (q, page) := Alloc(Run(p, ops));
      q != Run(p, ops) ==>
        EntryReleased(Visited(mem, Cursor(start, 0), turns), page / PAGE_SIZE) && !Reserved(|p.used|, page / PAGE_SIZE)
  {
    hide IsWalked, Visited, Collected, EntryReleased, Initialised, Reserved, Run, Alloc;
    var pool := iset f: nat | f < |p.used| && !p.used[f];
    RunStaysWithin(p, {}, ops, pool);
    var f := Alloc(Run(p, ops)).1 / PAGE_SIZE;
    if f in pool {
      ClearOfMultibootMap(mem, start, end, turns, p, f);
    }
  }

  // ---------- Maps of given entries ----------

  /** struct multiboot_mmap_entry as the boot loader lays it out: size, base, length and type */
  function WriteEntry(e: MmapEntry): (s: seq<Byte>)
    ensures |s| == 24
  {
    Write(e.size, 4) + Write(e.base, 8) + Write(e.length, 8) + Write(e.kind, 4)
  }

  /** The bytes lie in memory from an address on. */
  predicate InMemory(mem: seq<Byte>, at: nat, bytes: seq<Byte>) {
    forall k {:trigger bytes[k]} :: 0 <= k < |bytes| ==> ByteAt(mem, at + k) == bytes[k]
  }

  lemma {:induction false} LoadOfWrite(mem: seq<Byte>, at: nat, v: nat, n: nat)
    requires InMemory(mem, at, Write(v, n)) && v < Pow2(8 * n)
    ensures Load(mem, at, n) == v
    decreases n
  {
    hide ByteAt;
    if n > 0 {
      LoadFits(n);
      var bytes, rest := Write(v, n), Write(v / 256, n - 1);
      assert bytes[0] == v % 256;
      forall k | 0 <= k < |rest|
        ensures ByteAt(mem, at + 1 + k) == rest[k]
      {
        assert bytes[k + 1] == rest[k];
      }
      LoadOfWrite(mem, at + 1, v / 256, n - 1);
    }
  }

  lemma InPart(mem: seq<Byte>, at: nat, a: seq<Byte>, b: seq<Byte>)
    requires InMemory(mem, at, a + b)
    ensures InMemory(mem, at, a) && InMemory(mem, at + |a|, b)
  {
    hide ByteAt;
    forall k | 0 <= k < |a|
      ensures ByteAt(mem, at + k) == a[k]
    {
      assert (a + b)[k] == a[k];
    }
    forall k | 0 <= k < |b|
      ensures ByteAt(mem, at + |a| + k) == b[k]
    {
      assert (a + b)[|a| + k] == b[k];
    }
  }

  /** An entry written at any address, even across the top of memory, is read back. */
  lemma EntryRoundTrip(mem: seq<Byte>, at: nat, e: MmapEntry)
    requires InMemory(mem, at, WriteEntry(e))
    ensures EntryAt(mem, at) == e
  {
    hide InMemory, Load, Write, Pow2;
    Pow2Of64();
    var a, b, c, d := Write(e.size, 4), Write(e.base, 8), Write(e.length, 8), Write(e.kind, 4);
    InPart(mem, at, a + b + c, d);
    InPart(mem, at, a + b, c);
    InPart(mem, at, a, b);
    LoadOfWrite(mem, at, e.size, 4);
    LoadOfWrite(mem, at + 4, e.base, 8);
    LoadOfWrite(mem, at + 12, e.length, 8);
    LoadOfWrite(mem, at + 20, e.kind, 4);
  }

  /** How far the entries reach: each takes its size and the four bytes of the size field. */
  function Span(es: seq<MmapEntry>): nat {
    if es == [] then 0 else Span(es[..|es| - 1]) + es[|es| - 1].size + 4
  }

  lemma SpanNext(es: seq<MmapEntry>, k: nat)
    requires k < |es|
    ensures Span(es[..k + 1]) == Span(es[..k]) + es[k].size + 4
  {
    assert es[..k + 1][..k] == es[..k];
  }

  lemma {:induction false} SpanGrows(es: seq<MmapEntry>, k: nat)
    requires k <= |es|
    ensures Span(es[..k]) <= Span(es)
    decreases |es| - k
  {
    if k < |es| {
      SpanNext(es, k);
      SpanGrows(es, k + 1);
    } else {
      assert es[..k] == es;
    }
  }

  /** The entries lie in memory one behind the other, each at least as long as its fields and the list short of the top
      of the 32-bit address space; between them there may be anything. */
  ghost predicate MapAt(mem: seq<Byte>, at: nat, es: seq<MmapEntry>) {
    && at + Span(es) + 24 < U32
    && (forall i :: 0 <= i < |es| ==> es[i].size >= 20)
    && (forall i {:trigger es[i]} :: 0 <= i < |es| ==> InMemory(mem, at + Span(es[..i]), WriteEntry(es[i])))
  }

  lemma {:induction false} WalkFollows(mem: seq<Byte>, at: Word32, es: seq<MmapEntry>, k: nat)
    requires MapAt(mem, at, es) && k <= |es|
    ensures After(mem, Cursor(at, 0), k).addr == at + Span(es[..k]) && After(mem, Cursor(at, 0), k).count <= k
    ensures Visited(mem, Cursor(at, 0), k) == es[..k]
  {
    hide InMemory, WriteEntry, EntryAt, After, Visited, Span;
    var c := Cursor(at, 0);
    if k > 0 {
      WalkFollows(mem, at, es, k - 1);
      var e := es[k - 1];
      EntryRoundTrip(mem, at + Span(es[..k - 1]), e);
      AfterNext(mem, c, k);
      VisitedSnoc(mem, c, k);
      SpanNext(es, k - 1);
      SpanGrows(es, k);
      DivModUnique(at + Span(es[..k]), U32, 0, at + Span(es[..k]));
      assert es[..k] == es[..k - 1] + [e];
    } else {
      NoneVisitedYet(mem, c, es);
    }
  }

  lemma AfterNext(mem: seq<Byte>, c: Cursor, k: nat)
    requires k > 0
    ensures var before := After(mem, c, k - 1);
      && After(mem, c, k).addr == (before.addr + EntryAt(mem, before.addr).size + 4) % U32
      && After(mem, c, k).count <= before.count + 1
  {
    hide EntryAt;
  }

  lemma NoneVisitedYet(mem: seq<Byte>, c: Cursor, es: seq<MmapEntry>)
    ensures After(mem, c, 0) == c && Visited(mem, c, 0) == es[..0] == [] && Span(es[..0]) == 0
  {
  }

  /** The walk over such a list of at most 128 entries visits exactly them, first to last. */
  lemma WalkReadsMap(mem: seq<Byte>, at: Word32, es: seq<MmapEntry>)
    requires MapAt(mem, at, es) && |es| <= 128
    ensures IsWalked(mem, Cursor(at, 0), at + Span(es), |es|) && Visited(mem, Cursor(at, 0), |es|) == es
  {
    hide MapAt, After, Visited, Going, Span;
    forall k: nat | k < |es|
      ensures Going(After(mem, Cursor(at, 0), k), at + Span(es))
    {
      WalkGoesOn(mem, at, es, k);
    }
    WalkStops(mem, at, es);
  }

  lemma WalkGoesOn(mem: seq<Byte>, at: Word32, es: seq<MmapEntry>, k: nat)
    requires MapAt(mem, at, es) && k < |es| <= 128
    ensures Going(After(mem, Cursor(at, 0), k), at + Span(es))
  {
    hide InMemory, WriteEntry, After, Visited, Span;
    WalkFollows(mem, at, es, k);
    SpanNext(es, k);
    SpanGrows(es, k + 1);
    assert es[k].size >= 20;
    var addr := After(mem, Cursor(at, 0), k).addr;
    DivModUnique(addr + 24, U32, 0, addr + 24);
  }

  lemma WalkStops(mem: seq<Byte>, at: Word32, es: seq<MmapEntry>)
    requires MapAt(mem, at, es)
    ensures !Going(After(mem, Cursor(at, 0), |es|), at + Span(es)) && Visited(mem, Cursor(at, 0), |es|) == es
  {
    hide InMemory, WriteEntry, After, Visited, Span;
    WalkFollows(mem, at, es, |es|);
    assert es[..|es|] == es;
    DivModUnique(at + Span(es) + 24, U32, 0, at + Span(es) + 24);
  }

  /** From the bytes of the map to the bitmap: a frame is clear exactly when it ends inside an entry of type 1, behind
      its base, and is neither frame 0 nor a frame of the bitmap. */
  lemma ClearOfWrittenMap(mem: seq<Byte>, at: Word32, es: seq<MmapEntry>, p: Pages, f: nat)
    requires MapAt(mem, at, es) && |es| <= 128
    requires forall e :: e in es ==> e.base + e.length < WORD_LIMIT
    requires Initialised(p, Collected(Visited(mem, Cursor(at, 0), |es|), MAX_REGIONS)) && f < |p.used|
    ensures !p.used[f] <==>
      && (exists e :: e in es && e.kind == 1 && e.base < (f + 1) * 4096 <= e.base + e.length)
      && !Reserved(|p.used|, f)
  {
    hide MapAt, Visited, Collected, Reserved, Initialised, EntryReleased, IsWalked;
    WalkReadsMap(mem, at, es);
    ClearOfMultibootMap(mem, at, at + Span(es), |es|, p, f);
    ReleasedByEntries(es, f);
  }

  lemma ReleasedByEntries(es: seq<MmapEntry>, f: nat)
    requires forall e :: e in es ==> e.base + e.length < WORD_LIMIT
    ensures EntryReleased(es, f) <==> exists e :: e in es && e.kind == 1 && e.base < (f + 1) * 4096 <= e.base + e.length
  {
    hide EntryReleases;
    forall i | 0 <= i < |es|
      ensures EntryReleases(es[i], f) <==> es[i].kind == 1 && es[i].base < (f + 1) * 4096 <= es[i].base + es[i].length
    {
      assert es[i] in es;
      ReleasedByOne(es[i], f);
    }
  }

  lemma ReleasedByOne(e: MmapEntry, f: nat)
    requires e.base + e.length < WORD_LIMIT
    ensures EntryReleases(e, f) <==> e.kind == 1 && e.base < (f + 1) * 4096 <= e.base + e.length
  {
    hide Covers;
    CoversIff(RegionOfEntry(e), f);
  }

  /** One entry of usable memory from 1 MiB to 0x7FE0000, wherever it lies: the frames from 256 to 0x7FDF are clear
      but for those of the bitmap, and no others. */
  lemma OneEntryClears(mem: seq<Byte>, at: Word32, p: Pages, f: nat)
    requires at < 0xFFFF_0000 && InMemory(mem, at, WriteEntry(MmapEntry(20, 0x10_0000, 0x7EE_0000, 1)))
    requires Initialised(p, Collected(Visited(mem, Cursor(at, 0), 1), MAX_REGIONS)) && f < |p.used|
    ensures !p.used[f] <==> 256 <= f < 0x7FE0 && !Reserved(|p.used|, f)
  {
    hide InMemory, WriteEntry, Visited, Collected, Reserved, Initialised;
    var e := MmapEntry(20, 0x10_0000, 0x7EE_0000, 1);
    var es := [e];
    assert es[..0] == [] && Span(es) == 24;
    ClearOfWrittenMap(mem, at, es, p, f);
    assert e in es;
  }

  /** The same for the two basic sizes, in KiB */
  lemma ClearOfBasic(lower: Word32, upper: Word32, p: Pages, f: nat)
    requires Initialised(p, Basic(lower, upper)) && f < |p.used|
    ensures !p.used[f] <==>
      && ((f + 1) * 4096 <= lower * 1024 || 0x10_0000 < (f + 1) * 4096 <= 0x10_0000 + upper * 1024)
      && !Reserved(|p.used|, f)
  {
    hide Reserved, Covers, Usable;
    var low, high := Region(0, lower * 1024, MEM_USABLE, 0), Region(0x10_0000, upper * 1024, MEM_USABLE, 0);
    var first := if lower > 0 then [low] else [];
    CoversIff(low, f);
    CoversIff(high, f);
    NothingUsable(f);
    UsableLast([], low, f);
    UsableLast(first, high, f);
    assert [] + [low] == [low];
    assert Basic(lower, upper) == if upper > 0 then first + [high] else first;
  }

  lemma NothingUsable(f: nat)
    ensures !Usable([], f)
  {
  }

  // ---------- In place ----------

  /** Without a map: conventional memory from 0 and from 1 MiB, in KiB */
  function Basic(lower: Word32, upper: Word32): seq<Region> {
    (if lower > 0 then [Region(0, lower * 1024, MEM_USABLE, 0)] else []) +
    (if upper > 0 then [Region(0x10_0000, upper * 1024, MEM_USABLE, 0)] else [])
  }

  class Stage1 {
    const regions: array<Region>
    var count: nat

    constructor ()
      ensures regions.Length == MAX_REGIONS && count == 0 && fresh(regions)
    {
      regions := new Region[MAX_REGIONS](_ => Region(0, 0, 0, 0));
      count := 0;
    }

    /** The memory-map part of multiboot_main */
    method CollectMemory(mem: seq<Byte>, hasMap: bool, hasSizes: bool, addr: Word32, length: Word32, lower: Word32, upper: Word32)
      returns (ghost turns: nat)
      requires regions.Length == MAX_REGIONS
      requires hasMap && length > 0 ==> Ends(mem, Cursor(addr, 0), (addr + length) % U32)
      modifies regions, this`count
      ensures count <= MAX_REGIONS
      ensures hasMap && length > 0 ==> IsWalked(mem, Cursor(addr, 0), (addr + length) % U32, turns)
      ensures regions[..count] ==
        if hasMap && length > 0 then Collected(Visited(mem, Cursor(addr, 0), turns), MAX_REGIONS)
        else if hasSizes then Basic(lower, upper) else []
    {
      count := 0;
      turns := 0;
      if hasMap && length > 0 {
        turns := WalkMap(mem, addr, (addr + length) % U32);
      } else if hasSizes {
        if lower > 0 {
          regions[count] := Region(0, lower * 1024, MEM_USABLE, 0);
          count := count + 1;
        }
        if upper > 0 {
          regions[count] := Region(0x10_0000, upper * 1024, MEM_USABLE, 0);
          count := count + 1;
        }
      }
    }

    /** The loop over the entries, taken to end: it does unless NeverEndsIff's condition holds. */
    method WalkMap(mem: seq<Byte>, start: Word32, end: nat) returns (ghost turns: nat)
      requires regions.Length == MAX_REGIONS && count == 0 && Ends(mem, Cursor(start, 0), end)
      modifies regions, this`count
      ensures count <= MAX_REGIONS && IsWalked(mem, Cursor(start, 0), end, turns)
      ensures regions[..count] == Collected(Visited(mem, Cursor(start, 0), turns), MAX_REGIONS)
    {
      hide EntryAt, RegionOfEntry, After, Visited, Collected, Turn;
      NoTurns(mem, Cursor(start, 0));
      ghost var c := Cursor(start, 0);
      ghost var total: nat :| !Going(After(mem, c, total), end);
      var addr: Word32 := start;
      turns := 0;
      while (addr + ENTRY_SIZE) % U32 <= end && count < MAX_REGIONS
        invariant turns <= total && count <= MAX_REGIONS && 0 <= addr < U32
        invariant Cursor(addr, count) == After(mem, c, turns)
        invariant forall k: nat :: k < turns ==> Going(After(mem, c, k), end)
        invariant regions[..count] == Collected(Visited(mem, c, turns), MAX_REGIONS)
        decreases total - turns
      {
        var e := EntryAt(mem, addr);
        ghost var before := regions[..count];
        NextTurn(mem, c, turns);
        if e.length > 0 {
          regions[count] := RegionOfEntry(e);
          assert regions[..count + 1] == before + [RegionOfEntry(e)];
          count := count + 1;
        }
        addr := (addr + e.size + 4) % U32;
        turns := turns + 1;
      }
    }
  }

  lemma NoTurns(mem: seq<Byte>, c: Cursor)
    ensures After(mem, c, 0) == c && Collected(Visited(mem, c, 0), MAX_REGIONS) == []
  {
  }

  /** What one more turn adds */
  lemma NextTurn(mem: seq<Byte>, c: Cursor, turns: nat)
    requires |Collected(Visited(mem, c, turns), MAX_REGIONS)| < MAX_REGIONS
    ensures var at := After(mem, c, turns);
      var e := EntryAt(mem, at.addr);
      var before := Collected(Visited(mem, c, turns), MAX_REGIONS);
      && After(mem, c, turns + 1) == Cursor((at.addr + e.size + 4) % U32, if e.length > 0 then at.count + 1 else at.count)
      && Collected(Visited(mem, c, turns + 1), MAX_REGIONS) == if e.length > 0 then before + [RegionOfEntry(e)] else before
  {
    hide EntryAt, RegionOfEntry;
    var es, e := Visited(mem, c, turns), EntryAt(mem, After(mem, c, turns).addr);
    assert Visited(mem, c, turns + 1) == es + [e];
    assert (es + [e])[..|es|] == es;
  }

  /** The loop makes this many turns. */
  ghost predicate IsWalked(mem: seq<Byte>, c: Cursor, end: nat, turns: nat) {
    !Going(After(mem, c, turns), end) && forall k: nat :: k < turns ==> Going(After(mem, c, k), end)
  }
}
