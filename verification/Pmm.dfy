/** kernel/src/x86_64/pmm.c: the bitmap page allocator in place, one bit a frame, eight frames a byte. */
module Pmm {
  import opened Bits
  import opened Pages
  import opened BootAbi

  /** 3 MiB, where the bitmap is placed */
  const BITMAP_ADDRESS := 0x30_0000

  // ---------- The bitmap ----------

  /** BITMAP_SET(f) and BITMAP_CLEAR(f), on the byte they rewrite */
  function WithBit(b: Byte, k: nat, value: bool): Byte
    requires k < 8
  {
    var one := Shl(1, k);
    OneBit(k);
    if value then
      OrLess(b, one, 8);
      Or(b, one)
    else
      AndLess(b, 255 - one);
      And(b, 255 - one)
  }

  lemma OneBit(k: nat)
    requires k < 8
    ensures Shl(1, k) < Pow2(8) == 256
  {
    BitOfComplement(8, k, k);
  }

  predicate Marked(bitmap: seq<Byte>, f: nat)
    requires f < 8 * |bitmap|
  {
    Bit(bitmap[f / 8], f % 8)
  }

  function Used(bitmap: seq<Byte>, total: nat): (u: seq<bool>)
    requires total <= 8 * |bitmap|
    ensures |u| == total
    ensures forall f :: 0 <= f < total ==> u[f] == Marked(bitmap, f)
  {
    seq(total, f requires 0 <= f < total => Marked(bitmap, f))
  }

  /** Writing one bit of a byte moves none of its seven neighbours. */
  lemma BitOfByte(b: Byte, j: nat, value: bool, k: nat)
    requires j < 8 && k < 8
    ensures Bit(WithBit(b, j, value), k) == if k == j then value else Bit(b, k)
  {
    OneBit(j);
    SetBit(b, j, k);
    ClearBit(b, 8, j, k);
  }

  lemma WriteBitAt(bitmap: seq<Byte>, f: nat, value: bool, g: nat)
    requires f < 8 * |bitmap| && g < 8 * |bitmap|
    ensures Marked(bitmap[f / 8 := WithBit(bitmap[f / 8], f % 8, value)], g) ==
      if g == f then value else Marked(bitmap, g)
  {
    BitOfByte(bitmap[f / 8], f % 8, value, g % 8);
  }

  lemma WriteBit(bitmap: seq<Byte>, total: nat, f: nat, value: bool)
    requires f < 8 * |bitmap| && total <= 8 * |bitmap|
    ensures Used(bitmap[f / 8 := WithBit(bitmap[f / 8], f % 8, value)], total) ==
      if f < total then Used(bitmap, total)[f := value] else Used(bitmap, total)
  {
    var now := bitmap[f / 8 := WithBit(bitmap[f / 8], f % 8, value)];
    forall g | 0 <= g < total
      ensures Used(now, total)[g] == if g == f then value else Used(bitmap, total)[g]
    {
      WriteBitAt(bitmap, f, value, g);
    }
  }

  // ---------- What pmm_init computes ----------

  function RegionEnd(r: Region): Word {
    (r.base + r.length) % WORD_LIMIT
  }

  function HighestEnd(regions: seq<Region>): (m: Word)
    ensures forall i :: 0 <= i < |regions| ==> RegionEnd(regions[i]) <= m
    ensures m == 0 || exists i :: 0 <= i < |regions| && RegionEnd(regions[i]) == m
  {
    if regions == [] then 0
    else
      var last := RegionEnd(regions[|regions| - 1]);
      var rest := HighestEnd(regions[..|regions| - 1]);
      if last > rest then last else rest
  }

  /** pmm_mark_region covers the frames from the one holding `base` up to the last whole one. */
  predicate Covers(r: Region, f: nat) {
    r.base / PAGE_SIZE <= f < RegionEnd(r) / PAGE_SIZE
  }

  /** A frame covered lies wholly inside the region, except the first one when the region does not start
      on a page boundary: the start is rounded down. A region whose end wraps covers no frame. */
  lemma CoveredIsInsideIff(r: Region, f: nat)
    requires Covers(r, f)
    ensures r.base + r.length < WORD_LIMIT
    ensures r.base <= f * PAGE_SIZE && (f + 1) * PAGE_SIZE <= r.base + r.length <==>
      r.base % PAGE_SIZE == 0 || f != r.base / PAGE_SIZE
  {
    var b, e := r.base, r.base + r.length;
    if e >= WORD_LIMIT {
      DivModUnique(e, WORD_LIMIT, 1, e - WORD_LIMIT);
    }
    assert b == b / PAGE_SIZE * PAGE_SIZE + b % PAGE_SIZE && e == e / PAGE_SIZE * PAGE_SIZE + e % PAGE_SIZE;
  }

  /** The frames covered are those that end inside the region, behind its base: all that lie wholly inside it, and the
      first one when it is cut by the base. */
  lemma CoversIff(r: Region, f: nat)
    requires r.base + r.length < WORD_LIMIT
    ensures Covers(r, f) <==> r.base < (f + 1) * 4096 <= r.base + r.length
  {
    var b, e := r.base, r.base + r.length;
    DivModUnique(e, WORD_LIMIT, 0, e);
    assert b == b / PAGE_SIZE * PAGE_SIZE + b % PAGE_SIZE && e == e / PAGE_SIZE * PAGE_SIZE + e % PAGE_SIZE;
  }

  /** One whose end wraps round 2^64 covers none. */
  lemma WrappedCoversNone(r: Region, f: nat)
    requires r.base + r.length >= WORD_LIMIT
    ensures !Covers(r, f)
  {
    DivModUnique(r.base + r.length, WORD_LIMIT, 1, r.base + r.length - WORD_LIMIT);
  }

  predicate Usable(regions: seq<Region>, f: nat) {
    exists i :: 0 <= i < |regions| && regions[i].kind == MEM_USABLE && Covers(regions[i], f)
  }

  function BitmapBytes(total: nat): nat {
    total / 8 + (if total % 8 != 0 then 1 else 0)
  }

  predicate BitmapFrame(total: nat, f: nat) {
    BITMAP_ADDRESS / PAGE_SIZE <= f < BITMAP_ADDRESS / PAGE_SIZE + (BitmapBytes(total) + PAGE_SIZE - 1) / PAGE_SIZE
  }

  /** Frames that are marked after the free pages have been counted */
  predicate Reserved(total: nat, f: nat) {
    f == 0 || BitmapFrame(total, f)
  }

  /** Byte by byte: the page of every byte of the bitmap, one bit a frame from 3 MiB on, is reserved; and every
      reserved page but the first holds such a byte. */
  lemma BitmapIsReserved(total: nat)
    ensures Reserved(total, 0)
    ensures forall b :: 0x30_0000 <= b < 0x30_0000 + (total + 7) / 8 ==> Reserved(total, b / 4096)
    ensures forall f: nat :: f != 0 && Reserved(total, f) ==>
      exists b :: 0x30_0000 <= b < 0x30_0000 + (total + 7) / 8 && b / 4096 == f
  {
    var bytes := (total + 7) / 8;
    assert BitmapBytes(total) == bytes;
    forall b | 0x30_0000 <= b < 0x30_0000 + bytes
      ensures Reserved(total, b / 4096)
    {
      var k := b - 0x30_0000;
      DivModUnique(b, 4096, 768 + k / 4096, k % 4096);
      PageOfByte(k, bytes);
    }
    forall f: nat | f != 0 && Reserved(total, f)
      ensures exists b :: 0x30_0000 <= b < 0x30_0000 + bytes && b / 4096 == f
    {
      FirstByteOfPage(f - 768, bytes);
      assert f * 4096 / 4096 == f;
    }
  }

  lemma PageOfByte(k: nat, bytes: nat)
    requires k < bytes
    ensures k / PAGE_SIZE < (bytes + PAGE_SIZE - 1) / PAGE_SIZE
  {
  }

  lemma FirstByteOfPage(f: nat, bytes: nat)
    requires f < (bytes + PAGE_SIZE - 1) / PAGE_SIZE
    ensures f * PAGE_SIZE < bytes
  {
  }

  function UsableBits(regions: seq<Region>, total: nat): (s: seq<bool>)
    ensures |s| == total
    ensures forall f :: 0 <= f < total ==> s[f] == Usable(regions, f)
  {
    seq(total, f requires 0 <= f < total => Usable(regions, f))
  }

  function ReservedUsableBits(regions: seq<Region>, total: nat): (s: seq<bool>)
    ensures |s| == total
    ensures forall f :: 0 <= f < total ==> s[f] == (Reserved(total, f) && Usable(regions, f))
  {
    seq(total, f requires 0 <= f < total => Reserved(total, f) && Usable(regions, f))
  }

  /** The allocator's state after pmm_init on a memory map with at least one region */
  predicate Initialised(p: Pages, regions: seq<Region>) {
    && |p.used| == HighestEnd(regions) / PAGE_SIZE
    && (forall f :: 0 <= f < |p.used| ==> p.used[f] == !(Usable(regions, f) && !Reserved(|p.used|, f)))
    && p.free == Count(UsableBits(regions, |p.used|))
  }

  /** The bitmap has a bit for every whole frame below the highest end of a region, usable or not. */
  lemma BitmapReachesHighestEnd(p: Pages, regions: seq<Region>)
    requires Initialised(p, regions)
    ensures forall i :: 0 <= i < |regions| ==>
      (regions[i].base + regions[i].length) % WORD_LIMIT < (|p.used| + 1) * 4096
    ensures |p.used| > 0 ==> exists i ::
      0 <= i < |regions| && |p.used| * 4096 <= (regions[i].base + regions[i].length) % WORD_LIMIT
  {
    var m := HighestEnd(regions);
    assert m == m / PAGE_SIZE * PAGE_SIZE + m % PAGE_SIZE;
    forall i | 0 <= i < |regions|
      ensures (regions[i].base + regions[i].length) % WORD_LIMIT < (|p.used| + 1) * 4096
    {
      assert RegionEnd(regions[i]) <= m;
    }
    if |p.used| > 0 {
      var i :| 0 <= i < |regions| && RegionEnd(regions[i]) == m;
      assert |p.used| * 4096 <= (regions[i].base + regions[i].length) % WORD_LIMIT;
    }
  }

  lemma {:induction false} CountSplit(usable: seq<bool>, reserved: seq<bool>, used: seq<bool>)
    requires |usable| == |reserved| == |used|
    requires forall f :: 0 <= f < |used| ==> (used[f] == !(usable[f] && !reserved[f])) && (reserved[f] ==> usable[f])
    ensures Count(usable) == Clear(used) + Count(reserved)
  {
    if used != [] {
      CountSplit(usable[1..], reserved[1..], used[1..]);
    }
  }

  /** After pmm_init the counter exceeds the number of clear bits by exactly the usable frames
      among frame 0 and the bitmap's own frames, and stays so over every run. */
  lemma CounterOffset(p: Pages, regions: seq<Region>, ops: seq<PageOp>)
    requires Initialised(p, regions)
    ensures Offset(Run(p, ops)) == Count(ReservedUsableBits(regions, |p.used|))
    ensures Run(p, ops).free >= Clear(Run(p, ops).used)
  {
    var total := |p.used|;
    CountSplit(UsableBits(regions, total), ReservedUsableBits(regions, total), p.used);
    CounterTracksClear(p, ops);
  }

  // ---------- The allocator ----------

  class PageAllocator {
    /** The memory at BITMAP_ADDRESS */
    const bitmap: array<Byte>
    var total: nat
    var free: Word

    ghost predicate Valid()
      reads this, bitmap
    {
      total <= 8 * bitmap.Length
    }

    ghost function State(): Pages
      requires Valid()
      reads this, bitmap
    {
      Pages(Used(bitmap[..], total), free)
    }

    constructor (memory: array<Byte>)
      ensures Valid() && bitmap == memory && State() == Pages([], 0)
    {
      bitmap, total, free := memory, 0, 0;
    }

    /** BITMAP_SET and BITMAP_CLEAR */
    method WriteFrame(f: nat, value: bool)
      requires Valid() && f < 8 * bitmap.Length
      modifies bitmap
      ensures State().used == if f < total then old(State().used)[f := value] else old(State().used)
    {
      ghost var was := bitmap[..];
      bitmap[f / 8] := WithBit(bitmap[f / 8], f % 8, value);
      assert bitmap[..] == was[f / 8 := WithBit(was[f / 8], f % 8, value)];
      WriteBit(was, total, f, value);
    }

    /** BITMAP_TEST */
    method TestFrame(f: nat) returns (marked: bool)
      requires Valid() && f < total
      ensures marked == State().used[f]
    {
      TestBit(bitmap[f / 8], f % 8);
      marked := And(bitmap[f / 8], Shl(1, f % 8)) != 0;
    }

    method MarkRegion(r: Region, taken: bool)
      requires Valid()
      modifies bitmap
      ensures forall f :: 0 <= f < total ==>
        State().used[f] == if Covers(r, f) then taken else old(State().used)[f]
    {
      var start := r.base / PAGE_SIZE;
      var end := RegionEnd(r) / PAGE_SIZE;
      var f := start;
      while f < end && f < total
        invariant start <= f
        invariant forall g :: 0 <= g < total ==>
          State().used[g] == if start <= g < f && g < end then taken else old(State().used)[g]
      {
        WriteFrame(f, taken);
        f := f + 1;
      }
    }

    /** pmm_init; a missing memory map is one with no regions. */
    method Init(regions: seq<Region>)
      requires HighestEnd(regions) / PAGE_SIZE <= 8 * bitmap.Length && bitmap.Length > 0
      requires Valid()
      modifies this, bitmap
      ensures Valid()
      ensures regions == [] ==> State() == old(State())
      ensures regions != [] ==> Initialised(State(), regions)
    {
      if |regions| == 0 {
        return;
      }
      var maxPhys: Word := 0;
      for i := 0 to |regions|
        invariant maxPhys == HighestEnd(regions[..i])
      {
        assert regions[..i + 1][..i] == regions[..i];
        var end := RegionEnd(regions[i]);
        if end > maxPhys {
          maxPhys := end;
        }
      }
      assert regions[..|regions|] == regions;
      total := maxPhys / PAGE_SIZE;
      free := 0;
      var bitmapSize := total / 8;
      if total % 8 != 0 {
        bitmapSize := bitmapSize + 1;
      }
      FillBitmap(bitmapSize);
      MarkUsable(regions);
      CountFree();
      ClearIsCount(State().used, UsableBits(regions, total));
      MarkReserved(bitmapSize);
    }

    /** All bits set before usable memory is released */
    method FillBitmap(bitmapSize: nat)
      requires Valid() && bitmapSize == BitmapBytes(total)
      modifies bitmap
      ensures forall f :: 0 <= f < total ==> State().used[f]
    {
      for i := 0 to bitmapSize
        invariant forall k :: 0 <= k < i ==> bitmap[k] == 0xFF
      {
        bitmap[i] := 0xFF;
      }
      forall f | 0 <= f < total
        ensures State().used[f]
      {
        BitOfOnes(8, f % 8);
      }
    }

    /** The loop that releases the usable regions */
    method MarkUsable(regions: seq<Region>)
      requires Valid() && forall f :: 0 <= f < total ==> State().used[f]
      modifies bitmap
      ensures forall f :: 0 <= f < total ==> State().used[f] == !Usable(regions, f)
    {
      for i := 0 to |regions|
        invariant forall f :: 0 <= f < total ==> State().used[f] == !Usable(regions[..i], f)
      {
        if regions[i].kind == MEM_USABLE {
          MarkRegion(regions[i], false);
        }
        forall f | 0 <= f < total
          ensures Usable(regions[..i + 1], f) ==
            (Usable(regions[..i], f) || (regions[i].kind == MEM_USABLE && Covers(regions[i], f)))
        {
          UsableSnoc(regions, i, f);
        }
      }
      assert regions[..|regions|] == regions;
    }

    /** The loop that sets the counter */
    method CountFree()
      requires Valid() && total < WORD_LIMIT
      modifies this`free
      ensures free == Clear(State().used)
    {
      free := 0;
      ghost var used := State().used;
      for i := 0 to total
        invariant free == Clear(used[..i])
      {
        CountSnoc(used[..i], used[i]);
        assert used[..i + 1] == used[..i] + [used[i]];
        var marked := TestFrame(i);
        if !marked {
          free := Inc(free);
        }
      }
      assert used[..total] == used;
    }

    /** Taking back the frames of the bitmap, and frame 0 */
    method MarkReserved(bitmapSize: nat)
      requires Valid() && bitmapSize == BitmapBytes(total) && bitmap.Length > 0
      modifies bitmap
      ensures forall f :: 0 <= f < total ==> State().used[f] == (old(State().used[f]) || Reserved(total, f))
    {
      var bitmapStart := BITMAP_ADDRESS / PAGE_SIZE;
      var bitmapEnd := bitmapStart + (bitmapSize + PAGE_SIZE - 1) / PAGE_SIZE;
      var f := bitmapStart;
      while f < bitmapEnd && f < total
        invariant bitmapStart <= f
        invariant forall g :: 0 <= g < total ==>
          State().used[g] == (old(State().used[g]) || (bitmapStart <= g < f && g < bitmapEnd))
      {
        WriteFrame(f, true);
        f := f + 1;
      }
      WriteFrame(0, true);
    }

    method AllocPage() returns (page: nat)
      requires Valid()
      modifies this`free, bitmap
      ensures Valid() && total == old(total)
      ensures (State(), page) == Alloc(old(State()))
    {
      ghost var was := State();
      for i := 0 to total
        invariant State() == was
        invariant forall k :: 0 <= k < i ==> was.used[k]
      {
        var marked := TestFrame(i);
        if !marked {
          FirstClearIs(was.used, i);
          WriteFrame(i, true);
          free := Dec(free);
          assert State().used == was.used[i := true];
          return i * PAGE_SIZE;
        }
      }
      FirstClearIs(was.used, total);
      return 0;
    }

    method FreePage(page: nat)
      requires Valid()
      modifies this`free, bitmap
      ensures Valid() && total == old(total)
      ensures State() == Free(old(State()), page)
    {
      var frame := page / PAGE_SIZE;
      if frame < total {
        var marked := TestFrame(frame);
        if marked {
          WriteFrame(frame, false);
          free := Inc(free);
        }
      }
    }
  }

  lemma UsableSnoc(regions: seq<Region>, i: nat, f: nat)
    requires i < |regions|
    ensures Usable(regions[..i + 1], f) ==
      (Usable(regions[..i], f) || (regions[i].kind == MEM_USABLE && Covers(regions[i], f)))
  {
    var next := regions[..i + 1];
    if Usable(regions[..i], f) {
      var k :| 0 <= k < i && regions[..i][k].kind == MEM_USABLE && Covers(regions[..i][k], f);
      assert next[k] == regions[k];
    }
    if regions[i].kind == MEM_USABLE && Covers(regions[i], f) {
      assert next[i] == regions[i];
    }
    if Usable(next, f) {
      var k :| 0 <= k < |next| && next[k].kind == MEM_USABLE && Covers(next[k], f);
      if k < i {
        assert regions[..i][k] == next[k];
      }
    }
  }

  lemma {:induction false} ClearIsCount(used: seq<bool>, usable: seq<bool>)
    requires |used| == |usable|
    requires forall f :: 0 <= f < |used| ==> used[f] == !usable[f]
    ensures Clear(used) == Count(usable)
  {
    if used != [] {
      ClearIsCount(used[1..], usable[1..]);
    }
  }
}
