/** kernel/src/x86_64/heap.c on values: the heap as the list of its blocks in address order. */
module Chain {
  import opened Bits

  const HEADER := 24
  const ALIGN := 16

  /** size is the usable size, without the header. */
  datatype Block = Block(size: nat, free: bool)

  /** blocks in address order, and the counter heap_used */
  datatype Heap = Heap(blocks: seq<Block>, used: Word)

  /** heap_align_up(n, 16): it wraps past the top of size_t. */
  function AlignUp(n: Word): Word {
    (n + ALIGN - 1) % WORD_LIMIT / ALIGN * ALIGN
  }

  lemma AlignUpBits(n: Word)
    ensures And((n + ALIGN - 1) % WORD_LIMIT, WORD_LIMIT - ALIGN) == AlignUp(n)
  {
    hide And, Or, Pow2, Shl, Shr, Low;
    var x := (n + ALIGN - 1) % WORD_LIMIT;
    AndMask(x, 4, 60);
    Powers();
    ShlIsMul(Pow2(60) - 1, 4);
    ShrIsDiv(x, 4);
    ShrIsDiv(x / ALIGN, 60);
    ShlIsMul(x / ALIGN, 4);
  }

  lemma Powers()
    ensures Pow2(4) == ALIGN && Pow2(60) == WORD_LIMIT / ALIGN
  {
    assert Pow2(4) == ALIGN && Pow2(15) == 0x8000;
    hide Pow2;
    Pow2Add(15, 15);
    Pow2Add(30, 30);
  }

  /** A request is rounded up to a multiple of 16, by less than 16, unless it is one of the last 15
      values of size_t, which round to 0. */
  lemma AlignUpRounds(n: Word)
    ensures AlignUp(n) % ALIGN == 0
    ensures n <= WORD_LIMIT - ALIGN ==> n <= AlignUp(n) < n + ALIGN
    ensures n > WORD_LIMIT - ALIGN ==> AlignUp(n) == 0
  {
  }

  // ---------- Where blocks lie ----------

  /** The offset of block i from the start of the heap */
  function Off(bs: seq<Block>, i: nat): nat
    requires i <= |bs|
  {
    if i == 0 then 0 else Off(bs, i - 1) + HEADER + bs[i - 1].size
  }

  function Total(bs: seq<Block>): nat {
    Off(bs, |bs|)
  }

  lemma {:induction false} OffGrows(bs: seq<Block>, i: nat, j: nat)
    requires i < j <= |bs|
    ensures Off(bs, i) + HEADER + bs[i].size <= Off(bs, j)
  {
    if i + 1 < j {
      OffGrows(bs, i, j - 1);
    }
  }

  /** An offset depends on the blocks before it alone. */
  lemma {:induction false} OffPrefix(bs: seq<Block>, cs: seq<Block>, i: nat)
    requires i <= |bs| && i <= |cs| && bs[..i] == cs[..i]
    ensures Off(bs, i) == Off(cs, i)
  {
    if i > 0 {
      assert bs[..i - 1] == bs[..i][..i - 1] && cs[..i - 1] == cs[..i][..i - 1];
      assert bs[i - 1] == bs[..i][i - 1] && cs[i - 1] == cs[..i][i - 1];
      OffPrefix(bs, cs, i - 1);
    }
  }

  /** Behind two equal tails that start at the same offset, offsets agree. */
  lemma {:induction false} OffTail(bs: seq<Block>, i: nat, cs: seq<Block>, j: nat, k: nat)
    requires i <= |bs| && j <= |cs| && bs[i..] == cs[j..] && Off(bs, i) == Off(cs, j)
    requires i + k <= |bs|
    ensures j + k <= |cs| && Off(bs, i + k) == Off(cs, j + k)
  {
    assert |bs[i..]| == |cs[j..]|;
    if k > 0 {
      OffTail(bs, i, cs, j, k - 1);
      assert bs[i + k - 1] == bs[i..][k - 1] == cs[j..][k - 1];
    }
  }

  lemma {:induction false} OffAligned(bs: seq<Block>, i: nat)
    requires i < |bs| && Aligned(bs)
    ensures Off(bs, i) % 8 == 0
  {
    if i > 0 {
      OffAligned(bs, i - 1);
    }
  }

  /** Every block ends on a multiple of 8, except perhaps the last, which ends where the heap does. */
  predicate Aligned(bs: seq<Block>) {
    forall i :: 0 <= i < |bs| - 1 ==> bs[i].size % 8 == 0
  }

  /** No two adjacent blocks are free. */
  predicate Merged(bs: seq<Block>) {
    forall i :: 0 < i < |bs| ==> !(bs[i - 1].free && bs[i].free)
  }

  /** The block at a byte of the heap */
  function BlockAt(bs: seq<Block>, a: nat): (i: nat)
    requires a < Total(bs)
    ensures i < |bs| && Off(bs, i) <= a < Off(bs, i) + HEADER + bs[i].size
  {
    BlockBefore(bs, |bs|, a)
  }

  function BlockBefore(bs: seq<Block>, n: nat, a: nat): (i: nat)
    requires n <= |bs| && a < Off(bs, n)
    ensures i < n && Off(bs, i) <= a < Off(bs, i) + HEADER + bs[i].size
  {
    if a >= Off(bs, n - 1) then n - 1 else BlockBefore(bs, n - 1, a)
  }

  // ---------- heap_alloc ----------

  function FirstFit(bs: seq<Block>, size: nat): (i: nat)
    ensures i <= |bs|
    ensures i < |bs| ==> bs[i].free && bs[i].size >= size
    ensures forall k :: 0 <= k < i ==> !(bs[k].free && bs[k].size >= size)
  {
    if bs == [] || (bs[0].free && bs[0].size >= size) then 0 else 1 + FirstFit(bs[1..], size)
  }

  lemma FirstFitIs(bs: seq<Block>, size: nat, i: nat)
    requires i <= |bs| && (i < |bs| ==> bs[i].free && bs[i].size >= size)
    requires forall k :: 0 <= k < i ==> !(bs[k].free && bs[k].size >= size)
    ensures FirstFit(bs, size) == i
  {
  }

  predicate Splits(b: Block, size: nat) {
    b.size >= size + HEADER + ALIGN
  }

  /** Block i handed out for `size` bytes, cut in two if the rest can hold a block of its own */
  function Take(bs: seq<Block>, i: nat, size: nat): seq<Block>
    requires i < |bs|
  {
    if Splits(bs[i], size) then
      bs[..i] + [Block(size, false), Block(bs[i].size - size - HEADER, true)] + bs[i + 1..]
    else bs[i := Block(bs[i].size, false)]
  }

  datatype Grant = Null | At(offset: nat)

  /** The search of heap_alloc for a rounded size; a grant is the offset of the payload from the start
      of the heap. */
  function Place(h: Heap, size: Word): (Heap, Grant) {
    var i := FirstFit(h.blocks, size);
    if i == |h.blocks| then (h, Null)
    else (Heap(Take(h.blocks, i, size), (h.used + size) % WORD_LIMIT), At(Off(h.blocks, i) + HEADER))
  }

  /** heap_alloc */
  function Alloc(h: Heap, n: Word): (Heap, Grant) {
    if n == 0 then (h, Null) else Place(h, AlignUp(n))
  }

  // ---------- heap_free ----------

  /** The sweep of heap_free: every run of free blocks becomes one. */
  function Coalesce(bs: seq<Block>): seq<Block>
    decreases |bs|
  {
    if |bs| < 2 then bs
    else if bs[0].free && bs[1].free then Coalesce([Block(bs[0].size + HEADER + bs[1].size, true)] + bs[2..])
    else [bs[0]] + Coalesce(bs[1..])
  }

  /** heap_free of the payload of block i */
  function Free(h: Heap, i: nat): Heap
    requires i < |h.blocks|
  {
    Heap(Coalesce(h.blocks[i := h.blocks[i].(free := true)]), (h.used - h.blocks[i].size) % WORD_LIMIT)
  }

  lemma {:induction false} CoalesceMerges(bs: seq<Block>)
    ensures Merged(Coalesce(bs))
    ensures |Coalesce(bs)| == 0 <==> |bs| == 0
    ensures bs != [] ==> Coalesce(bs)[0].free == bs[0].free
    decreases |bs|
  {
    if |bs| < 2 {
    } else if bs[0].free && bs[1].free {
      CoalesceMerges([Block(bs[0].size + HEADER + bs[1].size, true)] + bs[2..]);
    } else {
      CoalesceMerges(bs[1..]);
      var rest := Coalesce(bs[1..]);
      assert Coalesce(bs) == [bs[0]] + rest;
      forall i | 0 < i < |Coalesce(bs)|
        ensures !(Coalesce(bs)[i - 1].free && Coalesce(bs)[i].free)
      {
        if i > 1 {
          assert !(rest[i - 2].free && rest[i - 1].free);
        }
      }
    }
  }

  lemma {:induction false} CoalesceOfMerged(bs: seq<Block>)
    requires Merged(bs)
    ensures Coalesce(bs) == bs
    decreases |bs|
  {
    if |bs| >= 2 {
      assert !(bs[0].free && bs[1].free);
      CoalesceOfMerged(bs[1..]);
    }
  }

  /** A prefix that has been swept stays as it is: `bs` has no two adjacent free blocks up to i. */
  lemma {:induction false} CoalesceSkips(bs: seq<Block>, i: nat)
    requires i < |bs|
    requires forall k :: 0 < k <= i ==> !(bs[k - 1].free && bs[k].free)
    ensures Coalesce(bs) == bs[..i] + Coalesce(bs[i..])
    decreases i
  {
    if i > 0 {
      assert !(bs[0].free && bs[1].free);
      CoalesceSkips(bs[1..], i - 1);
      assert bs[1..][..i - 1] == bs[1..i] && bs[1..][i - 1..] == bs[i..];
      assert bs[..i] == [bs[0]] + bs[1..i];
    } else {
      assert bs[0..] == bs;
    }
  }
}
