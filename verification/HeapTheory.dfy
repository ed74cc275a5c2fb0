/** What holds of the heap in every state that allocations and frees can reach. */
module HeapTheory {
  import opened Bits
  import opened Chain

  // ---------- Live blocks ----------

  /** Offset and size of every live block, in address order, when the first block lies at `at` */
  function Live(bs: seq<Block>, at: nat): seq<(nat, nat)> {
    if bs == [] then []
    else (if bs[0].free then [] else [(at, bs[0].size)]) + Live(bs[1..], at + HEADER + bs[0].size)
  }

  lemma {:induction false} OffFront(bs: seq<Block>, i: nat)
    requires 0 < i <= |bs|
    ensures Off(bs, i) == HEADER + bs[0].size + Off(bs[1..], i - 1)
  {
    if i > 1 {
      OffFront(bs, i - 1);
      assert bs[1..][i - 2] == bs[i - 1];
    }
  }

  lemma TotalFront(bs: seq<Block>)
    requires bs != []
    ensures Total(bs) == HEADER + bs[0].size + Total(bs[1..])
  {
    OffFront(bs, |bs|);
  }

  lemma LiveCons(b: Block, c: seq<Block>, at: nat)
    ensures Live([b] + c, at) == (if b.free then [] else [(at, b.size)]) + Live(c, at + HEADER + b.size)
    ensures Total([b] + c) == HEADER + b.size + Total(c)
    ensures LiveSum([b] + c) == (if b.free then 0 else b.size) + LiveSum(c)
  {
    assert ([b] + c)[1..] == c;
    TotalFront([b] + c);
  }

  lemma Split3(bs: seq<Block>, i: nat)
    requires i < |bs|
    ensures bs == bs[..i] + ([bs[i]] + bs[i + 1..])
    ensures Off(bs, i) == Total(bs[..i])
  {
    hide Off;
    assert bs[..i][..i] == bs[..i];
    OffPrefix(bs, bs[..i], i);
    assert bs[i..] == [bs[i]] + bs[i + 1..];
    assert bs == bs[..i] + bs[i..];
  }

  lemma {:induction false} LiveAppend(a: seq<Block>, b: seq<Block>, at: nat)
    ensures Live(a + b, at) == Live(a, at) + Live(b, at + Total(a))
  {
    if a == [] {
      assert a + b == b;
    } else {
      hide Live, Total, LiveSum;
      var rest := a[1..];
      assert a == [a[0]] + rest && a + b == [a[0]] + (rest + b);
      LiveCons(a[0], rest, at);
      LiveCons(a[0], rest + b, at);
      LiveAppend(rest, b, at + HEADER + a[0].size);
      Associate(if a[0].free then [] else [(at, a[0].size)], Live(rest, at + HEADER + a[0].size), Live(b, at + Total(a)));
    }
  }

  lemma Associate<T>(x: seq<T>, y: seq<T>, z: seq<T>)
    ensures x + (y + z) == (x + y) + z
  {
  }

  /** Live blocks, headers included, lie inside the heap and follow one another without overlap. */
  lemma {:induction false} LiveAreDisjoint(bs: seq<Block>, at: nat)
    ensures forall i :: 0 <= i < |Live(bs, at)| ==>
      at <= Live(bs, at)[i].0 && Live(bs, at)[i].0 + HEADER + Live(bs, at)[i].1 <= at + Total(bs)
    ensures forall i, j :: 0 <= i < j < |Live(bs, at)| ==>
      Live(bs, at)[i].0 + HEADER + Live(bs, at)[i].1 <= Live(bs, at)[j].0
    ensures Aligned(bs) && at % 8 == 0 ==>
      forall i :: 0 <= i < |Live(bs, at)| ==> (Live(bs, at)[i].0 + HEADER) % 8 == 0
  {
    if bs != [] {
      TotalFront(bs);
      LiveAreDisjoint(bs[1..], at + HEADER + bs[0].size);
      var rest := Live(bs[1..], at + HEADER + bs[0].size);
      var head := if bs[0].free then [] else [(at, bs[0].size)];
      assert Live(bs, at) == head + rest;
      forall i | 0 <= i < |Live(bs, at)|
        ensures i >= |head| ==> Live(bs, at)[i] == rest[i - |head|]
      {
      }
    }
  }

  /** Block i of the list, if live, is in the live list at its offset. */
  lemma LiveAt(bs: seq<Block>, i: nat)
    requires i < |bs|
    ensures var rest := Live(bs[i + 1..], Off(bs, i) + HEADER + bs[i].size);
      Live(bs, 0) == Live(bs[..i], 0) + (if bs[i].free then [] else [(Off(bs, i), bs[i].size)]) + rest
  {
    hide Live, Off;
    Split3(bs, i);
    LiveAppend(bs[..i], [bs[i]] + bs[i + 1..], 0);
    LiveCons(bs[i], bs[i + 1..], Off(bs, i));
  }

  // ---------- Coalescing ----------

  /** The sweep moves no live block and loses no byte. */
  lemma {:induction false} CoalesceKeeps(bs: seq<Block>, at: nat)
    ensures Live(Coalesce(bs), at) == Live(bs, at)
    ensures Total(Coalesce(bs)) == Total(bs)
    ensures Aligned(bs) ==> Aligned(Coalesce(bs))
    decreases |bs|
  {
    hide Live, Total;
    if |bs| < 2 {
    } else if bs[0].free && bs[1].free {
      var c := bs[2..];
      var joined := Block(bs[0].size + HEADER + bs[1].size, true);
      assert bs == [bs[0]] + ([bs[1]] + c);
      LiveCons(bs[0], [bs[1]] + c, at);
      LiveCons(bs[1], c, at + HEADER + bs[0].size);
      LiveCons(joined, c, at);
      CoalesceKeeps([joined] + c, at);
    } else {
      var c := bs[1..];
      assert bs == [bs[0]] + c;
      LiveCons(bs[0], c, at);
      LiveCons(bs[0], Coalesce(c), at);
      CoalesceKeeps(c, at + HEADER + bs[0].size);
    }
  }

  // ---------- One allocation, one free ----------

  /** The size a grant of block i really has */
  function Granted(b: Block, size: nat): nat {
    if Splits(b, size) then size else b.size
  }

  lemma {:induction false} TotalAppend(a: seq<Block>, b: seq<Block>)
    ensures Total(a + b) == Total(a) + Total(b)
  {
    if a == [] {
      assert a + b == b;
    } else {
      TotalFront(a);
      TotalFront(a + b);
      assert (a + b)[1..] == a[1..] + b;
      TotalAppend(a[1..], b);
    }
  }

  /** Taking a free block adds it to the live blocks and keeps the heap whole. */
  lemma TakeAddsOne(bs: seq<Block>, i: nat, size: nat)
    requires i < |bs| && bs[i].free && bs[i].size >= size
    ensures var cs := Take(bs, i, size); var g := Granted(bs[i], size);
      && Total(cs) == Total(bs) && cs != []
      && Live(cs, 0) == Live(bs[..i], 0) + [(Off(bs, i), g)] + Live(bs[i + 1..], Off(bs, i) + HEADER + bs[i].size)
      && (Merged(bs) ==> Merged(cs))
      && (Aligned(bs) && size % 8 == 0 ==> Aligned(cs))
  {
    hide Live, Off, Take, Merged, Aligned, LiveSum;
    var a, c := bs[..i], bs[i + 1..];
    var taken := Block(Granted(bs[i], size), false);
    TakeSplices(bs, i, size);
    TakeKeepsShape(bs, i, size);
    Split3(bs, i);
    TotalAppend(a, [bs[i]] + c);
    LiveCons(bs[i], c, Off(bs, i));
    if Splits(bs[i], size) {
      var rest := Block(bs[i].size - size - HEADER, true);
      AppendTaken(a, taken, [rest] + c);
      LiveCons(rest, c, Total(a) + HEADER + size);
      assert [] + Live(c, Total(a) + HEADER + bs[i].size) == Live(c, Total(a) + HEADER + bs[i].size);
    } else {
      AppendTaken(a, taken, c);
    }
  }

  lemma AppendTaken(a: seq<Block>, taken: Block, d: seq<Block>)
    requires !taken.free
    ensures Live(a + ([taken] + d), 0) ==
      Live(a, 0) + [(Total(a), taken.size)] + Live(d, Total(a) + HEADER + taken.size)
    ensures Total(a + ([taken] + d)) == Total(a) + HEADER + taken.size + Total(d)
  {
    hide Live, Off;
    TotalAppend(a, [taken] + d);
    LiveAppend(a, [taken] + d, 0);
    LiveCons(taken, d, Total(a));
  }

  lemma TakeSplices(bs: seq<Block>, i: nat, size: nat)
    requires i < |bs| && bs[i].free && bs[i].size >= size
    ensures var taken := Block(Granted(bs[i], size), false);
      Take(bs, i, size) == bs[..i] + ([taken] +
        (if Splits(bs[i], size) then [Block(bs[i].size - size - HEADER, true)] + bs[i + 1..] else bs[i + 1..]))
  {
    var cs := Take(bs, i, size);
    if !Splits(bs[i], size) {
      assert cs == bs[..i] + ([cs[i]] + bs[i + 1..]);
    }
  }

  lemma TakeKeepsShape(bs: seq<Block>, i: nat, size: nat)
    requires i < |bs| && bs[i].free && bs[i].size >= size
    ensures Merged(bs) ==> Merged(Take(bs, i, size))
    ensures Aligned(bs) && size % 8 == 0 ==> Aligned(Take(bs, i, size))
  {
    var cs := Take(bs, i, size);
    var d := |cs| - |bs|;
    forall k | 0 <= k < |cs|
      ensures k < i ==> cs[k] == bs[k]
      ensures k > i + d ==> cs[k] == bs[k - d]
      ensures Merged(bs) && k > 0 ==> !(cs[k - 1].free && cs[k].free)
    {
      if Merged(bs) && 0 < k < i {
        NotBothFree(bs, k);
      } else if Merged(bs) && k > i + d {
        NotBothFree(bs, k - d);
      }
    }
  }

  /** Marking a live block free takes it from the live blocks. */
  lemma MarkRemovesOne(bs: seq<Block>, fs: seq<Block>, i: nat)
    requires i < |bs| && !bs[i].free && fs == bs[i := bs[i].(free := true)]
    ensures Total(fs) == Total(bs) && (Aligned(bs) ==> Aligned(fs))
    ensures Live(fs, 0) == Live(bs[..i], 0) + Live(bs[i + 1..], Off(bs, i) + HEADER + bs[i].size)
  {
    hide Live, Off, Aligned, LiveSum, Total;
    MarkKeepsAligned(bs, fs, i);
    Split3(bs, i);
    UpdateSplits(bs, i, fs[i]);
    FreedInPlace(bs[..i], bs[i], fs[i], bs[i + 1..]);
  }

  lemma UpdateSplits(bs: seq<Block>, i: nat, b: Block)
    requires i < |bs|
    ensures bs[i := b] == bs[..i] + ([b] + bs[i + 1..])
  {
    var fs := bs[i := b];
    assert fs[i..] == [b] + bs[i + 1..];
    assert fs == fs[..i] + fs[i..];
  }

  lemma MarkKeepsAligned(bs: seq<Block>, fs: seq<Block>, i: nat)
    requires i < |bs| && fs == bs[i := bs[i].(free := true)]
    ensures Aligned(bs) ==> Aligned(fs)
  {
  }

  lemma FreedInPlace(a: seq<Block>, live: Block, freed: Block, c: seq<Block>)
    requires freed == live.(free := true)
    ensures Total(a + ([freed] + c)) == Total(a + ([live] + c))
    ensures Live(a + ([freed] + c), 0) == Live(a, 0) + Live(c, Total(a) + HEADER + live.size)
  {
    hide Live, Off, LiveSum;
    LiveCons(freed, c, Total(a));
    LiveCons(live, c, Total(a));
    TotalAppend(a, [freed] + c);
    TotalAppend(a, [live] + c);
    LiveAppend(a, [freed] + c, 0);
  }

  /** Freeing a live block takes it from the live blocks, and leaves a merged heap of the same size. */
  lemma FreeRemovesOne(h: Heap, i: nat)
    requires i < |h.blocks| && !h.blocks[i].free
    ensures var bs := h.blocks; var cs := Free(h, i).blocks;
      && Total(cs) == Total(bs) && Merged(cs) && cs != []
      && Live(cs, 0) == Live(bs[..i], 0) + Live(bs[i + 1..], Off(bs, i) + HEADER + bs[i].size)
      && (Aligned(bs) ==> Aligned(cs))
  {
    hide Coalesce, Live, Merged, Aligned, Off;
    var bs := h.blocks;
    var fs := bs[i := bs[i].(free := true)];
    CoalesceMerges(fs);
    CoalesceKeeps(fs, 0);
    MarkRemovesOne(bs, fs, i);
  }

  /** Freeing what was just allocated gives back the very same blocks. */
  lemma FreeUndoesAlloc(h: Heap, n: Word)
    requires Merged(h.blocks) && Alloc(h, n).1.At?
    ensures var (h', grant) := Alloc(h, n);
      var i := FirstFit(h.blocks, AlignUp(n));
      && i < |h'.blocks| && Off(h'.blocks, i) + HEADER == grant.offset
      && Free(h', i).blocks == h.blocks
  {
    hide Coalesce, Merged;
    var bs := h.blocks;
    var size := AlignUp(n);
    var i := FirstFit(bs, size);
    var cs := Take(bs, i, size);
    OffPrefix(bs, cs, i);
    CoalesceRestores(bs, cs, i, size);
  }

  lemma CoalesceRestores(bs: seq<Block>, cs: seq<Block>, i: nat, size: nat)
    requires Merged(bs) && i < |bs| && bs[i].free && bs[i].size >= size && cs == Take(bs, i, size)
    ensures i < |cs| && Coalesce(cs[i := cs[i].(free := true)]) == bs
  {
    hide Coalesce;
    var fs := cs[i := cs[i].(free := true)];
    CoalesceOfMerged(bs[i..]) by { assert Merged(bs[i..]); }
    assert [bs[i]] + bs[i + 1..] == bs[i..] && bs[..i] + bs[i..] == bs;
    if Splits(bs[i], size) {
      forall k | 0 < k <= i
        ensures !(fs[k - 1].free && fs[k].free)
      {
        NotBothFree(bs, k);
        assert fs[k - 1] == bs[k - 1] && fs[k].free == bs[k].free;
      }
      CoalesceSkips(fs, i);
      JoinTwo(size, bs[i].size - size - HEADER, bs[i + 1..]);
      assert fs[i..] == [Block(size, true), Block(bs[i].size - size - HEADER, true)] + bs[i + 1..];
      assert fs[..i] == bs[..i];
    } else {
      assert fs == bs;
      CoalesceOfMerged(bs);
    }
  }

  lemma JoinTwo(x: nat, y: nat, rest: seq<Block>)
    ensures Coalesce([Block(x, true), Block(y, true)] + rest) == Coalesce([Block(x + HEADER + y, true)] + rest)
  {
    var bs := [Block(x, true), Block(y, true)] + rest;
    assert bs[2..] == rest;
  }

  lemma NotBothFree(bs: seq<Block>, i: nat)
    requires Merged(bs) && 0 < i < |bs|
    ensures !(bs[i - 1].free && bs[i].free)
  {
  }

  /** A merged heap without live blocks is one free block. */
  lemma DrainedIsInitial(bs: seq<Block>)
    requires bs != [] && Merged(bs) && Live(bs, 0) == []
    ensures bs == [Block(Total(bs) - HEADER, true)]
  {
    assert Off(bs, 0) == 0;
    LiveAt(bs, 0);
    if |bs| > 1 {
      NotBothFree(bs, 1);
      LiveAt(bs, 1);
    }
  }

  // ---------- First fit is complete ----------

  /** The len bytes at offset a lie in the heap and touch no live block or its header. */
  predicate Gap(bs: seq<Block>, a: nat, len: nat) {
    a + len <= Total(bs) &&
    forall e :: e in Live(bs, 0) ==> a + len <= e.0 || e.0 + HEADER + e.1 <= a
  }

  lemma LiveMember(bs: seq<Block>, j: nat)
    requires j < |bs| && !bs[j].free
    ensures (Off(bs, j), bs[j].size) in Live(bs, 0)
  {
    LiveAt(bs, j);
  }

  /** With no two free blocks side by side, a gap lies inside one free block. */
  lemma GapInOneBlock(bs: seq<Block>, a: nat, len: nat) returns (j: nat)
    requires Merged(bs) && Gap(bs, a, len) && len > 0
    ensures j < |bs| && bs[j].free && Off(bs, j) <= a && a + len <= Off(bs, j) + HEADER + bs[j].size
  {
    j := BlockAt(bs, a);
    if !bs[j].free {
      LiveMember(bs, j);
    }
    if j + 1 < |bs| {
      assert !(bs[j].free && bs[j + 1].free);
      LiveMember(bs, j + 1);
    }
  }

  lemma FreeBlockIsGap(bs: seq<Block>, i: nat, len: nat)
    requires i < |bs| && bs[i].free && len <= HEADER + bs[i].size
    ensures Gap(bs, Off(bs, i), len)
  {
    LiveAt(bs, i);
    LiveAreDisjoint(bs[..i], 0);
    LiveAreDisjoint(bs[i + 1..], Off(bs, i) + HEADER + bs[i].size);
    OffPrefix(bs, bs[..i], i);
    if i + 1 < |bs| {
      OffGrows(bs, i + 1, |bs|);
    }
  }

  /** alloc(n) fails exactly when no gap between live blocks can hold a header and the rounded
      request, and otherwise it takes the lowest such gap. */
  lemma FirstFitIsComplete(h: Heap, n: Word)
    requires Merged(h.blocks)
    ensures n == 0 ==> Alloc(h, n) == (h, Null)
    ensures n > 0 ==> var need := HEADER + AlignUp(n);
      match Alloc(h, n).1
      case Null => forall a: nat :: !Gap(h.blocks, a, need)
      case At(p) =>
        && p >= HEADER && Gap(h.blocks, p - HEADER, need)
        && forall a: nat :: Gap(h.blocks, a, need) ==> p - HEADER <= a
  {
    if n == 0 {
      return;
    }
    var bs, size := h.blocks, AlignUp(n);
    var i := FirstFit(bs, size);
    if i < |bs| {
      FreeBlockIsGap(bs, i, HEADER + size);
    }
    forall a: nat {:trigger Gap(bs, a, HEADER + size)} | Gap(bs, a, HEADER + size)
      ensures i < |bs| && Off(bs, i) <= a
    {
      var j := GapInOneBlock(bs, a, HEADER + size);
      if i < j {
        OffGrows(bs, i, j);
      }
    }
  }

  // ---------- Runs ----------

  datatype Op = AllocOp(n: Word) | FreeOp(pointer: nat)

  /** The block whose payload starts at an offset, or |bs| */
  function Find(bs: seq<Block>, pointer: nat): (i: nat)
    ensures i <= |bs|
    ensures i < |bs| ==> Off(bs, i) + HEADER == pointer
  {
    if pointer >= HEADER && pointer - HEADER < Total(bs) && Off(bs, BlockAt(bs, pointer - HEADER)) + HEADER == pointer
    then BlockAt(bs, pointer - HEADER) else |bs|
  }

  lemma FindFinds(bs: seq<Block>, i: nat)
    requires i < |bs|
    ensures Find(bs, Off(bs, i) + HEADER) == i
  {
    OffGrows(bs, i, |bs|);
    var j := BlockAt(bs, Off(bs, i));
    if j < i {
      OffGrows(bs, j, i);
    } else if i < j {
      OffGrows(bs, i, j);
    }
  }

  /** Callers free what is live, once. */
  predicate Allowed(h: Heap, op: Op) {
    op.FreeOp? ==> Find(h.blocks, op.pointer) < |h.blocks| && !h.blocks[Find(h.blocks, op.pointer)].free
  }

  function Step(h: Heap, op: Op): Heap
    requires Allowed(h, op)
  {
    match op
    case AllocOp(n) => Alloc(h, n).0
    case FreeOp(p) => Free(h, Find(h.blocks, p))
  }

  predicate AllAllowed(h: Heap, ops: seq<Op>)
    decreases |ops|
  {
    ops == [] || (Allowed(h, ops[0]) && AllAllowed(Step(h, ops[0]), ops[1..]))
  }

  function Run(h: Heap, ops: seq<Op>): Heap
    requires AllAllowed(h, ops)
    decreases |ops|
  {
    if ops == [] then h else Run(Step(h, ops[0]), ops[1..])
  }

  /** heap_init */
  function Initial(total: nat): Heap
    requires total >= HEADER
  {
    Heap([Block(total - HEADER, true)], 0)
  }

  predicate Tiled(bs: seq<Block>, total: nat) {
    bs != [] && Merged(bs) && Aligned(bs) && Total(bs) == total
  }

  predicate Sound(h: Heap, total: nat) {
    Tiled(h.blocks, total)
  }

  lemma TakeKeepsTiled(bs: seq<Block>, total: nat, i: nat, size: nat)
    requires Tiled(bs, total) && i < |bs| && bs[i].free && bs[i].size >= size && size % ALIGN == 0
    ensures Tiled(Take(bs, i, size), total)
  {
    hide Live, Merged, Aligned, Total, Take, Granted, Off;
    TakeAddsOne(bs, i, size);
  }

  lemma AllocKeepsSound(h: Heap, total: nat, n: Word)
    requires Sound(h, total)
    ensures Sound(Alloc(h, n).0, total)
  {
    hide AlignUp, Take, Tiled;
    AlignUpRounds(n);
    var size := AlignUp(n);
    var i := FirstFit(h.blocks, size);
    if n != 0 && i < |h.blocks| {
      TakeKeepsTiled(h.blocks, total, i, size);
    }
  }

  lemma StepKeepsSound(h: Heap, total: nat, op: Op)
    requires Sound(h, total) && Allowed(h, op)
    ensures Sound(Step(h, op), total)
  {
    hide Coalesce, Live, Merged, Aligned, Off, Total, Find, Alloc, Free;
    match op
    case AllocOp(n) => AllocKeepsSound(h, total, n);
    case FreeOp(p) => FreeRemovesOne(h, Find(h.blocks, p));
  }

  /** In every reachable state the blocks tile the heap, start on multiples of 8, no two free blocks
      are neighbours, and with nothing live the heap is the one block it started as. */
  lemma {:induction false} RunKeepsSound(h: Heap, total: nat, ops: seq<Op>)
    requires Sound(h, total) && AllAllowed(h, ops)
    ensures Sound(Run(h, ops), total)
    ensures Live(Run(h, ops).blocks, 0) == [] ==> Run(h, ops).blocks == Initial(total).blocks
    decreases |ops|
  {
    if ops != [] {
      StepKeepsSound(h, total, ops[0]);
      RunKeepsSound(Step(h, ops[0]), total, ops[1..]);
    } else if Live(h.blocks, 0) == [] {
      DrainedIsInitial(h.blocks);
    }
  }

  // ---------- How small a block can get ----------

  /** A grant takes the whole block found unless header and request leave 16 bytes and a header of their own. */
  lemma GrantedIs(h: Heap, n: Word)
    requires n > 0 && Alloc(h, n).1.At?
    ensures var (h', grant) := Alloc(h, n);
      var i, size := FirstFit(h.blocks, AlignUp(n)), AlignUp(n);
      && i < |h.blocks| && grant.offset == Off(h.blocks, i) + 24
      && h'.blocks == if h.blocks[i].size < size + 40 then h.blocks[i := Block(h.blocks[i].size, false)]
         else h.blocks[..i] + [Block(size, false), Block(h.blocks[i].size - size - 24, true)] + h.blocks[i + 1..]
  {
    hide AlignUp, FirstFit;
  }

  predicate AtLeast16(bs: seq<Block>) {
    forall b :: b in bs ==> b.size >= 16
  }

  /** No request that rounds to 0 */
  predicate Moderate(op: Op) {
    op.AllocOp? ==> op.n <= WORD_LIMIT - 16
  }

  lemma {:induction false} CoalesceKeeps16(bs: seq<Block>)
    requires AtLeast16(bs)
    ensures AtLeast16(Coalesce(bs))
    decreases |bs|
  {
    if |bs| < 2 {
    } else if bs[0].free && bs[1].free {
      CoalesceKeeps16([Block(bs[0].size + HEADER + bs[1].size, true)] + bs[2..]);
    } else {
      CoalesceKeeps16(bs[1..]);
    }
  }

  lemma StepKeeps16(h: Heap, op: Op)
    requires Allowed(h, op) && Moderate(op) && AtLeast16(h.blocks)
    ensures AtLeast16(Step(h, op).blocks)
  {
    hide Coalesce, Find, Off;
    match op
    case AllocOp(n) =>
      AlignUpRounds(n);
      var size := AlignUp(n);
      hide AlignUp;
      var i := FirstFit(h.blocks, size);
      if n != 0 && i < |h.blocks| {
        assert h.blocks[i] in h.blocks;
        assert size >= 16;
      }
    case FreeOp(p) =>
      var i := Find(h.blocks, p);
      assert h.blocks[i] in h.blocks;
      CoalesceKeeps16(h.blocks[i := h.blocks[i].(free := true)]);
  }

  lemma {:induction false} RunKeeps16(h: Heap, ops: seq<Op>)
    requires AllAllowed(h, ops) && AtLeast16(h.blocks) && forall op :: op in ops ==> Moderate(op)
    ensures AtLeast16(Run(h, ops).blocks)
    decreases |ops|
  {
    if ops != [] {
      assert ops[0] in ops;
      StepKeeps16(h, ops[0]);
      RunKeeps16(Step(h, ops[0]), ops[1..]);
    }
  }

  /** Over every run of a heap of at least 40 bytes, without requests within 15 of the top of size_t, no block ever has
      fewer than 16 bytes: a rest too small for that is granted with the block. */
  lemma BlocksStayUsable(total: nat, ops: seq<Op>)
    requires total >= 40 && AllAllowed(Initial(total), ops)
    requires forall op :: op in ops && op.AllocOp? ==> op.n <= WORD_LIMIT - 16
    ensures forall b :: b in Run(Initial(total), ops).blocks ==> b.size >= 16
  {
    hide AllAllowed, Run;
    RunKeeps16(Initial(total), ops);
  }

  // ---------- What heap_used counts ----------

  function LiveSum(bs: seq<Block>): nat {
    if bs == [] then 0 else (if bs[0].free then 0 else bs[0].size) + LiveSum(bs[1..])
  }

  lemma {:induction false} LiveSumAppend(a: seq<Block>, b: seq<Block>)
    ensures LiveSum(a + b) == LiveSum(a) + LiveSum(b)
  {
    if a == [] {
      assert a + b == b;
    } else {
      assert (a + b)[1..] == a[1..] + b;
      LiveSumAppend(a[1..], b);
    }
  }

  lemma {:induction false} LiveSumBelowTotal(bs: seq<Block>)
    ensures LiveSum(bs) + HEADER * |bs| <= Total(bs)
  {
    if bs != [] {
      TotalFront(bs);
      LiveSumBelowTotal(bs[1..]);
    }
  }

  lemma {:induction false} CoalesceKeepsSum(bs: seq<Block>)
    ensures LiveSum(Coalesce(bs)) == LiveSum(bs)
    decreases |bs|
  {
    if |bs| < 2 {
    } else if bs[0].free && bs[1].free {
      var cs := [Block(bs[0].size + HEADER + bs[1].size, true)] + bs[2..];
      assert cs[1..] == bs[2..] && bs[1..][1..] == bs[2..];
      CoalesceKeepsSum(cs);
    } else {
      CoalesceKeepsSum(bs[1..]);
      assert Coalesce(bs)[1..] == Coalesce(bs[1..]);
    }
  }

  /** Bytes a grant holds beyond the rounded request: a block too small to split is given whole. */
  function Slack(h: Heap, op: Op): nat {
    match op
    case FreeOp(_) => 0
    case AllocOp(n) =>
      var i := FirstFit(h.blocks, AlignUp(n));
      if n == 0 || i == |h.blocks| then 0 else Granted(h.blocks[i], AlignUp(n)) - AlignUp(n)
  }

  /** The slack of all grants of a run */
  function RunSlack(h: Heap, ops: seq<Op>): nat
    requires AllAllowed(h, ops)
    decreases |ops|
  {
    if ops == [] then 0 else Slack(h, ops[0]) + RunSlack(Step(h, ops[0]), ops[1..])
  }

  /** heap_used less the bytes that are live */
  function Drift(h: Heap): int {
    h.used - LiveSum(h.blocks)
  }

  lemma StepAccounts(h: Heap, op: Op)
    requires Allowed(h, op)
    ensures Slack(h, op) < HEADER + ALIGN
    ensures (Drift(Step(h, op)) + Slack(h, op)) % WORD_LIMIT == Drift(h) % WORD_LIMIT
  {
    hide Coalesce, LiveSum, Off, AlignUp, Find;
    var bs := h.blocks;
    match op
    case AllocOp(n) =>
      var size := AlignUp(n);
      var i := FirstFit(bs, size);
      if n != 0 && i < |bs| {
        var cs := Take(bs, i, size);
        SumOfMiddle(bs, cs, i, bs[i + 1..]);
        assert LiveSum(cs) == LiveSum(bs) + size + Slack(h, op);
        var rest: int := Slack(h, op) - LiveSum(cs);
        ModAdd(h.used, size, rest);
      }
    case FreeOp(p) =>
      var i := Find(bs, p);
      var fs := bs[i := bs[i].(free := true)];
      SumOfMiddle(bs, fs, i, bs[i + 1..]);
      CoalesceKeepsSum(fs);
      var less: int := 0 - bs[i].size;
      var rest: int := 0 - LiveSum(fs);
      ModAdd(h.used, less, rest);
  }

  /** Replacing block i changes the sum by the difference. */
  lemma SumOfMiddle(bs: seq<Block>, cs: seq<Block>, i: nat, tail: seq<Block>)
    requires i < |bs| && i < |cs| && cs[..i] == bs[..i] && tail == bs[i + 1..]
    requires cs[i + 1..] == tail || (|cs| > i + 1 && cs[i + 1].free && cs[i + 2..] == tail)
    ensures LiveSum(cs) - LiveSum(bs) ==
      (if cs[i].free then 0 else cs[i].size) - (if bs[i].free then 0 else bs[i].size)
  {
    assert bs == bs[..i] + bs[i..] && cs == bs[..i] + cs[i..];
    LiveSumAppend(bs[..i], bs[i..]);
    LiveSumAppend(bs[..i], cs[i..]);
    assert bs[i..][1..] == tail && cs[i..][1..] == cs[i + 1..];
    if cs[i + 1..] != tail {
      assert cs[i + 1..][1..] == tail;
    }
  }

  lemma ModAdd(a: int, b: int, c: int)
    ensures ((a + b) % WORD_LIMIT + c) % WORD_LIMIT == (a + b + c) % WORD_LIMIT
  {
  }

  /** heap_used is, modulo 2^64, the live bytes less the slack of every grant ever made: frees take off
      slack that allocations never added. */
  lemma {:induction false} RunAccounts(h: Heap, ops: seq<Op>)
    requires AllAllowed(h, ops)
    ensures (Drift(Run(h, ops)) + RunSlack(h, ops)) % WORD_LIMIT == Drift(h) % WORD_LIMIT
    decreases |ops|
  {
    hide Drift, Step, Slack, Allowed;
    if ops != [] {
      var h1 := Step(h, ops[0]);
      StepAccounts(h, ops[0]);
      RunAccounts(h1, ops[1..]);
      ModShift(Drift(Run(h1, ops[1..])) + RunSlack(h1, ops[1..]), Drift(h1), Slack(h, ops[0]));
    }
  }

  lemma ModShift(a: int, b: int, c: int)
    requires a % WORD_LIMIT == b % WORD_LIMIT
    ensures (a + c) % WORD_LIMIT == (b + c) % WORD_LIMIT
  {
  }

  /** heap_available */
  function Available(total: nat, h: Heap): nat {
    if total > h.used then total - h.used else 0
  }

  /** heap_available reports the bytes not handed out exactly on runs whose slack is 0 modulo 2^64. */
  lemma AvailableIsRightIff(total: nat, ops: seq<Op>)
    requires HEADER <= total < WORD_LIMIT
    requires AllAllowed(Initial(total), ops)
    ensures var h := Run(Initial(total), ops);
      Available(total, h) == total - LiveSum(h.blocks) <==> RunSlack(Initial(total), ops) % WORD_LIMIT == 0
  {
    hide Run, RunSlack, AllAllowed, LiveSum, Drift;
    var h0 := Initial(total);
    var h := Run(h0, ops);
    InitialIsSound(total);
    RunKeepsSound(h0, total, ops);
    RunAccounts(h0, ops);
    DriftIsSmall(h, total);
    CancelMod(Drift(h), RunSlack(h0, ops));
    AvailableByDrift(total, h);
  }

  lemma InitialIsSound(total: nat)
    requires HEADER <= total
    ensures Sound(Initial(total), total) && Drift(Initial(total)) == 0
  {
    var bs := Initial(total).blocks;
    assert Off(bs, 0) == 0 && bs[1..] == [] && LiveSum([]) == 0;
    assert LiveSum(bs) == LiveSum(bs[1..]);
  }

  lemma DriftIsSmall(h: Heap, total: nat)
    requires Sound(h, total) && total < WORD_LIMIT
    ensures -WORD_LIMIT < Drift(h) < WORD_LIMIT && LiveSum(h.blocks) < total
  {
    LiveSumBelowTotal(h.blocks);
  }

  lemma AvailableByDrift(total: nat, h: Heap)
    requires LiveSum(h.blocks) < total
    ensures Available(total, h) == total - LiveSum(h.blocks) <==> Drift(h) == 0
  {
  }

  lemma CancelMod(x: int, s: int)
    requires (x + s) % WORD_LIMIT == 0 && -WORD_LIMIT < x < WORD_LIMIT
    ensures x == 0 <==> s % WORD_LIMIT == 0
  {
    var q := (x + s) / WORD_LIMIT;
    assert x + s == q * WORD_LIMIT;
    if s % WORD_LIMIT == 0 {
      var r := s / WORD_LIMIT;
      assert x == (q - r) * WORD_LIMIT;
    }
  }

  /** The kernel's own 4 MiB heap: one grant that is not split and its free leave nothing live, yet
      heap_used has wrapped below zero and heap_available reports 0. */
  lemma UsedUnderflows()
    ensures var total := 0x40_0000;
      var ops := [AllocOp(0x40_0000 - 32), FreeOp(HEADER)];
      && AllAllowed(Initial(total), ops)
      && Run(Initial(total), ops) == Heap(Initial(total).blocks, WORD_LIMIT - 8)
      && Available(total, Run(Initial(total), ops)) == 0
  {
    var total := 0x40_0000;
    var h0 := Initial(total);
    var bs := h0.blocks;
    var n := total - 32;
    assert AlignUp(n) == n;
    FirstFitIs(bs, n, 0);
    var h1 := Heap([Block(total - HEADER, false)], n);
    assert Off(bs, 0) == 0;
    assert Step(h0, AllocOp(n)) == h1;
    FindFinds(h1.blocks, 0);
    assert Off(h1.blocks, 0) == 0;
    assert h1.blocks[0 := h1.blocks[0].(free := true)] == bs;
    assert Step(h1, FreeOp(HEADER)) == Heap(bs, WORD_LIMIT - 8);
    var ops := [AllocOp(n), FreeOp(HEADER)];
    assert ops[1..] == [FreeOp(HEADER)] && ops[1..][1..] == [];
    assert AllAllowed(h1, ops[1..]);
    var h2 := Heap(bs, WORD_LIMIT - 8);
    assert Run(h2, []) == h2;
    assert Run(h1, [FreeOp(HEADER)]) == h2;
    assert Run(h0, ops) == Run(h1, ops[1..]);
  }

  /** The largest request of all rounds to 0: the kernel's empty heap grants it a block of no bytes. */
  lemma LargestRequestGetsNothing()
    ensures var (h, grant) := Alloc(Initial(0x40_0000), WORD_LIMIT - 1);
      grant == At(HEADER) && h.blocks[0] == Block(0, false)
  {
    AlignUpRounds(WORD_LIMIT - 1);
    var bs := Initial(0x40_0000).blocks;
    FirstFitIs(bs, 0, 0);
    assert Off(bs, 0) == 0;
  }

  /** A grant holds at least the bytes asked for, except on requests so near the top of size_t that
      rounding wraps: those are granted blocks as small as nothing. */
  lemma GrantIsLargeEnoughIff(h: Heap, n: Word)
    requires n > 0 && Alloc(h, n).1.At?
    requires Total(h.blocks) < WORD_LIMIT - HEADER - ALIGN
    ensures var i := FirstFit(h.blocks, AlignUp(n));
      && Off(h.blocks, i) + HEADER == Alloc(h, n).1.offset
      && (Granted(h.blocks[i], AlignUp(n)) >= n <==> n <= WORD_LIMIT - ALIGN)
  {
    AlignUpRounds(n);
    var i := FirstFit(h.blocks, AlignUp(n));
    OffGrows(h.blocks, i, |h.blocks|);
  }
}
