/** The allocator of kernel/src/x86_64/heap.c over its memory. */
module KernelHeap {
  import opened Bits
  import opened Chain
  import opened HeapTheory
  import opened HeapMemory

  /** Splitting and then marking block i is Take. */
  lemma SplitAndMark(bs: seq<Block>, i: nat, size: nat)
    requires i < |bs| && bs[i].free && bs[i].size >= size
    ensures Splits(bs[i], size) ==>
      var cs := Replace(bs, i, [Block(size, true), Block(bs[i].size - size - HEADER, true)]);
      |cs| > i && Off(cs, i) == Off(bs, i) && cs[i].size == size && cs[i := cs[i].(free := false)] == Take(bs, i, size)
    ensures !Splits(bs[i], size) ==> bs[i := bs[i].(free := false)] == Take(bs, i, size)
  {
    if Splits(bs[i], size) {
      SplitOffsets(bs, i, size);
    }
  }

  lemma InsideTwice(mem: seq<Word>, mid: seq<Word>, mem': seq<Word>, bs: seq<Block>, cs: seq<Block>, i: nat)
    requires i < |bs| && i < |cs| && Off(bs, i) == Off(cs, i) && cs[i].size <= bs[i].size
    requires OnlyInside(mem, mid, bs, i) && OnlyInside(mid, mem', cs, i)
    ensures OnlyInside(mem, mem', bs, i)
  {
  }

  lemma UntouchedTwice(mem: seq<Word>, mid: seq<Word>, mem': seq<Word>, live: seq<(nat, nat)>)
    requires Untouched(mem, mid, live) && Untouched(mid, mem', live)
    ensures Untouched(mem, mem', live)
  {
    forall e, x | e in live && 0 <= x < |mem| && e.0 <= 8 * x < e.0 + HEADER + e.1
      ensures mem'[x] == mem[x]
    {
      assert mid[x] == mem[x];
    }
  }

  /** One turn of the sweep that joins blocks i and i + 1 */
  lemma JoinIsCoalescing(bs: seq<Block>, i: nat)
    requires i + 1 < |bs| && bs[i].free && bs[i + 1].free
    requires forall k :: 0 < k <= i ==> !(bs[k - 1].free && bs[k].free)
    ensures Coalesce(Joined(bs, i)) == Coalesce(bs)
    ensures forall k :: 0 < k <= i ==> !(Joined(bs, i)[k - 1].free && Joined(bs, i)[k].free)
  {
    hide Coalesce;
    var cs := Joined(bs, i);
    JoinedPrefix(bs, i);
    CoalesceSkips(bs, i);
    CoalesceSkips(cs, i);
    var rest := bs[i + 2..];
    JoinTwo(bs[i].size, bs[i + 1].size, rest);
    assert bs[i..] == [Block(bs[i].size, true), Block(bs[i + 1].size, true)] + rest;
    assert cs[i..] == [Block(bs[i].size + HEADER + bs[i + 1].size, true)] + rest;
  }

  lemma JoinedPrefix(bs: seq<Block>, i: nat)
    requires i + 1 < |bs| && bs[i].free
    requires forall k :: 0 < k <= i ==> !(bs[k - 1].free && bs[k].free)
    ensures forall k :: 0 < k <= i ==> !(Joined(bs, i)[k - 1].free && Joined(bs, i)[k].free)
    ensures Joined(bs, i)[..i] == bs[..i]
  {
    var cs := Joined(bs, i);
    forall k | 0 < k <= i
      ensures !(cs[k - 1].free && cs[k].free)
    {
      assert cs[k - 1] == bs[k - 1] && cs[k].free == bs[k].free;
    }
  }

  /** The sweep has joined everything: no two free blocks are neighbours. */
  lemma SweepDone(bs: seq<Block>, i: nat)
    requires i + 1 == |bs|
    requires forall k :: 0 < k <= i ==> !(bs[k - 1].free && bs[k].free)
    ensures Coalesce(bs) == bs
  {
    CoalesceOfMerged(bs);
  }

  class Allocator {
    /** The managed region, eight bytes a word */
    const mem: array<Word>
    const start: nat
    var first: nat
    var brk: nat
    var total: nat
    var used: Word
    ghost var blocks: seq<Block>

    ghost predicate Valid()
      reads this, mem
    {
      && first == start && brk == start + total && Total(blocks) == total
      && Represents(mem[..], start, blocks)
    }

    ghost function State(): Heap
      reads this
    {
      Heap(blocks, used)
    }

    /** heap_init on a region of `size` bytes */
    constructor (region: nat, size: nat, memory: array<Word>)
      requires region > 0 && region % 8 == 0 && size >= HEADER
      requires memory.Length == (size + 7) / 8 && region + size < WORD_LIMIT - HEADER - ALIGN
      modifies memory
      ensures Valid() && mem == memory && start == region && total == size
      ensures State() == Initial(size) && Sound(State(), size)
      ensures mem[0] == size - 24 && mem[1] != 0 && mem[2] == 0
    {
      mem, start := memory, region;
      brk, total, used := region + size, size, 0;
      first := region;
      blocks := [Block(size - HEADER, true)];
      new;
      mem[0] := size - HEADER;
      mem[1] := 1;
      mem[2] := 0;
      assert Off(blocks, 0) == 0;
      assert Total(blocks) == size;
      assert HeaderAt(mem[..], start, blocks, 0);
    }

    method Alloc(n: Word) returns (pointer: nat)
      requires Valid()
      modifies mem, this`used, this`blocks
      ensures Valid()
      ensures var (h, grant) := Chain.Alloc(old(State()), n);
        State() == h && pointer == match grant case Null => 0 case At(o) => start + o
      ensures Untouched(old(mem[..]), mem[..], Live(old(blocks), 0))
    {
      hide Place, AlignUp, Represents, Untouched, Live, Off, Take, FirstFit;
      if n == 0 {
        UntouchedItself(mem[..], Live(blocks, 0));
        return 0;
      }
      RoundedIsAligned(n);
      pointer := PlaceBlock(AlignUp(n));
    }

    /** heap_alloc from the rounded size on */
    method PlaceBlock(size: Word) returns (pointer: nat)
      requires Valid() && size % 8 == 0
      modifies mem, this`used, this`blocks
      ensures Valid()
      ensures var (h, grant) := Place(old(State()), size);
        State() == h && pointer == match grant case Null => 0 case At(o) => start + o
      ensures Untouched(old(mem[..]), mem[..], Live(old(blocks), 0))
    {
      hide Off, Live, Take, Represents, Untouched, FirstFit, Splits;
      ghost var i;
      var current;
      current, i := FindFit(size);
      if current == 0 {
        UntouchedItself(mem[..], Live(blocks, 0));
        return 0;
      }
      TakeBlock(current, size, i);
      used := (used + size) % WORD_LIMIT;
      return current + HEADER;
    }

    /** The search along the list */
    method FindFit(size: Word) returns (current: nat, ghost i: nat)
      requires Valid()
      ensures i == FirstFit(blocks, size)
      ensures current == if FirstFit(blocks, size) < |blocks| then start + Off(blocks, FirstFit(blocks, size)) else 0
      ensures current != 0 <==> FirstFit(blocks, size) < |blocks|
    {
      hide Off, Represents, HeaderAt;
      current, i := first, 0;
      OffZero(blocks);
      NotEmpty(mem[..], start, blocks);
      while current != 0
        invariant i <= |blocks|
        invariant current == if i < |blocks| then start + Off(blocks, i) else 0
        invariant forall k :: 0 <= k < i ==> !(blocks[k].free && blocks[k].size >= size)
        decreases |blocks| - i
      {
        HeaderWords(mem[..], start, blocks, i);
        var w := (current - start) / 8;
        if mem[w + 1] != 0 && mem[w] >= size {
          FirstFitIs(blocks, size, i);
          return;
        }
        current := mem[w + 2];
        i := i + 1;
      }
      FirstFitIs(blocks, size, i);
    }

    /** heap_free. What is freed is the payload of a block of the list, live or not: freeing twice is
        the caller's mistake, but it only miscounts. */
    method Free(pointer: nat)
      requires Valid()
      requires pointer == 0 || (pointer >= start && Find(blocks, pointer - start) < |blocks|)
      modifies mem, this`used, this`blocks
      ensures Valid()
      ensures State() == if pointer == 0 then old(State()) else Chain.Free(old(State()), Find(old(blocks), pointer - start))
      ensures Untouched(old(mem[..]), mem[..], Live(blocks, 0))
    {
      hide Off, Coalesce, Live, Represents, HeaderAt, Find, Aligned, Total, OnlyInside;
      if pointer == 0 {
        return;
      }
      ghost var bs, was := blocks, mem[..];
      ghost var i := Find(bs, pointer - start);
      var block := pointer - HEADER;
      HeaderWords(was, start, bs, i);
      var w := (block - start) / 8;
      FlagKeeps(was, was[w + 1 := 1], start, bs, i, 1);
      mem[w + 1] := 1;
      assert mem[..] == was[w + 1 := 1];
      ghost var fs := bs[i := bs[i].(free := true)];
      blocks := fs;
      used := (used - mem[w]) % WORD_LIMIT;
      MarkUntouched(was, mem[..], bs, i);
      ghost var marked := mem[..];
      Sweep();
      UntouchedTwice(was, marked, mem[..], Live(fs, 0));
      CoalesceKeeps(fs, 0);
    }

    /** Growing the free block at word w over the free block at word v that follows it */
    method JoinNext(w: nat, v: nat, ghost i: nat)
      requires Valid() && i + 1 < |blocks| && blocks[i].free && blocks[i + 1].free
      requires w == Off(blocks, i) / 8 && v == Off(blocks, i + 1) / 8
      modifies mem, this`blocks
      ensures Valid() && blocks == Joined(old(blocks), i) && used == old(used)
      ensures |blocks| == |old(blocks)| - 1 && Off(blocks, i) == Off(old(blocks), i)
      ensures Untouched(old(mem[..]), mem[..], Live(old(blocks), 0))
    {
      hide Off, Live, Represents, HeaderAt, OnlyInside, Untouched, Joined;
      ghost var cs, mid := blocks, mem[..];
      HeaderWords(mid, start, cs, i);
      HeaderWords(mid, start, cs, i + 1);
      mem[w] := mem[w] + HEADER + mem[v];
      mem[w + 2] := mem[v + 2];
      JoinKeeps(mid, mem[..], start, cs, i);
      blocks := Joined(cs, i);
      InsideFreeIsUntouched(mid, mem[..], cs, i);
      JoinedOffsets(cs, i, i);
      JoinedLength(cs, i);
    }

    /** The sweep that joins free neighbours, from the first block on */
    method Sweep()
      requires Valid()
      modifies mem, this`blocks
      ensures Valid() && blocks == Coalesce(old(blocks)) && used == old(used)
      ensures Untouched(old(mem[..]), mem[..], Live(old(blocks), 0))
    {
      hide Off, Coalesce, Live, Represents, HeaderAt, Aligned, Total, OnlyInside, Untouched, Joined;
      ghost var bs, was := blocks, mem[..];
      ghost var i := 0;
      NotEmpty(was, start, bs);
      OffZero(bs);
      UntouchedItself(was, Live(bs, 0));
      var current := first;
      HeaderWords(mem[..], start, blocks, i);
      while mem[(current - start) / 8 + 2] != 0
        invariant Valid() && i < |blocks| && current == start + Off(blocks, i)
        invariant (current - start) / 8 + 2 < mem.Length && mem[(current - start) / 8 + 2] == NextLink(start, blocks, i)
        invariant forall k :: 0 < k <= i ==> !(blocks[k - 1].free && blocks[k].free)
        invariant Coalesce(blocks) == Coalesce(bs)
        invariant Untouched(was, mem[..], Live(bs, 0))
        invariant used == old(used)
        decreases |blocks| - i
      {
        var w := (current - start) / 8;
        var next := mem[w + 2];
        HeaderWords(mem[..], start, blocks, i);
        HeaderWords(mem[..], start, blocks, i + 1);
        var v := (next - start) / 8;
        if mem[w + 1] != 0 && mem[v + 1] != 0 {
          ghost var cs, mid := blocks, mem[..];
          JoinIsCoalescing(cs, i);
          JoinNext(w, v, i);
          CoalesceKeeps(cs, 0);
          CoalesceKeeps(bs, 0);
          UntouchedTwice(was, mid, mem[..], Live(bs, 0));
        } else {
          current := next;
          i := i + 1;
        }
        HeaderWords(mem[..], start, blocks, i);
      }
      SweepDone(blocks, i);
    }

    /** heap_available: the bytes not handed out, exactly while heap_used is the sum of the live sizes */
    method Available() returns (bytes: nat)
      requires Valid()
      ensures bytes == HeapTheory.Available(total, State())
      ensures bytes == total - LiveSum(blocks) <==> used == LiveSum(blocks)
    {
      LiveSumBelowTotal(blocks);
      bytes := if total > used then total - used else 0;
    }

    /** Splitting and marking the block found */
    method TakeBlock(current: nat, size: Word, ghost i: nat)
      requires Valid() && i < |blocks| && current == start + Off(blocks, i)
      requires blocks[i].free && blocks[i].size >= size && size % 8 == 0
      modifies mem, this`blocks
      ensures Valid() && blocks == Take(old(blocks), i, size)
      ensures Untouched(old(mem[..]), mem[..], Live(old(blocks), 0))
    {
      hide Off, Live, Take, Represents, OnlyInside, Untouched, Replace, HeaderAt;
      ghost var bs, was := blocks, mem[..];
      HeaderWords(was, start, bs, i);
      SplitAndMark(bs, i, size);
      var w := (current - start) / 8;
      InsideItself(was, bs, i);
      if mem[w] >= size + HEADER + ALIGN {
        SplitBlock(w, current, size, i);
      }
      ghost var cs, mid := blocks, mem[..];
      HeaderWords(mid, start, cs, i);
      FlagKeeps(mid, mid[w + 1 := 0], start, cs, i, 0);
      mem[w + 1] := 0;
      assert mem[..] == mid[w + 1 := 0];
      blocks := Take(bs, i, size);
      InsideTwice(was, mid, mem[..], bs, cs, i);
      InsideFreeIsUntouched(was, mem[..], bs, i);
    }

    /** Writing a second header behind the part handed out */
    method SplitBlock(w: nat, current: nat, size: Word, ghost i: nat)
      requires Valid() && i < |blocks| && current == start + Off(blocks, i) && w == Off(blocks, i) / 8
      requires blocks[i].free && Splits(blocks[i], size) && size % 8 == 0
      modifies mem, this`blocks
      ensures Valid() && OnlyInside(old(mem[..]), mem[..], old(blocks), i)
      ensures blocks == Replace(old(blocks), i, [Block(size, true), Block(old(blocks)[i].size - size - HEADER, true)])
    {
      hide Off, Represents, OnlyInside, Replace, SplitHeader, HeaderAt, Aligned, Total, NextLink;
      ghost var bs, was := blocks, mem[..];
      HeaderWords(was, start, bs, i);
      SplitKeeps(was, start, bs, i, size);
      var cut := current + HEADER + size;
      var v := (cut - start) / 8;
      mem[v] := mem[w] - size - HEADER;
      mem[v + 1] := 1;
      mem[v + 2] := mem[w + 2];
      mem[w] := size;
      mem[w + 2] := cut;
      assert mem[..] == SplitHeader(was, start, Off(bs, i), size, bs[i].size - size - HEADER) by {
        SplitHeaderIs(was, start, Off(bs, i), size, bs[i].size - size - HEADER);
      }
      blocks := Replace(bs, i, [Block(size, true), Block(bs[i].size - size - HEADER, true)]);
    }
  }

  lemma RoundedIsAligned(n: Word)
    ensures AlignUp(n) % 8 == 0
  {
    var q := (n + ALIGN - 1) % WORD_LIMIT / ALIGN;
    DivModUnique(q * ALIGN, 8, q * 2, 0);
  }

  lemma InsideItself(mem: seq<Word>, bs: seq<Block>, i: nat)
    requires i < |bs|
    ensures OnlyInside(mem, mem, bs, i)
  {
  }

  lemma SplitHeaderIs(mem: seq<Word>, start: nat, off: nat, size: nat, rest: nat)
    requires off / 8 + 2 < |mem| && (off + HEADER + size) / 8 + 2 < |mem|
    requires start + off + HEADER + size < WORD_LIMIT && rest < WORD_LIMIT
    ensures var w, v := off / 8, (off + HEADER + size) / 8;
      SplitHeader(mem, start, off, size, rest) ==
        mem[v := rest][v + 1 := 1][v + 2 := mem[w + 2]][w := size][w + 2 := start + off + HEADER + size]
  {
  }

  lemma JoinedLength(bs: seq<Block>, i: nat)
    requires i + 1 < |bs|
    ensures |Joined(bs, i)| == |bs| - 1
  {
  }

  lemma UntouchedItself(mem: seq<Word>, live: seq<(nat, nat)>)
    ensures Untouched(mem, mem, live)
  {
  }

  /** Marking block i free writes inside it, and the other live blocks lie elsewhere. */
  lemma MarkUntouched(mem: seq<Word>, mem': seq<Word>, bs: seq<Block>, i: nat)
    requires i < |bs| && OnlyInside(mem, mem', bs, i)
    ensures Untouched(mem, mem', Live(bs[i := bs[i].(free := true)], 0))
  {
    var fs := bs[i := bs[i].(free := true)];
    SameOffsetsAt(bs, fs, i);
    FreeBlockIsGap(fs, i, HEADER + bs[i].size);
  }

  lemma OffZero(bs: seq<Block>)
    ensures Off(bs, 0) == 0
  {
  }

  lemma NotEmpty(mem: seq<Word>, start: nat, bs: seq<Block>)
    requires Represents(mem, start, bs)
    ensures bs != [] && start > 0
  {
  }

  /** What the header words of block i say */
  lemma HeaderWords(mem: seq<Word>, start: nat, bs: seq<Block>, i: nat)
    requires Represents(mem, start, bs) && i < |bs|
    ensures var w := Off(bs, i) / 8;
      && w + 2 < |mem| && mem[w] == bs[i].size && (mem[w + 1] != 0) == bs[i].free && mem[w + 2] == NextLink(start, bs, i)
    ensures Off(bs, i) % 8 == 0
    ensures start + Off(bs, i) + HEADER + bs[i].size <= start + Total(bs) < WORD_LIMIT - HEADER - ALIGN
    ensures i + 1 < |bs| ==> Off(bs, i + 1) == Off(bs, i) + HEADER + bs[i].size
  {
    HeaderFits(mem, start, bs, i);
  }
}
