/** kernel/src/x86_64/heap.c in place: block headers and payloads in one array of words. */
module HeapMemory {
  import opened Bits
  import opened Chain
  import opened HeapTheory

  /** Header words: size, is_free, next. The list is linked by addresses; 0 ends it. */
  function NextLink(start: nat, bs: seq<Block>, i: nat): nat
    requires i < |bs|
  {
    if i + 1 < |bs| then start + Off(bs, i + 1) else 0
  }

  predicate HeaderAt(mem: seq<Word>, start: nat, bs: seq<Block>, i: nat)
    requires i < |bs|
  {
    var w := Off(bs, i) / 8;
    w + 2 < |mem| && mem[w] == bs[i].size && (mem[w + 1] != 0) == bs[i].free && mem[w + 2] == NextLink(start, bs, i)
  }

  /** The words hold exactly the blocks bs, end to end, from `start` to the heap break, which lies in the last word
      or at its end. */
  ghost predicate Represents(mem: seq<Word>, start: nat, bs: seq<Block>) {
    && bs != [] && Aligned(bs) && Total(bs) <= 8 * |mem| < Total(bs) + 8
    && start > 0 && start % 8 == 0 && start + Total(bs) < WORD_LIMIT - HEADER - ALIGN
    && forall i :: 0 <= i < |bs| ==> HeaderAt(mem, start, bs, i)
  }

  /** The words of some live blocks, headers and payloads, are as before. */
  ghost predicate Untouched(mem: seq<Word>, mem': seq<Word>, live: seq<(nat, nat)>) {
    |mem| == |mem'| &&
    forall e, x {:trigger e in live, mem'[x]} ::
      e in live && 0 <= x < |mem| && e.0 <= 8 * x < e.0 + HEADER + e.1 ==> mem'[x] == mem[x]
  }

  /** Words outside the extent of block i are as before. */
  ghost predicate OnlyInside(mem: seq<Word>, mem': seq<Word>, bs: seq<Block>, i: nat)
    requires i < |bs|
  {
    |mem| == |mem'| &&
    forall x {:trigger mem'[x]} :: 0 <= x < |mem| && !(Off(bs, i) <= 8 * x < Off(bs, i) + HEADER + bs[i].size) ==> mem'[x] == mem[x]
  }

  lemma HeaderFits(mem: seq<Word>, start: nat, bs: seq<Block>, i: nat)
    requires Represents(mem, start, bs) && i < |bs|
    ensures HeaderAt(mem, start, bs, i)
    ensures Off(bs, i) % 8 == 0 && Off(bs, i) + HEADER + bs[i].size <= Total(bs) <= 8 * |mem| < Total(bs) + 8
  {
    OffAligned(bs, i);
    OffGrows(bs, i, |bs|);
  }

  lemma InsideFreeIsUntouched(mem: seq<Word>, mem': seq<Word>, bs: seq<Block>, i: nat)
    requires i < |bs| && bs[i].free && OnlyInside(mem, mem', bs, i)
    ensures Untouched(mem, mem', Live(bs, 0))
  {
    FreeBlockIsGap(bs, i, HEADER + bs[i].size);
  }

  /** A header that lies outside block i, reached at the same offset in another list, is still there. */
  lemma HeaderKept(mem: seq<Word>, mem': seq<Word>, start: nat, bs: seq<Block>, i: nat, k: nat, cs: seq<Block>, j: nat)
    requires Represents(mem, start, bs) && i < |bs| && OnlyInside(mem, mem', bs, i)
    requires k < |bs| && k != i && j < |cs| && cs[j] == bs[k] && Off(cs, j) == Off(bs, k)
    requires NextLink(start, cs, j) == NextLink(start, bs, k)
    ensures HeaderAt(mem', start, cs, j)
  {
    hide Off, Represents, Aligned, NextLink;
    HeaderFits(mem, start, bs, k);
    if k < i {
      OffGrows(bs, k, i);
    } else {
      OffGrows(bs, i, k);
    }
    var w := Off(bs, k) / 8;
    assert Off(bs, k) == 8 * w;
    assert mem'[w] == mem[w] && mem'[w + 1] == mem[w + 1] && mem'[w + 2] == mem[w + 2];
  }

  // ---------- The three kinds of write ----------

  /** Marking block i free or live */
  lemma FlagKeeps(mem: seq<Word>, mem': seq<Word>, start: nat, bs: seq<Block>, i: nat, flag: Word)
    requires Represents(mem, start, bs) && i < |bs|
    requires Off(bs, i) / 8 + 1 < |mem| && mem' == mem[Off(bs, i) / 8 + 1 := flag]
    ensures Represents(mem', start, bs[i := bs[i].(free := flag != 0)])
    ensures Total(bs[i := bs[i].(free := flag != 0)]) == Total(bs)
    ensures OnlyInside(mem, mem', bs, i)
  {
    hide Off, Aligned, HeaderAt;
    var cs := bs[i := bs[i].(free := flag != 0)];
    HeaderFits(mem, start, bs, i);
    SameOffsets(bs, cs);
    forall k | 0 <= k < |cs|
      ensures HeaderAt(mem', start, cs, k)
    {
      SameOffsetsAt(bs, cs, k);
      if k + 1 < |bs| {
        SameOffsetsAt(bs, cs, k + 1);
      }
      if k != i {
        HeaderKept(mem, mem', start, bs, i, k, cs, k);
      } else {
        FlagHeader(mem, mem', start, bs, i, cs, flag);
      }
    }
  }

  lemma FlagHeader(mem: seq<Word>, mem': seq<Word>, start: nat, bs: seq<Block>, i: nat, cs: seq<Block>, flag: Word)
    requires Represents(mem, start, bs) && i < |bs| == |cs|
    requires Off(bs, i) / 8 + 1 < |mem| && mem' == mem[Off(bs, i) / 8 + 1 := flag]
    requires cs[i] == bs[i].(free := flag != 0) && Off(cs, i) == Off(bs, i) && NextLink(start, cs, i) == NextLink(start, bs, i)
    ensures HeaderAt(mem', start, cs, i)
  {
    hide Off;
    HeaderFits(mem, start, bs, i);
  }

  predicate SameSizes(bs: seq<Block>, cs: seq<Block>) {
    |bs| == |cs| && forall k :: 0 <= k < |bs| ==> bs[k].size == cs[k].size
  }

  lemma {:induction false} SameOffsetsAt(bs: seq<Block>, cs: seq<Block>, k: nat)
    requires SameSizes(bs, cs) && k <= |bs|
    ensures Off(bs, k) == Off(cs, k)
  {
    if k > 0 {
      SameOffsetsAt(bs, cs, k - 1);
    }
  }

  lemma SameOffsets(bs: seq<Block>, cs: seq<Block>)
    requires SameSizes(bs, cs)
    ensures Total(bs) == Total(cs) && (Aligned(bs) ==> Aligned(cs))
  {
    SameOffsetsAt(bs, cs, |bs|);
  }

  /** bs with block i replaced by one or more blocks of the same extent */
  function Replace(bs: seq<Block>, i: nat, parts: seq<Block>): seq<Block>
    requires i < |bs|
  {
    bs[..i] + parts + bs[i + 1..]
  }

  lemma ReplaceOffsets(bs: seq<Block>, i: nat, parts: seq<Block>, k: nat)
    requires i < |bs| && parts != [] && Total(parts) == HEADER + bs[i].size && k <= |bs|
    ensures var cs := Replace(bs, i, parts);
      && |cs| == |bs| + |parts| - 1
      && (k <= i ==> Off(cs, k) == Off(bs, k))
      && (k > i ==> Off(cs, k + |parts| - 1) == Off(bs, k))
      && (k < i ==> cs[k] == bs[k]) && (i < k < |bs| ==> cs[k + |parts| - 1] == bs[k])
  {
    var cs := Replace(bs, i, parts);
    var m := i + |parts|;
    if k <= i {
      assert cs[..k] == bs[..k];
      OffPrefix(bs, cs, k);
    } else {
      assert cs[..m] == bs[..i] + parts;
      OffPrefix(cs, cs[..m], m);
      TotalAppend(bs[..i], parts);
      OffPrefix(bs, bs[..i], i);
      assert cs[m..] == bs[i + 1..];
      OffTail(bs, i + 1, cs, m, k - i - 1);
    }
  }

  /** The header words that describe block i cut in two */
  function SplitHeader(mem: seq<Word>, start: nat, off: nat, size: nat, rest: nat): seq<Word>
    requires off / 8 + 2 < |mem| && (off + HEADER + size) / 8 + 2 < |mem|
    requires start + off + HEADER + size < WORD_LIMIT && rest < WORD_LIMIT
  {
    var w, v := off / 8, (off + HEADER + size) / 8;
    mem[v := rest][v + 1 := 1][v + 2 := mem[w + 2]][w := size][w + 2 := start + off + HEADER + size]
  }

  lemma SplitKeeps(mem: seq<Word>, start: nat, bs: seq<Block>, i: nat, size: nat)
    requires Represents(mem, start, bs) && i < |bs| && bs[i].free && Splits(bs[i], size) && size % 8 == 0
    ensures var off := Off(bs, i); var rest := bs[i].size - size - HEADER;
      && off / 8 + 2 < |mem| && (off + HEADER + size) / 8 + 2 < |mem|
      && start + off + HEADER + size < WORD_LIMIT && rest < WORD_LIMIT
      && var mem' := SplitHeader(mem, start, off, size, rest);
      && Represents(mem', start, Replace(bs, i, [Block(size, true), Block(rest, true)]))
      && Total(Replace(bs, i, [Block(size, true), Block(rest, true)])) == Total(bs)
      && OnlyInside(mem, mem', bs, i)
  {
    hide Off, HeaderAt, Aligned;
    var off, rest := Off(bs, i), bs[i].size - size - HEADER;
    HeaderFits(mem, start, bs, i);
    SplitOffsets(bs, i, size);
    var two := [Block(size, true), Block(rest, true)];
    var cs := Replace(bs, i, two);
    var mem' := SplitHeader(mem, start, off, size, rest);
    SplitWrites(mem, start, bs, i, size);
    forall k | 0 <= k < |cs|
      ensures HeaderAt(mem', start, cs, k)
    {
      SplitHeaderAt(mem, mem', start, bs, i, size, k);
    }
  }

  /** The writes of a split stay inside the block, and make the two headers. */
  lemma SplitWrites(mem: seq<Word>, start: nat, bs: seq<Block>, i: nat, size: nat)
    requires Represents(mem, start, bs) && i < |bs| && bs[i].free && Splits(bs[i], size) && size % 8 == 0
    ensures var off := Off(bs, i); var rest := bs[i].size - size - HEADER;
      && off / 8 + 2 < |mem| && (off + HEADER + size) / 8 + 2 < |mem|
      && start + off + HEADER + size < WORD_LIMIT && rest < WORD_LIMIT
      && var mem' := SplitHeader(mem, start, off, size, rest);
      && OnlyInside(mem, mem', bs, i) && |mem'| == |mem|
      && var w, v := off / 8, (off + HEADER + size) / 8;
      && mem'[w] == size && mem'[w + 1] == mem[w + 1] && mem'[w + 2] == start + off + HEADER + size
      && mem'[v] == rest && mem'[v + 1] == 1 && mem'[v + 2] == mem[w + 2]
  {
    hide Off;
    HeaderFits(mem, start, bs, i);
  }

  lemma SplitOffsets(bs: seq<Block>, i: nat, size: nat)
    requires i < |bs| && Splits(bs[i], size)
    ensures var two := [Block(size, true), Block(bs[i].size - size - HEADER, true)];
      && Total(two) == HEADER + bs[i].size
      && Total(Replace(bs, i, two)) == Total(bs)
      && Off(Replace(bs, i, two), i) == Off(bs, i)
      && Off(Replace(bs, i, two), i + 1) == Off(bs, i) + HEADER + size
      && Off(Replace(bs, i, two), i + 2) == Off(bs, i + 1)
      && (Aligned(bs) && size % 8 == 0 ==> Aligned(Replace(bs, i, two)))
  {
    var two := [Block(size, true), Block(bs[i].size - size - HEADER, true)];
    assert Off(two, 0) == 0 && Off(two, 1) == HEADER + size;
    hide Aligned, Replace;
    ReplaceOffsets(bs, i, two, |bs|);
    ReplaceOffsets(bs, i, two, i);
    ReplaceOffsets(bs, i, two, i + 1);
    SplitAligned(bs, i, size);
    ReplaceAt(bs, i, two);
  }

  lemma SplitAligned(bs: seq<Block>, i: nat, size: nat)
    requires i < |bs| && Splits(bs[i], size)
    ensures var two := [Block(size, true), Block(bs[i].size - size - HEADER, true)];
      Aligned(bs) && size % 8 == 0 ==> Aligned(Replace(bs, i, two))
  {
    var cs := Replace(bs, i, [Block(size, true), Block(bs[i].size - size - HEADER, true)]);
    if Aligned(bs) && size % 8 == 0 {
      forall k | 0 <= k < |cs| - 1
        ensures cs[k].size % 8 == 0
      {
        assert k < i ==> cs[k] == bs[k];
        assert k > i + 1 ==> cs[k] == bs[k - 1];
      }
    }
  }

  lemma SplitHeaderAt(mem: seq<Word>, mem': seq<Word>, start: nat, bs: seq<Block>, i: nat, size: nat, k: nat)
    requires Represents(mem, start, bs) && i < |bs| && bs[i].free && Splits(bs[i], size) && size % 8 == 0
    requires var off := Off(bs, i); var rest := bs[i].size - size - HEADER;
      && off / 8 + 2 < |mem| && (off + HEADER + size) / 8 + 2 < |mem|
      && start + off + HEADER + size < WORD_LIMIT && rest < WORD_LIMIT
      && mem' == SplitHeader(mem, start, off, size, rest)
    requires k < |bs| + 1
    ensures HeaderAt(mem', start, Replace(bs, i, [Block(size, true), Block(bs[i].size - size - HEADER, true)]), k)
  {
    hide Off, SplitHeader, Represents, HeaderAt, OnlyInside, Replace;
    var two := [Block(size, true), Block(bs[i].size - size - HEADER, true)];
    var cs := Replace(bs, i, two);
    SplitWrites(mem, start, bs, i, size);
    SplitOffsets(bs, i, size);
    if k < i {
      ReplaceOffsets(bs, i, two, k);
      ReplaceOffsets(bs, i, two, k + 1);
      HeaderKept(mem, mem', start, bs, i, k, cs, k);
    } else if k > i + 1 {
      ReplaceOffsets(bs, i, two, k - 1);
      ReplaceOffsets(bs, i, two, k);
      HeaderKept(mem, mem', start, bs, i, k - 1, cs, k);
    } else {
      assert cs[i] == two[0] && cs[i + 1] == two[1] && |cs| == |bs| + 1 by { ReplaceAt(bs, i, two); }
      SplitOwnHeaders(mem, mem', start, bs, i, size, cs);
    }
  }

  lemma ReplaceAt(bs: seq<Block>, i: nat, parts: seq<Block>)
    requires i < |bs| && |parts| == 2
    ensures var cs := Replace(bs, i, parts); |cs| == |bs| + 1 && cs[i] == parts[0] && cs[i + 1] == parts[1]
  {
  }

  lemma SplitOwnHeaders(mem: seq<Word>, mem': seq<Word>, start: nat, bs: seq<Block>, i: nat, size: nat, cs: seq<Block>)
    requires Represents(mem, start, bs) && i < |bs| && bs[i].free && Splits(bs[i], size) && |mem'| == |mem|
    requires |cs| == |bs| + 1 && cs[i] == Block(size, true) && cs[i + 1] == Block(bs[i].size - size - HEADER, true)
    requires Off(cs, i) == Off(bs, i) && Off(cs, i + 1) == Off(bs, i) + HEADER + size && Off(cs, i + 2) == Off(bs, i + 1)
    requires var w, v := Off(bs, i) / 8, (Off(bs, i) + HEADER + size) / 8;
      && w + 2 < |mem| && v + 2 < |mem|
      && mem'[w] == size && mem'[w + 1] == mem[w + 1] && mem'[w + 2] == start + Off(bs, i) + HEADER + size
      && mem'[v] == bs[i].size - size - HEADER && mem'[v + 1] == 1 && mem'[v + 2] == mem[w + 2]
    ensures HeaderAt(mem', start, cs, i) && HeaderAt(mem', start, cs, i + 1)
  {
    hide Off;
    HeaderFits(mem, start, bs, i);
  }

  /** bs with blocks i and i + 1 made one free block */
  function Joined(bs: seq<Block>, i: nat): seq<Block>
    requires i + 1 < |bs|
  {
    bs[..i] + [Block(bs[i].size + HEADER + bs[i + 1].size, true)] + bs[i + 2..]
  }

  lemma JoinedOffsets(bs: seq<Block>, i: nat, k: nat)
    requires i + 1 < |bs| && k <= |bs| && k != i + 1
    ensures var cs := Joined(bs, i);
      && (k <= i ==> Off(cs, k) == Off(bs, k)) && (k > i ==> Off(cs, k - 1) == Off(bs, k))
      && (k < i ==> cs[k] == bs[k]) && (i + 1 < k < |bs| ==> cs[k - 1] == bs[k])
  {
    var cs := Joined(bs, i);
    assert cs[..i] == bs[..i];
    OffPrefix(bs, cs, i);
    if k < i {
      assert cs[..k] == bs[..k];
      OffPrefix(bs, cs, k);
    } else if k > i {
      assert cs[i + 1..] == bs[i + 2..];
      assert Off(bs, i + 2) == Off(bs, i + 1) + HEADER + bs[i + 1].size;
      OffTail(bs, i + 2, cs, i + 1, k - i - 2);
    }
  }

  lemma JoinKeeps(mem: seq<Word>, mem': seq<Word>, start: nat, bs: seq<Block>, i: nat)
    requires Represents(mem, start, bs) && i + 1 < |bs| && bs[i].free && bs[i + 1].free
    requires var w, v := Off(bs, i) / 8, Off(bs, i + 1) / 8;
      && w + 2 < |mem| && v + 2 < |mem| && bs[i].size + HEADER + bs[i + 1].size < WORD_LIMIT
      && mem' == mem[w := bs[i].size + HEADER + bs[i + 1].size][w + 2 := mem[v + 2]]
    ensures Represents(mem', start, Joined(bs, i)) && Total(Joined(bs, i)) == Total(bs)
    ensures OnlyInside(mem, mem', bs, i)
  {
    hide Off, HeaderAt, Aligned;
    var cs := Joined(bs, i);
    HeaderFits(mem, start, bs, i);
    HeaderFits(mem, start, bs, i + 1);
    JoinedOffsets(bs, i, |bs|);
    JoinedAligned(bs, i);
    OffNext(bs, i);
    forall k | 0 <= k < |cs|
      ensures HeaderAt(mem', start, cs, k)
    {
      JoinedHeaderAt(mem, mem', start, bs, i, k);
    }
  }

  lemma OffNext(bs: seq<Block>, i: nat)
    requires i < |bs|
    ensures Off(bs, i + 1) == Off(bs, i) + HEADER + bs[i].size
  {
  }

  lemma JoinedAligned(bs: seq<Block>, i: nat)
    requires i + 1 < |bs| && Aligned(bs)
    ensures Aligned(Joined(bs, i))
  {
    var cs := Joined(bs, i);
    forall k | 0 <= k < |cs| - 1
      ensures cs[k].size % 8 == 0
    {
      assert k < i ==> cs[k] == bs[k];
      assert k > i ==> cs[k] == bs[k + 1];
    }
  }

  lemma JoinedHeaderAt(mem: seq<Word>, mem': seq<Word>, start: nat, bs: seq<Block>, i: nat, k: nat)
    requires Represents(mem, start, bs) && i + 1 < |bs| && bs[i].free && bs[i + 1].free && k < |bs| - 1
    requires var w, v := Off(bs, i) / 8, Off(bs, i + 1) / 8;
      && w + 2 < |mem| && v + 2 < |mem| && bs[i].size + HEADER + bs[i + 1].size < WORD_LIMIT
      && mem' == mem[w := bs[i].size + HEADER + bs[i + 1].size][w + 2 := mem[v + 2]]
    ensures HeaderAt(mem', start, Joined(bs, i), k)
  {
    hide Off;
    var cs := Joined(bs, i);
    HeaderFits(mem, start, bs, i);
    HeaderFits(mem, start, bs, i + 1);
    JoinedOffsets(bs, i, i);
    if i + 2 < |bs| {
      JoinedOffsets(bs, i, i + 2);
    }
    if k < i {
      JoinedOffsets(bs, i, k);
      if k + 1 < i {
        JoinedOffsets(bs, i, k + 1);
      }
      HeaderKept(mem, mem', start, bs, i, k, cs, k);
    } else if k > i {
      JoinedOffsets(bs, i, k + 1);
      if k + 2 <= |bs| {
        JoinedOffsets(bs, i, k + 2);
      }
      HeaderKept(mem, mem', start, bs, i, k + 1, cs, k);
    }
  }

  /** A client's store into the payload of its block changes no header and no other block. */
  lemma PayloadStoreKeeps(mem: seq<Word>, start: nat, bs: seq<Block>, i: nat, x: nat, value: Word)
    requires Represents(mem, start, bs) && i < |bs|
    requires Off(bs, i) + HEADER <= 8 * x && 8 * x < Off(bs, i) + HEADER + bs[i].size
    ensures x < |mem| && Represents(mem[x := value], start, bs) && OnlyInside(mem, mem[x := value], bs, i)
  {
    HeaderFits(mem, start, bs, i);
    var mem' := mem[x := value];
    forall k | 0 <= k < |bs|
      ensures HeaderAt(mem', start, bs, k)
    {
      HeaderFits(mem, start, bs, k);
      if k != i {
        HeaderKept(mem, mem', start, bs, i, k, bs, k);
      }
    }
  }
}
