/** Whole histories of the heap in memory: allocations, frees and the stores of its clients. */
module HeapTrace {
  import opened Bits
  import opened Chain
  import opened HeapTheory
  import opened HeapMemory

  /** The words of the heap, and the blocks and counter they stand for */
  datatype Snapshot = Snapshot(mem: seq<Word>, heap: Heap)

  datatype Event =
    | Allocated(n: Word)
    | Freed(pointer: nat)
    | Stored(owner: nat, x: nat, value: Word)

  /** Word x belongs to the payload of block i. */
  predicate InPayload(bs: seq<Block>, i: nat, x: nat)
    requires i < |bs|
  {
    Off(bs, i) + HEADER <= 8 * x < Off(bs, i) + HEADER + bs[i].size
  }

  /** What an event may do: heap_alloc and heap_free what their contracts say, a client store into a live
      block of its own. */
  ghost predicate Follows(start: nat, s: Snapshot, event: Event, s': Snapshot) {
    var bs := s.heap.blocks;
    match event
    case Allocated(n) =>
      && s'.heap == Alloc(s.heap, n).0 && Represents(s'.mem, start, s'.heap.blocks)
      && Untouched(s.mem, s'.mem, Live(bs, 0))
    case Freed(p) =>
      && Allowed(s.heap, FreeOp(p)) && s'.heap == Free(s.heap, Find(bs, p)) && Represents(s'.mem, start, s'.heap.blocks)
      && Untouched(s.mem, s'.mem, Live(s'.heap.blocks, 0))
    case Stored(i, x, value) =>
      && s'.heap == s.heap && i < |bs| && !bs[i].free && InPayload(bs, i, x) && x < |s.mem|
      && s'.mem == s.mem[x := value]
  }

  /** A trace: each snapshot but the first follows the one before it by an event. */
  ghost predicate Trace(start: nat, ss: seq<Snapshot>, events: seq<Event>) {
    && |ss| == |events| + 1 && Represents(ss[0].mem, start, ss[0].heap.blocks)
    && forall k :: 0 <= k < |events| ==> Follows(start, ss[k], events[k], ss[k + 1])
  }

  /** The event neither frees a live block nor is a store of its owner. */
  ghost predicate Leaves(s: Snapshot, event: Event, e: (nat, nat)) {
    match event
    case Allocated(_) => true
    case Freed(p) => p != e.0 + HEADER
    case Stored(i, _, _) => i < |s.heap.blocks| ==> Off(s.heap.blocks, i) != e.0
  }

  /** The words of a block, header and payload */
  ghost predicate SameWords(mem: seq<Word>, mem': seq<Word>, e: (nat, nat)) {
    |mem| == |mem'| && forall x :: 0 <= x < |mem| && e.0 <= 8 * x < e.0 + HEADER + e.1 ==> mem'[x] == mem[x]
  }

  lemma AllocKeepsLive(h: Heap, n: Word, e: (nat, nat))
    requires e in Live(h.blocks, 0)
    ensures e in Live(Alloc(h, n).0.blocks, 0)
  {
    hide Live, Off, Take, AlignUp, Merged, Aligned;
    var i := FirstFit(h.blocks, AlignUp(n));
    if n != 0 && i < |h.blocks| {
      TakeAddsOne(h.blocks, i, AlignUp(n));
      LiveAt(h.blocks, i);
    }
  }

  lemma FreeKeepsLive(h: Heap, p: nat, e: (nat, nat))
    requires Allowed(h, FreeOp(p)) && e in Live(h.blocks, 0) && p != e.0 + HEADER
    ensures e in Live(Free(h, Find(h.blocks, p)).blocks, 0)
  {
    hide Live, Off, Coalesce, Merged, Aligned, Find;
    var i := Find(h.blocks, p);
    FreeRemovesOne(h, i);
    LiveAt(h.blocks, i);
    FindIs(h.blocks, p);
  }

  lemma FindIs(bs: seq<Block>, p: nat)
    requires Find(bs, p) < |bs|
    ensures Off(bs, Find(bs, p)) + HEADER == p
  {
  }

  lemma StoreKeepsWords(s: Snapshot, i: nat, x: nat, value: Word, e: (nat, nat))
    requires i < |s.heap.blocks| && !s.heap.blocks[i].free && InPayload(s.heap.blocks, i, x) && x < |s.mem|
    requires e in Live(s.heap.blocks, 0) && Off(s.heap.blocks, i) != e.0
    ensures SameWords(s.mem, s.mem[x := value], e)
  {
    hide Live, Off;
    var bs := s.heap.blocks;
    LiveMember(bs, i);
    LiveAreDisjoint(bs, 0);
    var j :| 0 <= j < |Live(bs, 0)| && Live(bs, 0)[j] == e;
    var k :| 0 <= k < |Live(bs, 0)| && Live(bs, 0)[k] == (Off(bs, i), bs[i].size);
    assert j != k;
  }

  lemma StepKeepsBlock(start: nat, s: Snapshot, event: Event, s': Snapshot, e: (nat, nat))
    requires Represents(s.mem, start, s.heap.blocks) && Follows(start, s, event, s')
    requires e in Live(s.heap.blocks, 0) && Leaves(s, event, e)
    ensures Represents(s'.mem, start, s'.heap.blocks) && e in Live(s'.heap.blocks, 0) && SameWords(s.mem, s'.mem, e)
  {
    hide Live, Off, Represents, Alloc, Free, Find;
    match event
    case Allocated(n) =>
      AllocKeepsLive(s.heap, n, e);
    case Freed(p) =>
      FreeKeepsLive(s.heap, p, e);
    case Stored(i, x, value) =>
      PayloadStoreKeeps(s.mem, start, s.heap.blocks, i, x, value);
      StoreKeepsWords(s, i, x, value, e);
  }

  /** A block that is handed out stays live, and every word of it as its owner left it, through any history
      of allocations, frees and other clients' stores that does not free it. */
  lemma {:induction false} LiveBlockSurvives(start: nat, ss: seq<Snapshot>, events: seq<Event>, e: (nat, nat))
    requires Trace(start, ss, events) && e in Live(ss[0].heap.blocks, 0)
    requires forall k :: 0 <= k < |events| ==> Leaves(ss[k], events[k], e)
    ensures var last := ss[|ss| - 1];
      && Represents(last.mem, start, last.heap.blocks)
      && e in Live(last.heap.blocks, 0) && SameWords(ss[0].mem, last.mem, e)
    decreases |events|
  {
    hide Live, Represents, Follows, Leaves;
    if events != [] {
      var n := |events| - 1;
      LiveBlockSurvives(start, ss[..n + 1], events[..n], e);
      assert ss[..n + 1][n] == ss[n];
      StepKeepsBlock(start, ss[n], events[n], ss[n + 1], e);
    }
  }
}
