/** The bitmap page allocator as a value: which frames are marked, and the counter beside them. */
module Pages {
  import opened Bits

  const PAGE_SIZE := 4096

  /** used[f] is bit f of the bitmap; free is the uint64_t counter the allocator keeps. */
  datatype Pages = Pages(used: seq<bool>, free: Word)

  /** The lowest clear frame, or |used| when every bit is set */
  function FirstClear(used: seq<bool>): (f: nat)
    ensures f <= |used|
    ensures f < |used| ==> !used[f]
    ensures forall k :: 0 <= k < f ==> used[k]
  {
    if used == [] || !used[0] then 0 else 1 + FirstClear(used[1..])
  }

  lemma FirstClearIs(used: seq<bool>, f: nat)
    requires f <= |used| && (f < |used| ==> !used[f])
    requires forall k :: 0 <= k < f ==> used[k]
    ensures FirstClear(used) == f
  {
  }

  /** The number of set bits of s */
  function Count(s: seq<bool>): (n: nat)
    ensures n <= |s|
  {
    if s == [] then 0 else (if s[0] then 1 else 0) + Count(s[1..])
  }

  /** The number of clear frames */
  function Clear(used: seq<bool>): nat {
    |used| - Count(used)
  }

  /** alloc_page: the address handed out is 0 both for failure and for frame 0. */
  function Alloc(p: Pages): (r: (Pages, nat)) {
    var f := FirstClear(p.used);
    if f < |p.used| then (Pages(p.used[f := true], Dec(p.free)), f * PAGE_SIZE) else (p, 0)
  }

  function Free(p: Pages, page: nat): Pages {
    var f := page / PAGE_SIZE;
    if f < |p.used| && p.used[f] then Pages(p.used[f := false], Inc(p.free)) else p
  }

  // ---------- Counting ----------

  lemma {:induction false} CountUpdate(s: seq<bool>, i: nat, b: bool)
    requires i < |s|
    ensures Count(s[i := b]) == Count(s) - (if s[i] then 1 else 0) + (if b then 1 else 0)
  {
    if i == 0 {
      assert s[0 := b][1..] == s[1..];
    } else {
      CountUpdate(s[1..], i - 1, b);
      assert s[i := b][1..] == s[1..][i - 1 := b];
    }
  }

  lemma {:induction false} CountAll(s: seq<bool>)
    ensures Count(s) == |s| <==> FirstClear(s) == |s|
    ensures Count(s) == |s| <==> forall k :: 0 <= k < |s| ==> s[k]
  {
    if s != [] {
      CountAll(s[1..]);
      if s[0] && forall k :: 0 <= k < |s[1..]| ==> s[1..][k] {
        assert forall k :: 0 < k < |s| ==> s[k] == s[1..][k - 1];
      }
      if forall k :: 0 <= k < |s| ==> s[k] {
        assert forall k :: 0 <= k < |s[1..]| ==> s[1..][k] == s[k + 1];
      }
    }
  }

  lemma {:induction false} CountSnoc(s: seq<bool>, b: bool)
    ensures Count(s + [b]) == Count(s) + (if b then 1 else 0)
  {
    if s == [] {
      assert (s + [b])[1..] == [];
    } else {
      CountSnoc(s[1..], b);
      assert (s + [b])[1..] == s[1..] + [b];
    }
  }

  /** alloc_page fails exactly when every bit is set, and otherwise takes the lowest clear
      frame, moving no other bit. */
  lemma AllocTakesLowest(p: Pages)
    ensures var (p', page) := Alloc(p);
      var f := page / PAGE_SIZE;
      if forall k :: 0 <= k < |p.used| ==> p.used[k] then p' == p && page == 0
      else
        && f < |p.used| && page == f * PAGE_SIZE
        && !p.used[f] && (forall k :: 0 <= k < f ==> p.used[k])
        && p'.used == p.used[f := true]
        && Clear(p'.used) == Clear(p.used) - 1
  {
    CountAll(p.used);
    if FirstClear(p.used) < |p.used| {
      CountUpdate(p.used, FirstClear(p.used), true);
    }
  }

  /** free_page clears the bit of the frame that holds the address, aligned or not, and counts it if the bit was set;
      it moves no other bit. */
  lemma FreeIsExact(p: Pages, page: nat)
    ensures var q := Free(p, page);
      && |q.used| == |p.used|
      && (forall f :: 0 <= f < |p.used| ==> (q.used[f] <==> p.used[f] && !(f * 4096 <= page < f * 4096 + 4096)))
      && ((exists f :: 0 <= f < |p.used| && p.used[f] && f * 4096 <= page < f * 4096 + 4096) ==>
           q.free == (p.free + 1) % WORD_LIMIT && Clear(q.used) == Clear(p.used) + 1)
      && ((forall f :: 0 <= f < |p.used| && f * 4096 <= page < f * 4096 + 4096 ==> !p.used[f]) ==> q == p)
  {
    var g := page / PAGE_SIZE;
    assert g * 4096 <= page < g * 4096 + 4096;
    if g < |p.used| && p.used[g] {
      CountUpdate(p.used, g, false);
    }
  }

  /** Freeing the page just allocated restores bitmap and counter, even when it was frame 0. */
  lemma FreeUndoesAlloc(p: Pages)
    requires FirstClear(p.used) < |p.used|
    ensures Free(Alloc(p).0, Alloc(p).1) == p
  {
    var f := FirstClear(p.used);
    assert p.used[f := true][f := false] == p.used;
  }

  // ---------- Runs ----------

  datatype PageOp = AllocPage | FreePage(page: nat)

  function Step(p: Pages, op: PageOp): Pages {
    match op
    case AllocPage => Alloc(p).0
    case FreePage(page) => Free(p, page)
  }

  function Run(p: Pages, ops: seq<PageOp>): Pages
    decreases |ops|
  {
    if ops == [] then p else Run(Step(p, ops[0]), ops[1..])
  }

  /** The frames handed out and not freed since, after one more operation */
  function HeldStep(p: Pages, held: set<nat>, op: PageOp): set<nat> {
    match op
    case AllocPage =>
      var f := FirstClear(p.used);
      if f < |p.used| then held + {f} else held
    case FreePage(page) => held - {page / PAGE_SIZE}
  }

  function Held(p: Pages, held: set<nat>, ops: seq<PageOp>): set<nat>
    decreases |ops|
  {
    if ops == [] then held else Held(Step(p, ops[0]), HeldStep(p, held, ops[0]), ops[1..])
  }

  predicate AllMarked(p: Pages, frames: set<nat>) {
    forall f :: f in frames ==> f < |p.used| && p.used[f]
  }

  predicate NeverFreed(ops: seq<PageOp>, frames: set<nat>) {
    forall op :: op in ops && op.FreePage? ==> op.page / PAGE_SIZE !in frames
  }

  /** A frame that was handed out stays marked until it is freed, whatever else is freed. */
  lemma {:induction false} HeldStaysMarked(p: Pages, held: set<nat>, ops: seq<PageOp>)
    requires AllMarked(p, held)
    ensures AllMarked(Run(p, ops), Held(p, held, ops))
    decreases |ops|
  {
    if ops != [] {
      HeldStaysMarked(Step(p, ops[0]), HeldStep(p, held, ops[0]), ops[1..]);
    }
  }

  /** No run of allocations and frees, however ill-behaved the frees, makes the allocator hand
      out a frame that is still held; it gives the lowest clear frame or, with none left, fails. */
  lemma NextPageIsNotHeld(p: Pages, held: set<nat>, ops: seq<PageOp>)
    requires AllMarked(p, held)
    ensures var q := Run(p, ops);
      var page := Alloc(q).1;
      var f := page / PAGE_SIZE;
      (exists k :: 0 <= k < |q.used| && !q.used[k]) ==>
        f < |q.used| && !q.used[f] && f !in Held(p, held, ops) && (forall k :: 0 <= k < f ==> q.used[k])
  {
    HeldStaysMarked(p, held, ops);
    AllocTakesLowest(Run(p, ops));
  }

  /** Frames marked at the start (frame 0, the bitmap's own) are never handed out by a run
      that does not free them, so no page handed out has address 0 or lies in the bitmap. */
  lemma {:induction false} ReservedStaysMarked(p: Pages, reserved: set<nat>, ops: seq<PageOp>)
    requires AllMarked(p, reserved) && NeverFreed(ops, reserved)
    ensures AllMarked(Run(p, ops), reserved)
    ensures var (q, page) := Alloc(Run(p, ops));
      q != Run(p, ops) ==> page / PAGE_SIZE !in reserved
    ensures 0 in reserved ==>
      (Alloc(Run(p, ops)).1 == 0 <==> forall k :: 0 <= k < |Run(p, ops).used| ==> Run(p, ops).used[k])
    decreases |ops|
  {
    if ops == [] {
      AllocTakesLowest(p);
    } else {
      assert ops[0] in ops;
      ReservedStaysMarked(Step(p, ops[0]), reserved, ops[1..]);
    }
  }

  /** The counter minus the number of clear bits: what `free` over-counts */
  function Offset(p: Pages): int {
    p.free - Clear(p.used)
  }

  predicate Counted(p: Pages) {
    0 <= Offset(p) && Offset(p) + |p.used| < WORD_LIMIT
  }

  /** The counter and the clear bits keep their distance over every run. */
  lemma {:induction false} CounterTracksClear(p: Pages, ops: seq<PageOp>)
    requires Counted(p)
    ensures Counted(Run(p, ops)) && Offset(Run(p, ops)) == Offset(p)
    ensures |Run(p, ops).used| == |p.used|
    decreases |ops|
  {
    if ops != [] {
      StepKeepsOffset(p, ops[0]);
      CounterTracksClear(Step(p, ops[0]), ops[1..]);
    }
  }

  lemma StepKeepsOffset(p: Pages, op: PageOp)
    requires Counted(p)
    ensures Offset(Step(p, op)) == Offset(p) && |Step(p, op).used| == |p.used|
  {
    match op
    case AllocPage =>
      AllocTakesLowest(p);
    case FreePage(page) =>
      var f := page / PAGE_SIZE;
      if f < |p.used| && p.used[f] {
        CountUpdate(p.used, f, false);
      }
  }

  // ---------- Where handed-out frames come from ----------

  /** Every free is of a page that is held at that point. */
  predicate FreesHeld(p: Pages, held: set<nat>, ops: seq<PageOp>)
    decreases |ops|
  {
    ops == [] ||
    ((ops[0].FreePage? ==> ops[0].page / PAGE_SIZE in held) &&
     FreesHeld(Step(p, ops[0]), HeldStep(p, held, ops[0]), ops[1..]))
  }

  ghost predicate Within(p: Pages, held: set<nat>, pool: iset<nat>) {
    && (forall f: nat :: f < |p.used| && !p.used[f] ==> f in pool)
    && (forall f :: f in held ==> f in pool)
  }

  /** When callers free only what they hold, every frame a run hands out was clear, or held, at the start. */
  lemma {:induction false} RunStaysWithin(p: Pages, held: set<nat>, ops: seq<PageOp>, pool: iset<nat>)
    requires Within(p, held, pool) && FreesHeld(p, held, ops)
    ensures Within(Run(p, ops), Held(p, held, ops), pool)
    ensures Alloc(Run(p, ops)).0 != Run(p, ops) ==> Alloc(Run(p, ops)).1 / PAGE_SIZE in pool
    decreases |ops|
  {
    if ops == [] {
      AllocTakesLowest(p);
    } else {
      RunStaysWithin(Step(p, ops[0]), HeldStep(p, held, ops[0]), ops[1..], pool);
    }
  }
}
