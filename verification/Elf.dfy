/** The segment loops of both loaders: boot/uefi/src/main.c and boot/stage1/multiboot.c. */
module Elf {
  import opened Bits
  import opened Pages

  const PT_LOAD := 1

  datatype Phdr = Phdr(kind: nat, offset: Word, vaddr: Word, paddr: Word, filesz: Word, memsz: Word)

  predicate Loads(s: Phdr) {
    s.kind == PT_LOAD && s.memsz != 0
  }

  datatype Loader = Stage1 | Uefi

  /** Addresses and sizes have 32 bits in stage 1: the 64-bit fields lose their upper halves. */
  function Cut(l: Loader, v: Word): Word {
    match l
    case Stage1 => v % U32
    case Uefi => v
  }

  /** Where a segment goes, where in the file its bytes come from, and how many there are */
  function Target(l: Loader, s: Phdr): Word { Cut(l, s.paddr) }
  function Source(l: Loader, s: Phdr): Word { Cut(l, s.offset) }
  function Copied(l: Loader, s: Phdr): Word { Cut(l, s.filesz) }

  /** The bytes each loader clears: stage 1 just the segment, the UEFI loader whole pages */
  function ClearedSize(l: Loader, s: Phdr): nat {
    match l
    case Stage1 => Cut(l, s.memsz)
    case Uefi => (s.memsz + PAGE_SIZE - 1) % WORD_LIMIT / PAGE_SIZE * PAGE_SIZE
  }

  /** All that is written for a segment */
  function Extent(l: Loader, s: Phdr): nat {
    if ClearedSize(l, s) < Copied(l, s) then Copied(l, s) else ClearedSize(l, s)
  }

  /** Target and source exist, and the target does not wrap round the address space. */
  predicate Proper(l: Loader, s: Phdr, image: nat, memory: nat) {
    Loads(s) ==>
      && Source(l, s) + Copied(l, s) <= image && Target(l, s) + Extent(l, s) <= memory
      && (l.Stage1? ==> Target(l, s) + Extent(l, s) <= U32)
  }

  predicate Apart(l: Loader, s: Phdr, t: Phdr) {
    Target(l, s) + Extent(l, s) <= Target(l, t) || Target(l, t) + Extent(l, t) <= Target(l, s)
  }

  /** No two loadable segments touch the same byte. */
  predicate Disjoint(l: Loader, segments: seq<Phdr>) {
    forall i, j :: 0 <= i < j < |segments| && Loads(segments[i]) && Loads(segments[j]) ==> Apart(l, segments[i], segments[j])
  }

  predicate AllProper(l: Loader, segments: seq<Phdr>, image: nat, memory: nat) {
    forall i :: 0 <= i < |segments| ==> Proper(l, segments[i], image, memory)
  }

  predicate Touches(l: Loader, s: Phdr, a: int) {
    Loads(s) && Target(l, s) <= a < Target(l, s) + Extent(l, s)
  }

  /** The byte that loading a segment leaves at an address it touches */
  function SegmentByte(l: Loader, s: Phdr, image: seq<Byte>, a: nat): Byte
    requires Target(l, s) <= a && Source(l, s) + Copied(l, s) <= |image|
  {
    if a - Target(l, s) < Copied(l, s) then image[Source(l, s) + (a - Target(l, s))] else 0
  }

  /** File bytes followed by zeros, over all that is written for the segment */
  ghost predicate InPlace(l: Loader, s: Phdr, image: seq<Byte>, mem: seq<Byte>)
    requires Proper(l, s, |image|, |mem|)
  {
    Loads(s) ==>
      forall a {:trigger mem[a]} :: Target(l, s) <= a < Target(l, s) + Extent(l, s) ==> mem[a] == SegmentByte(l, s, image, a)
  }

  function MinOver(segments: seq<Phdr>, f: Phdr -> Word): Word {
    if segments == [] then WORD_LIMIT - 1
    else
      var rest := MinOver(segments[..|segments| - 1], f);
      var s := segments[|segments| - 1];
      if Loads(s) && f(s) < rest then f(s) else rest
  }

  /** The reported base is the least over the loaded segments, and one of them unless there is none. */
  lemma {:induction false} MinIsLeast(segments: seq<Phdr>, f: Phdr -> Word)
    ensures forall i :: 0 <= i < |segments| && Loads(segments[i]) ==> MinOver(segments, f) <= f(segments[i])
    ensures MinOver(segments, f) == WORD_LIMIT - 1 ||
      exists i :: 0 <= i < |segments| && Loads(segments[i]) && f(segments[i]) == MinOver(segments, f)
  {
    if segments != [] {
      var init := segments[..|segments| - 1];
      MinIsLeast(init, f);
      forall i | 0 <= i < |init|
        ensures segments[i] == init[i]
      {
      }
    }
  }

  /** The two bases are the least physical and the least virtual address of the segments loaded. */
  lemma BasesAreLeast(segments: seq<Phdr>)
    ensures var phys, virt := MinOver(segments, Paddr), MinOver(segments, Vaddr);
      && (forall i :: 0 <= i < |segments| && Loads(segments[i]) ==>
           phys <= segments[i].paddr && virt <= segments[i].vaddr)
      && ((exists i :: 0 <= i < |segments| && Loads(segments[i])) ==>
           && (exists i :: 0 <= i < |segments| && Loads(segments[i]) && segments[i].paddr == phys)
           && (exists i :: 0 <= i < |segments| && Loads(segments[i]) && segments[i].vaddr == virt))
  {
    hide MinOver;
    MinIsLeast(segments, Paddr);
    MinIsLeast(segments, Vaddr);
  }

  function Paddr(s: Phdr): Word { s.paddr }
  function Vaddr(s: Phdr): Word { s.vaddr }

  /** memset of the target, then memcpy of the file bytes */
  method LoadSegment(l: Loader, s: Phdr, image: array<Byte>, mem: array<Byte>)
    requires Loads(s) && Proper(l, s, image.Length, mem.Length) && image != mem
    modifies mem
    ensures InPlace(l, s, image[..], mem[..])
    ensures forall a :: 0 <= a < mem.Length && !Touches(l, s, a) ==> mem[a] == old(mem[a])
  {
    hide ClearedSize, Cut;
    var to, from, size, n := Target(l, s), Source(l, s), ClearedSize(l, s), Copied(l, s);
    for k := 0 to size
      invariant forall a :: to <= a < to + k ==> mem[a] == 0
      invariant forall a :: 0 <= a < mem.Length && !(to <= a < to + k) ==> mem[a] == old(mem[a])
    {
      mem[to + k] := 0;
    }
    for k := 0 to n
      invariant forall a :: to <= a < to + k ==> mem[a] == image[from + (a - to)]
      invariant forall a :: to + k <= a < to + size ==> mem[a] == 0
      invariant forall a :: 0 <= a < mem.Length && !Touches(l, s, a) ==> mem[a] == old(mem[a])
    {
      mem[to + k] := image[from + k];
    }
  }

  /** A byte after some segments have been loaded: the last one that touches it decides. */
  function ByteAfter(l: Loader, segments: seq<Phdr>, image: seq<Byte>, mem: seq<Byte>, a: nat): Byte
    requires a < |mem| && AllProper(l, segments, |image|, |mem|)
  {
    if segments == [] then mem[a]
    else
      var s := segments[|segments| - 1];
      if Touches(l, s, a) then SegmentByte(l, s, image, a) else ByteAfter(l, segments[..|segments| - 1], image, mem, a)
  }

  /** The loop over the program headers. `granted` says, segment by segment, whether the firmware
      allocates the pages asked for; stage 1 does not ask. */
  method LoadSegments(l: Loader, segments: seq<Phdr>, granted: seq<bool>, image: array<Byte>, mem: array<Byte>)
    returns (ok: bool, physBase: Word, virtBase: Word, ghost done: nat)
    requires |granted| == |segments| && image != mem
    requires AllProper(l, segments, image.Length, mem.Length)
    modifies mem
    ensures ok <==> l.Stage1? || forall i :: 0 <= i < |segments| && Loads(segments[i]) ==> granted[i]
    ensures done <= |segments| && (ok <==> done == |segments|)
    ensures !ok ==> Loads(segments[done]) && !granted[done] && forall i :: 0 <= i < done && Loads(segments[i]) ==> granted[i]
    ensures forall a :: 0 <= a < mem.Length ==> mem[a] == ByteAfter(l, segments[..done], image[..], old(mem[..]), a)
    ensures ok && Disjoint(l, segments) ==> forall i :: 0 <= i < |segments| ==> InPlace(l, segments[i], image[..], mem[..])
    ensures ok ==> physBase == MinOver(segments, Paddr) && virtBase == MinOver(segments, Vaddr)
    ensures ok ==> forall i :: 0 <= i < |segments| && Loads(segments[i]) ==>
      physBase <= segments[i].paddr && virtBase <= segments[i].vaddr
    ensures ok && (exists i :: 0 <= i < |segments| && Loads(segments[i])) ==>
      && (exists i :: 0 <= i < |segments| && Loads(segments[i]) && segments[i].paddr == physBase)
      && (exists i :: 0 <= i < |segments| && Loads(segments[i]) && segments[i].vaddr == virtBase)
    ensures forall a :: 0 <= a < mem.Length && (forall i :: 0 <= i < |segments| ==> !Touches(l, segments[i], a)) ==>
      mem[a] == old(mem[a])
  {
    hide Cut, ClearedSize, SegmentByte, Disjoint, Touches, ByteAfter;
    NoneLoaded(l, image[..], mem[..]);
    physBase, virtBase := WORD_LIMIT - 1, WORD_LIMIT - 1;
    done := 0;
    ghost var was := mem[..];
    for n := 0 to |segments|
      invariant done == n
      invariant l.Uefi? ==> forall i :: 0 <= i < n && Loads(segments[i]) ==> granted[i]
      invariant forall a :: 0 <= a < mem.Length ==> mem[a] == ByteAfter(l, segments[..n], image[..], was, a)
      invariant physBase == MinOver(segments[..n], Paddr) && virtBase == MinOver(segments[..n], Vaddr)
    {
      var s := segments[n];
      assert segments[..n + 1][..n] == segments[..n] && segments[..n + 1][n] == s;
      if s.kind != PT_LOAD || s.memsz == 0 {
        OneMore(l, segments[..n + 1], image[..], was, mem[..], mem[..]);
        done := n + 1;
        continue;
      }
      if s.paddr < physBase {
        physBase := s.paddr;
      }
      if s.vaddr < virtBase {
        virtBase := s.vaddr;
      }
      if l.Uefi? && !granted[n] {
        OthersStay(l, segments, n, image[..], was);
        return false, physBase, virtBase, n;
      }
      ghost var mid := mem[..];
      LoadSegment(l, s, image, mem);
      OneMore(l, segments[..n + 1], image[..], was, mid, mem[..]);
      done := n + 1;
    }
    assert segments[..|segments|] == segments;
    BasesAreLeast(segments);
    OthersStay(l, segments, |segments|, image[..], was);
    if Disjoint(l, segments) {
      AllInPlace(l, segments, image[..], was, mem[..]);
    }
    ok := true;
  }

  lemma NoneLoaded(l: Loader, image: seq<Byte>, mem: seq<Byte>)
    ensures forall a :: 0 <= a < |mem| ==> ByteAfter(l, [], image, mem, a) == mem[a]
  {
  }

  /** Bytes outside every target are as before. */
  lemma {:induction false} OthersStay(l: Loader, segments: seq<Phdr>, n: nat, image: seq<Byte>, mem: seq<Byte>)
    requires n <= |segments| && AllProper(l, segments, |image|, |mem|)
    ensures forall a {:trigger ByteAfter(l, segments[..n], image, mem, a)} ::
      0 <= a < |mem| && (forall i :: 0 <= i < |segments| ==> !Touches(l, segments[i], a)) ==>
        ByteAfter(l, segments[..n], image, mem, a) == mem[a]
  {
    hide Cut, ClearedSize, SegmentByte, Touches;
    if n > 0 {
      OthersStay(l, segments, n - 1, image, mem);
      assert segments[..n][..n - 1] == segments[..n - 1];
    }
  }

  /** What loading the last segment, or skipping it, does to every byte */
  lemma OneMore(l: Loader, segments: seq<Phdr>, image: seq<Byte>, was: seq<Byte>, mid: seq<Byte>, mem: seq<Byte>)
    requires segments != [] && |was| == |mid| == |mem| && AllProper(l, segments, |image|, |mem|)
    requires forall a :: 0 <= a < |mid| ==> mid[a] == ByteAfter(l, segments[..|segments| - 1], image, was, a)
    requires var s := segments[|segments| - 1];
      InPlace(l, s, image, mem) && forall a :: 0 <= a < |mem| && !Touches(l, s, a) ==> mem[a] == mid[a]
    ensures forall a :: 0 <= a < |mem| ==> mem[a] == ByteAfter(l, segments, image, was, a)
  {
    hide Cut, ClearedSize, SegmentByte;
  }

  /** When no two targets overlap, every segment is in place at the end, in whatever order they came. */
  lemma AllInPlace(l: Loader, segments: seq<Phdr>, image: seq<Byte>, was: seq<Byte>, mem: seq<Byte>)
    requires |was| == |mem| && AllProper(l, segments, |image|, |mem|) && Disjoint(l, segments)
    requires forall a :: 0 <= a < |mem| ==> mem[a] == ByteAfter(l, segments, image, was, a)
    ensures forall i :: 0 <= i < |segments| ==> InPlace(l, segments[i], image, mem)
  {
    hide Cut, ClearedSize, SegmentByte, ByteAfter;
    forall i | 0 <= i < |segments|
      ensures InPlace(l, segments[i], image, mem)
    {
      forall a {:trigger mem[a]} | Touches(l, segments[i], a)
        ensures mem[a] == SegmentByte(l, segments[i], image, a)
      {
        OnlyWriter(l, segments, image, was, a, i);
      }
    }
  }

  lemma {:induction false} OnlyWriter(l: Loader, segments: seq<Phdr>, image: seq<Byte>, was: seq<Byte>, a: nat, i: nat)
    requires a < |was| && AllProper(l, segments, |image|, |was|) && Disjoint(l, segments)
    requires i < |segments| && Touches(l, segments[i], a)
    ensures ByteAfter(l, segments, image, was, a) == SegmentByte(l, segments[i], image, a)
    decreases |segments|
  {
    hide Cut, ClearedSize, SegmentByte;
    var n := |segments| - 1;
    if i < n {
      assert Loads(segments[n]) ==> Apart(l, segments[i], segments[n]);
      assert segments[..n][i] == segments[i];
      OnlyWriter(l, segments[..n], image, was, a, i);
    }
  }

  /** Nothing of the segment's place and size is cut off, and it has no more bytes in the file than in memory. */
  predicate Whole(l: Loader, s: Phdr) {
    && s.filesz <= s.memsz
    && match l
       case Stage1 => s.paddr < U32 && s.memsz < U32 && s.offset < U32
       case Uefi => s.memsz + PAGE_SIZE - 1 < WORD_LIMIT
  }

  /** Once loaded, such a segment reads, where it asks to be, as its file bytes and then zeros up to memsz. */
  lemma LoadedReads(l: Loader, s: Phdr, image: seq<Byte>, mem: seq<Byte>)
    requires Loads(s) && Whole(l, s) && Proper(l, s, |image|, |mem|) && InPlace(l, s, image, mem)
    ensures s.paddr + s.memsz <= |mem| && s.offset + s.filesz <= |image|
    ensures mem[s.paddr..s.paddr + s.filesz] == image[s.offset..s.offset + s.filesz]
    ensures forall a :: s.paddr + s.filesz <= a < s.paddr + s.memsz ==> mem[a] == 0
  {
    WholeIsUncut(l, s);
    hide Cut, ClearedSize;
    var got, want := mem[s.paddr..s.paddr + s.filesz], image[s.offset..s.offset + s.filesz];
    forall k | 0 <= k < |got|
      ensures got[k] == want[k]
    {
      assert mem[s.paddr + k] == SegmentByte(l, s, image, s.paddr + k);
    }
  }

  lemma WholeIsUncut(l: Loader, s: Phdr)
    requires Whole(l, s)
    ensures Target(l, s) == s.paddr && Source(l, s) == s.offset && Copied(l, s) == s.filesz
    ensures s.memsz <= ClearedSize(l, s)
  {
    if l.Stage1? {
      DivModUnique(s.paddr, U32, 0, s.paddr);
      DivModUnique(s.offset, U32, 0, s.offset);
      DivModUnique(s.filesz, U32, 0, s.filesz);
      DivModUnique(s.memsz, U32, 0, s.memsz);
    } else {
      DivModUnique(s.memsz + PAGE_SIZE - 1, WORD_LIMIT, 0, s.memsz + PAGE_SIZE - 1);
    }
  }

  /** The UEFI loader writes whole pages, from the one at paddr to the one that holds the last byte of the segment, and
      leaves zeros behind the file bytes to the end of the last. */
  lemma UefiFillsPages(s: Phdr, image: seq<Byte>, mem: seq<Byte>, a: nat)
    requires Loads(s) && Whole(Uefi, s) && Proper(Uefi, s, |image|, |mem|) && InPlace(Uefi, s, image, mem)
    ensures Touches(Uefi, s, a) <==> s.paddr <= a && (a - s.paddr) / 4096 <= (s.memsz - 1) / 4096
    ensures Touches(Uefi, s, a) && a >= s.paddr + s.filesz ==> a < |mem| && mem[a] == 0
  {
    WholeIsUncut(Uefi, s);
    DivModUnique(s.memsz + PAGE_SIZE - 1, WORD_LIMIT, 0, s.memsz + PAGE_SIZE - 1);
    var last := (s.memsz - 1) / PAGE_SIZE;
    DivModUnique(s.memsz + PAGE_SIZE - 1, PAGE_SIZE, last + 1, (s.memsz - 1) % PAGE_SIZE);
    assert Extent(Uefi, s) == (last + 1) * PAGE_SIZE;
    if s.paddr <= a {
      var q := (a - s.paddr) / PAGE_SIZE;
      assert a - s.paddr == q * PAGE_SIZE + (a - s.paddr) % PAGE_SIZE;
    }
  }

  /** Stage 1 writes all of the memory a segment asks for if and only if its address and its size have 32 bits. */
  lemma Stage1CoversIff(s: Phdr, image: nat, memory: nat)
    requires Loads(s) && Proper(Stage1, s, image, memory)
    ensures (forall a :: s.paddr <= a < s.paddr + s.memsz ==> Touches(Stage1, s, a)) <==> s.paddr < U32 && s.memsz < U32
  {
    if s.paddr < U32 && s.memsz < U32 {
      DivModUnique(s.paddr, U32, 0, s.paddr);
      DivModUnique(s.memsz, U32, 0, s.memsz);
    } else if s.paddr >= U32 {
      assert !Touches(Stage1, s, s.paddr);
    } else {
      assert Extent(Stage1, s) < U32;
      assert !Touches(Stage1, s, s.paddr + s.memsz - 1);
    }
  }
}
