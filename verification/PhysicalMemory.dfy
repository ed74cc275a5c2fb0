/** Physical memory in place. A read from a frame that is not there gives zero, a write to one is lost. */
module PhysicalMemory {
  import opened Bits
  import opened Paging
  import opened PageTables

  method WriteWord(mem: array<Word>, frame: nat, index: nat, e: Word)
    requires index < 512
    modifies mem
    ensures mem[..] == Store(old(mem[..]), frame, index, e)
  {
    if frame * 512 + 512 <= mem.Length {
      mem[frame * 512 + index] := e;
    }
  }

  method ReadWord(mem: array<Word>, frame: nat, index: nat) returns (e: Word)
    requires index < 512
    ensures e == Entry(mem[..], frame, index)
  {
    return if frame * 512 + 512 <= mem.Length then mem[frame * 512 + index] else 0;
  }

  method WipeFrame(mem: array<Word>, frame: nat)
    modifies mem
    ensures mem[..] == Wipe(old(mem[..]), frame)
  {
    if frame * 512 + 512 > mem.Length {
      return;
    }
    ghost var was := mem[..];
    for i := 0 to 512
      invariant forall k :: 0 <= k < mem.Length ==> mem[k] == if frame * 512 <= k < frame * 512 + i then 0 else was[k]
    {
      mem[frame * 512 + i] := 0;
    }
  }
}
