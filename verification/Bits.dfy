/** Machine words as bounded integers, and the bitwise operators of C on them. */
module Bits {

  const WORD_LIMIT := 0x1_0000_0000_0000_0000

  /** uint64_t */
  type Word = w: int | 0 <= w < WORD_LIMIT

  /** One more than the largest uint32_t */
  const U32 := 0x1_0000_0000

  /** uint8_t */
  type Byte = b: int | 0 <= b < 256

  /** A value of int32_t */
  predicate Int32(v: int) {
    -0x8000_0000 <= v < 0x8000_0000
  }

  function Pow2(n: nat): (p: nat)
    ensures p > 0
  {
    if n == 0 then 1 else 2 * Pow2(n - 1)
  }

  /** `x << n`, before truncation to the width of the type */
  function Shl(x: nat, n: nat): nat {
    if n == 0 then x else 2 * Shl(x, n - 1)
  }

  /** `x >> n` */
  function Shr(x: nat, n: nat): nat {
    if n == 0 then x else Shr(x / 2, n - 1)
  }

  /** `x & ((1 << n) - 1)`: the n lowest bits */
  function Low(x: nat, n: nat): nat {
    if n == 0 then 0 else x % 2 + 2 * Low(x / 2, n - 1)
  }

  /** `a & b` */
  function And(a: nat, b: nat): nat {
    if a == 0 || b == 0 then 0
    else (if a % 2 == 1 && b % 2 == 1 then 1 else 0) + 2 * And(a / 2, b / 2)
  }

  /** `a | b` */
  function Or(a: nat, b: nat): nat {
    if a == 0 then b
    else if b == 0 then a
    else (if a % 2 == 1 || b % 2 == 1 then 1 else 0) + 2 * Or(a / 2, b / 2)
  }

  /** Bits [shift, shift + size) of `x` */
  function Field(x: nat, shift: nat, size: nat): nat {
    Low(Shr(x, shift), size)
  }

  /** `x++` on a uint64_t */
  function Inc(x: Word): Word {
    if x == WORD_LIMIT - 1 then 0 else x + 1
  }

  /** `x--` on a uint64_t */
  function Dec(x: Word): Word {
    if x == 0 then WORD_LIMIT - 1 else x - 1
  }

  // ---------- The bitwise operators as arithmetic ----------

  lemma {:induction false} ShlIsMul(x: nat, n: nat)
    ensures Shl(x, n) == x * Pow2(n)
  {
    if n > 0 {
      ShlIsMul(x, n - 1);
      assert x * (2 * Pow2(n - 1)) == 2 * (x * Pow2(n - 1));
    }
  }

  /** `x >> n` and the low n bits are quotient and remainder by 2^n. */
  lemma {:induction false} ShrLowSplit(x: nat, n: nat)
    ensures x == Shl(Shr(x, n), n) + Low(x, n)
    ensures Low(x, n) < Pow2(n)
  {
    if n > 0 {
      ShrLowSplit(x / 2, n - 1);
    }
  }

  lemma DivModUnique(x: int, d: int, q: int, r: int)
    requires 0 <= r < d
    requires x == q * d + r
    ensures x / d == q && x % d == r
  {
    var q', r' := x / d, x % d;
    assert x == d * q' + r';
    assert (q - q') * d == r' - r;
    SmallMultiple(q - q', d);
  }

  lemma SmallMultiple(a: int, d: int)
    requires d > 0 && -d < a * d < d
    ensures a == 0
  {
    if a >= 1 {
      MulAtLeast(a, d);
    }
    if a <= -1 {
      MulAtLeast(-a, d);
    }
  }

  lemma MulAtLeast(a: int, d: int)
    requires a >= 1 && d >= 0
    ensures a * d >= d
  {
    assert a * d == d + (a - 1) * d;
  }

  lemma MulMonotone(a: nat, b: nat, c: nat, d: nat)
    requires a <= b && c <= d
    ensures a * c <= b * d
  {
    assert a * c <= b * c;
    assert b * c <= b * d;
  }

  lemma Distribute(a: int, b: int, d: int)
    ensures (a + b) * d == a * d + b * d
  {
  }

  lemma SameRemainder(c: nat, y: nat)
    ensures (c * 512 + y) % 512 == y % 512
  {
    DivModUnique(c * 512 + y, 512, c + y / 512, y % 512);
  }

  lemma Regroup(a: int, b: int, c: int)
    ensures a * (b * c) == (a * b) * c
  {
  }

  lemma ShrIsDiv(x: nat, n: nat)
    ensures Shr(x, n) == x / Pow2(n)
    ensures Low(x, n) == x % Pow2(n)
  {
    ShrLowSplit(x, n);
    ShlIsMul(Shr(x, n), n);
    DivModUnique(x, Pow2(n), Shr(x, n), Low(x, n));
  }

  lemma {:induction false} Pow2Add(m: nat, n: nat)
    ensures Pow2(m + n) == Pow2(m) * Pow2(n)
  {
    if m > 0 {
      Pow2Add(m - 1, n);
      assert 2 * Pow2(m - 1) * Pow2(n) == 2 * (Pow2(m - 1) * Pow2(n));
    }
  }

  lemma {:induction false} Pow2Monotone(m: nat, n: nat)
    requires m <= n
    ensures Pow2(m) <= Pow2(n)
  {
    if m < n {
      Pow2Monotone(m, n - 1);
    }
  }

  // ---------- Masks and disjoint fields ----------

  /** The contiguous mask of `size` ones starting at bit `shift` */
  function Mask(shift: nat, size: nat): nat {
    Shl(Pow2(size) - 1, shift)
  }

  /** `x & mask` for a contiguous mask keeps one field of x in place. */
  lemma {:induction false} AndMask(x: nat, shift: nat, size: nat)
    ensures And(x, Mask(shift, size)) == Shl(Field(x, shift, size), shift)
    decreases shift + size
  {
    if shift > 0 {
      AndMask(x / 2, shift - 1, size);
      assert Mask(shift, size) == 2 * Mask(shift - 1, size);
      if Mask(shift, size) == 0 || x == 0 {
        AndZero(x / 2, Mask(shift - 1, size));
      }
    } else if size > 0 {
      AndMask(x / 2, 0, size - 1);
      assert Mask(0, size) == 1 + 2 * Mask(0, size - 1);
      if x == 0 {
        AndZero(0, Mask(0, size - 1));
      }
    } else {
      AndZero(x, 0);
    }
  }

  lemma AndZero(a: nat, b: nat)
    requires a == 0 || b == 0
    ensures And(a, b) == 0
  {
  }

  /** `|` of values that share no bit position is addition. */
  lemma {:induction false} OrDisjoint(a: nat, n: nat, b: nat)
    requires b < Pow2(n)
    ensures Or(Shl(a, n), b) == Shl(a, n) + b
  {
    if n > 0 {
      OrDisjoint(a, n - 1, b / 2);
    }
  }

  lemma {:induction false} OrLess(a: nat, b: nat, n: nat)
    requires a < Pow2(n) && b < Pow2(n)
    ensures Or(a, b) < Pow2(n)
  {
    if n > 0 {
      OrLess(a / 2, b / 2, n - 1);
    }
  }

  lemma {:induction false} AndLess(a: nat, b: nat)
    ensures And(a, b) <= a
  {
    if a > 0 && b > 0 {
      AndLess(a / 2, b / 2);
    }
  }

  lemma {:induction false} OrShr(a: nat, b: nat, n: nat)
    ensures Shr(Or(a, b), n) == Or(Shr(a, n), Shr(b, n))
  {
    if n > 0 {
      assert Or(a, b) / 2 == Or(a / 2, b / 2);
      OrShr(a / 2, b / 2, n - 1);
    }
  }

  lemma {:induction false} OrLow(a: nat, b: nat, n: nat)
    ensures Low(Or(a, b), n) == Or(Low(a, n), Low(b, n))
  {
    if n > 0 {
      assert Or(a, b) / 2 == Or(a / 2, b / 2);
      OrLow(a / 2, b / 2, n - 1);
    }
  }

  /** A field of `a | b` is the `|` of the fields. */
  lemma OrField(a: nat, b: nat, shift: nat, size: nat)
    ensures Field(Or(a, b), shift, size) == Or(Field(a, shift, size), Field(b, shift, size))
  {
    OrShr(a, b, shift);
    OrLow(Shr(a, shift), Shr(b, shift), size);
  }

  lemma {:induction false} AndShr(a: nat, b: nat, n: nat)
    ensures Shr(And(a, b), n) == And(Shr(a, n), Shr(b, n))
  {
    if n > 0 {
      assert And(a, b) / 2 == And(a / 2, b / 2);
      AndShr(a / 2, b / 2, n - 1);
    }
  }

  /** A value of `size` bits shifted into place is read back, and read as 0 from any field beside it. */
  lemma {:induction false} FieldOfShl(v: nat, size: nat, at: nat, shift: nat, width: nat)
    requires v < Pow2(size)
    ensures shift == at && width == size ==> Field(Shl(v, at), shift, width) == v
    ensures at + size <= shift || shift + width <= at ==> Field(Shl(v, at), shift, width) == 0
    decreases at + shift + size
  {
    if at > 0 && shift > 0 {
      FieldOfShl(v, size, at - 1, shift - 1, width);
    } else if at > 0 {
      if shift + width <= at {
        LowOfShl(v, at, width);
      }
    } else if shift > 0 {
      if size <= shift {
        if size > 0 {
          FieldOfShl(v / 2, size - 1, 0, shift - 1, width);
        } else {
          FieldOfShl(0, 0, 0, shift - 1, width);
        }
      }
    } else {
      LowOfSmall(v, size);
      LowOfSmall(0, width);
    }
  }

  lemma {:induction false} LowOfShl(v: nat, at: nat, width: nat)
    requires width <= at
    ensures Low(Shl(v, at), width) == 0
  {
    if width > 0 {
      LowOfShl(v, at - 1, width - 1);
    }
  }

  lemma {:induction false} LowOfSmall(v: nat, n: nat)
    requires v < Pow2(n)
    ensures Low(v, n) == v
  {
    if n > 0 {
      LowOfSmall(v / 2, n - 1);
    }
  }

  // ---------- Single bits ----------

  /** Bit k of x */
  predicate Bit(x: nat, k: nat) {
    Shr(x, k) % 2 == 1
  }

  /** `x & (1 << k)` tests bit k. */
  lemma TestBit(x: nat, k: nat)
    ensures And(x, Shl(1, k)) != 0 <==> Bit(x, k)
  {
    AndMask(x, k, 1);
    assert Mask(k, 1) == Shl(1, k);
    ShlIsMul(Field(x, k, 1), k);
    assert Field(x, k, 1) == Shr(x, k) % 2 + 2 * Low(Shr(x, k) / 2, 0);
    if Field(x, k, 1) == 0 {
    } else {
      assert Field(x, k, 1) == 1;
    }
  }

  /** `x | (1 << j)` sets bit j and moves no other. */
  lemma SetBit(x: nat, j: nat, k: nat)
    ensures Bit(Or(x, Shl(1, j)), k) <==> j == k || Bit(x, k)
  {
    OrShr(x, Shl(1, j), k);
    ShrOfOne(j, k);
  }

  /** `x & ~(1 << j)`, in n bits, clears bit j and moves no other. */
  lemma ClearBit(x: nat, n: nat, j: nat, k: nat)
    requires j < n && k < n
    ensures Shl(1, j) < Pow2(n)
    ensures Bit(And(x, Pow2(n) - 1 - Shl(1, j)), k) <==> j != k && Bit(x, k)
  {
    BitOfComplement(n, j, k);
    AndShr(x, Pow2(n) - 1 - Shl(1, j), k);
  }

  lemma {:induction false} ShrOfOne(j: nat, k: nat)
    ensures Shr(Shl(1, j), k) % 2 == if j == k then 1 else 0
    decreases j + k
  {
    if j > 0 && k > 0 {
      ShrOfOne(j - 1, k - 1);
    } else if k > 0 {
      ShrOfZero(k - 1);
    }
  }

  lemma {:induction false} ShrOfZero(k: nat)
    ensures Shr(0, k) == 0
  {
    if k > 0 {
      ShrOfZero(k - 1);
    }
  }

  lemma {:induction false} BitOfComplement(n: nat, j: nat, k: nat)
    requires j < n && k < n
    ensures Shl(1, j) < Pow2(n)
    ensures Bit(Pow2(n) - 1 - Shl(1, j), k) <==> j != k
    decreases n
  {
    if j > 0 {
      BitOfComplement(n - 1, j - 1, if k > 0 then k - 1 else 0);
      if k > 0 {
        assert (Pow2(n) - 1 - Shl(1, j)) / 2 == Pow2(n - 1) - 1 - Shl(1, j - 1);
      }
    } else if k > 0 {
      assert (Pow2(n) - 2) / 2 == Pow2(n - 1) - 1;
      BitOfOnes(n - 1, k - 1);
    }
  }

  lemma {:induction false} BitOfOnes(n: nat, k: nat)
    requires k < n
    ensures Bit(Pow2(n) - 1, k)
  {
    if k > 0 {
      assert (Pow2(n) - 1) / 2 == Pow2(n - 1) - 1;
      BitOfOnes(n - 1, k - 1);
    }
  }

  // ---------- Little-endian numbers ----------

  /** n bytes of a buffer as a little-endian number */
  function Read(buffer: seq<Byte>, at: nat, n: nat): nat
    requires at + n <= |buffer|
    decreases n
  {
    if n == 0 then 0 else buffer[at] + 256 * Read(buffer, at + 1, n - 1)
  }

  lemma {:induction false} ReadFits(buffer: seq<Byte>, at: nat, n: nat)
    requires at + n <= |buffer|
    ensures Read(buffer, at, n) < Pow2(8 * n)
    decreases n
  {
    if n > 0 {
      ReadFits(buffer, at + 1, n - 1);
      assert Pow2(8) == 256;
      hide Pow2;
      Pow2Add(8, 8 * (n - 1));
    }
  }

  /** The first n bytes are the low 8n bits of a longer read. */
  lemma {:induction false} ReadSplit(buffer: seq<Byte>, at: nat, n: nat, m: nat)
    requires at + n + m <= |buffer|
    ensures Read(buffer, at, n + m) == Read(buffer, at, n) + Pow2(8 * n) * Read(buffer, at + n, m)
    decreases n
  {
    if n > 0 {
      ReadSplit(buffer, at + 1, n - 1, m);
      var p, high := Pow2(8 * (n - 1)), Read(buffer, at + n, m);
      assert Pow2(8 * n) == 256 * p by {
        Pow2Add(8, 8 * (n - 1));
        assert Pow2(8) == 256;
      }
      Regroup(256, p, high);
    }
  }

  lemma Pow2Of64()
    ensures Pow2(64) == WORD_LIMIT && Pow2(32) == U32
  {
    assert Pow2(8) == 256;
    hide Pow2;
    assert Pow2(16) == 256 * 256 by { Pow2Add(8, 8); }
    assert Pow2(32) == 0x1_0000 * 0x1_0000 by { Pow2Add(16, 16); }
    Pow2Add(32, 32);
  }

  /** A number as n little-endian bytes */
  function Write(v: nat, n: nat): (s: seq<Byte>)
    ensures |s| == n
  {
    if n == 0 then [] else [v % 256] + Write(v / 256, n - 1)
  }

  lemma {:induction false} ReadOfWrite(buffer: seq<Byte>, at: nat, v: nat, n: nat)
    requires at + n <= |buffer| && buffer[at..at + n] == Write(v, n) && v < Pow2(8 * n)
    ensures Read(buffer, at, n) == v
    decreases n
  {
    if n > 0 {
      assert buffer[at] == buffer[at..at + n][0] == v % 256;
      assert buffer[at + 1..at + n] == buffer[at..at + n][1..] == Write(v / 256, n - 1);
      assert Pow2(8 * n) == 256 * Pow2(8 * (n - 1)) by {
        Pow2Add(8, 8 * (n - 1));
        assert Pow2(8) == 256;
      }
      ReadOfWrite(buffer, at + 1, v / 256, n - 1);
    }
  }

  /** Byte k of the bytes read is digit k of the number to the base 256. */
  lemma {:induction false} ReadByte(buffer: seq<Byte>, at: nat, n: nat, k: nat)
    requires at + n <= |buffer| && k < n
    ensures Shr(Read(buffer, at, n), 8 * k) % 256 == buffer[at + k]
    decreases n
  {
    var rest := Read(buffer, at + 1, n - 1);
    if k > 0 {
      ReadByte(buffer, at + 1, n - 1, k - 1);
      ShrAdds(Read(buffer, at, n), 8, 8 * (k - 1));
      ByteAbove(buffer[at], rest);
    }
  }

  lemma ByteAbove(b: Byte, rest: nat)
    ensures Shr(b + 256 * rest, 8) == rest && Low(b + 256 * rest, 8) == b
  {
    assert Pow2(8) == 256;
    ShrIsDiv(b + 256 * rest, 8);
    DivModUnique(b + 256 * rest, 256, rest, b);
  }

  lemma {:induction false} ShrAdds(x: nat, m: nat, n: nat)
    ensures Shr(Shr(x, m), n) == Shr(x, m + n)
  {
    if m > 0 {
      ShrAdds(x / 2, m - 1, n);
    }
  }

  lemma {:induction false} LowSplit(x: nat, m: nat, n: nat)
    ensures Low(x, m + n) == Low(x, m) + Pow2(m) * Low(Shr(x, m), n)
  {
    if m > 0 {
      LowSplit(x / 2, m - 1, n);
      Regroup(2, Pow2(m - 1), Low(Shr(x, m), n));
    }
  }

  /** The bytes of a number, least significant first, read as its low bits. */
  lemma {:induction false} ReadOfShifts(buffer: seq<Byte>, at: nat, n: nat, x: nat)
    requires at + n <= |buffer|
    requires forall k :: 0 <= k < n ==> buffer[at + k] == Low(Shr(x, 8 * k), 8)
    ensures Read(buffer, at, n) == Low(x, 8 * n)
    decreases n
  {
    hide Low, Shr, Pow2;
    if n > 0 {
      var y := Shr(x, 8);
      forall k | 0 <= k < n - 1
        ensures buffer[at + 1 + k] == Low(Shr(y, 8 * k), 8)
      {
        assert buffer[at + (k + 1)] == Low(Shr(x, 8 * (k + 1)), 8);
        ShrAdds(x, 8, 8 * k);
      }
      ReadOfShifts(buffer, at + 1, n - 1, y);
      assert buffer[at + 0] == Low(x, 8) by { ShrByNone(x); }
      LowSplit(x, 8, 8 * (n - 1));
      assert Pow2(8) == 256 by { PowEight(); }
    } else {
      LowOfNone(x);
    }
  }

  lemma ShrByNone(x: nat)
    ensures Shr(x, 8 * 0) == x
  {
  }

  lemma LowOfNone(x: nat)
    ensures Low(x, 8 * 0) == 0
  {
  }

  lemma PowEight()
    ensures Pow2(8) == 256
  {
  }

  /** A field that lies in the low m bits is read from them. */
  lemma {:induction false} FieldOfLow(x: nat, m: nat, shift: nat, size: nat)
    requires shift + size <= m
    ensures Field(Low(x, m), shift, size) == Field(x, shift, size)
    decreases m
  {
    if shift > 0 {
      FieldOfLow(x / 2, m - 1, shift - 1, size);
    } else if size > 0 {
      FieldOfLow(x / 2, m - 1, 0, size - 1);
    }
  }
}
