/** uitoa of aurelian-os-v1/kernel/string.c. */
module Digits {
  import opened Bits

  /** A base outside 2 to 16 is taken as 10. */
  function Base(base: int): (b: nat)
    ensures 2 <= b <= 16
    ensures 2 <= base <= 16 ==> b == base
    ensures !(2 <= base <= 16) ==> b == 10
  {
    if base < 2 || base > 16 then 10 else base
  }

  /** "0123456789abcdef"[d] */
  function DigitChar(d: nat): Byte
    requires d < 16
  {
    if d < 10 then 48 + d else 97 + d - 10
  }

  lemma DigitInTable(d: nat)
    requires d < 16
    ensures DigitChar(d) == "0123456789abcdef"[d] as int
  {
  }

  function DigitValue(c: Byte): int {
    if 48 <= c <= 57 then c - 48 else if 97 <= c <= 102 then c - 97 + 10 else -1
  }

  /** Reading digits, most significant first */
  function Parse(s: seq<Byte>, base: nat): int {
    if s == [] then 0 else Parse(s[..|s| - 1], base) * base + DigitValue(s[|s| - 1])
  }

  /** The text of a number */
  function Text(v: nat, base: nat): seq<Byte>
    requires 2 <= base <= 16
  {
    if v < base then [DigitChar(v)] else Text(v / base, base) + [DigitChar(v % base)]
  }

  /** The digits in the order the loop finds them: least significant first, none for 0 */
  function Backwards(v: nat, base: nat): seq<Byte>
    requires 2 <= base <= 16
  {
    if v == 0 then [] else [DigitChar(v % base)] + Backwards(v / base, base)
  }

  /** Parsing gives back the number, for every base. */
  lemma {:induction false} ParseOfText(v: nat, base: nat)
    requires 2 <= base <= 16
    ensures Parse(Text(v, base), base) == v
  {
    if v < base {
      assert Text(v, base)[..0] == [];
    } else {
      hide DigitValue, DigitChar;
      ParseOfText(v / base, base);
      var t := Text(v, base);
      assert t[..|t| - 1] == Text(v / base, base);
      ReadDigit(v % base);
      QuotientAndRest(v, base);
    }
  }

  lemma ReadDigit(d: nat)
    requires d < 16
    ensures DigitValue(DigitChar(d)) == d && (d > 0 ==> DigitChar(d) != 48)
  {
  }

  lemma QuotientAndRest(v: nat, base: nat)
    requires base > 0
    ensures v / base * base + v % base == v
  {
  }

  /** Every character is a digit of the base, the first one not 0 unless the number is, and so two
      numbers never share a text. */
  lemma {:induction false} TextIsProper(v: nat, base: nat)
    requires 2 <= base <= 16
    ensures var t := Text(v, base);
      |t| > 0 && (forall i :: 0 <= i < |t| ==> 0 <= DigitValue(t[i]) < base) && (v > 0 ==> t[0] != 48)
  {
    hide DigitChar, DigitValue;
    if v >= base {
      TextIsProper(v / base, base);
      QuotientAndRest(v, base);
      ReadDigit(v % base);
    } else {
      ReadDigit(v);
    }
  }

  lemma TextIsInjective(v: nat, w: nat, base: nat)
    requires 2 <= base <= 16 && Text(v, base) == Text(w, base)
    ensures v == w
  {
    ParseOfText(v, base);
    ParseOfText(w, base);
  }

  /** A number below 2^n has at most n digits: 32 for a uint32_t, so 33 places are never short. */
  lemma {:induction false} BackwardsFits(v: nat, base: nat, n: nat)
    requires 2 <= base <= 16 && v < Pow2(n)
    ensures |Backwards(v, base)| <= n
    decreases n
  {
    if v > 0 {
      assert v / base <= v / 2 by { DivideByMore(v, base); }
      BackwardsFits(v / base, base, n - 1);
    }
  }

  lemma DivideByMore(v: nat, base: nat)
    requires base >= 2
    ensures v / base <= v / 2 && (v > 0 ==> v / base < v)
  {
    var q := v / base;
    assert v == base * q + v % base;
    MulMonotone(2, base, q, q);
  }

  function Reverse(s: seq<Byte>): (r: seq<Byte>)
    ensures |r| == |s|
    ensures forall i :: 0 <= i < |s| ==> r[i] == s[|s| - 1 - i]
  {
    seq(|s|, i requires 0 <= i < |s| => s[|s| - 1 - i])
  }

  lemma {:induction false} ReversedIsText(v: nat, base: nat)
    requires 2 <= base <= 16 && v > 0
    ensures Reverse(Backwards(v, base)) == Text(v, base)
  {
    hide DigitChar;
    DivideByMore(v, base);
    var q, d := v / base, v % base;
    assert Backwards(v, base) == [DigitChar(d)] + Backwards(q, base);
    if v < base {
      SmallQuotient(v, base);
      assert Backwards(v, base) == [DigitChar(d)];
    } else {
      SmallQuotient(v, base);
      ReversedIsText(q, base);
      ReverseCons(DigitChar(d), Backwards(q, base));
    }
  }

  lemma SmallQuotient(v: nat, base: nat)
    requires base > 0
    ensures v < base ==> v / base == 0 && v % base == v
    ensures v >= base ==> v / base > 0
  {
    if v < base {
      DivModUnique(v, base, 0, v);
    } else {
      assert v == base * (v / base) + v % base;
    }
  }

  lemma ReverseCons(c: Byte, s: seq<Byte>)
    ensures Reverse([c] + s) == Reverse(s) + [c]
  {
  }

  lemma ZeroText(base: nat)
    requires 2 <= base <= 16
    ensures Text(0, base) == [48]
  {
  }

  method Uitoa(val: nat, buf: array<Byte>, base: int)
    requires val < Pow2(32) && |Text(val, Base(base))| < buf.Length
    modifies buf
    ensures var t := Text(val, Base(base));
      |t| <= 32 && buf[..|t|] == t && buf[|t|] == 0 && buf[|t| + 1..] == old(buf[|t| + 1..])
      && Parse(buf[..|t|], if 2 <= base <= 16 then base else 10) == val
  {
    hide Text, Parse, Backwards, Reverse, DigitValue, DigitChar;
    var b := Base(base);
    ParseOfText(val, b);
    BackwardsFits(val, b, 32);
    ZeroText(b);
    if val == 0 {
      buf[0] := 48;
      buf[1] := 0;
      return;
    }
    var tmp := new Byte[33];
    var n := CollectDigits(val, b, tmp);
    ReversedIsText(val, b);
    WriteReversed(tmp, n, buf);
  }

  /** The first loop: digits into `tmp`, least significant first. The guard on 33 places is never what ends it. */
  method CollectDigits(val: nat, b: nat, tmp: array<Byte>) returns (n: nat)
    requires val < Pow2(32) && 2 <= b <= 16 && tmp.Length == 33
    modifies tmp
    ensures n <= 32 && tmp[..n] == Backwards(val, b)
  {
    hide DigitChar, DigitValue, Text, Parse, Pow2, Backwards, Reverse;
    var v: nat := val;
    n := 0;
    BackwardsFits(val, b, 32);
    while v != 0 && n < 33
      invariant n <= 32 && |Backwards(val, b)| <= 32
      invariant tmp[..n] + Backwards(v, b) == Backwards(val, b)
      decreases v
    {
      DivideByMore(v, b);
      BackwardsOne(v, b);
      ghost var rest, before := Backwards(v / b, b), tmp[..n];
      tmp[n] := DigitChar(v % b);
      assert tmp[..n + 1] == before + [DigitChar(v % b)];
      OneMoreDigit(before, DigitChar(v % b), rest);
      n := n + 1;
      v := v / b;
    }
    BackwardsOne(v, b);
  }

  lemma OneMoreDigit(before: seq<Byte>, d: Byte, rest: seq<Byte>)
    ensures before + [d] + rest == before + ([d] + rest) && |before + [d] + rest| == |before| + 1 + |rest|
  {
  }

  lemma BackwardsOne(v: nat, base: nat)
    requires 2 <= base <= 16
    ensures Backwards(v, base) == if v == 0 then [] else [DigitChar(v % base)] + Backwards(v / base, base)
  {
  }

  /** The second loop, which turns the digits round, and the terminating zero */
  method WriteReversed(tmp: array<Byte>, n: nat, buf: array<Byte>)
    requires n <= tmp.Length && n < buf.Length && tmp != buf
    modifies buf
    ensures buf[..n] == Reverse(tmp[..n]) && buf[n] == 0 && buf[n + 1..] == old(buf[n + 1..])
  {
    var i: nat, j: nat := n, 0;
    while i != 0
      invariant i + j == n
      invariant forall k :: 0 <= k < j ==> buf[k] == tmp[n - 1 - k]
      invariant forall k :: j <= k < buf.Length ==> buf[k] == old(buf[k])
    {
      i := i - 1;
      buf[j] := tmp[i];
      j := j + 1;
    }
    buf[j] := 0;
  }
}
