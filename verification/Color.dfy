/** kernel/src/framebuffer.c:26-47 and boot/uefi/src/main.c:121-139: colours packed into a pixel word
    by the masks of the display, and the masks taken apart. */
module Color {
  import opened Bits

  datatype Rgb = Rgb(red: Byte, green: Byte, blue: Byte)

  /** One colour channel of a pixel word: `size` bits at bit `shift` */
  datatype Channel = Channel(size: nat, shift: nat)

  function ScaleComponent(value: Byte, size: nat): nat {
    if size == 0 || size > 8 then 0 else (value * (Pow2(size) - 1) + 127) / 255
  }

  function PackRgb(red: Channel, green: Channel, blue: Channel, color: Rgb): nat {
    Or(Or(Shl(ScaleComponent(color.red, red.size), red.shift),
          Shl(ScaleComponent(color.green, green.size), green.shift)),
       Shl(ScaleComponent(color.blue, blue.size), blue.shift))
  }

  predicate Fits(c: Channel) {
    1 <= c.size <= 8 && c.size + c.shift <= 32
  }

  predicate Disjoint(c: Channel, d: Channel) {
    c.shift + c.size <= d.shift || d.shift + d.size <= c.shift
  }

  /** The scaled level is the nearest to value * max / 255, fits its field, and keeps black and white. */
  lemma ScaleIsNearest(value: Byte, size: nat)
    requires 1 <= size <= 8
    ensures var s, max := ScaleComponent(value, size), Pow2(size) - 1;
      && s <= max && -127 <= 255 * s - value * max <= 127
      && (value == 0 ==> s == 0) && (value == 255 ==> s == max)
  {
    var max := Pow2(size) - 1;
    MulMonotone(value, 255, max, max);
  }

  lemma ChannelOfShl(v: nat, c: Channel, d: Channel)
    requires v < Pow2(c.size)
    ensures c == d ==> Field(Shl(v, c.shift), d.shift, d.size) == v
    ensures Disjoint(c, d) ==> Field(Shl(v, c.shift), d.shift, d.size) == 0
  {
    FieldOfShl(v, c.size, c.shift, d.shift, d.size);
  }

  lemma ScaleFits(value: Byte, size: nat)
    requires 1 <= size <= 8
    ensures ScaleComponent(value, size) < Pow2(size)
  {
    ScaleIsNearest(value, size);
  }

  /** With masks that do not overlap, each channel is read back from the packed word. */
  lemma PackIsUndone(red: Channel, green: Channel, blue: Channel, color: Rgb)
    requires Fits(red) && Fits(green) && Fits(blue)
    requires Disjoint(red, green) && Disjoint(red, blue) && Disjoint(green, blue)
    ensures var p := PackRgb(red, green, blue, color);
      && Field(p, red.shift, red.size) == ScaleComponent(color.red, red.size)
      && Field(p, green.shift, green.size) == ScaleComponent(color.green, green.size)
      && Field(p, blue.shift, blue.size) == ScaleComponent(color.blue, blue.size)
  {
    ChannelIsRead(red, green, blue, color, red);
    ChannelIsRead(red, green, blue, color, green);
    ChannelIsRead(red, green, blue, color, blue);
  }

  lemma ChannelIsRead(red: Channel, green: Channel, blue: Channel, color: Rgb, c: Channel)
    requires Fits(red) && Fits(green) && Fits(blue)
    requires Disjoint(red, green) && Disjoint(red, blue) && Disjoint(green, blue)
    requires c == red || c == green || c == blue
    ensures var r, g, b := ScaleComponent(color.red, red.size), ScaleComponent(color.green, green.size), ScaleComponent(color.blue, blue.size);
      Field(PackRgb(red, green, blue, color), c.shift, c.size) ==
        Or(Or(if c == red then r else 0, if c == green then g else 0), if c == blue then b else 0)
  {
    hide Field, Or, Shl, ScaleComponent;
    var r, g, b := ScaleComponent(color.red, red.size), ScaleComponent(color.green, green.size), ScaleComponent(color.blue, blue.size);
    ScaleFits(color.red, red.size);
    ScaleFits(color.green, green.size);
    ScaleFits(color.blue, blue.size);
    ChannelOfShl(r, red, c);
    ChannelOfShl(g, green, c);
    ChannelOfShl(b, blue, c);
    OrField(Or(Shl(r, red.shift), Shl(g, green.shift)), Shl(b, blue.shift), c.shift, c.size);
    OrField(Shl(r, red.shift), Shl(g, green.shift), c.shift, c.size);
  }

  /** The packed word fits the 32 bits it is kept in, so no bit is cut off. */
  lemma PackFits(red: Channel, green: Channel, blue: Channel, color: Rgb)
    requires Fits(red) && Fits(green) && Fits(blue)
    ensures PackRgb(red, green, blue, color) < Pow2(32)
  {
    hide Or, Shl, ScaleComponent;
    ShlFits(color.red, red);
    ShlFits(color.green, green);
    ShlFits(color.blue, blue);
    var r, g, b := ScaleComponent(color.red, red.size), ScaleComponent(color.green, green.size), ScaleComponent(color.blue, blue.size);
    OrLess(Shl(r, red.shift), Shl(g, green.shift), 32);
    OrLess(Or(Shl(r, red.shift), Shl(g, green.shift)), Shl(b, blue.shift), 32);
  }

  lemma ShlFits(value: Byte, c: Channel)
    requires Fits(c)
    ensures Shl(ScaleComponent(value, c.size), c.shift) < Pow2(32)
  {
    var s := ScaleComponent(value, c.size);
    ScaleFits(value, c.size);
    ShlIsMul(s, c.shift);
    MulMonotone(s, Pow2(c.size) - 1, Pow2(c.shift), Pow2(c.shift));
    Distribute(Pow2(c.size), -1, Pow2(c.shift));
    Pow2Add(c.size, c.shift);
    Pow2Monotone(c.size + c.shift, 32);
  }

  // ---------- Masks ----------

  /** Lowest set bit of a mask, by the loop's own count */
  function TrailingZeros(mask: nat): nat {
    if mask == 0 || mask % 2 == 1 then 0 else 1 + TrailingZeros(mask / 2)
  }

  function SetBits(mask: nat): nat {
    if mask == 0 then 0 else mask % 2 + SetBits(mask / 2)
  }

  method MaskShift(mask: nat) returns (shift: nat)
    ensures shift == TrailingZeros(mask)
  {
    var m := mask;
    shift := 0;
    while m != 0 && And(m, 1) == 0
      invariant shift + TrailingZeros(m) == TrailingZeros(mask)
      decreases m
    {
      LowestBit(m);
      m := m / 2;
      shift := shift + 1;
    }
    LowestBit(m);
  }

  method MaskSize(mask: nat) returns (size: nat)
    ensures size == SetBits(mask)
  {
    var m := mask;
    size := 0;
    while m != 0
      invariant size + SetBits(m) == SetBits(mask)
      decreases m
    {
      LowestBit(m);
      size := size + And(m, 1);
      m := m / 2;
    }
  }

  lemma LowestBit(m: nat)
    ensures And(m, 1) == m % 2
  {
  }

  /** Shift and size rebuild a mask exactly when its bits are contiguous. */
  lemma {:induction false} MaskRebuilt(shift: nat, size: nat)
    requires size > 0
    ensures TrailingZeros(Mask(shift, size)) == shift && SetBits(Mask(shift, size)) == size
    decreases shift + size
  {
    if shift > 0 {
      MaskRebuilt(shift - 1, size);
      ShlIsMul(Pow2(size) - 1, shift - 1);
      MulAtLeast(Pow2(size) - 1, Pow2(shift - 1));
      assert Mask(shift, size) == 2 * Mask(shift - 1, size);
    } else {
      OnesCounted(size);
    }
  }

  lemma {:induction false} OnesCounted(size: nat)
    ensures SetBits(Pow2(size) - 1) == size
  {
    if size > 0 {
      OnesCounted(size - 1);
      assert (Pow2(size) - 1) / 2 == Pow2(size - 1) - 1;
    }
  }

  /** A mask is the one its shift and size describe if and only if its bits are contiguous (0 is). */
  lemma MaskIsContiguousIff(mask: nat)
    ensures Mask(TrailingZeros(mask), SetBits(mask)) == mask <==>
      exists shift: nat, size: nat {:trigger Mask(shift, size)} :: Mask(shift, size) == mask
  {
    if shift: nat, size: nat {:trigger Mask(shift, size)} :| Mask(shift, size) == mask {
      if size > 0 {
        MaskRebuilt(shift, size);
      } else {
        ShlIsMul(0, shift);
      }
    }
  }
}
