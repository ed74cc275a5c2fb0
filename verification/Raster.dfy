/** The pixel buffer of kernel/src/framebuffer.c as a picture: which byte belongs to which pixel, and
    what it means that a shape has been painted. */
module Raster {
  import opened Bits
  import opened BootAbi
  import opened Color
  import opened Wrappers

  /** struct aurelion_framebuffer_surface without the pixels */
  datatype Geometry = Geometry(width: nat, height: nat, pitch: nat, bytes: nat, red: Channel, green: Channel, blue: Channel)

  /** The fields aurelion_framebuffer_init fills from an accepted descriptor */
  function SurfaceOf(fb: Framebuffer): Geometry {
    Geometry(fb.width, fb.height, fb.pitch, Narrow(fb.bpp / 8),
      Channel(Narrow(fb.redSize), Narrow(fb.redShift)),
      Channel(Narrow(fb.greenSize), Narrow(fb.greenShift)),
      Channel(Narrow(fb.blueSize), Narrow(fb.blueShift)))
  }

  predicate WellFormed(g: Geometry) {
    && 0 < g.width <= MAX_DIMENSION && 0 < g.height <= MAX_DIMENSION
    && (g.bytes == 3 || g.bytes == 4) && 0 < g.pitch && g.width * g.bytes <= g.pitch < U32
    && Fits(g.red) && Fits(g.green) && Fits(g.blue)
  }

  /** aurelion_framebuffer_init: the surface, or nothing for a descriptor that is refused */
  function FramebufferInit(fb: Framebuffer): (r: Option<Geometry>)
    ensures r.Some? <==> Accepted(fb)
    ensures r.Some? ==> r.value == SurfaceOf(fb) && WellFormed(r.value)
  {
    if fb.address == 0 || fb.width == 0 || fb.height == 0 || fb.width > MAX_DIMENSION || fb.height > MAX_DIMENSION
       || (fb.bpp != 24 && fb.bpp != 32) then None
    else if fb.pitch < fb.width * (fb.bpp / 8) then None
    else
      var g := SurfaceOf(fb);
      if g.red.size == 0 || g.green.size == 0 || g.blue.size == 0
         || g.red.size > 8 || g.green.size > 8 || g.blue.size > 8
         || g.red.shift > 31 || g.green.shift > 31 || g.blue.shift > 31
         || g.red.size + g.red.shift > 32 || g.green.size + g.green.shift > 32 || g.blue.size + g.blue.shift > 32
      then None
      else
        MulAtLeast(g.bytes, g.width);
        Some(g)
  }

  /** The surface has the sizes of the descriptor, whole bytes for its bits, and each channel's own mask. */
  lemma SurfaceFields(fb: Framebuffer)
    requires Accepted(fb)
    ensures FramebufferInit(fb).Some?
    ensures var g := FramebufferInit(fb).value;
      && g.width == fb.width && g.height == fb.height && g.pitch == fb.pitch && 8 * g.bytes == fb.bpp
      && g.red.size == fb.redSize % 256 && g.red.shift == fb.redShift % 256
      && g.green.size == fb.greenSize % 256 && g.green.shift == fb.greenShift % 256
      && g.blue.size == fb.blueSize % 256 && g.blue.shift == fb.blueShift % 256
  {
  }

  // ---------- Bytes and pixels ----------

  function RowOf(g: Geometry, k: nat): nat
    requires g.pitch > 0
  {
    k / g.pitch
  }

  function ColumnOf(g: Geometry, k: nat): nat
    requires g.pitch > 0 && g.bytes > 0
  {
    k % g.pitch / g.bytes
  }

  function LaneOf(g: Geometry, k: nat): nat
    requires g.pitch > 0 && g.bytes > 0
  {
    k % g.pitch % g.bytes
  }

  /** Byte k belongs to a pixel: it is not padding at the end of a row, nor past the last row. */
  predicate InPixel(g: Geometry, k: nat)
    requires g.pitch > 0 && g.bytes > 0
  {
    RowOf(g, k) < g.height && ColumnOf(g, k) < g.width
  }

  /** The first byte of a pixel */
  function PixelStart(g: Geometry, x: nat, y: nat): nat {
    y * g.pitch + x * g.bytes
  }

  /** Lane b of pixel (x, y) is byte PixelStart + b and no other, so pixels share no byte; it lies
      inside pitch * height. */
  lemma PixelBytes(g: Geometry, x: nat, y: nat, b: nat)
    requires WellFormed(g) && x < g.width && y < g.height && b < g.bytes
    ensures var k := PixelStart(g, x, y) + b;
      k < g.pitch * g.height && RowOf(g, k) == y && ColumnOf(g, k) == x && LaneOf(g, k) == b
  {
    var k := PixelStart(g, x, y) + b;
    MulMonotone(x + 1, g.width, g.bytes, g.bytes);
    Distribute(x, 1, g.bytes);
    DivModUnique(k, g.pitch, y, x * g.bytes + b);
    DivModUnique(x * g.bytes + b, g.bytes, x, b);
    MulMonotone(y + 1, g.height, g.pitch, g.pitch);
    Distribute(y, 1, g.pitch);
  }

  lemma ByteIsPlaced(g: Geometry, k: nat)
    requires WellFormed(g)
    ensures k == PixelStart(g, ColumnOf(g, k), RowOf(g, k)) + LaneOf(g, k) && LaneOf(g, k) < g.bytes
  {
    var c := k % g.pitch;
    assert k == k / g.pitch * g.pitch + c;
    assert c == c / g.bytes * g.bytes + c % g.bytes;
  }

  /** Lane b of a packed pixel word, least significant first */
  function LaneByte(g: Geometry, color: Rgb, b: nat): (v: Byte)
  {
    var p := Shr(PackRgb(g.red, g.green, g.blue, color), 8 * b);
    ShrLowSplit(p, 8);
    assert Pow2(8) == 256;
    Low(p, 8)
  }

  // ---------- Pictures ----------

  type Shape = (int, int) -> bool

  /** `now` is `was` with every pixel of the shape that is on the surface in `color`; every other
      pixel and all padding is as it was. */
  ghost predicate Painted(g: Geometry, was: seq<Byte>, now: seq<Byte>, shape: Shape, color: Rgb)
    requires g.pitch > 0 && g.bytes > 0
  {
    && |now| == |was|
    && forall k :: 0 <= k < |was| ==>
      now[k] == (if InPixel(g, k) && shape(ColumnOf(g, k), RowOf(g, k)) then LaneByte(g, color, LaneOf(g, k)) else was[k])
  }

  lemma LaneIsShift(g: Geometry, color: Rgb, b: nat)
    ensures LaneByte(g, color, b) == Low(Shr(PackRgb(g.red, g.green, g.blue, color), 8 * b), 8)
  {
  }

  lemma LanesRead(g: Geometry, bytes: seq<Byte>, at: nat, n: nat, color: Rgb)
    requires at + n <= |bytes|
    requires forall b {:trigger LaneByte(g, color, b)} :: 0 <= b < n ==> bytes[at + b] == LaneByte(g, color, b)
    ensures Read(bytes, at, n) == PackRgb(g.red, g.green, g.blue, color) % Pow2(8 * n)
  {
    hide LaneByte, PackRgb, Low, Shr, Pow2, Read;
    var packed := PackRgb(g.red, g.green, g.blue, color);
    forall b | 0 <= b < n
      ensures bytes[at + b] == Low(Shr(packed, 8 * b), 8)
    {
      LaneIsShift(g, color, b);
    }
    ReadOfShifts(bytes, at, n, packed);
    ShrIsDiv(packed, 8 * n);
  }

  lemma PixelByteIs(g: Geometry, was: seq<Byte>, now: seq<Byte>, shape: Shape, color: Rgb, x: nat, y: nat, b: nat)
    requires WellFormed(g) && Painted(g, was, now, shape, color) && g.pitch * g.height <= |now|
    requires x < g.width && y < g.height && b < g.bytes
    ensures var k := PixelStart(g, x, y) + b;
      k < |now| == |was| && now[k] == if shape(x, y) then LaneByte(g, color, b) else was[k]
  {
    hide LaneByte, RowOf, ColumnOf, LaneOf;
    PixelBytes(g, x, y, b);
  }

  lemma PaintedPixel(g: Geometry, was: seq<Byte>, now: seq<Byte>, shape: Shape, color: Rgb, x: nat, y: nat)
    requires WellFormed(g) && Painted(g, was, now, shape, color) && g.pitch * g.height <= |now|
    requires x < g.width && y < g.height
    ensures var at := PixelStart(g, x, y);
      && at + g.bytes <= |now| == |was|
      && (shape(x, y) ==> Read(now, at, g.bytes) == PackRgb(g.red, g.green, g.blue, color) % Pow2(8 * g.bytes))
      && (!shape(x, y) ==> now[at..at + g.bytes] == was[at..at + g.bytes])
  {
    assert g.bytes > 0 && g.pitch > 0;
    hide LaneByte, PackRgb, Painted, Pow2, Read, PixelStart, WellFormed;
    var at := PixelStart(g, x, y);
    PixelByteIs(g, was, now, shape, color, x, y, g.bytes - 1);
    if shape(x, y) {
      forall b | 0 <= b < g.bytes
        ensures now[at + b] == LaneByte(g, color, b)
      {
        PixelByteIs(g, was, now, shape, color, x, y, b);
      }
      LanesRead(g, now, at, g.bytes, color);
    } else {
      forall k | at <= k < at + g.bytes
        ensures now[k] == was[k]
      {
        PixelByteIs(g, was, now, shape, color, x, y, k - at);
      }
    }
  }

  lemma StartIs(g: Geometry, x: nat, y: nat)
    ensures PixelStart(g, x, y) == y * g.pitch + x * g.bytes
  {
  }

  /** What a painted buffer reads as: the bytes of each pixel of the shape, lowest address first, are the packed
      colour cut to the width of a pixel; those of every other pixel are as they were. */
  lemma PaintedReads(g: Geometry, was: seq<Byte>, now: seq<Byte>, shape: Shape, color: Rgb, x: nat, y: nat, at: nat)
    requires WellFormed(g) && Painted(g, was, now, shape, color) && g.pitch * g.height <= |now|
    requires x < g.width && y < g.height && at == y * g.pitch + x * g.bytes
    ensures at + g.bytes <= |now| == |was|
    ensures shape(x, y) ==> Read(now, at, g.bytes) == PackRgb(g.red, g.green, g.blue, color) % Pow2(8 * g.bytes)
    ensures !shape(x, y) ==> now[at..at + g.bytes] == was[at..at + g.bytes]
  {
    assert g.bytes > 0 && g.pitch > 0;
    hide LaneByte, PackRgb, Painted, Pow2, Read, PixelStart, WellFormed;
    StartIs(g, x, y);
    PaintedPixel(g, was, now, shape, color, x, y);
  }

  /** Bytes past the pixels of a row and past the last row are as they were. */
  lemma PaddingStays(g: Geometry, was: seq<Byte>, now: seq<Byte>, shape: Shape, color: Rgb, k: nat)
    requires WellFormed(g) && Painted(g, was, now, shape, color) && k < |now|
    requires k / g.pitch >= g.height || k % g.pitch >= g.width * g.bytes
    ensures now[k] == was[k]
  {
    hide LaneByte;
    if ColumnOf(g, k) < g.width {
      var c := k % g.pitch;
      assert c == c / g.bytes * g.bytes + c % g.bytes;
      MulMonotone(c / g.bytes + 1, g.width, g.bytes, g.bytes);
      Distribute(c / g.bytes, 1, g.bytes);
    }
  }

  /** With disjoint masks every channel that lies within the bytes of a pixel is read back from memory as the
      scaled level of the colour painted. */
  lemma ColorReadsBack(g: Geometry, was: seq<Byte>, now: seq<Byte>, shape: Shape, color: Rgb, x: nat, y: nat, at: nat)
    requires WellFormed(g) && Painted(g, was, now, shape, color) && g.pitch * g.height <= |now|
    requires x < g.width && y < g.height && shape(x, y) && at == y * g.pitch + x * g.bytes
    requires Disjoint(g.red, g.green) && Disjoint(g.red, g.blue) && Disjoint(g.green, g.blue)
    ensures at + g.bytes <= |now|
    ensures var word := Read(now, at, g.bytes);
      && (g.red.shift + g.red.size <= 8 * g.bytes ==>
           Field(word, g.red.shift, g.red.size) == ScaleComponent(color.red, g.red.size))
      && (g.green.shift + g.green.size <= 8 * g.bytes ==>
           Field(word, g.green.shift, g.green.size) == ScaleComponent(color.green, g.green.size))
      && (g.blue.shift + g.blue.size <= 8 * g.bytes ==>
           Field(word, g.blue.shift, g.blue.size) == ScaleComponent(color.blue, g.blue.size))
  {
    hide Painted, PackRgb, Field, ScaleComponent, Low, Shr, Pow2, Read;
    PaintedReads(g, was, now, shape, color, x, y, at);
    var packed, m := PackRgb(g.red, g.green, g.blue, color), 8 * g.bytes;
    ShrIsDiv(packed, m);
    PackIsUndone(g.red, g.green, g.blue, color);
    InLow(packed, m, g.red);
    InLow(packed, m, g.green);
    InLow(packed, m, g.blue);
  }

  lemma InLow(x: nat, m: nat, c: Channel)
    ensures c.shift + c.size <= m ==> Field(Low(x, m), c.shift, c.size) == Field(x, c.shift, c.size)
  {
    if c.shift + c.size <= m {
      FieldOfLow(x, m, c.shift, c.size);
    }
  }

  /** Painting one shape and then another paints their union. */
  lemma PaintBoth(g: Geometry, was: seq<Byte>, mid: seq<Byte>, now: seq<Byte>, first: Shape, second: Shape, union: Shape, color: Rgb)
    requires g.pitch > 0 && g.bytes > 0
    requires Painted(g, was, mid, first, color) && Painted(g, mid, now, second, color)
    requires forall x, y :: 0 <= x < g.width && 0 <= y < g.height ==> (union(x, y) <==> first(x, y) || second(x, y))
    ensures Painted(g, was, now, union, color)
  {
  }

  lemma PaintNothing(g: Geometry, was: seq<Byte>, shape: Shape, color: Rgb)
    requires g.pitch > 0 && g.bytes > 0
    requires forall x, y :: 0 <= x < g.width && 0 <= y < g.height ==> !shape(x, y)
    ensures Painted(g, was, was, shape, color)
  {
  }

  // ---------- The shapes ----------

  function Min(a: nat, b: nat): nat { if a < b then a else b }

  /** The rectangle fill_rect runs over: its far edges are uint32_t sums. */
  predicate InRect(px: int, py: int, x: nat, y: nat, width: nat, height: nat) {
    x <= px < (x + width) % U32 && y <= py < (y + height) % U32
  }

  predicate InDisc(px: int, py: int, cx: int, cy: int, radius: nat) {
    (px - cx) * (px - cx) + (py - cy) * (py - cy) <= radius * radius
  }

  /** point_in_rounded_rect */
  predicate InRounded(x: nat, y: nat, width: nat, height: nat, radius: nat)
    requires x < width && y < height && 2 * radius <= width && 2 * radius <= height
  {
    if radius == 0 || (radius <= x < width - radius) || (radius <= y < height - radius) then true
    else
      var cx := if x < radius then radius else width - radius - 1;
      var cy := if y < radius then radius else height - radius - 1;
      InDisc(x, y, cx, cy, radius)
  }

  /** How far a coordinate is from the inner interval [radius, size - radius - 1] */
  function Outside(v: int, size: nat, radius: nat): nat {
    if v < radius then radius - v else if v > size - radius - 1 then v - (size - radius - 1) else 0
  }

  /** A point is in the rounded rectangle exactly when its distance to the inner rectangle is at most
      the radius. */
  lemma RoundedIsDistance(x: nat, y: nat, width: nat, height: nat, radius: nat)
    requires x < width && y < height && 2 * radius <= width && 2 * radius <= height
    ensures InRounded(x, y, width, height, radius) <==>
      Outside(x, width, radius) * Outside(x, width, radius) + Outside(y, height, radius) * Outside(y, height, radius)
        <= radius * radius
  {
    var dx, dy := Outside(x, width, radius), Outside(y, height, radius);
    assert dx <= radius && dy <= radius;
    MulMonotone(dx, radius, dx, radius);
    MulMonotone(dy, radius, dy, radius);
    if radius > 0 && !(radius <= x < width - radius) && !(radius <= y < height - radius) {
      var cx := if x < radius then radius else width - radius - 1;
      var cy := if y < radius then radius else height - radius - 1;
      SquareOfNegative(x - cx);
      SquareOfNegative(y - cy);
    }
  }

  lemma SquareOfNegative(v: int)
    ensures v * v == (-v) * (-v)
  {
  }

  /** The shape is its own mirror image, left to right and top to bottom. */
  lemma RoundedIsSymmetric(x: nat, y: nat, width: nat, height: nat, radius: nat)
    requires x < width && y < height && 2 * radius <= width && 2 * radius <= height
    ensures InRounded(width - 1 - x, y, width, height, radius) == InRounded(x, y, width, height, radius)
    ensures InRounded(x, height - 1 - y, width, height, radius) == InRounded(x, y, width, height, radius)
  {
    hide InRounded;
    RoundedIsDistance(x, y, width, height, radius);
    RoundedIsDistance(width - 1 - x, y, width, height, radius);
    RoundedIsDistance(x, height - 1 - y, width, height, radius);
    assert Outside(width - 1 - x, width, radius) == Outside(x, width, radius);
    assert Outside(height - 1 - y, height, radius) == Outside(y, height, radius);
  }

  /** Each row of the shape is one interval. */
  lemma RoundedRowIsInterval(x1: nat, x2: nat, x3: nat, y: nat, width: nat, height: nat, radius: nat)
    requires x1 <= x2 <= x3 < width && y < height && 2 * radius <= width && 2 * radius <= height
    requires InRounded(x1, y, width, height, radius) && InRounded(x3, y, width, height, radius)
    ensures InRounded(x2, y, width, height, radius)
  {
    hide InRounded;
    RoundedIsDistance(x1, y, width, height, radius);
    RoundedIsDistance(x2, y, width, height, radius);
    RoundedIsDistance(x3, y, width, height, radius);
    var d1, d2, d3 := Outside(x1, width, radius), Outside(x2, width, radius), Outside(x3, width, radius);
    assert d2 <= d1 || d2 <= d3;
    if d2 <= d1 {
      MulMonotone(d2, d1, d2, d1);
    } else {
      MulMonotone(d2, d3, d2, d3);
    }
  }

  /** A pixel further from the centre than the radius along one axis is outside the disc. */
  lemma OutOfBox(px: int, py: int, cx: int, cy: int, radius: nat)
    requires InDisc(px, py, cx, cy, radius)
    ensures px - cx <= radius && cx - px <= radius && py - cy <= radius && cy - py <= radius
  {
    SquareBound(px - cx, py - cy, radius);
    SquareBound(py - cy, px - cx, radius);
  }

  lemma SquareBound(u: int, v: int, radius: nat)
    requires u * u + v * v <= radius * radius
    ensures u <= radius && 0 <= u + radius
    decreases u < 0
  {
    assert v * v >= 0;
    if u < 0 {
      SquareOfNegative(u);
      SquareBound(-u, v, radius);
    } else if u > radius {
      MulMonotone(radius + 1, u, radius + 1, u);
      Distribute(radius, 1, radius + 1);
    }
  }

  /** The box fill_disc scans, along one axis; a far edge left of or above the surface becomes a huge
      uint32_t, and the scan is then as wide as the surface. */
  function ScanStart(c: int, radius: nat): nat {
    if c > radius then c - radius else 0
  }

  function ScanEnd(c: int, radius: nat, size: nat): nat {
    Min(size, (c + radius + 1) % U32)
  }

  predicate InScan(g: Geometry, cx: int, cy: int, radius: nat, px: int, py: int) {
    ScanStart(cx, radius) <= px < ScanEnd(cx, radius, g.width) && ScanStart(cy, radius) <= py < ScanEnd(cy, radius, g.height)
  }

  predicate SquaresFit(u: int, v: int) {
    u * u + v * v < 0x8000_0000
  }

  /** Centre, far edges and squared radius fit int32_t. */
  predicate EdgesFit(cx: int, cy: int, radius: nat) {
    Int32(cx) && Int32(cy) && Int32(cx + radius + 1) && Int32(cy + radius + 1) && radius * radius < 0x8000_0000
  }

  /** No int32_t of fill_disc overflows: neither an edge, nor the squared radius, nor, at any pixel scanned, the
      sum of squares. */
  ghost predicate DiscSafe(g: Geometry, cx: int, cy: int, radius: nat) {
    && EdgesFit(cx, cy, radius)
    && forall px, py {:trigger InScan(g, cx, cy, radius, px, py)} ::
      InScan(g, cx, cy, radius, px, py) ==> SquaresFit(px - cx, py - cy)
  }

  /** How far the scan along one axis gets from the centre */
  function Reach(c: int, lo: nat, hi: nat): nat {
    var a, b := if lo < c then c - lo else lo - c, if hi - 1 < c then c - (hi - 1) else hi - 1 - c;
    if a < b then b else a
  }

  lemma SquareUpTo(v: int, r: nat)
    requires v <= r && 0 <= v + r
    ensures 0 <= v * v <= r * r
  {
    SquareOfNegative(v);
    var a := if v < 0 then -v else v;
    MulMonotone(a, r, a, r);
  }

  /** So it is the scanned corner furthest from the centre that decides. */
  lemma DiscIsSafeIff(g: Geometry, cx: int, cy: int, radius: nat)
    ensures var x0, x1 := ScanStart(cx, radius), ScanEnd(cx, radius, g.width);
      var y0, y1 := ScanStart(cy, radius), ScanEnd(cy, radius, g.height);
      DiscSafe(g, cx, cy, radius) <==>
        EdgesFit(cx, cy, radius) && (x0 >= x1 || y0 >= y1 || SquaresFit(Reach(cx, x0, x1), Reach(cy, y0, y1)))
  {
    hide EdgesFit, ScanStart, ScanEnd;
    var x0, x1 := ScanStart(cx, radius), ScanEnd(cx, radius, g.width);
    var y0, y1 := ScanStart(cy, radius), ScanEnd(cy, radius, g.height);
    if x0 < x1 && y0 < y1 {
      var u, v := Reach(cx, x0, x1), Reach(cy, y0, y1);
      if SquaresFit(u, v) {
        forall px, py {:trigger InScan(g, cx, cy, radius, px, py)} | InScan(g, cx, cy, radius, px, py)
          ensures SquaresFit(px - cx, py - cy)
        {
          SquareUpTo(px - cx, u);
          SquareUpTo(py - cy, v);
        }
      } else {
        var px := if x0 - cx == u || cx - x0 == u then x0 else x1 - 1;
        var py := if y0 - cy == v || cy - y0 == v then y0 else y1 - 1;
        SquareOfNegative(px - cx);
        SquareOfNegative(py - cy);
        assert InScan(g, cx, cy, radius, px, py) && !SquaresFit(px - cx, py - cy);
      }
    }
  }

  /** A square of centres around any surface within which nothing overflows */
  predicate DiscRange(cx: int, cy: int, radius: nat) {
    -16384 <= cx <= 24575 && -16384 <= cy <= 24575 && radius <= 16384
  }

  lemma DiscArithmeticFits(g: Geometry, cx: int, cy: int, radius: nat)
    requires WellFormed(g) && DiscRange(cx, cy, radius)
    ensures DiscSafe(g, cx, cy, radius)
  {
    MulMonotone(radius, 16384, radius, 16384);
    forall px, py {:trigger InScan(g, cx, cy, radius, px, py)} | InScan(g, cx, cy, radius, px, py)
      ensures SquaresFit(px - cx, py - cy)
    {
      SquareUpTo(px - cx, 24575);
      SquareUpTo(py - cy, 24575);
    }
  }

  /** fill_rect paints the rectangle asked for, as far as it is on the surface, exactly when its far
      edges do not wrap; with a wrapped edge it paints nothing. */
  lemma RectIsExactIff(g: Geometry, x: nat, y: nat, width: nat, height: nat)
    requires x < g.width <= MAX_DIMENSION && y < g.height <= MAX_DIMENSION && 0 < width < U32 && 0 < height < U32
    ensures x + width < U32 && y + height < U32 <==>
      forall px, py :: 0 <= px < g.width && 0 <= py < g.height ==>
        (InRect(px, py, x, y, width, height) <==> x <= px < x + width && y <= py < y + height)
    ensures x + width >= U32 || y + height >= U32 ==> forall px, py :: !InRect(px, py, x, y, width, height)
  {
    if x + width >= U32 || y + height >= U32 {
      assert !InRect(x, y, x, y, width, height);
    }
  }
}
