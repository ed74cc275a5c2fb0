/** The drawing routines of kernel/src/framebuffer.c over the bytes of the display. */
module Renderer {
  import opened Bits
  import opened BootAbi
  import opened Color
  import opened Line
  import opened Raster

  ghost function One(x: int, y: int): Shape { (px, py) => px == x && py == y }

  /** The part of a shape that a row-by-row scan has passed when it stands at (x, y) */
  ghost function Scanned(shape: Shape, x: int, y: int): Shape {
    (px, py) => shape(px, py) && (py < y || (py == y && px < x))
  }

  ghost function Rect(x: nat, y: nat, width: nat, height: nat): Shape {
    (px, py) => InRect(px, py, x, y, width, height)
  }

  ghost function Disc(cx: int, cy: int, radius: nat): Shape {
    (px, py) => InDisc(px, py, cx, cy, radius)
  }

  /** The rounded rectangle fill_rounded_rect paints: the box is clipped first and then rounded. */
  ghost function Rounded(g: Geometry, x: nat, y: nat, width: nat, height: nat, radius: nat): Shape
    requires x < g.width && y < g.height
  {
    var w, h := Min(width, g.width - x), Min(height, g.height - y);
    var r := Min(radius, Min(w / 2, h / 2));
    (px, py) => x <= px < x + w && y <= py < y + h && InRounded(px - x, py - y, w, h, r)
  }

  /** A box that lies on the surface is rounded as asked. */
  lemma RoundedOnSurface(g: Geometry, x: nat, y: nat, width: nat, height: nat, radius: nat, px: nat, py: nat)
    requires x + width <= g.width && y + height <= g.height && x <= px < x + width && y <= py < y + height
    ensures var r := Min(radius, Min(width / 2, height / 2));
      Rounded(g, x, y, width, height, radius)(px, py) <==>
        Outside(px - x, width, r) * Outside(px - x, width, r) + Outside(py - y, height, r) * Outside(py - y, height, r) <= r * r
  {
    RoundedIsDistance(px - x, py - y, width, height, Min(radius, Min(width / 2, height / 2)));
  }

  /** One that hangs over an edge is rounded at the edge too: unless no radius is left, the four corner
      pixels of the part on the surface are not painted. */
  lemma ClippedCornersAreCut(g: Geometry, x: nat, y: nat, width: nat, height: nat, radius: nat)
    requires x < g.width && y < g.height && 0 < width && 0 < height
    ensures var w, h := Min(width, g.width - x), Min(height, g.height - y);
      var shape := Rounded(g, x, y, width, height, radius);
      Min(radius, Min(w / 2, h / 2)) > 0 <==>
        !shape(x, y) && !shape(x + w - 1, y) && !shape(x, y + h - 1) && !shape(x + w - 1, y + h - 1)
  {
    var w, h := Min(width, g.width - x), Min(height, g.height - y);
    var r := Min(radius, Min(w / 2, h / 2));
    hide InRounded;
    RoundedIsDistance(0, 0, w, h, r);
    RoundedIsDistance(w - 1, 0, w, h, r);
    RoundedIsDistance(0, h - 1, w, h, r);
    RoundedIsDistance(w - 1, h - 1, w, h, r);
    if r > 0 {
      MulAtLeast(r, r);
    }
  }

  /** The union of discs of one radius around the first n centres of a line */
  ghost function Stroke(p: Point, q: Point, n: nat, radius: nat): Shape {
    (px, py) => exists k: nat {:trigger After(p, q, k)} :: k < n && InDisc(px, py, After(p, q, k).at.x, After(p, q, k).at.y, radius)
  }

  /** At most the radius away */
  predicate Near(px: int, py: int, c: Point, radius: nat) {
    (px - c.x) * (px - c.x) + (py - c.y) * (py - c.y) <= radius * radius
  }

  /** All pixels within the radius of one of the centres of the line, in closed form */
  ghost function ThickLine(p: Point, q: Point, radius: nat): Shape {
    (px, py) => exists k: nat {:trigger Centre(p, q, k)} :: k <= Turns(p, q) && Near(px, py, Centre(p, q, k), radius)
  }

  class Surface {
    const pixels: array<Byte>
    const g: Geometry

    ghost predicate Valid() {
      WellFormed(g) && g.pitch * g.height <= pixels.Length
    }

    /** A surface that aurelion_framebuffer_init has filled in, over the display's memory */
    constructor (fb: Framebuffer, memory: array<Byte>)
      requires FramebufferInit(fb).Some? && fb.pitch * fb.height <= memory.Length
      ensures Valid() && pixels == memory && g == FramebufferInit(fb).value
    {
      pixels, g := memory, FramebufferInit(fb).value;
    }

    method PutPixel(x: nat, y: nat, color: Rgb)
      requires Valid()
      modifies pixels
      ensures Painted(g, old(pixels[..]), pixels[..], One(x, y), color)
      ensures x < g.width && y < g.height ==>
        var at := y * g.pitch + x * g.bytes;
        && at + g.bytes <= pixels.Length
        && Read(pixels[..], at, g.bytes) == PackRgb(g.red, g.green, g.blue, color) % Pow2(8 * g.bytes)
    {
      if x >= g.width || y >= g.height {
        PaintNothing(g, pixels[..], One(x, y), color);
        return;
      }
      assert g.pitch > 0 && g.bytes > 0;
      hide LaneByte, InPixel, Painted, Fits, Read, PackRgb, Pow2, PixelStart, WellFormed;
      ghost var was := pixels[..];
      StartIs(g, x, y);
      PixelBytes(g, x, y, g.bytes - 1);
      var pixel := y * g.pitch + x * g.bytes;
      StoreLanes(pixel, color);
      PixelIsPainted(g, was, pixels[..], x, y, color);
      PaintedReads(g, was, pixels[..], One(x, y), color, x, y, pixel);
    }

    /** The loop over the bytes of a pixel */
    method StoreLanes(pixel: nat, color: Rgb)
      requires Valid() && pixel + g.bytes <= pixels.Length
      modifies pixels
      ensures forall k :: 0 <= k < pixels.Length ==>
        pixels[k] == if pixel <= k < pixel + g.bytes then LaneByte(g, color, k - pixel) else old(pixels[k])
    {
      hide LaneByte, Fits;
      for byte := 0 to g.bytes
        invariant forall k :: 0 <= k < pixels.Length ==>
          pixels[k] == if pixel <= k < pixel + byte then LaneByte(g, color, k - pixel) else old(pixels[k])
      {
        pixels[pixel + byte] := LaneByte(g, color, byte);
      }
    }

    /** fill_rect */
    method FillRect(x: nat, y: nat, width: nat, height: nat, color: Rgb)
      requires Valid()
      modifies pixels
      ensures Painted(g, old(pixels[..]), pixels[..], Rect(x, y, width, height), color)
    {
      var lastX := Min(g.width, (x + width) % U32);
      var lastY := Min(g.height, (y + height) % U32);
      ghost var was, shape := pixels[..], Rect(x, y, width, height);
      PaintNothing(g, was, Scanned(shape, 0, y), color);
      var py := y;
      while py < lastY
        invariant y <= py && (y < lastY ==> py <= lastY)
        invariant Painted(g, was, pixels[..], Scanned(shape, 0, py), color)
      {
        var px := x;
        while px < lastX
          invariant x <= px && (x < lastX ==> px <= lastX)
          invariant Painted(g, was, pixels[..], Scanned(shape, px, py), color)
        {
          ghost var mid := pixels[..];
          PutPixel(px, py, color);
          PaintBoth(g, was, mid, pixels[..], Scanned(shape, px, py), One(px, py), Scanned(shape, px + 1, py), color);
          px := px + 1;
        }
        Repaint(g, was, pixels[..], Scanned(shape, px, py), Scanned(shape, 0, py + 1), color);
        py := py + 1;
      }
      Repaint(g, was, pixels[..], Scanned(shape, 0, py), shape, color);
    }

    /** fill_rounded_rect */
    method FillRoundedRect(x: nat, y: nat, width: nat, height: nat, radius: nat, color: Rgb)
      requires Valid()
      modifies pixels
      ensures if x >= g.width || y >= g.height then pixels[..] == old(pixels[..])
        else Painted(g, old(pixels[..]), pixels[..], Rounded(g, x, y, width, height, radius), color)
    {
      if x >= g.width || y >= g.height {
        return;
      }
      var w, h := Min(width, g.width - x), Min(height, g.height - y);
      var r := Min(radius, Min(w / 2, h / 2));
      ghost var was, shape := pixels[..], Rounded(g, x, y, width, height, radius);
      PaintNothing(g, was, Scanned(shape, 0, y), color);
      for py := 0 to h
        invariant Painted(g, was, pixels[..], Scanned(shape, 0, y + py), color)
      {
        Repaint(g, was, pixels[..], Scanned(shape, 0, y + py), Scanned(shape, x, y + py), color);
        for px := 0 to w
          invariant Painted(g, was, pixels[..], Scanned(shape, x + px, y + py), color)
        {
          if InRounded(px, py, w, h, r) {
            ghost var mid := pixels[..];
            PutPixel(x + px, y + py, color);
            PaintBoth(g, was, mid, pixels[..], Scanned(shape, x + px, y + py), One(x + px, y + py),
              Scanned(shape, x + px + 1, y + py), color);
          } else {
            Repaint(g, was, pixels[..], Scanned(shape, x + px, y + py), Scanned(shape, x + px + 1, y + py), color);
          }
        }
        Repaint(g, was, pixels[..], Scanned(shape, x + w, y + py), Scanned(shape, 0, y + py + 1), color);
      }
      Repaint(g, was, pixels[..], Scanned(shape, 0, y + h), shape, color);
    }

    /** fill_disc, for any centre on or off the surface for which nothing overflows */
    method FillDisc(cx: int, cy: int, radius: nat, color: Rgb)
      requires Valid() && DiscSafe(g, cx, cy, radius)
      modifies pixels
      ensures Painted(g, old(pixels[..]), pixels[..], Disc(cx, cy, radius), color)
    {
      var startX, startY := ScanStart(cx, radius), ScanStart(cy, radius);
      var endX, endY := ScanEnd(cx, radius, g.width), ScanEnd(cy, radius, g.height);
      ghost var was, shape := pixels[..], Disc(cx, cy, radius);
      DiscInBox(g, cx, cy, radius);
      PaintNothing(g, was, Scanned(shape, 0, startY), color);
      var py := startY;
      while py < endY
        invariant startY <= py && (startY < endY ==> py <= endY)
        invariant Painted(g, was, pixels[..], Scanned(shape, 0, py), color)
      {
        Repaint(g, was, pixels[..], Scanned(shape, 0, py), Scanned(shape, startX, py), color);
        var px := startX;
        while px < endX
          invariant startX <= px && (startX < endX ==> px <= endX)
          invariant Painted(g, was, pixels[..], Scanned(shape, px, py), color)
        {
          assert InScan(g, cx, cy, radius, px, py) && SquaresFit(px - cx, py - cy);
          if InDisc(px, py, cx, cy, radius) {
            ghost var mid := pixels[..];
            PutPixel(px, py, color);
            PaintBoth(g, was, mid, pixels[..], Scanned(shape, px, py), One(px, py), Scanned(shape, px + 1, py), color);
          } else {
            Repaint(g, was, pixels[..], Scanned(shape, px, py), Scanned(shape, px + 1, py), color);
          }
          px := px + 1;
        }
        Repaint(g, was, pixels[..], Scanned(shape, px, py), Scanned(shape, 0, py + 1), color);
        py := py + 1;
      }
      Repaint(g, was, pixels[..], Scanned(shape, 0, py), shape, color);
    }

    /** draw_thick_line */
    method DrawThickLine(p: Point, q: Point, thickness: nat, color: Rgb)
      requires Valid() && LineFits(p, q)
      requires forall k: nat :: k <= Turns(p, q) ==> DiscSafe(g, After(p, q, k).at.x, After(p, q, k).at.y, thickness / 2)
      modifies pixels
      ensures Painted(g, old(pixels[..]), pixels[..], Stroke(p, q, Turns(p, q) + 1, thickness / 2), color)
      ensures Painted(g, old(pixels[..]), pixels[..], ThickLine(p, q, thickness / 2), color)
    {
      hide Painted, InDisc, DiscSafe, LineFits, After, Stroke, Disc;
      AfterUnfolds(p, q, 0);
      var dx: int, dy: int := Line.Abs(q.x - p.x), -Line.Abs(q.y - p.y);
      var sx, sy := if p.x < q.x then 1 else -1, if p.y < q.y then 1 else -1;
      var x0, y0, error := p.x, p.y, dx + dy;
      ghost var was, k := pixels[..], 0;
      NoStroke(g, was, p, q, thickness / 2, color);
      while true
        invariant k <= Turns(p, q) && After(p, q, k) == Pen(Point(x0, y0), error)
        invariant Painted(g, was, pixels[..], Stroke(p, q, k, thickness / 2), color)
        decreases Turns(p, q) - k
      {
        ghost var mid := pixels[..];
        FillDisc(x0, y0, thickness / 2, color);
        StrokePainted(g, was, mid, pixels[..], p, q, k, thickness / 2, color);
        LineEndsExactly(p, q, k);
        AfterUnfolds(p, q, k);
        if x0 == q.x && y0 == q.y {
          StrokeIsThickLine(g, was, pixels[..], p, q, thickness / 2, color);
          break;
        }
        var twice := 2 * error;
        if twice >= dy {
          error := error + dy;
          x0 := x0 + sx;
        }
        if twice <= dx {
          error := error + dx;
          y0 := y0 + sy;
        }
        k := k + 1;
      }
    }
  }

  lemma PixelIsPainted(g: Geometry, was: seq<Byte>, now: seq<Byte>, x: nat, y: nat, color: Rgb)
    requires WellFormed(g) && x < g.width && y < g.height && |now| == |was|
    requires var pixel := PixelStart(g, x, y);
      forall k :: 0 <= k < |was| ==>
        now[k] == if pixel <= k < pixel + g.bytes then LaneByte(g, color, k - pixel) else was[k]
    ensures Painted(g, was, now, One(x, y), color)
  {
    assert g.pitch > 0 && g.bytes > 0;
    hide LaneByte, WellFormed, RowOf, ColumnOf, LaneOf, PixelStart;
    var pixel := PixelStart(g, x, y);
    forall k | 0 <= k < |was|
      ensures now[k] ==
        if InPixel(g, k) && ColumnOf(g, k) == x && RowOf(g, k) == y then LaneByte(g, color, LaneOf(g, k)) else was[k]
    {
      OwnerOfByte(g, x, y, k);
    }
  }

  /** Byte k is in pixel (x, y) exactly when it lies in the pixel's bytes, and its lane is its place there. */
  lemma OwnerOfByte(g: Geometry, x: nat, y: nat, k: nat)
    requires WellFormed(g) && x < g.width && y < g.height
    ensures var pixel := PixelStart(g, x, y);
      && (pixel <= k < pixel + g.bytes <==> InPixel(g, k) && ColumnOf(g, k) == x && RowOf(g, k) == y)
      && (pixel <= k < pixel + g.bytes ==> LaneOf(g, k) == k - pixel)
  {
    ByteIsPlaced(g, k);
    if PixelStart(g, x, y) <= k < PixelStart(g, x, y) + g.bytes {
      PixelBytes(g, x, y, k - PixelStart(g, x, y));
    }
  }

  lemma Repaint(g: Geometry, was: seq<Byte>, now: seq<Byte>, shape: Shape, same: Shape, color: Rgb)
    requires g.pitch > 0 && g.bytes > 0 && Painted(g, was, now, shape, color)
    requires forall x, y :: 0 <= x < g.width && 0 <= y < g.height ==> (shape(x, y) <==> same(x, y))
    ensures Painted(g, was, now, same, color)
  {
  }

  /** No pixel of the surface that is in the disc lies outside the box that fill_disc scans. */
  lemma DiscInBox(g: Geometry, cx: int, cy: int, radius: nat)
    requires EdgesFit(cx, cy, radius)
    ensures forall px, py {:trigger InDisc(px, py, cx, cy, radius)} ::
      0 <= px < g.width && 0 <= py < g.height && InDisc(px, py, cx, cy, radius) ==> InScan(g, cx, cy, radius, px, py)
  {
    hide InDisc;
    forall px, py {:trigger InDisc(px, py, cx, cy, radius)} |
      0 <= px < g.width && 0 <= py < g.height && InDisc(px, py, cx, cy, radius)
      ensures InScan(g, cx, cy, radius, px, py)
    {
      OutOfBox(px, py, cx, cy, radius);
      InEdges(px, cx, radius, g.width);
      InEdges(py, cy, radius, g.height);
    }
  }

  lemma InEdges(p: int, c: int, radius: nat, size: nat)
    requires 0 <= p < size && Int32(c + radius + 1)
    requires p - c <= radius && c - p <= radius
    ensures ScanStart(c, radius) <= p < ScanEnd(c, radius, size)
  {
    DivModUnique(c + radius + 1, U32, 0, c + radius + 1);
  }

  /** With both ends in the range nothing of a thick line overflows. */
  lemma RangedLineIsSafe(g: Geometry, p: Point, q: Point, thickness: nat)
    requires WellFormed(g) && DiscRange(p.x, p.y, thickness / 2) && DiscRange(q.x, q.y, thickness / 2)
    ensures LineFits(p, q)
    ensures forall k: nat :: k <= Turns(p, q) ==> DiscSafe(g, After(p, q, k).at.x, After(p, q, k).at.y, thickness / 2)
  {
    hide DiscSafe, LineFits, After;
    ShortLineFits(p, q);
    forall k: nat | k <= Turns(p, q)
      ensures DiscSafe(g, After(p, q, k).at.x, After(p, q, k).at.y, thickness / 2)
    {
      CentreBetween(p, q, k);
      DiscArithmeticFits(g, After(p, q, k).at.x, After(p, q, k).at.y, thickness / 2);
    }
  }

  lemma AfterUnfolds(p: Point, q: Point, k: nat)
    ensures After(p, q, 0) == Start(p, q) && After(p, q, k + 1) == Advance(After(p, q, k), p, q)
  {
  }

  lemma NoStroke(g: Geometry, was: seq<Byte>, p: Point, q: Point, radius: nat, color: Rgb)
    requires WellFormed(g)
    ensures Painted(g, was, was, Stroke(p, q, 0, radius), color)
  {
    hide Painted, InDisc, After;
    PaintNothing(g, was, Stroke(p, q, 0, radius), color);
  }

  /** With one more disc painted, one more centre of the stroke is. */
  lemma StrokePainted(g: Geometry, was: seq<Byte>, mid: seq<Byte>, now: seq<Byte>, p: Point, q: Point, k: nat, radius: nat,
    color: Rgb)
    requires WellFormed(g) && k <= Turns(p, q)
    requires Painted(g, was, mid, Stroke(p, q, k, radius), color)
    requires Painted(g, mid, now, Disc(After(p, q, k).at.x, After(p, q, k).at.y, radius), color)
    ensures Painted(g, was, now, Stroke(p, q, k + 1, radius), color)
  {
    hide Painted, InDisc, After;
    var at := After(p, q, k).at;
    StrokeGrows(g, p, q, k, radius);
    PaintBoth(g, was, mid, now, Stroke(p, q, k, radius), Disc(at.x, at.y, radius), Stroke(p, q, k + 1, radius), color);
  }

  lemma CentreInDisc(p: Point, q: Point, k: nat, radius: nat, px: int, py: int)
    requires k <= Turns(p, q)
    ensures InDisc(px, py, After(p, q, k).at.x, After(p, q, k).at.y, radius) <==>
      Near(px, py, Centre(p, q, k), radius)
  {
    hide After, Centre;
    CentreIs(p, q, k);
  }

  lemma StrokeIsThickLine(g: Geometry, was: seq<Byte>, now: seq<Byte>, p: Point, q: Point, radius: nat, color: Rgb)
    requires WellFormed(g) && Painted(g, was, now, Stroke(p, q, Turns(p, q) + 1, radius), color)
    ensures Painted(g, was, now, ThickLine(p, q, radius), color)
  {
    hide Painted, InDisc, Near, After, Centre;
    forall px, py
      ensures Stroke(p, q, Turns(p, q) + 1, radius)(px, py) <==> ThickLine(p, q, radius)(px, py)
    {
      if k: nat {:trigger After(p, q, k)} :| k <= Turns(p, q) && InDisc(px, py, After(p, q, k).at.x, After(p, q, k).at.y, radius) {
        CentreInDisc(p, q, k, radius, px, py);
      }
      if ThickLine(p, q, radius)(px, py) {
        var k: nat :| k <= Turns(p, q) && Near(px, py, Centre(p, q, k), radius);
        CentreInDisc(p, q, k, radius, px, py);
      }
    }
    Repaint(g, was, now, Stroke(p, q, Turns(p, q) + 1, radius), ThickLine(p, q, radius), color);
  }

  lemma StrokeGrows(g: Geometry, p: Point, q: Point, k: nat, radius: nat)
    requires k <= Turns(p, q)
    ensures var at := After(p, q, k).at;
      forall px, py :: Stroke(p, q, k + 1, radius)(px, py) <==> Stroke(p, q, k, radius)(px, py) || Disc(at.x, at.y, radius)(px, py)
  {
    hide InDisc;
    var at := After(p, q, k).at;
    forall px, py | Disc(at.x, at.y, radius)(px, py)
      ensures Stroke(p, q, k + 1, radius)(px, py)
    {
      assert InDisc(px, py, After(p, q, k).at.x, After(p, q, k).at.y, radius);
    }
  }
}
