/** fill_rounded_rect clips its box first and rounds what is left: when that is the box asked for, cut off
    at the edges of the surface. */
module RoundedBox {
  import opened Bits
  import opened Raster
  import opened Renderer

  function Radius(radius: nat, width: nat, height: nat): (r: nat)
    ensures 2 * r <= width && 2 * r <= height && r <= radius
  {
    Min(radius, Min(width / 2, height / 2))
  }

  /** The box asked for, rounded as it would be on a surface without edges */
  ghost function Asked(x: nat, y: nat, width: nat, height: nat, radius: nat): Shape {
    (px, py) => x <= px < x + width && y <= py < y + height &&
      InRounded(px - x, py - y, width, height, Radius(radius, width, height))
  }

  ghost predicate SameOnSurface(g: Geometry, s: Shape, t: Shape) {
    forall px, py :: 0 <= px < g.width && 0 <= py < g.height ==> (s(px, py) <==> t(px, py))
  }

  predicate OnSurface(g: Geometry, x: nat, y: nat, width: nat, height: nat) {
    x + width <= g.width && y + height <= g.height
  }

  function Square(v: int): int { v * v }

  /** The squared distance of a point to the inner rectangle */
  function Distance(a: nat, b: nat, width: nat, height: nat, r: nat): int {
    Square(Outside(a, width, r)) + Square(Outside(b, height, r))
  }

  lemma InRoundedIs(a: nat, b: nat, width: nat, height: nat, r: nat)
    requires a < width && b < height && 2 * r <= width && 2 * r <= height
    ensures InRounded(a, b, width, height, r) <==> Distance(a, b, width, height, r) <= Square(r)
  {
    RoundedIsDistance(a, b, width, height, r);
  }

  /** A pixel of the part on the surface that tells the two shapes apart, when part of the box is cut off:
      w and h are what is left of width and height. */
  lemma CutTellsApart(w: nat, h: nat, width: nat, height: nat, radius: nat) returns (a: nat, b: nat)
    requires 0 < w <= width && 0 < h <= height && (w < width || h < height)
    requires Radius(radius, width, height) > 0
    requires !(w == 2 && h == 2 && Radius(radius, width, height) >= 4)
    ensures a < w && b < h
    ensures InRounded(a, b, w, h, Radius(radius, w, h)) != InRounded(a, b, width, height, Radius(radius, width, height))
  {
    hide InRounded;
    var r, r0 := Radius(radius, w, h), Radius(radius, width, height);
    if r == r0 {
      if w < width {
        a, b := w - 1, r - 1;
      } else {
        a, b := r - 1, h - 1;
      }
      var da, db := Outside(a, width, r0), Outside(b, height, r0);
      // painted: r and 1 off the inner rectangle; asked: at most r - 1 and 1
      SquareAbove(r);
      SquareBelow(if w < width then da else db, r);
    } else if r == 0 {
      a, b := 0, 0;
      TwoSquares(r0);
    } else if h > 2 * r {
      a, b := 0, r;
      MoreThanSquare(r0, r0 - r);
    } else if w > 2 * r {
      a, b := r, 0;
      MoreThanSquare(r0, r0 - r);
    } else {
      a, b := SquareCut(width, height, r, r0);
    }
    InRoundedIs(a, b, w, h, r);
    InRoundedIs(a, b, width, height, r0);
  }

  /** The part left is 2r by 2r, rounded by r to a disc, where the box is rounded by more. */
  lemma SquareCut(width: nat, height: nat, r: nat, r0: nat) returns (a: nat, b: nat)
    requires 0 < r < r0 && 2 * r0 <= width && 2 * r0 <= height && (r == 1 ==> r0 <= 3)
    ensures a < 2 * r && b < 2 * r
    ensures (Distance(a, b, 2 * r, 2 * r, r) <= Square(r)) != (Distance(a, b, width, height, r0) <= Square(r0))
  {
    var d := r0 - r;
    if r == 1 {
      a, b := 1, 1;
      assert r0 == 2 || r0 == 3;
    } else if d >= r {
      a, b := 1, r - 1;
      // painted: r - 1 and 1 off; asked: r0 - 1 and d + 1
      SquareBelow(r - 1, r);
      FarCorner(r, d);
    } else {
      a, b := 2 * r - 1, r - 1;
      // painted: r and 1 off; asked: at most r - d and exactly d + 1
      SquareAbove(r);
      var da := Outside(a, width, r0);
      assert 0 <= da <= r - d;
      MulMonotone(da, r - d, da, r - d);
      NearEdge(r, d);
    }
  }

  lemma SquareAbove(r: nat)
    ensures Square(r) + Square(1) > Square(r)
  {
  }

  lemma SquareBelow(v: nat, r: nat)
    requires v + 1 <= r
    ensures Square(v) + Square(1) <= Square(r)
  {
    MulMonotone(v + 1, r, v + 1, r);
    Distribute(v, 1, v + 1);
  }

  lemma TwoSquares(r: nat)
    requires r > 0
    ensures Square(r) + Square(r) > Square(r)
  {
    MulAtLeast(r, r);
  }

  lemma MoreThanSquare(r: nat, d: nat)
    requires d > 0
    ensures Square(r) + Square(d) > Square(r)
  {
    MulAtLeast(d, d);
  }

  lemma FarCorner(r: nat, d: nat)
    requires 2 <= r <= d
    ensures Square(r + d - 1) + Square(d + 1) > Square(r + d)
  {
    var s := r + d;
    assert Square(s) == Square(s - 1) + 2 * s - 1 by {
      Distribute(s - 1, 1, s - 1);
      Distribute(s - 1, 1, s);
    }
    assert Square(d + 1) == Square(d) + 2 * d + 1 by {
      Distribute(d, 1, d + 1);
    }
    MulMonotone(r, d, r, d);
    MulMonotone(2, r, r, r);
  }

  lemma NearEdge(r: nat, d: nat)
    requires 1 <= d < r
    ensures Square(r - d) + Square(d + 1) <= Square(r + d)
  {
    assert Square(r + d) - Square(r - d) == 4 * (r * d);
    assert Square(d + 1) == Square(d) + 2 * d + 1;
    MulMonotone(d + 1, r, d, d);
    Distribute(d, 1, d);
    MulAtLeast(d, d);
  }

  /** Only the pixels of the part on the surface matter. */
  lemma DifferOnSurface(g: Geometry, x: nat, y: nat, width: nat, height: nat, radius: nat)
    requires x < g.width && y < g.height && !OnSurface(g, x, y, width, height)
    requires Radius(radius, width, height) > 0
    requires var w, h := Min(width, g.width - x), Min(height, g.height - y);
      !(w == 2 && h == 2 && Radius(radius, width, height) >= 4)
    ensures !SameOnSurface(g, Rounded(g, x, y, width, height, radius), Asked(x, y, width, height, radius))
  {
    hide InRounded;
    var w, h := Min(width, g.width - x), Min(height, g.height - y);
    var a, b := CutTellsApart(w, h, width, height, radius);
    assert Rounded(g, x, y, width, height, radius)(x + a, y + b) != Asked(x, y, width, height, radius)(x + a, y + b);
  }

  /** What is left is two by two pixels, of which the box asked for has none either. */
  lemma TwoByTwo(a: nat, b: nat, width: nat, height: nat, r0: nat)
    requires a < 2 && b < 2 && r0 >= 4 && 2 * r0 <= width && 2 * r0 <= height
    ensures !InRounded(a, b, 2, 2, 1) && !InRounded(a, b, width, height, r0)
  {
    InRoundedIs(a, b, 2, 2, 1);
    InRoundedIs(a, b, width, height, r0);
    MulMonotone(r0 - 1, r0 - a, r0 - 1, r0 - a);
    MulMonotone(r0 - 1, r0 - b, r0 - 1, r0 - b);
    assert Square(r0) == Square(r0 - 1) + 2 * r0 - 1 by {
      Distribute(r0 - 1, 1, r0 - 1);
      Distribute(r0 - 1, 1, r0);
    }
    MulMonotone(3, r0 - 1, r0 - 1, r0 - 1);
  }

  /** fill_rounded_rect paints the box asked for, cut off at the edges of the surface, if and only if the
      box lies on the surface, or is not rounded, or what is left of it is two by two pixels of a corner
      rounded by at least 4. */
  lemma RoundedIsAskedIff(g: Geometry, x: nat, y: nat, width: nat, height: nat, radius: nat)
    requires x < g.width && y < g.height
    ensures var w, h := Min(width, g.width - x), Min(height, g.height - y);
      var r0 := Radius(radius, width, height);
      SameOnSurface(g, Rounded(g, x, y, width, height, radius), Asked(x, y, width, height, radius)) <==>
        OnSurface(g, x, y, width, height) || r0 == 0 || (w == 2 && h == 2 && r0 >= 4)
  {
    hide InRounded;
    var w, h := Min(width, g.width - x), Min(height, g.height - y);
    var r0 := Radius(radius, width, height);
    if OnSurface(g, x, y, width, height) {
    } else if r0 == 0 {
      forall px, py | 0 <= px < g.width && 0 <= py < g.height
        ensures Rounded(g, x, y, width, height, radius)(px, py) == Asked(x, y, width, height, radius)(px, py)
      {
        if x <= px < x + w && y <= py < y + h {
          Unrounded(px - x, py - y, w, h);
          Unrounded(px - x, py - y, width, height);
        }
      }
    } else if w == 2 && h == 2 && r0 >= 4 {
      forall px, py | 0 <= px < g.width && 0 <= py < g.height
        ensures Rounded(g, x, y, width, height, radius)(px, py) == Asked(x, y, width, height, radius)(px, py)
      {
        if x <= px < x + 2 && y <= py < y + 2 {
          TwoByTwo(px - x, py - y, width, height, r0);
        }
      }
    } else {
      DifferOnSurface(g, x, y, width, height, radius);
    }
  }

  lemma Unrounded(a: nat, b: nat, width: nat, height: nat)
    requires a < width && b < height
    ensures InRounded(a, b, width, height, 0)
  {
  }

  /** A 10 by 10 box of radius 2 that hangs one pixel over the right edge: pixel 7 of its top row is on the
      surface and in the box asked for, and is not painted. */
  lemma HangingBoxLosesPixel(g: Geometry, x: nat, y: nat)
    requires x + 9 == g.width && y + 10 <= g.height
    ensures Asked(x, y, 10, 10, 2)(x + 7, y) && !Rounded(g, x, y, 10, 10, 2)(x + 7, y)
  {
    assert Min(10, g.width - x) == 9 && Min(10, g.height - y) == 10;
    assert Radius(2, 10, 10) == 2 && x + 7 - x == 7 && y - y == 0;
    assert InRounded(7, 0, 10, 10, 2) && !InRounded(7, 0, 9, 10, 2);
  }
}
