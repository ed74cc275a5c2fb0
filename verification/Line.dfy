/** The loop of draw_thick_line: Bresenham's error accumulator in all octants. */
module Line {
  import opened Bits

  datatype Point = Point(x: int, y: int)

  function Abs(v: int): int { if v < 0 then -v else v }
  function Max(a: int, b: int): int { if a > b then a else b }

  /** The variables of the loop: the current centre and the error */
  datatype Pen = Pen(at: Point, error: int)

  function DeltaX(p: Point, q: Point): int { Abs(q.x - p.x) }
  function DeltaY(p: Point, q: Point): int { Abs(q.y - p.y) }
  function StepX(p: Point, q: Point): int { if p.x < q.x then 1 else -1 }
  function StepY(p: Point, q: Point): int { if p.y < q.y then 1 else -1 }

  function Start(p: Point, q: Point): Pen {
    Pen(p, DeltaX(p, q) - DeltaY(p, q))
  }

  /** One turn of the loop; dy of the source is -DeltaY. */
  function Advance(pen: Pen, p: Point, q: Point): Pen {
    var dx: int, dy: int := DeltaX(p, q), -DeltaY(p, q);
    var twice := 2 * pen.error;
    var (error1, x1) := if twice >= dy then (pen.error + dy, pen.at.x + StepX(p, q)) else (pen.error, pen.at.x);
    var (error2, y2) := if twice <= dx then (error1 + dx, pen.at.y + StepY(p, q)) else (error1, pen.at.y);
    Pen(Point(x1, y2), error2)
  }

  /** The pen after k turns */
  function After(p: Point, q: Point, k: nat): Pen {
    if k == 0 then Start(p, q) else Advance(After(p, q, k - 1), p, q)
  }

  /** The number of turns until the loop breaks */
  function Turns(p: Point, q: Point): int {
    Max(DeltaX(p, q), DeltaY(p, q))
  }

  /** x moves and y moves made so far */
  function MovesX(p: Point, q: Point, at: Point): int { StepX(p, q) * (at.x - p.x) }
  function MovesY(p: Point, q: Point, at: Point): int { StepY(p, q) * (at.y - p.y) }

  /** How far, scaled by the larger delta, the centre is off the ideal line */
  function Deviation(p: Point, q: Point, at: Point): int {
    MovesY(p, q, at) * DeltaX(p, q) - MovesX(p, q, at) * DeltaY(p, q)
  }

  /** At most half a pixel off the line, and at a tie on the side the loop takes: one move further along the shorter
      delta */
  predicate OffBy(twice: int, dx: int, dy: int) {
    if dx == 0 == dy then twice == 0
    else if dx >= dy then -dx < twice <= dx
    else -dy <= twice < dy
  }

  /** What holds before turn k + 1 */
  predicate OnLine(p: Point, q: Point, pen: Pen, k: nat) {
    var dx, dy, n := DeltaX(p, q), DeltaY(p, q), Turns(p, q);
    var i, j := MovesX(p, q, pen.at), MovesY(p, q, pen.at);
    && pen.error == Deviation(p, q, pen.at) + dx - dy
    && OffBy(2 * Deviation(p, q, pen.at), dx, dy)
    && 0 <= i <= dx && 0 <= j <= dy
    && (if dx >= dy then i == k else j == k)
  }

  // Twice a deviation within n of 0 keeps the minor moves within the minor delta.
  lemma MinorStays(minor: int, major: int, a: int, d: nat)
    requires 0 <= major <= d && 0 <= a <= d && d > 0
    requires 2 * (minor * d - major * a) <= d
    ensures minor <= a
  {
    if minor >= a + 1 {
      Distribute(a, minor - a, d);
      MulAtLeast(minor - a, d);
      MulMonotone(major, d, a, a);
    }
  }

  lemma TurnStaysOnLine(p: Point, q: Point, pen: Pen, k: nat)
    requires k < Turns(p, q) && OnLine(p, q, pen, k)
    ensures OnLine(p, q, Advance(pen, p, q), k + 1)
  {
    var dx, dy := DeltaX(p, q), DeltaY(p, q);
    var i, j := MovesX(p, q, pen.at), MovesY(p, q, pen.at);
    var next := Advance(pen, p, q);
    Distribute(i, 1, dy);
    Distribute(j, 1, dx);
    var i', j' := MovesX(p, q, next.at), MovesY(p, q, next.at);
    assert i' == i || i' == i + 1;
    assert j' == j || j' == j + 1;
    if dx >= dy {
      MinorStays(j', i', dy, dx);
    } else {
      MinorStays(i', j', dx, dy);
    }
  }

  /** For all endpoints and every turn up to the last: the pen has made k moves along the longer
      delta, has not overshot along either, and is off the ideal line by at most half a pixel. */
  lemma {:induction false} PenStaysOnLine(p: Point, q: Point, k: nat)
    requires k <= Turns(p, q)
    ensures OnLine(p, q, After(p, q, k), k)
  {
    if k > 0 {
      PenStaysOnLine(p, q, k - 1);
      TurnStaysOnLine(p, q, After(p, q, k - 1), k - 1);
    } else {
      assert MovesX(p, q, p) == 0 && MovesY(p, q, p) == 0;
    }
  }

  /** The loop meets its end test exactly at turn max(|dx|, |dy|), and not before. */
  lemma LineEndsExactly(p: Point, q: Point, k: nat)
    requires k <= Turns(p, q)
    ensures After(p, q, k).at == q <==> k == Turns(p, q)
  {
    PenStaysOnLine(p, q, k);
    var at := After(p, q, k).at;
    var dx, dy := DeltaX(p, q), DeltaY(p, q);
    var i, j := MovesX(p, q, at), MovesY(p, q, at);
    if k == Turns(p, q) {
      if dx >= dy {
        AtTheEnd(j, dy, dx);
      } else {
        AtTheEnd(i, dx, dy);
      }
    }
  }

  lemma AtTheEnd(minor: int, a: int, d: int)
    requires 0 <= a <= d && -d <= 2 * (minor * d - d * a) <= d && 0 <= minor <= a
    ensures minor == a
  {
    if minor < a {
      Distribute(minor, a - minor, d);
      MulAtLeast(a - minor, d);
    }
  }

  /** The k-th centre in closed form: k moves along the longer delta, and along the shorter one the nearest number of
      moves, the larger one at a tie */
  function Centre(p: Point, q: Point, k: nat): Point {
    var dx: int, dy: int := DeltaX(p, q), DeltaY(p, q);
    if dx == 0 == dy then p
    else if dx >= dy then Point(p.x + StepX(p, q) * k, p.y + StepY(p, q) * ((2 * (k * dy) + dx) / (2 * dx)))
    else Point(p.x + StepX(p, q) * ((2 * (k * dx) + dy) / (2 * dy)), p.y + StepY(p, q) * k)
  }

  lemma NearestMoves(minor: int, d: int, along: int)
    requires d > 0 && -d < 2 * (minor * d - along) <= d
    ensures (2 * along + d) / (2 * d) == minor
  {
    DivModUnique(2 * along + d, 2 * d, minor, d - 2 * (minor * d - along));
  }

  lemma MovesBack(p: Point, q: Point, at: Point)
    ensures at.x == p.x + StepX(p, q) * MovesX(p, q, at) && at.y == p.y + StepY(p, q) * MovesY(p, q, at)
  {
  }

  /** The loop draws exactly these centres. */
  lemma CentreIs(p: Point, q: Point, k: nat)
    requires k <= Turns(p, q)
    ensures After(p, q, k).at == Centre(p, q, k)
  {
    PenStaysOnLine(p, q, k);
    var at := After(p, q, k).at;
    var dx, dy := DeltaX(p, q), DeltaY(p, q);
    MovesBack(p, q, at);
    hide After, DeltaX, DeltaY, StepX, StepY, MovesX, MovesY;
    if dx > 0 && dx >= dy {
      NearestMoves(MovesY(p, q, at), dx, k * dy);
    } else if dy > dx {
      NearestMoves(MovesX(p, q, at), dy, k * dx);
    }
  }

  /** Each turn moves to one of the eight neighbours. */
  lemma EveryTurnMoves(p: Point, q: Point, k: nat)
    requires k < Turns(p, q)
    ensures var a, b := After(p, q, k).at, After(p, q, k + 1).at;
      a != b && Abs(b.x - a.x) <= 1 && Abs(b.y - a.y) <= 1
  {
    PenStaysOnLine(p, q, k);
    PenStaysOnLine(p, q, k + 1);
  }

  /** While three times the longer delta is below 2^31 no value of the error, doubled or half-updated, leaves int32_t. */
  lemma ErrorFits(p: Point, q: Point, k: nat)
    requires k <= Turns(p, q) && 3 * Turns(p, q) < 0x8000_0000
    ensures var e := After(p, q, k).error;
      && Int32(e) && Int32(2 * e) && Int32(e - DeltaY(p, q)) && Int32(e + DeltaX(p, q))
      && Int32(e - DeltaY(p, q) + DeltaX(p, q))
  {
    PenStaysOnLine(p, q, k);
  }

  /** What one turn computes from an error fits int32_t. */
  predicate TurnFits(p: Point, q: Point, e: int) {
    var half := if 2 * e >= -DeltaY(p, q) then e - DeltaY(p, q) else e;
    Int32(2 * e) && Int32(half) && (2 * e <= DeltaX(p, q) ==> Int32(half + DeltaX(p, q)))
  }

  /** Every value the loop computes fits int32_t: the differences and their absolute values, and the error
      at every turn. */
  ghost predicate LineFits(p: Point, q: Point) {
    && Int32(q.x - p.x) && Int32(DeltaX(p, q)) && Int32(q.y - p.y) && Int32(DeltaY(p, q))
    && forall k: nat {:trigger After(p, q, k)} :: k < Turns(p, q) ==> TurnFits(p, q, After(p, q, k).error)
  }

  lemma ShortLineFits(p: Point, q: Point)
    requires 3 * Turns(p, q) < 0x8000_0000
    ensures LineFits(p, q)
  {
    hide After;
    forall k: nat {:trigger After(p, q, k)} | k < Turns(p, q)
      ensures TurnFits(p, q, After(p, q, k).error)
    {
      ErrorFits(p, q, k);
    }
  }

  /** Every centre lies in the box spanned by the endpoints. */
  lemma CentreBetween(p: Point, q: Point, k: nat)
    requires k <= Turns(p, q)
    ensures var at := After(p, q, k).at;
      && (p.x <= at.x <= q.x || q.x <= at.x <= p.x) && (p.y <= at.y <= q.y || q.y <= at.y <= p.y)
  {
    PenStaysOnLine(p, q, k);
  }
}
