/** aurelian-os-v1/kernel/vga.c: a scrolling 80 by 25 screen, and the endless page it is a window on. */
module Console {
  import opened Bits

  const WIDTH := 80
  const HEIGHT := 25

  /** uint16_t */
  type Cell = c: int | 0 <= c < 0x1_0000

  /** vga_entry */
  function Entry(c: Byte, color: Byte): Cell {
    OrAbove(c, color);
    Or(c, Shl(color, 8))
  }

  lemma OrAbove(c: Byte, color: Byte)
    ensures Or(c, Shl(color, 8)) == color * 256 + c
  {
    assert Pow2(8) == 256;
    OrDisjoint(color, 8, c);
    ShlIsMul(color, 8);
    OrCommutes(c, Shl(color, 8));
  }

  lemma {:induction false} OrCommutes(a: nat, b: nat)
    ensures Or(a, b) == Or(b, a)
  {
    if a > 0 && b > 0 {
      OrCommutes(a / 2, b / 2);
    }
  }

  /** The low byte of a cell is its character, the high byte its colour. */
  lemma CellBytes(c: Byte, color: Byte)
    ensures Entry(c, color) % 256 == c && Entry(c, color) / 256 == color
  {
    OrAbove(c, color);
    DivModUnique(color * 256 + c, 256, color, c);
  }

  // ---------- The driver's state ----------

  datatype Screen = Screen(cells: seq<Cell>, row: nat, col: nat, color: Byte)

  predicate OnScreen(s: Screen) {
    |s.cells| == WIDTH * HEIGHT && s.row < HEIGHT && s.col < WIDTH
  }

  /** vga_clear */
  function Cleared(color: Byte): Screen {
    Screen(seq(WIDTH * HEIGHT, _ => Entry(32, color)), 0, 0, color)
  }

  function ScrollUp(cells: seq<Cell>, color: Byte): (r: seq<Cell>)
    requires |cells| == WIDTH * HEIGHT
    ensures |r| == WIDTH * HEIGHT
  {
    cells[WIDTH..] + seq(WIDTH, _ => Entry(32, color))
  }

  /** vga_newline */
  function Newline(s: Screen): (r: Screen)
    requires |s.cells| == WIDTH * HEIGHT && s.row < HEIGHT
    ensures OnScreen(r) && r.col == 0 && r.color == s.color
  {
    if s.row + 1 < HEIGHT then s.(row := s.row + 1, col := 0)
    else s.(cells := ScrollUp(s.cells, s.color), row := HEIGHT - 1, col := 0)
  }

  /** vga_putc; 10 is newline, 13 carriage return, 9 tab. */
  function Putc(s: Screen, c: Byte): (r: Screen)
    requires OnScreen(s)
    ensures OnScreen(r) && r.color == s.color
  {
    if c == 10 then Newline(s)
    else if c == 13 then s.(col := 0)
    else if c == 9 then
      var col := (s.col + 8) / 8 * 8;
      if col >= WIDTH then Newline(s) else s.(col := col)
    else
      var s1 := s.(cells := s.cells[s.row * WIDTH + s.col := Entry(c, s.color)]);
      if s.col + 1 >= WIDTH then Newline(s1) else s1.(col := s.col + 1)
  }

  /** A character that is no newline, carriage return or tab stands, with the current colour, where the cursor was, one
      row up if that scrolled the screen; every other cell stays, but for a fresh row of spaces at the bottom. */
  lemma PutcWrites(s: Screen, c: Byte, i: nat)
    requires OnScreen(s) && c != 10 && c != 13 && c != 9 && i < 2000
    ensures var r, at := Putc(s, c), s.row * 80 + s.col;
      var up: nat := if s.row == 24 && s.col == 79 then 80 else 0;
      if i + up == at then r.cells[i] % 256 == c && r.cells[i] / 256 == s.color
      else if i + up < 2000 then r.cells[i] == s.cells[i + up]
      else r.cells[i] % 256 == 32 && r.cells[i] / 256 == s.color
  {
    hide Entry;
    CellBytes(c, s.color);
    CellBytes(32, s.color);
    var e := Entry(c, s.color);
    var written := s.cells[s.row * WIDTH + s.col := e];
    assert i < 2000 - WIDTH ==> ScrollUp(written, s.color)[i] == written[i + WIDTH];
  }

  datatype Op = Put(c: Byte) | SetColor(color: Byte) | Clear

  function Step(s: Screen, op: Op): (r: Screen)
    requires OnScreen(s)
    ensures OnScreen(r)
  {
    match op
    case Put(c) => Putc(s, c)
    case SetColor(color) => s.(color := color)
    case Clear => Cleared(s.color)
  }

  function Run(s: Screen, ops: seq<Op>): (r: Screen)
    requires OnScreen(s)
    ensures OnScreen(r)
    decreases |ops|
  {
    if ops == [] then s else Run(Step(s, ops[0]), ops[1..])
  }

  // ---------- The endless page ----------

  type Row = r: seq<Cell> | |r| == WIDTH witness seq(WIDTH, _ => 0)

  /** A terminal that never scrolls: line feeds past the last row add a row. */
  datatype Terminal = Terminal(rows: seq<Row>, row: nat, col: nat, color: Byte)

  function Blank(color: Byte): Row {
    seq(WIDTH, _ => Entry(32, color))
  }

  predicate OnPage(t: Terminal) {
    |t.rows| >= HEIGHT && |t.rows| - HEIGHT <= t.row < |t.rows| && t.col < WIDTH
  }

  function LineFeed(t: Terminal): (r: Terminal)
    requires OnPage(t)
    ensures OnPage(r)
  {
    if t.row + 1 < |t.rows| then t.(row := t.row + 1, col := 0)
    else t.(rows := t.rows + [Blank(t.color)], row := t.row + 1, col := 0)
  }

  function Type(t: Terminal, c: Byte): (r: Terminal)
    requires OnPage(t)
    ensures OnPage(r)
  {
    if c == 10 then LineFeed(t)
    else if c == 13 then t.(col := 0)
    else if c == 9 then
      var stop := t.col - t.col % 8 + 8;
      if stop == WIDTH then LineFeed(t) else t.(col := stop)
    else
      var written := t.(rows := t.rows[t.row := t.rows[t.row][t.col := Entry(c, t.color)]]);
      if t.col == WIDTH - 1 then LineFeed(written) else written.(col := t.col + 1)
  }

  function NewPage(color: Byte): Terminal {
    Terminal(seq(HEIGHT, _ => Blank(color)), 0, 0, color)
  }

  function TermStep(t: Terminal, op: Op): (r: Terminal)
    requires OnPage(t)
    ensures OnPage(r)
  {
    match op
    case Put(c) => Type(t, c)
    case SetColor(color) => t.(color := color)
    case Clear => NewPage(t.color)
  }

  function TermRun(t: Terminal, ops: seq<Op>): (r: Terminal)
    requires OnPage(t)
    ensures OnPage(r)
    decreases |ops|
  {
    if ops == [] then t else TermRun(TermStep(t, ops[0]), ops[1..])
  }

  function CellAt(cells: seq<Cell>, y: int, x: int): Cell
    requires |cells| == WIDTH * HEIGHT && 0 <= y < HEIGHT && 0 <= x < WIDTH
  {
    cells[y * WIDTH + x]
  }

  /** The screen shows the last 25 rows of the page, with the cursor where the page has it. */
  ghost predicate Shows(s: Screen, t: Terminal)
    requires OnScreen(s) && OnPage(t)
  {
    var top := |t.rows| - HEIGHT;
    && s.row == t.row - top && s.col == t.col && s.color == t.color
    && forall y, x :: 0 <= y < HEIGHT && 0 <= x < WIDTH ==> CellAt(s.cells, y, x) == t.rows[top + y][x]
  }

  lemma NewlineShows(s: Screen, t: Terminal)
    requires OnScreen(s) && OnPage(t) && Shows(s, t)
    ensures Shows(Newline(s), LineFeed(t))
  {
    hide Entry;
    var s', t' := Newline(s), LineFeed(t);
    if s.row + 1 == HEIGHT {
      var top := |t.rows| - HEIGHT;
      forall y, x | 0 <= y < HEIGHT && 0 <= x < WIDTH
        ensures CellAt(s'.cells, y, x) == t'.rows[top + 1 + y][x]
      {
        if y + 1 < HEIGHT {
          assert CellAt(s'.cells, y, x) == CellAt(s.cells, y + 1, x);
        }
      }
    }
  }

  lemma PutcShows(s: Screen, t: Terminal, c: Byte)
    requires OnScreen(s) && OnPage(t) && Shows(s, t)
    ensures Shows(Putc(s, c), Type(t, c))
  {
    hide Entry;
    if c == 10 {
      NewlineShows(s, t);
    } else if c == 9 {
      TabStops(s.col);
      if t.col - t.col % 8 + 8 == WIDTH {
        NewlineShows(s, t);
      }
    } else if c != 13 {
      var e := Entry(c, s.color);
      var s1 := s.(cells := s.cells[s.row * WIDTH + s.col := e]);
      var t1 := t.(rows := t.rows[t.row := t.rows[t.row][t.col := e]]);
      WriteShows(s, t, e);
      if s.col + 1 == WIDTH {
        NewlineShows(s1, t1);
      }
    }
  }

  lemma TabStops(col: nat)
    requires col < WIDTH
    ensures (col + 8) / 8 * 8 == col - col % 8 + 8 <= WIDTH
  {
  }

  lemma WriteShows(s: Screen, t: Terminal, e: Cell)
    requires OnScreen(s) && OnPage(t) && Shows(s, t)
    ensures Shows(s.(cells := s.cells[s.row * WIDTH + s.col := e]), t.(rows := t.rows[t.row := t.rows[t.row][t.col := e]]))
  {
    var s' := s.(cells := s.cells[s.row * WIDTH + s.col := e]);
    forall y, x | 0 <= y < HEIGHT && 0 <= x < WIDTH
      ensures CellAt(s'.cells, y, x) == if y == s.row && x == s.col then e else CellAt(s.cells, y, x)
    {
    }
  }

  /** After any stream of characters, colour changes and clears the screen is the last 25 rows of the
      endless page, and the cursor is on it. */
  lemma {:induction false} ScreenIsWindow(s: Screen, t: Terminal, ops: seq<Op>)
    requires OnScreen(s) && OnPage(t) && Shows(s, t)
    ensures Shows(Run(s, ops), TermRun(t, ops))
    decreases |ops|
  {
    if ops != [] {
      StepShows(s, t, ops[0]);
      ScreenIsWindow(Step(s, ops[0]), TermStep(t, ops[0]), ops[1..]);
    }
  }

  lemma StepShows(s: Screen, t: Terminal, op: Op)
    requires OnScreen(s) && OnPage(t) && Shows(s, t)
    ensures Shows(Step(s, op), TermStep(t, op))
  {
    hide Entry, Putc, Type, Shows;
    match op
    case Put(c) => PutcShows(s, t, c);
    case SetColor(color) => RecolorShows(s, t, color);
    case Clear => ClearedShows(s, t);
  }

  lemma RecolorShows(s: Screen, t: Terminal, color: Byte)
    requires OnScreen(s) && OnPage(t) && Shows(s, t)
    ensures Shows(s.(color := color), t.(color := color))
  {
    var s', t' := s.(color := color), t.(color := color);
    assert s'.cells == s.cells && t'.rows == t.rows;
  }

  lemma ClearedShows(s: Screen, t: Terminal)
    requires OnScreen(s) && OnPage(t) && Shows(s, t)
    ensures Shows(Cleared(s.color), NewPage(t.color))
  {
    hide Entry;
  }

  /** Rows that have left the window are never changed again, except by a clear. */
  lemma {:induction false} ScrolledRowsStay(t: Terminal, ops: seq<Op>)
    requires OnPage(t) && Clear !in ops
    ensures var r := TermRun(t, ops); var top := |t.rows| - HEIGHT;
      |r.rows| >= |t.rows| && r.rows[..top] == t.rows[..top]
    decreases |ops|
  {
    if ops != [] {
      assert ops[0] in ops;
      var u := TermStep(t, ops[0]);
      var top := |t.rows| - HEIGHT;
      assert |u.rows| >= |t.rows| && u.rows[..top] == t.rows[..top];
      ScrolledRowsStay(u, ops[1..]);
      var r := TermRun(t, ops);
      assert r.rows[..top] == r.rows[..|u.rows| - HEIGHT][..top];
      assert u.rows[..top] == u.rows[..|u.rows| - HEIGHT][..top];
    }
  }

  // ---------- The driver ----------

  class Vga {
    const buf: array<Cell>
    var row: nat
    var col: nat
    var color: Byte

    ghost predicate Valid()
      reads this, buf
    {
      buf.Length == WIDTH * HEIGHT && row < HEIGHT && col < WIDTH
    }

    ghost function State(): (s: Screen)
      reads this, buf
    {
      Screen(buf[..], row, col, color)
    }

    /** vga_init; light grey on black is 7. */
    constructor (memory: array<Cell>)
      requires memory.Length == WIDTH * HEIGHT
      modifies memory
      ensures Valid() && buf == memory && State() == Cleared(7)
    {
      buf, row, col, color := memory, 0, 0, 7;
      new;
      ClearScreen();
    }

    method SetTextColor(c: Byte)
      requires Valid()
      modifies this`color
      ensures Valid() && State() == Step(old(State()), SetColor(c))
    {
      color := c;
    }

    /** vga_clear */
    method ClearScreen()
      requires Valid()
      modifies buf, this`row, this`col
      ensures Valid() && State() == Step(old(State()), Clear)
    {
      for i := 0 to WIDTH * HEIGHT
        modifies buf
        invariant forall k :: 0 <= k < i ==> buf[k] == Entry(32, color)
      {
        buf[i] := Entry(32, color);
      }
      row := 0;
      col := 0;
    }

    /** vga_newline */
    method NewLine()
      requires buf.Length == WIDTH * HEIGHT && row < HEIGHT
      modifies buf, this`row, this`col
      ensures Valid() && State() == Newline(old(State()))
    {
      hide Entry;
      col := 0;
      row := row + 1;
      if row >= HEIGHT {
        ghost var was := buf[..];
        for y := 1 to HEIGHT
          modifies buf
          invariant forall k :: 0 <= k < (y - 1) * WIDTH ==> buf[k] == was[k + WIDTH]
          invariant forall k :: (y - 1) * WIDTH <= k < WIDTH * HEIGHT ==> buf[k] == was[k]
        {
          for x := 0 to WIDTH
            modifies buf
            invariant forall k :: 0 <= k < (y - 1) * WIDTH + x ==> buf[k] == was[k + WIDTH]
            invariant forall k :: (y - 1) * WIDTH + x <= k < WIDTH * HEIGHT ==> buf[k] == was[k]
          {
            buf[(y - 1) * WIDTH + x] := buf[y * WIDTH + x];
          }
        }
        for x := 0 to WIDTH
          modifies buf
          invariant forall k :: 0 <= k < (HEIGHT - 1) * WIDTH ==> buf[k] == was[k + WIDTH]
          invariant forall k :: (HEIGHT - 1) * WIDTH <= k < (HEIGHT - 1) * WIDTH + x ==> buf[k] == Entry(32, color)
        {
          buf[(HEIGHT - 1) * WIDTH + x] := Entry(32, color);
        }
        assert buf[..] == ScrollUp(was, color);
        row := HEIGHT - 1;
      }
    }

    /** vga_putc */
    method PutChar(c: Byte)
      requires Valid()
      modifies buf, this`row, this`col
      ensures Valid() && State() == Putc(old(State()), c)
    {
      hide Entry, ScrollUp;
      if c == 10 {
        NewLine();
        return;
      }
      if c == 13 {
        col := 0;
        return;
      }
      if c == 9 {
        col := (col + 8) / 8 * 8;
        if col >= WIDTH {
          NewLine();
        }
        return;
      }
      buf[row * WIDTH + col] := Entry(c, color);
      col := col + 1;
      if col >= WIDTH {
        NewLine();
      }
    }

    /** vga_puts, up to the terminating zero */
    method PutString(s: seq<Byte>)
      requires Valid() && exists n :: 0 <= n < |s| && s[n] == 0
      modifies buf, this`row, this`col
      ensures Valid() && State() == Run(old(State()), Typed(s))
    {
      var i := 0;
      ghost var was := State();
      assert s[0..] == s;
      while s[i] != 0
        invariant i < |s| && exists n :: i <= n < |s| && s[n] == 0
        invariant Valid() && Run(State(), Typed(s[i..])) == Run(was, Typed(s))
        decreases |s| - i
      {
        assert s[i..][1..] == s[i + 1..];
        PutChar(s[i]);
        i := i + 1;
      }
    }
  }

  /** They are its characters up to the first zero, in order. */
  lemma {:induction false} TypedIs(s: seq<Byte>, n: nat)
    requires n < |s| && s[n] == 0 && forall i :: 0 <= i < n ==> s[i] != 0
    ensures |Typed(s)| == n && forall i :: 0 <= i < n ==> Typed(s)[i] == Put(s[i])
    decreases n
  {
    if n > 0 {
      TypedIs(s[1..], n - 1);
    }
  }

  /** The characters of a zero-terminated string, as operations */
  function Typed(s: seq<Byte>): seq<Op> {
    if s == [] || s[0] == 0 then [] else [Put(s[0])] + Typed(s[1..])
  }
}
