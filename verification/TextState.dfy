/** The logical screen with its cursor and margins, as the control functions see it: what one character
    does, what a run of blanks does, and what inserting, deleting and erasing mean
    (src/drivers/terminal/flanterm/backends/fb.c:612-630, 789-809; flanterm/flanterm.c:557-773). */
module TextState {
  import opened Arithmetic
  import opened PendingCells

  /** The clamping of set_cursor_pos, whose sign test looks at the low 32 bits. */
  function ClampTo(v: nat, n: nat): (w: nat)
    requires 0 < n
    ensures w < n
  {
    if v < n then v else if v % U32 >= 0x8000_0000 then 0 else n - 1
  }

  /** Two stretches of cells. */
  datatype Reach = Stretches(lo: nat, hi: int, lo2: nat, hi2: int)
  {
    predicate Has(i: int) { lo <= i < hi || lo2 <= i < hi2 }
  }

  function BlankedIn(v: seq<Cell>, r: Reach, blank: Cell): (w: seq<Cell>)
    ensures |w| == |v|
    ensures forall i :: 0 <= i < |v| ==> w[i] == if r.Has(i) then blank else v[i]
  {
    Blanked(Blanked(v, r.lo, r.hi, blank), r.lo2, r.hi2, blank)
  }

  /** `x` may be `cols`: the next character then starts a new row. */
  datatype Text = Text(
    cols: nat, rows: nat, v: seq<Cell>,
    x: nat, y: nat, top: nat, bottom: nat,
    fg: nat, bg: nat, scrolls: bool)
  {
    ghost predicate Ok() {
      && 0 < cols && 0 < rows && |v| == rows * cols && top < rows && 0 < bottom <= rows
    }

    function Blank(): Cell { Cell(0x20, fg, bg) }

    function MoveTo(nx: nat, ny: nat): (t: Text)
      requires Ok()
      ensures t.Ok() && t.(x := x, y := y) == this && t.x < t.cols && t.y < t.rows
    {
      this.(x := ClampTo(nx, cols), y := ClampTo(ny, rows))
    }

    /** The cursor as reported: on screen. */
    function Column(): (c: nat)
      requires Ok()
      ensures c < cols
    {
      if x >= cols then cols - 1 else x
    }

    function Row(): (r: nat)
      requires Ok()
      ensures r < rows
    {
      if y >= rows then rows - 1 else y
    }

    predicate Wraps() {
      x >= cols && (y + 1 < bottom || scrolls)
    }

    /** The row after this one: the C code clamps it with the number of columns. */
    function NextRow(): nat
      requires Ok()
    {
      var next := if y + 1 == bottom then y else y + 1;
      if next >= cols then cols - 1 else next
    }

    /** A line feed by wrapping. */
    function Wrapped(): (t: Text)
      requires Ok()
      ensures t.Ok() && t.(v := v, x := x, y := y) == this
    {
      this.(v := if y + 1 == bottom then Scrolled(v, cols, rows, top, bottom, Blank()) else v, x := 0, y := NextRow())
    }

    /** One character at the cursor. */
    function Put(c: nat): (t: Text)
      requires Ok()
      ensures t.Ok() && t.(v := v, x := x, y := y) == this
    {
      var t := if Wraps() then Wrapped() else this;
      t.(v := PutCell(t.v, cols, rows, Cell(c, fg, bg), t.x, t.y), x := t.x + 1)
    }

    /** `n` blanks at the cursor. */
    function Blanks(n: nat): (t: Text)
      requires Ok()
      ensures t.Ok() && t.(v := v, x := x, y := y) == this
    {
      if n == 0 then this else Blanks(n - 1).Put(0x20)
    }

    /** The row after the last one that blanks run on into. */
    function End(): (e: nat)
      ensures y < e
    {
      if y + 1 < bottom then Max(y + 1, Min(bottom, cols)) else y + 1
    }

    function Limit(): nat { Pos(cols, 0, End()) }

    /** On a screen taller than wide a new row is never below row cols - 1: blanks that run past the limit
        start over there. */
    predicate Returns(n: nat) {
      cols < bottom && y + 1 < bottom && Pos(cols, x, y) + n > Limit()
    }

    /** The cells of `n` blanks from the cursor on. */
    function Reached(n: nat): Reach
      requires Ok()
    {
      var p, r := Pos(cols, x, y), Pos(cols, 0, cols - 1);
      if Returns(n) then Stretches(p, Limit(), r, r + Min(cols, p + n - Limit()))
      else Stretches(p, Min(p + n, Limit()), 0, 0)
    }
  }

  /** Without scrolling, blanks fill consecutive cells: they run on into the next rows, up to the end of
      the margin region, or of the row when it lies below the region; or start over. */
  lemma BlanksFill(t: Text, n: nat)
    requires t.Ok() && !t.scrolls && t.x <= t.cols
    ensures t.Blanks(n).v == BlankedIn(t.v, t.Reached(n), t.Blank())
    ensures t.x + n <= t.cols ==> t.Blanks(n).x == t.x + n && t.Blanks(n).y == t.y
  {
    hide PutCell, Text.Reached, BlankedIn, Pos;
    BlanksRun(t, n);
  }

  /** The cursor after `n` blanks: `n` cells on, or in row cols - 1. */
  ghost predicate BlanksState(t: Text, n: nat)
    requires t.Ok()
  {
    var p, u := Pos(t.cols, t.x, t.y), t.Blanks(n);
    && u.v == BlankedIn(t.v, t.Reached(n), t.Blank())
    && if t.Returns(n) then
         var c := p + n - t.Limit();
         u.y + 1 == t.cols && 1 <= u.x <= t.cols && u.x <= c && (c <= t.cols ==> u.x == c)
       else
         && Pos(t.cols, u.x, u.y) == p + n && t.y <= u.y && u.End() == t.End()
         && (u.x <= t.cols || t.bottom <= u.y + 1)
         && (t.x + n <= t.cols ==> u.x == t.x + n && u.y == t.y)
  }

  lemma {:induction false} BlanksRun(t: Text, n: nat)
    requires t.Ok() && !t.scrolls && t.x <= t.cols
    ensures BlanksState(t, n)
  {
    hide PutCell, Pos, Text.Reached, BlankedIn, BlanksState;
    if n == 0 {
      NoBlanks(t);
    } else {
      BlanksRun(t, n - 1);
      if t.Returns(n - 1) {
        BlanksInLastRow(t, n - 1);
      } else if t.Returns(n) {
        BlanksReturn(t, n - 1);
      } else {
        BlanksGoOn(t, n - 1);
      }
    }
  }

  lemma NoBlanks(t: Text)
    requires t.Ok() && t.x <= t.cols
    ensures BlanksState(t, 0)
  {
    MulLe(t.y + 1, t.End(), t.cols);
    assert (t.y + 1) * t.cols == t.y * t.cols + t.cols;
    assert BlankedIn(t.v, t.Reached(0), t.Blank()) == t.v;
  }

  lemma PutBlank(u: Text)
    requires u.Ok() && !u.scrolls
    ensures var px, py := if u.Wraps() then 0 else u.x, if u.Wraps() then Min(u.y + 1, u.cols - 1) else u.y;
            var w := u.Put(0x20);
            w.x == px + 1 && w.y == py && w.v == PutCell(u.v, u.cols, u.rows, u.Blank(), px, py)
  {
    hide PutCell, Scrolled;
  }

  /** Until blanks start over. */
  lemma OneStretch(t: Text, n: nat)
    requires t.Ok() && !t.Returns(n)
    ensures BlankedIn(t.v, t.Reached(n), t.Blank()) == Blanked(t.v, Pos(t.cols, t.x, t.y), Min(Pos(t.cols, t.x, t.y) + n, t.Limit()), t.Blank())
  {
  }

  /** One more blank goes to the next cell in line, or nowhere. */
  lemma BlanksGoOn(t: Text, n: nat)
    requires t.Ok() && !t.scrolls && t.x <= t.cols && BlanksState(t, n) && !t.Returns(n) && !t.Returns(n + 1)
    ensures BlanksState(t, n + 1)
  {
    hide PutCell, Blanked, Pos;
    var p, u := Pos(t.cols, t.x, t.y), t.Blanks(n);
    var px, py := if u.Wraps() then 0 else u.x, if u.Wraps() then u.y + 1 else u.y;
    PutBlank(u);
    NextInLine(t.cols, u.x, u.y, px, py);
    OneStretch(t, n);
    OneStretch(t, n + 1);
    if u.Wraps() && t.cols < t.bottom {
      BelowEnd(t.cols, u.y, t.End());
    }
    NextBlank(u.v, t.v, t.cols, t.rows, p, p + n, px, py, t.End(), t.Blank());
  }

  /** A cursor at the end of a row before the last one. */
  lemma BelowEnd(cols: nat, y: nat, end: nat)
    requires 0 < cols
    ensures Pos(cols, cols, y) < Pos(cols, 0, end) ==> y + 1 < end
    ensures Pos(cols, cols, y) == Pos(cols, 0, end) ==> y + 1 == end
  {
    assert Pos(cols, cols, y) == (y + 1) * cols;
    if end <= y {
      MulLe(end, y, cols);
    } else if end != y + 1 {
      MulLe(y + 2, end, cols);
    }
  }

  lemma NextInLine(cols: nat, x: nat, y: nat, px: nat, py: nat)
    requires (px == x && py == y) || (x == cols && px == 0 && py == y + 1)
    ensures Pos(cols, px, py) == Pos(cols, x, y) && Pos(cols, px + 1, py) == Pos(cols, x, y) + 1
  {
  }

  lemma NextBlank(u: seq<Cell>, v: seq<Cell>, cols: nat, rows: nat, p: nat, q: nat, px: nat, py: nat, last: nat, blank: Cell)
    requires |v| == rows * cols && 0 < cols && p <= q == Pos(cols, px, py) && py < last
    requires px < cols || last == py + 1
    requires u == Blanked(v, p, Min(q, Pos(cols, 0, last)), blank)
    ensures |u| == |v| && PutCell(u, cols, rows, blank, px, py) == Blanked(v, p, Min(q + 1, Pos(cols, 0, last)), blank)
  {
    MulLe(py + 1, last, cols);
    assert (py + 1) * cols == py * cols + cols;
    if px < cols {
      if py < rows {
        PosInRange(cols, rows, px, py);
      } else {
        MulLe(rows, py, cols);
      }
    }
  }

  /** The first blank past the limit starts row cols - 1. */
  lemma BlanksReturn(t: Text, n: nat)
    requires t.Ok() && !t.scrolls && t.x <= t.cols && BlanksState(t, n) && !t.Returns(n) && t.Returns(n + 1)
    ensures BlanksState(t, n + 1)
  {
    hide PutCell, Blanked, Pos;
    var u := t.Blanks(n);
    PutBlank(u);
    AtLimit(t.cols, u.x, u.y, t.End());
    OneStretch(t, n);
    OneBlank(Blanked(t.v, Pos(t.cols, t.x, t.y), t.Limit(), t.Blank()), t.cols, t.rows, 0, t.Blank());
  }

  lemma AtLimit(cols: nat, x: nat, y: nat, end: nat)
    requires 0 < cols && x <= cols && y < end && Pos(cols, x, y) == Pos(cols, 0, end)
    ensures x == cols && y + 1 == end
  {
    MulLe(y + 1, end, cols);
    assert (y + 1) * cols == y * cols + cols;
    BelowEnd(cols, y, end);
  }

  /** One more blank in row cols - 1 of which the first `c` cells are blank already. */
  lemma OneBlank(v: seq<Cell>, cols: nat, rows: nat, c: nat, blank: Cell)
    requires |v| == rows * cols && 0 < cols <= rows && c < cols
    ensures var r := Pos(cols, 0, cols - 1);
            PutCell(Blanked(v, r, r + c, blank), cols, rows, blank, c, cols - 1) == Blanked(v, r, r + c + 1, blank)
    ensures c == 0 ==> Blanked(v, Pos(cols, 0, cols - 1), Pos(cols, 0, cols - 1), blank) == v
  {
    PosInRange(cols, rows, c, cols - 1);
  }

  lemma SameBlank(v: seq<Cell>, cols: nat, rows: nat, x: nat, blank: Cell)
    requires |v| == rows * cols && x < cols <= rows
    ensures var r := Pos(cols, 0, cols - 1);
            PutCell(Blanked(v, r, r + cols, blank), cols, rows, blank, x, cols - 1) == Blanked(v, r, r + cols, blank)
  {
    PosInRange(cols, rows, x, cols - 1);
  }

  lemma BlanksInLastRow(t: Text, n: nat)
    requires t.Ok() && !t.scrolls && t.x <= t.cols && BlanksState(t, n) && t.Returns(n)
    ensures BlanksState(t, n + 1)
  {
    hide PutCell, Blanked, Pos;
    var u, c := t.Blanks(n), Pos(t.cols, t.x, t.y) + n - t.Limit();
    var w := Blanked(t.v, Pos(t.cols, t.x, t.y), t.Limit(), t.Blank());
    PutBlank(u);
    if c < t.cols {
      OneBlank(w, t.cols, t.rows, c, t.Blank());
    } else {
      SameBlank(w, t.cols, t.rows, if u.x < t.cols then u.x else 0, t.Blank());
    }
  }

  /** When a character takes the cursor off the bottom of the screen: from the pending wrap of the last row,
      below a region that ends higher up, on a screen wider than tall.  It does not come back by itself. */
  lemma CursorLeavesScreen(t: Text, c: nat)
    requires t.Ok() && t.scrolls && t.x <= t.cols
    ensures t.y < t.rows ==>
              (t.Put(c).y >= t.rows <==> t.x == t.cols && t.y + 1 == t.rows && t.bottom < t.rows < t.cols)
    ensures t.y >= t.rows && t.rows < t.cols ==> t.Put(c).y >= t.rows && t.Put(c).v == t.v
  {
    hide Scrolled;
  }
}
