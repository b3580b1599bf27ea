/** What the control functions of the terminal do to the logical screen, against ECMA-48
    (src/drivers/terminal/flanterm/flanterm.c:542-773).  Where the C code departs from the standard, the
    exact condition is proved. */
module ControlFunctions {
  import opened Arithmetic
  import opened PendingCells
  import opened TextState

  // ---------------------------------------------------------------------------------------------
  // Cursor motion
  // ---------------------------------------------------------------------------------------------

  /** CUU: the top margin stops a cursor that starts below it. */
  function RowUp(y: nat, n: nat, top: nat): nat {
    Max(if top <= y then top else 0, y - n)
  }

  /** CUD: the bottom margin stops a cursor that starts above it, and pulls up one that is just below. */
  function RowDown(y: nat, n: nat, bottom: nat, rows: nat): nat
    requires 0 < bottom <= rows
  {
    if y <= bottom then Min(y + n, bottom - 1) else Min(y + n, rows - 1)
  }

  /** CUD moves down, by as much as the margins allow, unless the cursor is just below the region. */
  lemma DownMovesDown(y: nat, n: nat, top: nat, bottom: nat, rows: nat)
    requires top < bottom <= rows && y < rows
    ensures RowDown(y, n, bottom, rows) < rows
    ensures y <= RowDown(y, n, bottom, rows) <==> y != bottom
    ensures top <= y < bottom ==> top <= RowDown(y, n, bottom, rows) < bottom && top <= RowUp(y, n, top) < bottom
    ensures RowUp(y, n, top) <= y
    ensures top <= y < bottom && y + n < bottom ==> RowUp(RowDown(y, n, bottom, rows), n, top) == y
  {
  }

  // ---------------------------------------------------------------------------------------------
  // Inserting and deleting characters
  // ---------------------------------------------------------------------------------------------

  /** Columns `lo` up to `cols` of the row that starts at `base` moved right by `n`; a count of zero blanks
      them all. */
  function InsertedAt(v: seq<Cell>, base: nat, cols: nat, lo: nat, n: nat, blank: Cell): (w: seq<Cell>)
    ensures |w| == |v|
  {
    seq(|v|, i requires 0 <= i < |v| =>
      if base + lo <= i < base + cols then
        if 0 < n && base + lo <= i - n then v[i - n] else blank
      else v[i])
  }

  lemma InsertedNothing(v: seq<Cell>, base: nat, cols: nat, n: nat, blank: Cell)
    ensures InsertedAt(v, base, cols, cols, n, blank) == v
  {
  }

  /** One round of the loop: column `lo` moved right and blanked. */
  lemma InsertedStep(v: seq<Cell>, base: nat, cols: nat, lo: nat, n: nat, blank: Cell)
    requires lo < cols && base + cols <= |v|
    ensures var w := InsertedAt(v, base, cols, lo + 1, n, blank);
            && w[base + lo] == v[base + lo]
            && (if lo + n < cols then w[base + lo + n := v[base + lo]] else w)[base + lo := blank] == InsertedAt(v, base, cols, lo, n, blank)
  {
  }

  /** ICH. */
  function Insert(t: Text, n: nat): (u: Text)
    requires t.Ok()
    ensures u.Ok() && u.x < u.cols && u.(v := t.v, x := t.x, y := t.y) == t
  {
    var x, y := t.Column(), t.Row();
    t.(v := InsertedAt(t.v, Pos(t.cols, 0, y), t.cols, x, n, t.Blank()), x := x, y := y)
  }

  /** ICH cell by cell, for every count. */
  lemma InsertMeans(t: Text, n: nat, cx: nat, cy: nat)
    requires t.Ok() && cx < t.cols && cy < t.rows
    ensures Pos(t.cols, cx, cy) < |t.v| && (n <= cx ==> Pos(t.cols, cx - n, cy) < |t.v|)
    ensures Insert(t, n).v[Pos(t.cols, cx, cy)] ==
              if cy != t.Row() || cx < t.Column() then t.v[Pos(t.cols, cx, cy)]
              else if n == 0 || cx < t.Column() + n then t.Blank()
              else t.v[Pos(t.cols, cx - n, cy)]
    ensures Insert(t, n).x == t.Column() && Insert(t, n).y == t.Row()
  {
    PosInRange(t.cols, t.rows, cx, cy);
    InRow(t.cols, cx, cy, t.Row());
    if n <= cx {
      PosInRange(t.cols, t.rows, cx - n, cy);
    }
  }

  /** Cells of a row are the ones between its start and the next row's. */
  lemma InRow(cols: nat, x: nat, y: nat, row: nat)
    requires x < cols
    ensures Pos(cols, 0, row) <= Pos(cols, x, y) < Pos(cols, 0, row) + cols <==> y == row
    ensures Pos(cols, x, y) == Pos(cols, 0, y) + x
    ensures Pos(cols, 0, row) + cols == Pos(cols, 0, row + 1)
  {
    PosBetween(cols, x, y, row);
    PosBetween(cols, x, y, row + 1);
    assert (row + 1) * cols == row * cols + cols;
  }

  /** ICH as in section 8.3.64 of ECMA-48: the characters from the cursor on move right by `n`. */
  function StandardInsert(t: Text, n: nat): (w: seq<Cell>)
    requires t.Ok()
    ensures |w| == |t.v|
  {
    var lo, hi := Pos(t.cols, t.Column(), t.Row()), Pos(t.cols, 0, t.Row() + 1);
    seq(|t.v|, i requires 0 <= i < |t.v| => if lo <= i < hi then if lo + n <= i then t.v[i - n] else t.Blank() else t.v[i])
  }

  ghost predicate AlwaysInserts(t: Text, n: nat)
    requires t.Ok()
  {
    forall v: seq<Cell> :: |v| == |t.v| ==> Insert(t.(v := v), n).v == StandardInsert(t.(v := v), n)
  }

  /** ICH leaves the cells that the standard has exactly for counts above zero: `ESC [ 0 @` blanks the rest of the
      row.  The cursor, which the standard sends to the line home position, stays. */
  lemma InsertIsStandard(t: Text, n: nat)
    requires t.Ok()
    ensures AlwaysInserts(t, n) <==> 0 < n
  {
    hide Pos, Insert, StandardInsert;
    if 0 < n {
      forall v: seq<Cell> | |v| == |t.v|
        ensures Insert(t.(v := v), n).v == StandardInsert(t.(v := v), n)
      {
        InsertsSome(t.(v := v), n);
      }
    } else {
      InsertsNone(t.(v := seq(|t.v|, j => t.Blank().(c := 0))));
    }
  }

  lemma InsertsSome(t: Text, n: nat)
    requires t.Ok() && 0 < n
    ensures Insert(t, n).v == StandardInsert(t, n)
  {
    hide Pos;
    InRow(t.cols, t.Column(), t.Row(), t.Row());
  }

  lemma InsertsNone(t: Text)
    requires t.Ok() && forall i :: 0 <= i < |t.v| ==> t.v[i] != t.Blank()
    ensures Insert(t, 0).v != StandardInsert(t, 0)
  {
    hide Pos;
    var lo := Pos(t.cols, t.Column(), t.Row());
    InRow(t.cols, t.Column(), t.Row(), t.Row());
    PosInRange(t.cols, t.rows, t.Column(), t.Row());
    assert Insert(t, 0).v[lo] != StandardInsert(t, 0)[lo];
  }

  /** Columns `x + n` up to `cols` of the row that starts at `base` moved left by `n`. */
  function ClosedUp(v: seq<Cell>, base: nat, cols: nat, x: nat, n: nat): (w: seq<Cell>)
    requires base + cols <= |v|
    ensures |w| == |v|
    ensures x + n >= cols ==> w == v
  {
    if x + n < cols then Shifted(v, base + x, base + cols - n, n) else v
  }

  /** DCH: the characters right of the deleted ones move left, then blanks are written from `n` columns
      before the end of the row. */
  function Delete(t: Text, n: nat): (u: Text)
    requires t.Ok() && n < U64
    ensures u.Ok() && u.x < u.cols && u.(v := t.v, x := t.x, y := t.y) == t
  {
    var x, y := t.Column(), t.Row();
    DeleteFrom(t, n).Blanks(Min(n, t.cols)).MoveTo(x, y)
  }

  function DeleteFrom(t: Text, n: nat): (u: Text)
    requires t.Ok() && n < U64
    ensures u.Ok() && u.x < u.cols && u.y < u.rows
  {
    var x, y := t.Column(), t.Row();
    PosInRange(t.cols, t.rows, t.cols - 1, y);
    var base := Pos(t.cols, 0, y);
    assert base + t.cols == Pos(t.cols, t.cols - 1, y) + 1;
    t.(v := ClosedUp(t.v, base, t.cols, x, n)).MoveTo(Difference(t.cols, n), y)
  }

  /** A subtraction of size_t values. */
  function Difference(a: nat, b: nat): nat
    requires b < U64
  {
    if b <= a then a - b else a + (U64 - b)
  }

  /** DCH as in section 8.3.26 of ECMA-48. */
  function StandardDelete(t: Text, n: nat): (w: seq<Cell>)
    requires t.Ok()
    ensures |w| == |t.v|
  {
    var x, y := t.Column(), t.Row();
    PosInRange(t.cols, t.rows, t.cols - 1, y);
    var base := Pos(t.cols, 0, y);
    assert base + t.cols == Pos(t.cols, t.cols - 1, y) + 1;
    var kept := Max(x, t.cols - n);
    Blanked(ClosedUp(t.v, base, t.cols, x, n), base + kept, base + t.cols, t.Blank())
  }

  // ---------------------------------------------------------------------------------------------
  // Erasing
  // ---------------------------------------------------------------------------------------------

  /** ECH. */
  function EraseChars(t: Text, n: nat): (u: Text)
    requires t.Ok()
    ensures u.Ok() && u.x < u.cols && u.(v := t.v, x := t.x, y := t.y) == t
  {
    t.Blanks(Min(n, t.cols)).MoveTo(t.Column(), t.Row())
  }

  /** ED: below, above, everything. */
  function EraseDisplay(t: Text, n: nat): (u: Text)
    requires t.Ok()
    ensures u.Ok() && u.(v := t.v, x := t.x, y := t.y) == t && (t.x <= t.cols ==> u.x <= u.cols)
  {
    var x, y := t.Column(), t.Row();
    PosInRange(t.cols, t.rows, x, y);
    var p := Pos(t.cols, x, y);
    match n
    case 0 => t.Blanks(t.rows * t.cols - p).MoveTo(x, y)
    case 1 => t.MoveTo(0, 0).Blanks(p + 1).MoveTo(x, y)
    case _ => if n <= 3 then t.(v := Blanked(t.v, 0, |t.v|, t.Blank())) else t
  }

  /** EL: from the cursor, up to the cursor, the whole row. */
  function EraseLine(t: Text, n: nat): (u: Text)
    requires t.Ok()
    ensures u.Ok() && u.(v := t.v, x := t.x, y := t.y) == t && (t.x <= t.cols ==> u.x <= u.cols)
  {
    var x, y := t.Column(), t.Row();
    match n
    case 0 => t.Blanks(t.cols - x).MoveTo(x, y)
    case 1 => BlanksStayOnRow(t.MoveTo(0, y), x); t.MoveTo(0, y).Blanks(x)
    case 2 => t.MoveTo(0, y).Blanks(t.cols).MoveTo(x, y)
    case _ => t
  }

  // ---------------------------------------------------------------------------------------------
  // Erasing against the standard
  // ---------------------------------------------------------------------------------------------

  datatype Erasure = Chars(n: nat) | Display(n: nat) | Line(n: nat)

  function Erase(t: Text, e: Erasure): Text
    requires t.Ok()
  {
    match e
    case Chars(n) => EraseChars(t, n)
    case Display(n) => EraseDisplay(t, n)
    case Line(n) => EraseLine(t, n)
  }

  datatype Range = Range(lo: nat, hi: nat)

  /** The cells that ECH, ED or EL should blank, as sections 8.3.38, 8.3.39 and 8.3.41 of ECMA-48 have it. */
  function Standard(t: Text, e: Erasure): Range
    requires t.Ok()
  {
    var p, base, end := Pos(t.cols, t.Column(), t.Row()), Pos(t.cols, 0, t.Row()), Pos(t.cols, 0, t.Row() + 1);
    match e
    case Chars(n) => Range(p, p + Min(n, t.cols - t.Column()))
    case Display(n) => Range(if n == 0 then p else 0, if n == 1 then p + 1 else |t.v|)
    case Line(n) => Range(if n == 0 then p else base, if n == 1 then p + 1 else end)
  }

  /** This is what the erasure blanks, whatever the screen holds. */
  ghost predicate AlwaysBlanks(t: Text, e: Erasure, r: Range)
    requires t.Ok()
  {
    forall v: seq<Cell> :: |v| == |t.v| ==> Erase(t.(v := v), e).v == Blanked(v, r.lo, r.hi, t.Blank())
  }

  /** On the screen, these are the cells of the range. */
  ghost predicate SameCells(size: nat, a: Reach, r: Range) {
    forall i :: 0 <= i < size ==> (a.Has(i) <==> r.lo <= i < r.hi)
  }

  lemma SameBlanks(v: seq<Cell>, a: Reach, r: Range, blank: Cell)
    requires SameCells(|v|, a, r)
    ensures BlankedIn(v, a, blank) == Blanked(v, r.lo, r.hi, blank)
  {
  }

  lemma OtherBlanks(v: seq<Cell>, a: Reach, r: Range, blank: Cell)
    requires !SameCells(|v|, a, r) && forall i :: 0 <= i < |v| ==> v[i] != blank
    ensures BlankedIn(v, a, blank) != Blanked(v, r.lo, r.hi, blank)
  {
    var i :| 0 <= i < |v| && !(a.Has(i) <==> r.lo <= i < r.hi);
    assert BlankedIn(v, a, blank)[i] != Blanked(v, r.lo, r.hi, blank)[i];
  }

  /** The text as control functions find it: scrolling off. */
  ghost predicate Plain(t: Text) {
    t.Ok() && !t.scrolls && t.x <= t.cols
  }

  /** The cells an erasure blanks. */
  function Erased(t: Text, e: Erasure): Reach
    requires t.Ok()
  {
    var x, q := t.Column(), Pos(t.cols, t.Column(), t.Row());
    match e
    case Chars(n) => t.Reached(Min(n, t.cols))
    case Display(n) =>
      if n == 0 then t.Reached(Max(0, |t.v| - q)) else if n == 1 then t.MoveTo(0, 0).Reached(q + 1) else Stretches(0, |t.v|, 0, 0)
    case Line(n) =>
      if n == 0 then t.Reached(t.cols - x) else if n == 1 then t.MoveTo(0, t.Row()).Reached(x) else t.MoveTo(0, t.Row()).Reached(t.cols)
  }

  predicate Known(e: Erasure) {
    match e
    case Chars(n) => true
    case Display(n) => n <= 3
    case Line(n) => n <= 2
  }

  lemma ErasesThese(t: Text, e: Erasure)
    requires Plain(t) && Known(e)
    ensures Erase(t, e).v == BlankedIn(t.v, Erased(t, e), t.Blank())
  {
    hide Pos, BlankedIn, Text.Put, Text.Blanks, Text.Reached, EraseDisplay, EraseLine;
    match e
    case Chars(n) => BlanksFill(t, Min(n, t.cols));
    case Display(n) => ErasesDisplay(t, n);
    case Line(n) => ErasesLine(t, n);
  }

  lemma ErasesDisplay(t: Text, n: nat)
    requires Plain(t) && n <= 3
    ensures EraseDisplay(t, n).v == BlankedIn(t.v, Erased(t, Display(n)), t.Blank())
  {
    hide Pos, BlankedIn, Blanked, Text.Put, Text.Blanks, Text.Reached;
    var q := CursorCell(t);
    if n == 0 {
      BlanksFill(t, |t.v| - q);
    } else if n == 1 {
      BlanksFill(t.MoveTo(0, 0), q + 1);
    } else {
      WholeScreen(t.v, t.Blank());
    }
  }

  lemma WholeScreen(v: seq<Cell>, blank: Cell)
    ensures BlankedIn(v, Stretches(0, |v|, 0, 0), blank) == Blanked(v, 0, |v|, blank)
  {
  }

  lemma ErasesLine(t: Text, n: nat)
    requires Plain(t) && n <= 2
    ensures EraseLine(t, n).v == BlankedIn(t.v, Erased(t, Line(n)), t.Blank())
  {
    hide Pos, BlankedIn, Text.Put, Text.Blanks, Text.Reached;
    if n == 0 {
      BlanksFill(t, t.cols - t.Column());
    } else {
      BlanksFill(t.MoveTo(0, t.Row()), if n == 1 then t.Column() else t.cols);
    }
  }

  /** An erasure is the standard's, whatever the screen holds, exactly when it blanks those cells. */
  lemma IsStandardWhen(t: Text, e: Erasure)
    requires Plain(t) && Known(e)
    ensures AlwaysBlanks(t, e, Standard(t, e)) <==> SameCells(|t.v|, Erased(t, e), Standard(t, e))
  {
    hide BlankedIn, Blanked, Pos, Erase, Erased, SameCells, Standard, Known;
    var a, r := Erased(t, e), Standard(t, e);
    forall v: seq<Cell> | |v| == |t.v|
      ensures Erase(t.(v := v), e).v == BlankedIn(v, a, t.Blank())
    {
      ErasesThese(t.(v := v), e);
      SameErased(t, e, v);
    }
    if SameCells(|t.v|, a, r) {
      forall v: seq<Cell> | |v| == |t.v|
        ensures Erase(t.(v := v), e).v == Blanked(v, r.lo, r.hi, t.Blank())
      {
        SameBlanks(v, a, r, t.Blank());
      }
    } else {
      var v := seq(|t.v|, j => t.Blank().(c := 0));
      OtherBlanks(v, a, r, t.Blank());
      assert Erase(t.(v := v), e).v == BlankedIn(v, a, t.Blank());
    }
  }

  lemma SameErased(t: Text, e: Erasure, v: seq<Cell>)
    requires t.Ok() && |v| == |t.v|
    ensures Erased(t.(v := v), e) == Erased(t, e)
  {
    hide Pos, Text.Reached;
    var u := t.(v := v);
    forall n: nat
      ensures u.Reached(n) == t.Reached(n) && u.MoveTo(0, 0).Reached(n) == t.MoveTo(0, 0).Reached(n)
      ensures u.MoveTo(0, t.Row()).Reached(n) == t.MoveTo(0, t.Row()).Reached(n)
    {
      SameReached(t, v, n);
      SameReached(t.MoveTo(0, 0), v, n);
      SameReached(t.MoveTo(0, t.Row()), v, n);
      assert t.MoveTo(0, 0).(v := v) == u.MoveTo(0, 0) && t.MoveTo(0, t.Row()).(v := v) == u.MoveTo(0, t.Row());
    }
  }

  lemma SameReached(t: Text, v: seq<Cell>, n: nat)
    requires t.Ok() && |v| == |t.v|
    ensures t.(v := v).Reached(n) == t.Reached(n)
  {
    hide Pos;
  }

  /** Where the cursor's row, the limit of its blanks and the row they return to lie. */
  ghost predicate Places(t: Text, base: nat, limit: nat, back: nat)
    requires t.Ok()
  {
    && base == Pos(t.cols, 0, t.y) && limit == t.Limit() && back == Pos(t.cols, 0, t.cols - 1)
    && Pos(t.cols, t.x, t.y) == base + t.x
    && (t.rows <= t.y ==> |t.v| <= base)
    && (t.y < t.rows ==>
          && base + t.cols <= |t.v| && Pos(t.cols, t.Column(), t.Row()) == base + t.Column()
          && Pos(t.cols, 0, t.Row()) == base && Pos(t.cols, 0, t.Row() + 1) == base + t.cols
          && (t.y + 1 == t.rows <==> base + t.cols == |t.v|))
    && (t.bottom <= t.y + 1 ==> limit == base + t.cols)
    && (t.y + 1 < t.bottom <= t.cols ==> base + t.cols < limit <= |t.v| && (limit == |t.v| <==> t.bottom == t.rows))
    && (t.y + 1 < t.bottom && t.cols < t.bottom ==>
          && base + t.cols <= limit < |t.v| && back + t.cols <= limit
          && (if t.cols <= t.y + 1 then limit == base + t.cols else base + 2 * t.cols <= limit)
          && (t.y + 1 == t.cols ==> back == base) && (t.cols <= t.y ==> back + t.cols <= base))
  }

  lemma PlacesOf(t: Text) returns (base: nat, limit: nat, back: nat)
    requires Plain(t)
    ensures Places(t, base, limit, back)
  {
    hide Pos;
    base, limit, back := Pos(t.cols, 0, t.y), t.Limit(), Pos(t.cols, 0, t.cols - 1);
    RowOf(t);
    PosSplit(t.cols, t.x, t.y);
    PosSplit(t.cols, t.Column(), t.y);
    NextRowAt(t.cols, t.y);
    NextRowAt(t.cols, t.y + 1);
    NextRowAt(t.cols, t.cols - 1);
    MulStrict(t.cols, t.y + 1, t.End());
    if t.y + 1 < t.bottom {
      MulStrict(t.cols, t.End(), t.rows);
      if t.cols < t.bottom {
        MulStrict(t.cols, t.cols, t.End());
        if t.cols <= t.y {
          MulStrict(t.cols, t.cols, t.y);
        } else if t.y + 1 < t.cols {
          MulStrict(t.cols, t.y + 2, t.cols);
        }
      }
    }
  }

  lemma NextRowAt(cols: nat, y: nat)
    ensures Pos(cols, 0, y + 1) == Pos(cols, 0, y) + cols
  {
    assert (y + 1) * cols == y * cols + cols;
  }

  lemma RowEnd(cols: nat, y: nat)
    ensures Pos(cols, cols, y) == Pos(cols, 0, y + 1)
  {
  }

  lemma PosSplit(cols: nat, x: nat, y: nat)
    ensures Pos(cols, x, y) == Pos(cols, 0, y) + x
  {
  }

  lemma RowOf(t: Text)
    requires t.Ok()
    ensures |t.v| == Pos(t.cols, 0, t.rows)
    ensures t.rows <= t.y ==> |t.v| <= Pos(t.cols, 0, t.y)
    ensures t.y < t.rows ==>
              && Pos(t.cols, 0, t.y + 1) <= |t.v| && (t.y + 1 == t.rows <==> Pos(t.cols, 0, t.y + 1) == |t.v|)
              && t.Row() == t.y
  {
    if t.y < t.rows {
      MulStrict(t.cols, t.y + 1, t.rows);
    } else {
      MulStrict(t.cols, t.rows, t.y);
    }
  }

  lemma MulStrict(cols: nat, a: nat, b: nat)
    requires a <= b && 0 < cols
    ensures Pos(cols, 0, a) <= Pos(cols, 0, b)
    ensures a < b <==> Pos(cols, 0, a) < Pos(cols, 0, b)
  {
    MulLe(a, b, cols);
    if a < b {
      MulLe(a + 1, b, cols);
      assert (a + 1) * cols == a * cols + cols;
    }
  }

  /** The cursor's own cell, which every standard range but that of no characters has. */
  lemma CursorCell(t: Text) returns (q: nat)
    requires t.Ok()
    ensures q == Pos(t.cols, t.Column(), t.Row()) < |t.v|
    ensures Pos(t.cols, 0, t.Row()) + t.Column() == q < Pos(t.cols, 0, t.Row() + 1) == Pos(t.cols, 0, t.Row()) + t.cols
  {
    q := Pos(t.cols, t.Column(), t.Row());
    PosInRange(t.cols, t.rows, t.Column(), t.Row());
    InRow(t.cols, t.Column(), t.Row(), t.Row());
  }

  /** A cell that is in one and not in the other. */
  lemma Differ(size: nat, a: Reach, r: Range, i: nat)
    requires i < size && (a.Has(i) <==> !(r.lo <= i < r.hi))
    ensures !SameCells(size, a, r)
  {
  }

  /** The one pending wrap that comes back to where it was. */
  predicate WrapsOntoItself(t: Text) {
    t.cols == 1 && 1 < t.bottom && t.y == 0 && t.x == 1
  }

  /** ECH is the standard's exactly when the cursor is on the screen, no wrap is pending, and the characters
      fit on the row or nothing below it belongs to the region. */
  lemma EraseCharsIsStandard(t: Text, n: nat)
    requires Plain(t)
    ensures AlwaysBlanks(t, Chars(n), Standard(t, Chars(n))) <==>
              || n == 0 || WrapsOntoItself(t)
              || (t.y < t.rows && t.x < t.cols && (t.x + Min(n, t.cols) <= t.cols || t.bottom <= t.y + 1))
  {
    hide Pos, Text.Limit, AlwaysBlanks, SameCells;
    IsStandardWhen(t, Chars(n));
    var base, limit, back := PlacesOf(t);
    var q := CursorCell(t);
    var a, r, m := t.Reached(Min(n, t.cols)), Standard(t, Chars(n)), Min(n, t.cols);
    if n == 0 || WrapsOntoItself(t) || (t.y < t.rows && t.x < t.cols && (t.x + m <= t.cols || t.bottom <= t.y + 1)) {
      Agree(t, a, r);
    } else if t.y < t.rows && t.x < t.cols {
      Differ(|t.v|, a, r, if base + t.cols < limit then base + t.cols else back);
    } else {
      Differ(|t.v|, a, r, if t.y < t.rows && t.y + 1 == t.cols < t.bottom then base else q);
    }
  }

  lemma Agree(t: Text, a: Reach, r: Range)
    requires forall i :: 0 <= i < |t.v| ==> (a.Has(i) <==> r.lo <= i < r.hi)
    ensures SameCells(|t.v|, a, r)
  {
  }

  /** ED 0 is the standard's exactly when the cursor is on the screen, no wrap is pending, and either it is in
      the last row or the region reaches that row, on a screen no taller than wide. */
  lemma EraseBelowIsStandard(t: Text)
    requires Plain(t)
    ensures AlwaysBlanks(t, Display(0), Standard(t, Display(0))) <==>
              t.y < t.rows && t.x < t.cols && (t.y + 1 == t.rows || t.bottom == t.rows <= t.cols)
  {
    hide Pos, Text.Limit, AlwaysBlanks, SameCells;
    IsStandardWhen(t, Display(0));
    var base, limit, back := PlacesOf(t);
    var q := CursorCell(t);
    var a, r := t.Reached(|t.v| - q), Standard(t, Display(0));
    if t.y < t.rows && t.x < t.cols {
      if t.y + 1 == t.rows || t.bottom == t.rows <= t.cols {
        Agree(t, a, r);
      } else {
        Differ(|t.v|, a, r, limit);
      }
    } else {
      Differ(|t.v|, a, r, if t.Returns(|t.v| - q) then limit else q);
    }
  }

  /** ED 1 is the standard's exactly when the cursor's row is above the end of the region, and no row below
      row cols. */
  lemma EraseAboveIsStandard(t: Text)
    requires Plain(t)
    ensures AlwaysBlanks(t, Display(1), Standard(t, Display(1))) <==> t.Row() < Min(t.bottom, t.cols)
  {
    hide Pos, Text.Limit, AlwaysBlanks, SameCells;
    IsStandardWhen(t, Display(1));
    var home := t.MoveTo(0, 0);
    var base, limit, back := PlacesOf(home);
    var q := CursorCell(t);
    HomeLimit(t);
    var a, r := home.Reached(q + 1), Standard(t, Display(1));
    MulStrict(t.cols, Min(t.Row() + 1, Min(t.bottom, t.cols)), Max(t.Row() + 1, Min(t.bottom, t.cols)));
    if t.Row() < Min(t.bottom, t.cols) {
      Agree(t, a, r);
    } else {
      MulStrict(t.cols, Min(t.bottom, t.cols), t.Row());
      Differ(|t.v|, a, r, q);
    }
  }

  lemma HomeLimit(t: Text)
    requires t.Ok()
    ensures t.MoveTo(0, 0).Limit() == Pos(t.cols, 0, Min(t.bottom, t.cols)) && Pos(t.cols, 0, 0) == 0
  {
  }

  /** EL 0 is the standard's exactly when the cursor is on the screen and no wrap is pending, EL 2 always; EL 1
      never, because it spares the cursor's own cell. */
  lemma EraseLineIsStandard(t: Text, n: nat)
    requires Plain(t) && n <= 2
    ensures AlwaysBlanks(t, Line(n), Standard(t, Line(n))) <==>
              n == 2 || (n == 0 && ((t.y < t.rows && t.x < t.cols) || WrapsOntoItself(t)))
  {
    hide Pos, Text.Limit, AlwaysBlanks, SameCells;
    IsStandardWhen(t, Line(n));
    var q := CursorCell(t);
    var r := Standard(t, Line(n));
    if n == 0 {
      var base, limit, back := PlacesOf(t);
      var a := t.Reached(t.cols - t.Column());
      if (t.y < t.rows && t.x < t.cols) || WrapsOntoItself(t) {
        Agree(t, a, r);
      } else {
        Differ(|t.v|, a, r, q);
      }
    } else {
      var start := t.MoveTo(0, t.Row());
      var base, limit, back := PlacesOf(start);
      if n == 1 {
        Differ(|t.v|, start.Reached(t.Column()), r, q);
      } else {
        Agree(t, start.Reached(t.cols), r);
      }
    }
  }

  // ---------------------------------------------------------------------------------------------
  // Deleting against the standard
  // ---------------------------------------------------------------------------------------------

  /** Where the standard has the blanks of DCH. */
  function StandardGap(t: Text, n: nat): Range
    requires t.Ok()
  {
    Range(Pos(t.cols, Min(Max(t.Column(), t.cols - n), t.cols), t.Row()), Pos(t.cols, 0, t.Row() + 1))
  }

  /** And where the C code writes them. */
  function DeleteReach(t: Text, n: nat): Reach
    requires t.Ok() && n < U64
  {
    DeleteFrom(t, n).Reached(Min(n, t.cols))
  }

  lemma DeleteReaches(t: Text, n: nat)
    requires Plain(t) && n < U64
    ensures Delete(t, n).v == BlankedIn(DeleteFrom(t, n).v, DeleteReach(t, n), t.Blank())
    ensures t.Column() + n >= t.cols ==> DeleteFrom(t, n).v == t.v
  {
    hide ClosedUp, BlankedIn, Text.Put, Text.Blanks, Text.Reached, Pos;
    BlanksFill(DeleteFrom(t, n), Min(n, t.cols));
  }

  lemma StandardDeleteGap(t: Text, n: nat)
    requires t.Ok() && n < U64
    ensures StandardDelete(t, n) == Blanked(DeleteFrom(t, n).v, StandardGap(t, n).lo, StandardGap(t, n).hi, t.Blank())
  {
    hide Blanked, ClosedUp, Text.Ok, Pos, Difference, ClampTo;
    var kept := Min(Max(t.Column(), t.cols - n), t.cols);
    PosSplit(t.cols, kept, t.Row());
    PosSplit(t.cols, t.cols, t.Row());
    NextRowAt(t.cols, t.Row());
  }

  lemma StartOfBlanks(cols: nat, n: nat)
    requires 0 < cols < 0x8000_0000 && n < U32
    ensures ClampTo(Difference(cols, n), cols) ==
              if n == 0 then cols - 1 else if n <= cols then cols - n else if n <= cols + 0x8000_0000 then 0 else cols - 1
  {
    if n > cols {
      var d := Difference(cols, n);
      assert d == 0xFFFF_FFFF * U32 + (U32 - (n - cols));
      DivModUnique(0xFFFF_FFFF, U32 - (n - cols), U32);
    }
  }

  predicate DeleteFits(t: Text, n: nat)
    requires t.Ok()
  {
    if n <= t.cols + 0x8000_0000 then t.Column() + Min(n, t.cols) <= t.cols
    else
      || (t.Column() + 1 == t.cols && (t.cols == 1 || t.bottom <= t.Row() + 1))
      || (t.Column() == 0 && t.Row() + 1 == t.cols < t.bottom)
  }

  /** The blanks of DCH are the standard's when the deleted characters fit on the row.  A count so large that
      the sign test of set_cursor_pos fails makes them start in the last column; that is right if the cursor is
      there, with no row below in reach, or if they start over on a row that is all to be blanked. */
  lemma DeleteReachIsStandard(t: Text, n: nat)
    requires Plain(t) && n < U32 && t.cols < 0x8000_0000
    ensures SameCells(|t.v|, DeleteReach(t, n), StandardGap(t, n)) <==> DeleteFits(t, n)
  {
    hide Pos, Text.Reached, SameCells, DeleteFrom, StandardGap;
    var u, r := DeleteFrom(t, n), StandardGap(t, n);
    DeleteStart(t, n);
    if n <= t.cols + 0x8000_0000 {
      BlanksOnRow(u, Min(n, t.cols), t.Column(), r);
    } else {
      BlanksFromLastColumn(u, t.Column(), r);
    }
  }

  /** Where the blanks of DCH start, and where the standard has them. */
  lemma DeleteStart(t: Text, n: nat)
    requires Plain(t) && n < U32 && t.cols < 0x8000_0000
    ensures var u, base := DeleteFrom(t, n), Pos(t.cols, 0, t.Row());
            && u.(v := t.v, x := t.x, y := t.y) == t && |u.v| == |t.v| && u.y == t.Row()
            && u.x == (if n == 0 then t.cols - 1 else if n <= t.cols then t.cols - n else if n <= t.cols + 0x8000_0000 then 0 else t.cols - 1)
            && StandardGap(t, n) == Range(base + Min(Max(t.Column(), t.cols - n), t.cols), base + t.cols)
  {
    hide Pos, ClosedUp, ClampTo, Difference;
    StartOfBlanks(t.cols, n);
    PosSplit(t.cols, Min(Max(t.Column(), t.cols - n), t.cols), t.Row());
    NextRowAt(t.cols, t.Row());
    SmallClamp(t.Row(), t.rows);
  }

  lemma SmallClamp(v: nat, n: nat)
    requires v < n
    ensures ClampTo(v, n) == v
  {
  }

  /** Blanks up to the end of the row, where the standard has them from column `x` on. */
  lemma BlanksOnRow(u: Text, n: nat, x: nat, r: Range)
    requires Plain(u) && u.y < u.rows && n <= u.cols && u.x == Min(u.cols - n, u.cols - 1) && x < u.cols
    requires r == Range(Pos(u.cols, 0, u.y) + Max(x, u.cols - n), Pos(u.cols, 0, u.y) + u.cols)
    ensures SameCells(|u.v|, u.Reached(n), r) <==> x + n <= u.cols
  {
    hide Pos, Text.Limit, SameCells;
    var base, limit, back := PlacesOf(u);
    if x + n <= u.cols {
      Agree(u, u.Reached(n), r);
    } else {
      Differ(|u.v|, u.Reached(n), r, base + u.x);
    }
  }

  /** A row's worth of blanks from the last column on. */
  lemma BlanksFromLastColumn(u: Text, x: nat, r: Range)
    requires Plain(u) && u.y < u.rows && u.x == u.cols - 1 && x < u.cols
    requires r == Range(Pos(u.cols, 0, u.y) + x, Pos(u.cols, 0, u.y) + u.cols)
    ensures SameCells(|u.v|, u.Reached(u.cols), r) <==>
              || (x + 1 == u.cols && (u.cols == 1 || u.bottom <= u.y + 1))
              || (x == 0 && u.y + 1 == u.cols < u.bottom)
  {
    hide Pos, Text.Limit, SameCells;
    var base, limit, back := PlacesOf(u);
    var a := u.Reached(u.cols);
    if (x + 1 == u.cols && (u.cols == 1 || u.bottom <= u.y + 1)) || (x == 0 && u.y + 1 == u.cols < u.bottom) {
      Agree(u, a, r);
    } else if x + 1 == u.cols {
      Differ(|u.v|, a, r, if base + u.cols < limit then base + u.cols else back);
    } else {
      Differ(|u.v|, a, r, if u.y + 1 == u.cols < u.bottom then base else base + x);
    }
  }

  /** DCH is the standard's whatever the screen holds. */
  ghost predicate AlwaysDeletes(t: Text, n: nat)
    requires t.Ok() && n < U64
  {
    forall v: seq<Cell> :: |v| == |t.v| ==> Delete(t.(v := v), n).v == StandardDelete(t.(v := v), n)
  }

  /** DCH is the standard's exactly when the deleted characters fit on the row; otherwise it also blanks
      cells left of the cursor. */
  lemma DeleteIsStandard(t: Text, n: nat)
    requires Plain(t) && n < U32 && t.cols < 0x8000_0000
    ensures AlwaysDeletes(t, n) <==> DeleteFits(t, n)
  {
    hide Pos, Delete, StandardDelete, DeleteReach, StandardGap, DeleteFrom, Blanked, BlankedIn, SameCells, DeleteFits;
    DeleteReachIsStandard(t, n);
    var a, r := DeleteReach(t, n), StandardGap(t, n);
    if DeleteFits(t, n) {
      forall v: seq<Cell> | |v| == |t.v|
        ensures Delete(t.(v := v), n).v == StandardDelete(t.(v := v), n)
      {
        DeletesThese(t, n, v);
        SameBlanks(DeleteFrom(t.(v := v), n).v, a, r, t.Blank());
      }
    } else {
      var v := seq(|t.v|, j => t.Blank().(c := 0));
      DeletesThese(t, n, v);
      OtherGap(t, n, v);
    }
  }

  lemma DeletesThese(t: Text, n: nat, v: seq<Cell>)
    requires Plain(t) && |v| == |t.v| && n < U64
    ensures var u := t.(v := v);
            && |DeleteFrom(u, n).v| == |v|
            && Delete(u, n).v == BlankedIn(DeleteFrom(u, n).v, DeleteReach(t, n), t.Blank())
            && StandardDelete(u, n) == Blanked(DeleteFrom(u, n).v, StandardGap(t, n).lo, StandardGap(t, n).hi, t.Blank())
  {
    hide Pos, Delete, StandardDelete, Blanked, BlankedIn, Text.Reached, ClosedUp;
    DeleteReaches(t.(v := v), n);
    StandardDeleteGap(t.(v := v), n);
    SameReached(DeleteFrom(t, n), DeleteFrom(t.(v := v), n).v, Min(n, t.cols));
  }

  lemma UniformClosedUp(v: seq<Cell>, base: nat, cols: nat, x: nat, n: nat, c: Cell)
    requires base + cols <= |v| && forall i :: 0 <= i < |v| ==> v[i] == c
    ensures forall i :: 0 <= i < |v| ==> ClosedUp(v, base, cols, x, n)[i] == c
  {
  }

  /** On a screen of one character that is not blank, closing up changes nothing. */
  lemma OtherGap(t: Text, n: nat, v: seq<Cell>)
    requires Plain(t) && n < U64 && |v| == |t.v| && (forall i :: 0 <= i < |v| ==> v[i] == t.Blank().(c := 0))
    requires !SameCells(|t.v|, DeleteReach(t, n), StandardGap(t, n))
    ensures var w := DeleteFrom(t.(v := v), n).v;
            |w| == |v| && BlankedIn(w, DeleteReach(t, n), t.Blank()) != Blanked(w, StandardGap(t, n).lo, StandardGap(t, n).hi, t.Blank())
  {
    hide Pos, SameCells, DeleteReach, StandardGap, Blanked, BlankedIn, ClosedUp;
    var w := DeleteFrom(t.(v := v), n).v;
    RowFitsScreen(t.cols, t.rows, t.Row());
    UniformClosedUp(v, Pos(t.cols, 0, t.Row()), t.cols, t.Column(), n, t.Blank().(c := 0));
    OtherBlanks(w, DeleteReach(t, n), StandardGap(t, n), t.Blank());
  }

  /** Deleting what was inserted restores the row, up to the characters pushed off its end. */
  lemma DeleteUndoesInsert(t: Text, n: nat)
    requires Plain(t) && 0 < n < 0x8000_0000 && t.cols < 0x8000_0000 && t.Column() + n <= t.cols
    ensures Delete(Insert(t, n), n).v == Blanked(t.v, Pos(t.cols, t.cols - n, t.Row()), Pos(t.cols, 0, t.Row() + 1), t.Blank())
  {
    hide Pos, Delete, Text.Blanks, InsertedAt, ClosedUp, Blanked, StandardDelete;
    var u := Insert(t, n);
    DeleteIsStandard(u, n);
    assert Delete(u.(v := u.v), n).v == StandardDelete(u.(v := u.v), n);
    assert u.(v := u.v) == u;
    StandardAfterInsert(t, n);
  }

  lemma StandardAfterInsert(t: Text, n: nat)
    requires Plain(t) && 0 < n && t.Column() + n <= t.cols
    ensures StandardDelete(Insert(t, n), n) == Blanked(t.v, Pos(t.cols, t.cols - n, t.Row()), Pos(t.cols, 0, t.Row() + 1), t.Blank())
  {
    hide Pos, InsertedAt, ClosedUp, Blanked, StandardDelete, DeleteFrom;
    var q := CursorCell(t);
    var base, x := Pos(t.cols, 0, t.Row()), t.Column();
    RowFitsScreen(t.cols, t.rows, t.Row());
    PosSplit(t.cols, t.cols - n, t.Row());
    InsertThenDelete(t.v, base, t.cols, x, n, t.Blank());
    StandardDeleteIs(Insert(t, n), n, base, x);
  }

  lemma RowFitsScreen(cols: nat, rows: nat, y: nat)
    requires y < rows
    ensures Pos(cols, 0, y) + cols <= rows * cols
  {
    RowBounds(cols, rows, y);
  }

  /** Where the characters deleted fit on the row. */
  lemma StandardDeleteIs(t: Text, n: nat, base: nat, x: nat)
    requires t.Ok() && x == t.Column() && x + n <= t.cols && base == Pos(t.cols, 0, t.Row())
    ensures base + t.cols <= |t.v|
    ensures StandardDelete(t, n) == Blanked(ClosedUp(t.v, base, t.cols, x, n), base + t.cols - n, base + t.cols, t.Blank())
  {
    hide Pos, ClosedUp, Blanked;
    RowFitsScreen(t.cols, t.rows, t.Row());
  }

  lemma InsertThenDelete(v: seq<Cell>, base: nat, cols: nat, x: nat, n: nat, blank: Cell)
    requires x + n <= cols && base + cols <= |v| && 0 < n
    ensures var w := InsertedAt(v, base, cols, x, n, blank);
            Blanked(ClosedUp(w, base, cols, x, n), base + cols - n, base + cols, blank) == Blanked(v, base + cols - n, base + cols, blank)
  {
  }

  // ---------------------------------------------------------------------------------------------
  // Inserting and deleting lines
  // ---------------------------------------------------------------------------------------------

  function ScrollUp(t: Text, n: nat): (u: Text)
    requires t.Ok()
    ensures u.Ok() && u.(v := t.v) == t
  {
    if n == 0 then t
    else
      var u := ScrollUp(t, n - 1);
      u.(v := Scrolled(u.v, t.cols, t.rows, t.top, t.bottom, t.Blank()))
  }

  function ScrollDown(t: Text, n: nat): (u: Text)
    requires t.Ok()
    ensures u.Ok() && u.(v := t.v) == t
  {
    if n == 0 then t
    else
      var u := ScrollDown(t, n - 1);
      u.(v := RevScrolled(u.v, t.cols, t.rows, t.top, t.bottom, t.Blank()))
  }

  /** Scrolling up `n` times moves the rows of the region by `n` and touches no other row. */
  lemma {:induction false} ScrollUpMeans(t: Text, n: nat, x: nat, y: nat)
    requires t.Ok() && t.top < t.bottom && x < t.cols && y < t.rows
    ensures Pos(t.cols, x, y) < |t.v| && (y + n < t.rows ==> Pos(t.cols, x, y + n) < |t.v|)
    ensures ScrollUp(t, n).v[Pos(t.cols, x, y)] ==
              if y < t.top || t.bottom <= y then t.v[Pos(t.cols, x, y)]
              else if y + n < t.bottom then t.v[Pos(t.cols, x, y + n)]
              else t.Blank()
  {
    hide Pos, Scrolled;
    PosInRange(t.cols, t.rows, x, y);
    if y + n < t.rows {
      PosInRange(t.cols, t.rows, x, y + n);
    }
    if n == 0 {
    } else {
      var u := ScrollUp(t, n - 1);
      ScrolledRows(u.v, t.cols, t.rows, t.top, t.bottom, t.Blank(), x, y);
      ScrollUpMeans(t, n - 1, x, y);
      if y + 1 < t.rows {
        ScrollUpMeans(t, n - 1, x, y + 1);
      }
    }
  }

  /** Scrolling down; a region that is empty has its top row blanked all the same. */
  lemma {:induction false} ScrollDownMeans(t: Text, n: nat, x: nat, y: nat)
    requires t.Ok() && x < t.cols && y < t.rows
    ensures Pos(t.cols, x, y) < |t.v| && (n <= y ==> Pos(t.cols, x, y - n) < |t.v|)
    ensures ScrollDown(t, n).v[Pos(t.cols, x, y)] ==
              if y < t.top || (t.bottom <= y && y != t.top) then t.v[Pos(t.cols, x, y)]
              else if t.top <= y - n then t.v[Pos(t.cols, x, y - n)]
              else t.Blank()
  {
    hide Pos, RevScrolled;
    PosInRange(t.cols, t.rows, x, y);
    if n <= y {
      PosInRange(t.cols, t.rows, x, y - n);
    }
    if n == 0 {
    } else {
      var u := ScrollDown(t, n - 1);
      RevScrolledRows(u.v, t.cols, t.rows, t.top, t.bottom, t.Blank(), x, y);
      ScrollDownMeans(t, n - 1, x, y);
      if 0 < y {
        ScrollDownMeans(t, n - 1, x, y - 1);
      }
    }
  }

  /** DL: the whole region scrolls up, wherever the cursor is. */
  function DeleteLines(t: Text, n: nat): (u: Text)
    requires t.Ok()
    ensures u.Ok() && u.(v := t.v) == t
  {
    ScrollUp(t, Min(n, t.rows))
  }

  /** IL: the region from the cursor's row on scrolls down. */
  function InsertLines(t: Text, n: nat): (u: Text)
    requires t.Ok()
    ensures u.Ok() && u.(v := t.v) == t
  {
    ScrollDown(t.(top := t.Row()), Min(n, t.rows)).(top := t.top)
  }

  /** IL inserts exactly `n` blank rows at the cursor, pushing the rest of the region down; below the region
      it blanks the cursor's own row. */
  lemma InsertLinesMeans(t: Text, n: nat, x: nat, y: nat)
    requires t.Ok() && x < t.cols && y < t.rows
    ensures Pos(t.cols, x, y) < |t.v| && (n <= y ==> Pos(t.cols, x, y - n) < |t.v|)
    ensures InsertLines(t, n).v[Pos(t.cols, x, y)] ==
              if y < t.Row() || (t.bottom <= y && y != t.Row()) then t.v[Pos(t.cols, x, y)]
              else if t.Row() + n <= y then t.v[Pos(t.cols, x, y - n)]
              else t.Blank()
  {
    hide Pos, RevScrolled;
    ScrollDownMeans(t.(top := t.Row()), Min(n, t.rows), x, y);
    if n <= y {
      PosInRange(t.cols, t.rows, x, y - n);
    }
  }

  /** The cell that IL (section 8.3.67 of ECMA-48) or DL (section 8.3.32) puts in row `y` of column `x`: they
      move the rows from the cursor's to the end of the region, and do nothing outside the region. */
  function InsertedLine(t: Text, n: nat, x: nat, y: nat): Cell
    requires t.Ok() && x < t.cols && y < t.rows
  {
    PosInRange(t.cols, t.rows, x, y);
    if t.top <= t.Row() <= y < t.bottom then
      if t.Row() + n <= y then PosInRange(t.cols, t.rows, x, y - n); t.v[Pos(t.cols, x, y - n)] else t.Blank()
    else t.v[Pos(t.cols, x, y)]
  }

  function DeletedLine(t: Text, n: nat, x: nat, y: nat): Cell
    requires t.Ok() && x < t.cols && y < t.rows
  {
    PosInRange(t.cols, t.rows, x, y);
    if t.top <= t.Row() <= y < t.bottom then
      if y + n < t.bottom then PosInRange(t.cols, t.rows, x, y + n); t.v[Pos(t.cols, x, y + n)] else t.Blank()
    else t.v[Pos(t.cols, x, y)]
  }

  ghost predicate InsertsLines(t: Text, n: nat)
    requires t.Ok()
  {
    forall x: nat, y: nat | x < t.cols && y < t.rows ::
      Pos(t.cols, x, y) < |t.v| && InsertLines(t, n).v[Pos(t.cols, x, y)] == InsertedLine(t, n, x, y)
  }

  ghost predicate DeletesLines(t: Text, n: nat)
    requires t.Ok()
  {
    forall x: nat, y: nat | x < t.cols && y < t.rows ::
      Pos(t.cols, x, y) < |t.v| && DeleteLines(t, n).v[Pos(t.cols, x, y)] == DeletedLine(t, n, x, y)
  }

  /** IL leaves the cells that the standard has, whatever the screen holds, exactly when the cursor is in the
      region.  The cursor, which the standard sends to the line home position, stays. */
  lemma InsertLinesIsStandard(t: Text, n: nat)
    requires t.Ok() && t.top < t.bottom
    ensures (forall v: seq<Cell> | |v| == |t.v| :: InsertsLines(t.(v := v), n)) <==> n == 0 || t.top <= t.Row() < t.bottom
    ensures (InsertLines(t, n).x, InsertLines(t, n).y) == (t.x, t.y)
  {
    hide Pos, InsertLines, InsertsLines;
    if n == 0 || t.top <= t.Row() < t.bottom {
      forall v: seq<Cell> | |v| == |t.v|
        ensures InsertsLines(t.(v := v), n)
      {
        InsertsInRegion(t.(v := v), n);
      }
    } else {
      var u := t.(v := seq(|t.v|, j => t.Blank().(c := 0)));
      InsertsOutside(u, n);
    }
  }

  lemma InsertsInRegion(t: Text, n: nat)
    requires t.Ok() && (n == 0 || t.top <= t.Row() < t.bottom)
    ensures InsertsLines(t, n)
  {
    hide Pos, InsertLines;
    forall x: nat, y: nat | x < t.cols && y < t.rows
      ensures Pos(t.cols, x, y) < |t.v| && InsertLines(t, n).v[Pos(t.cols, x, y)] == InsertedLine(t, n, x, y)
    {
      InsertLinesMeans(t, n, x, y);
    }
  }

  lemma InsertsOutside(t: Text, n: nat)
    requires t.Ok() && 0 < n && !(t.top <= t.Row() < t.bottom) && forall i :: 0 <= i < |t.v| ==> t.v[i] != t.Blank()
    ensures !InsertsLines(t, n)
  {
    hide Pos, InsertLines;
    InsertLinesMeans(t, n, 0, t.Row());
    PosInRange(t.cols, t.rows, 0, t.Row());
    assert InsertLines(t, n).v[Pos(t.cols, 0, t.Row())] != InsertedLine(t, n, 0, t.Row());
  }

  /** DL, which ignores the cursor's row, leaves the cells that the standard has exactly when that is the first row
      of the region.  The cursor, which the standard sends to the line home position, stays. */
  lemma DeleteLinesIsStandard(t: Text, n: nat)
    requires t.Ok() && t.top < t.bottom
    ensures (forall v: seq<Cell> | |v| == |t.v| :: DeletesLines(t.(v := v), n)) <==> n == 0 || t.Row() == t.top
    ensures (DeleteLines(t, n).x, DeleteLines(t, n).y) == (t.x, t.y)
  {
    hide Pos, DeleteLines, DeletesLines;
    if n == 0 || t.Row() == t.top {
      forall v: seq<Cell> | |v| == |t.v|
        ensures DeletesLines(t.(v := v), n)
      {
        DeletesFromTop(t.(v := v), n);
      }
    } else {
      PosInRange(t.cols, t.rows, 0, t.top);
      var a, b := t.Blank().(c := 0), t.Blank().(c := 1);
      var u := t.(v := seq(|t.v|, j => if j == Pos(t.cols, 0, t.top) then a else b));
      DeletesElsewhere(u, n);
    }
  }

  lemma DeletesFromTop(t: Text, n: nat)
    requires t.Ok() && t.top < t.bottom && (n == 0 || t.Row() == t.top)
    ensures DeletesLines(t, n)
  {
    hide Pos, ScrollUp;
    forall x: nat, y: nat | x < t.cols && y < t.rows
      ensures Pos(t.cols, x, y) < |t.v| && DeleteLines(t, n).v[Pos(t.cols, x, y)] == DeletedLine(t, n, x, y)
    {
      ScrollUpMeans(t, Min(n, t.rows), x, y);
    }
  }

  /** The top row of the region goes, and should have stayed. */
  lemma DeletesElsewhere(t: Text, n: nat)
    requires t.Ok() && t.top < t.bottom && 0 < n && t.Row() != t.top
    requires var p := Pos(t.cols, 0, t.top); forall i :: 0 <= i < |t.v| ==> (t.v[i] == t.Blank().(c := 0) <==> i == p)
    ensures !DeletesLines(t, n)
  {
    hide Pos, ScrollUp;
    var k := Min(n, t.rows);
    ScrollUpMeans(t, k, 0, t.top);
    PosInRange(t.cols, t.rows, 0, t.top);
    if t.top + k < t.bottom {
      PosInRange(t.cols, t.rows, 0, t.top + k);
      MulStrict(t.cols, t.top, t.top + k);
    }
    assert DeleteLines(t, n).v[Pos(t.cols, 0, t.top)] != DeletedLine(t, n, 0, t.top);
  }

  // ---------------------------------------------------------------------------------------------
  // The dispatch on the final byte
  // ---------------------------------------------------------------------------------------------

  /** A parameter less one, as a uint32_t, cut to the last row or column. */
  function Coordinate(n: nat, size: nat): nat
    requires 0 < size
  {
    if n == 0 then size - 1 else Min(n - 1, size - 1)
  }

  /** DECSTBM. */
  function SetMargins(t: Text, n: nat, m: nat, count: nat): Text
    requires t.Ok()
  {
    var top := if 0 < count then Max(n, 1) - 1 else 0;
    var bottom := if 1 < count then Max(m, 1) else t.rows;
    if top + 1 < bottom <= t.rows then t.(top := top, bottom := bottom, x := 0, y := 0)
    else t.(top := 0, bottom := t.rows, x := 0, y := 0)
  }

  /** The control functions that only move the cursor. */
  function Motion(t: Text, c: char, n: nat, m: nat): (u: Text)
    requires t.Ok()
    ensures u.(x := t.x, y := t.y) == t && (t.x <= t.cols ==> u.x <= u.cols)
  {
    var x, y := t.Column(), t.Row();
    match c
    case 'A' => t.(x := x, y := RowUp(y, n, t.top))
    case 'F' => t.(x := 0, y := RowUp(y, n, t.top))
    case 'B' => t.(x := x, y := RowDown(y, n, t.bottom, t.rows))
    case 'e' => t.(x := x, y := RowDown(y, n, t.bottom, t.rows))
    case 'E' => t.(x := 0, y := RowDown(y, n, t.bottom, t.rows))
    case 'C' => t.(x := Min(x + n, t.cols - 1), y := y)
    case 'a' => t.(x := Min(x + n, t.cols - 1), y := y)
    case 'D' => t.(x := Max(x - n, 0), y := y)
    case 'd' => t.(x := x, y := Coordinate(n, t.rows))
    case 'G' => t.(x := Coordinate(n, t.cols), y := y)
    case '`' => t.(x := Coordinate(n, t.cols), y := y)
    case 'H' => t.(x := Coordinate(Max(m, 1), t.cols), y := Coordinate(Max(n, 1), t.rows))
    case 'f' => t.(x := Coordinate(Max(m, 1), t.cols), y := Coordinate(Max(n, 1), t.rows))
    case _ => t
  }

  /** The control functions that change cells or margins; `saved` is the cursor of the last CSI s. */
  function Edited(t: Text, c: char, n: nat, m: nat, count: nat, saved: (nat, nat)): (u: Text)
    requires t.Ok() && n < U64
  {
    match c
    case 'M' => DeleteLines(t, n)
    case 'L' => InsertLines(t, n)
    case 'J' => EraseDisplay(t, n)
    case 'K' => EraseLine(t, n)
    case '@' => Insert(t, n)
    case 'P' => Delete(t, n)
    case 'X' => EraseChars(t, n)
    case 'u' => t.MoveTo(saved.0, saved.1)
    case 'r' => SetMargins(t, n, m, count)
    case _ => t
  }

  const MOTIONS: set<char> := {'A', 'B', 'C', 'D', 'E', 'F', 'G', 'H', '`', 'a', 'd', 'e', 'f'}

  /** What a control sequence with final byte `c` and parameters `n`, `m` (`count` of them given) does. */
  function Control(t: Text, c: char, n: nat, m: nat, count: nat, saved: (nat, nat)): Text
    requires t.Ok() && n < U64
  {
    if c in MOTIONS then Motion(t, c, n, m) else Edited(t, c, n, m, count, saved)
  }

  /** A control sequence keeps the margins in order and the cursor on the screen, or on the pending wrap. */
  lemma ControlKeepsOk(t: Text, c: char, n: nat, m: nat, count: nat, saved: (nat, nat))
    requires t.Ok() && t.top < t.bottom && t.x <= t.cols && n < U64
    ensures var u := Control(t, c, n, m, count, saved);
            && u.Ok() && u.cols == t.cols && u.rows == t.rows && u.top < u.bottom && u.x <= u.cols
            && u.scrolls == t.scrolls
  {
    hide Motion, Edited;
    if c !in MOTIONS {
      EditedKeepsOk(t, c, n, m, count, saved);
    }
  }

  lemma EditedKeepsOk(t: Text, c: char, n: nat, m: nat, count: nat, saved: (nat, nat))
    requires t.Ok() && t.top < t.bottom && t.x <= t.cols && n < U64
    ensures var u := Edited(t, c, n, m, count, saved);
            && u.Ok() && u.cols == t.cols && u.rows == t.rows && u.top < u.bottom && u.x <= u.cols
            && u.scrolls == t.scrolls
  {
    hide Insert, Delete, EraseChars, EraseDisplay, EraseLine, DeleteLines, InsertLines;
  }

  lemma ControlKeepsInk(t: Text, c: char, n: nat, m: nat, count: nat, saved: (nat, nat))
    requires t.Ok() && n < U64
    ensures var u := Control(t, c, n, m, count, saved); u.fg == t.fg && u.bg == t.bg
  {
    hide Insert, Delete, EraseChars, EraseDisplay, EraseLine, DeleteLines, InsertLines, Motion;
  }

  lemma {:induction false} BlanksStayOnRow(t: Text, n: nat)
    requires t.Ok() && t.x + n <= t.cols
    ensures t.Blanks(n).x == t.x + n && t.Blanks(n).y == t.y
  {
    hide PutCell, Scrolled;
    if n == 0 {
    } else {
      BlanksStayOnRow(t, n - 1);
    }
  }
}
