/** The framebuffer backend of the terminal (src/drivers/terminal/flanterm/backends/fb.c), without canvas
    and masking, together with the fields it shares with the parser. */
module Screen {
  import opened Arithmetic
  import opened PendingCells
  import opened Geometry
  import opened TextState

  function Invert(c: Cell): Cell {
    c.(fg := c.bg, bg := c.fg)
  }

  /** The cells a flush is to display: the logical screen, with the cursor's cell inverted when the cursor
      is enabled and on screen. */
  function WithCursor(v: seq<Cell>, cols: nat, rows: nat, enabled: bool, x: nat, y: nat): (w: seq<Cell>)
    requires |v| == rows * cols
    ensures |w| == |v|
  {
    if enabled && x < cols && y < rows then
      PosInRange(cols, rows, x, y);
      v[Pos(cols, x, y) := Invert(v[Pos(cols, x, y)])]
    else v
  }

  /** Index of a position, or NULL off screen. */
  function Index(cols: nat, rows: nat, x: nat, y: nat): int {
    if x < cols && y < rows then Pos(cols, x, y) else NULL
  }

  /** A colour, or the background where it is transparent. */
  function Opaque(colour: nat, defaultBg: nat): nat {
    if colour == 0xFFFF_FFFF then defaultBg else colour
  }

  /** Pixel (gx, gy) of the cell in column `x` of row `y` has the cell's foreground where its glyph is set, and its
      background elsewhere; the other way round if the enabled cursor is there. */
  ghost predicate Drawn(f: seq<nat>, k: Look, v: seq<Cell>, enabled: bool, cx: nat, cy: nat, x: nat, y: nat, gx: nat, gy: nat) {
    var l, lit := k.layout, enabled && x == cx && y == cy;
    var i, at := y * l.cols + x, (l.offsetY + y * l.glyphHeight + gy) * l.stride + (l.offsetX + x * l.glyphWidth + gx);
    && 0 < l.scaleX && 0 < l.scaleY && i < |v| && at < |f|
    && f[at] == Opaque(if k.font(v[i].c, gy / l.scaleY % 0x100, gx / l.scaleX) != lit then v[i].fg else v[i].bg, k.defaultBg)
  }

  /** The pixels of all cells, with the cursor, on the background. */
  ghost predicate Redrawn(f: seq<nat>, k: Look, v: seq<Cell>, enabled: bool, cx: nat, cy: nat) {
    var l := k.layout;
    && (forall x: nat, y: nat, gx: nat, gy: nat | x < l.cols && y < l.rows && gx < l.glyphWidth && gy < l.glyphHeight ::
          Drawn(f, k, v, enabled, cx, cy, x, y, gx, gy))
    && (forall px: nat, py: nat {:trigger l.InText(px, py)} | px < l.width && py < l.height && !l.InText(px, py) ::
          py * l.stride + px < |f| && f[py * l.stride + px] == k.defaultBg)
  }

  /** A framebuffer that displays the logical screen with its cursor is redrawn, pixel by pixel. */
  lemma DisplayIsRedrawn(f: seq<nat>, k: Look, v: seq<Cell>, enabled: bool, cx: nat, cy: nat)
    requires k.layout.Ok() && |v| == k.layout.rows * k.layout.cols
    requires Displays(f, k, WithCursor(v, k.layout.cols, k.layout.rows, enabled, cx, cy))
    ensures Redrawn(f, k, v, enabled, cx, cy)
  {
    hide Displays, PixelOf, Drawn, WithCursor;
    var l := k.layout;
    forall x: nat, y: nat, gx: nat, gy: nat | x < l.cols && y < l.rows && gx < l.glyphWidth && gy < l.glyphHeight
      ensures Drawn(f, k, v, enabled, cx, cy, x, y, gx, gy)
    {
      DisplayIsDrawn(f, k, v, enabled, cx, cy, x, y, gx, gy);
    }
    forall px: nat, py: nat | px < l.width && py < l.height && !l.InText(px, py)
      ensures py * l.stride + px < |f| && f[py * l.stride + px] == k.defaultBg
    {
      MarginIsClear(f, k, WithCursor(v, l.cols, l.rows, enabled, cx, cy), px, py);
    }
  }

  lemma MarginIsClear(f: seq<nat>, k: Look, cells: seq<Cell>, px: nat, py: nat)
    requires k.layout.Ok() && Displays(f, k, cells) && px < k.layout.width && py < k.layout.height && !k.layout.InText(px, py)
    ensures py * k.layout.stride + px < |f| && f[py * k.layout.stride + px] == k.defaultBg
  {
    hide ShowsCell, Layout.InText;
    AddressInBounds(k.layout, px, py);
    assert k.layout.At(px, py) == py * k.layout.stride + px;
  }

  lemma DisplayIsDrawn(f: seq<nat>, k: Look, v: seq<Cell>, enabled: bool, cx: nat, cy: nat, x: nat, y: nat, gx: nat, gy: nat)
    requires k.layout.Ok() && |v| == k.layout.rows * k.layout.cols
    requires x < k.layout.cols && y < k.layout.rows && gx < k.layout.glyphWidth && gy < k.layout.glyphHeight
    requires Displays(f, k, WithCursor(v, k.layout.cols, k.layout.rows, enabled, cx, cy))
    ensures Drawn(f, k, v, enabled, cx, cy, x, y, gx, gy)
  {
    hide PixelOf, MarginShows, WithCursor;
    var l, cells := k.layout, WithCursor(v, k.layout.cols, k.layout.rows, enabled, cx, cy);
    PosInRange(l.cols, l.rows, x, y);
    var i := Pos(l.cols, x, y);
    assert ShowsCell(f, k, i, cells[i]);
    AddressOfPixel(l, x, y, gx, gy);
    CursorCell(v, l.cols, l.rows, enabled, cx, cy, x, y);
    CellPixel(f, k, cells[i], x, y, gx, gy);
    LitPixel(k, v[i], enabled && x == cx && y == cy, gx, gy);
  }

  /** Which cell is inverted. */
  lemma CursorCell(v: seq<Cell>, cols: nat, rows: nat, enabled: bool, cx: nat, cy: nat, x: nat, y: nat)
    requires |v| == rows * cols && x < cols && y < rows
    ensures Pos(cols, x, y) < |v|
    ensures WithCursor(v, cols, rows, enabled, cx, cy)[Pos(cols, x, y)] ==
              if enabled && x == cx && y == cy then Invert(v[Pos(cols, x, y)]) else v[Pos(cols, x, y)]
  {
    PosInRange(cols, rows, x, y);
    if cx < cols && cy < rows {
      PosInRange(cols, rows, cx, cy);
    }
  }

  lemma CellPixel(f: seq<nat>, k: Look, c: Cell, x: nat, y: nat, gx: nat, gy: nat)
    requires k.layout.Ok() && Shows(f, k, x, y, c) && gx < k.layout.glyphWidth && gy < k.layout.glyphHeight
    requires Address(k.layout, x, y, gx, gy) < |f|
    ensures f[Address(k.layout, x, y, gx, gy)] == PixelOf(k, c, gx, gy)
  {
    hide PixelOf;
    var l := k.layout;
    assert l.InCell(l.Left(x) + gx, l.Top(y) + gy, x, y);
  }

  lemma LitPixel(k: Look, c: Cell, lit: bool, gx: nat, gy: nat)
    requires 0 < k.layout.scaleX && 0 < k.layout.scaleY
    ensures PixelOf(k, if lit then Invert(c) else c, gx, gy) ==
              Opaque(if k.font(c.c, gy / k.layout.scaleY % 0x100, gx / k.layout.scaleX) != lit then c.fg else c.bg, k.defaultBg)
  {
  }

  class Screen {
    const look: Look
    const cols: nat
    const rows: nat

    const grid: array<Cell>
    const queue: array<Item>
    const slots: array<int>
    const framebuffer: array<nat>
    var queueI: nat

    // shared with the parser
    var cursorEnabled: bool
    var scrollEnabled: bool
    var top: nat
    var bottom: nat

    var textFg: nat
    var textBg: nat
    var cursorX: nat
    var cursorY: nat
    var savedFg: nat
    var savedBg: nat
    var savedX: nat
    var savedY: nat
    var oldCursorX: nat
    var oldCursorY: nat

    // the cells whose pixels the framebuffer holds
    ghost var painted: seq<Cell>

    function P(): Pending
      reads this`queueI, grid, queue, slots
    {
      Pending(grid[..], queue[..], queueI, slots[..])
    }

    ghost predicate Fixed()
      reads framebuffer
    {
      && look.layout.Ok() && cols == look.layout.cols && rows == look.layout.rows
      && (slots as object) != framebuffer
      && framebuffer.Length >= look.layout.height * look.layout.stride
    }

    /** The logical screen is well formed. */
    ghost predicate CellsOk()
      reads this`queueI, grid, queue, slots, framebuffer
    {
      Fixed() && Ok(P(), cols, rows)
    }

    ghost function V(): (v: seq<Cell>)
      reads this`queueI, grid, queue, slots, framebuffer
      requires CellsOk()
      ensures |v| == rows * cols
    {
      View(P())
    }

    /** What the control functions work on. */
    ghost function T(): (t: Text)
      reads this`queueI, this`cursorX, this`cursorY, this`top, this`bottom, this`textFg, this`textBg, this`scrollEnabled
      reads grid, queue, slots, framebuffer
      requires CellsOk()
      ensures |t.v| == t.rows * t.cols
    {
      Text(cols, rows, V(), cursorX, cursorY, top, bottom, textFg, textBg, scrollEnabled)
    }

    ghost predicate MarginsOk()
      reads this`top, this`bottom
    {
      top < rows && 0 < bottom <= rows
    }

    /** Between flushes the framebuffer shows the committed grid, up to the cursor left by the last flush. */
    ghost predicate PaintOk()
      reads this`painted, this`oldCursorX, this`oldCursorY, grid, framebuffer
    {
      && Fixed() && Displays(framebuffer[..], look, painted)
      && |painted| == grid.Length
      && forall i :: 0 <= i < |painted| ==>
           painted[i] == grid[i] || (i == Index(cols, rows, oldCursorX, oldCursorY) && painted[i] == Invert(grid[i]))
    }

    /** The framebuffer shows the painted cells. */
    ghost predicate PaintFits()
      reads this`painted, grid, framebuffer
    {
      Fixed() && Displays(framebuffer[..], look, painted) && |painted| == grid.Length
    }

    function Blank(): Cell
      reads this`textFg, this`textBg
    {
      Cell(0x20, textFg, textBg)
    }

    /** push_to_queue. */
    method PushToQueue(c: Cell, x: nat, y: nat)
      requires CellsOk()
      modifies this`queueI, queue, slots
      ensures CellsOk() && V() == PutCell(old(V()), cols, rows, c, x, y)
    {
      hide Ok, View, Pos, PutCell;
      ghost var p := P();
      PushPutsCell(p, cols, rows, c, x, y);
      if x >= cols || y >= rows {
        return;
      }
      PosInRange(cols, rows, x, y);
      var i := Pos(cols, x, y);
      OkSizes(p, cols, rows);
      var q := slots[i];
      if q == NULL {
        if grid[i] == c {
          assert Push(p, cols, rows, c, x, y) == p;
          return;
        }
        RoomForItem(p, cols, rows, i);
        q := queueI;
        queueI := queueI + 1;
        queue[q] := Item(x, y, c);
        slots[i] := q;
      } else {
        queue[q] := queue[q].(cell := c);
      }
      assert P() == Push(p, cols, rows, c, x, y);
    }

    /** The logical cell at `i`: through the map if it is pending, from the grid otherwise. */
    method CellAt(i: nat) returns (c: Cell)
      requires CellsOk() && i < rows * cols
      ensures c == V()[i]
    {
      var q := slots[i];
      c := if q != NULL then queue[q].cell else grid[i];
    }

    /** One row blanked cell by cell, as scroll and revscroll end. */
    method BlankRow(row: nat)
      requires CellsOk() && row < rows
      modifies this`queueI, queue, slots
      ensures CellsOk() && V() == Blanked(old(V()), row * cols, (row + 1) * cols, Blank())
    {
      hide Ok, View, PutCell, Blanked, Shifted;
      ghost var v := V();
      RowBounds(cols, rows, row);
      BlankedNothing(v, row * cols, Blank());
      for i := 0 to cols
        invariant CellsOk() && V() == Blanked(v, row * cols, row * cols + i, Blank())
      {
        PutCellAt(V(), cols, rows, Blank(), i, row);
        BlankedNext(v, row * cols, row * cols + i, Blank());
        PushToQueue(Blank(), i, row);
      }
    }

    /** The loop body of scroll and revscroll: the logical cell at `from` pushed to cell number `dest`. */
    method CopyCell(from: nat, dest: nat)
      requires CellsOk() && from < rows * cols && dest < rows * cols
      modifies this`queueI, queue, slots
      ensures CellsOk() && V() == old(V())[dest := old(V())[from]]
    {
      hide Ok, View, PutCell;
      var c := CellAt(from);
      CellOf(cols, rows, dest);
      PutCellAt(V(), cols, rows, c, dest % cols, dest / cols);
      PushToQueue(c, dest % cols, dest / cols);
    }

    /** The loop of scroll: the cells from number `lo` up to one row before `end` become those of the row below. */
    method ShiftUp(lo: nat, end: nat)
      requires CellsOk() && lo + cols <= rows * cols && end <= rows * cols
      modifies this`queueI, queue, slots
      ensures CellsOk() && V() == Shifted(old(V()), lo, end - cols, cols)
    {
      hide Ok, View, Shifted;
      ghost var v := V();
      var i := lo + cols;
      ShiftedNothing(v, lo, cols);
      while i < end
        invariant CellsOk() && lo + cols <= i && (i <= end || i == lo + cols) && |v| == rows * cols
        invariant V() == Shifted(v, lo, i - cols, cols)
      {
        ShiftedAt(v, lo, i - cols, cols, i);
        ShiftedNext(v, lo, i - cols, cols);
        CopyCell(i, i - cols);
        i := i + 1;
      }
      ShiftedSame(v, lo, i - cols, end - cols, cols);
    }

    /** flanterm_fb_scroll. */
    method Scroll()
      requires CellsOk() && MarginsOk()
      modifies this`queueI, queue, slots
      ensures CellsOk() && V() == Scrolled(old(V()), cols, rows, top, bottom, Blank())
    {
      hide Ok, View, Blanked, Shifted;
      RowBounds(cols, rows, top);
      RowBounds(cols, rows, bottom - 1);
      RowOrder(cols, top, bottom);
      ShiftUp(top * cols, bottom * cols);
      BlankRow(bottom - 1);
    }

    /** flanterm_fb_revscroll. */
    method RevScroll()
      requires CellsOk() && MarginsOk()
      modifies this`queueI, queue, slots
      ensures CellsOk() && V() == RevScrolled(old(V()), cols, rows, top, bottom, Blank())
    {
      hide Ok, View, Blanked, Shifted;
      ghost var v, hi, up := V(), bottom * cols, -(cols as int);
      var start := top * cols;
      RowBounds(cols, rows, top);
      RowBounds(cols, rows, bottom - 1);
      RowOrder(cols, top, bottom);
      ShiftedNothing(v, hi, up);
      // a size_t, whose wrap to -1 is caught by the test in the loop
      var i: int := (bottom - 1) * cols - 1;
      while i != -1 && i >= start
        invariant CellsOk() && -1 <= i && i + 1 + cols <= hi <= |v| && (start <= i + 1 || i + 1 + cols == hi)
        invariant V() == Shifted(v, i + 1 + cols, hi, up)
        decreases i
      {
        ShiftedAt(v, i + 1 + cols, hi, up, i);
        ShiftedPrevious(v, i + 1 + cols, hi, up);
        CopyCell(i, i + cols);
        i := i - 1;
      }
      ShiftedSameEnd(v, i + 1 + cols, start + cols, hi, up);
      BlankRow(top);
    }

    /** One cell of flanterm_fb_clear. */
    method ClearCell(i: nat)
      requires CellsOk() && i < rows * cols
      modifies this`queueI, queue, slots
      ensures CellsOk() && V() == old(V())[i := Blank()]
    {
      hide Ok, View, PutCell;
      CellOf(cols, rows, i);
      PutCellAt(V(), cols, rows, Blank(), i % cols, i / cols);
      PushToQueue(Blank(), i % cols, i / cols);
    }

    /** flanterm_fb_clear. */
    method Clear(move: bool)
      requires CellsOk()
      modifies this`queueI, this`cursorX, this`cursorY, queue, slots
      ensures CellsOk() && V() == Blanked(old(V()), 0, rows * cols, Blank())
      ensures (cursorX, cursorY) == if move then (0, 0) else (old(cursorX), old(cursorY))
    {
      hide Ok, View, Blanked;
      ghost var v := V();
      BlankedNothing(v, 0, Blank());
      for i := 0 to rows * cols
        invariant CellsOk() && V() == Blanked(v, 0, i, Blank())
        modifies this`queueI, queue, slots
      {
        BlankedNext(v, 0, i, Blank());
        ClearCell(i);
      }
      if move {
        cursorX, cursorY := 0, 0;
      }
    }

    /** flanterm_fb_set_cursor_pos. */
    method SetCursorPos(x: nat, y: nat)
      requires CellsOk() && MarginsOk()
      modifies this`cursorX, this`cursorY
      ensures CellsOk() && T() == old(T()).MoveTo(x, y)
    {
      hide Ok, View;
      var cx, cy := x, y;
      if cx >= cols {
        if cx % U32 >= 0x8000_0000 {
          cx := 0;
        } else {
          cx := cols - 1;
        }
      }
      if cy >= rows {
        if cy % U32 >= 0x8000_0000 {
          cy := 0;
        } else {
          cy := rows - 1;
        }
      }
      cursorX, cursorY := cx, cy;
    }

    /** flanterm_fb_get_cursor_pos: always on screen. */
    method GetCursorPos() returns (x: nat, y: nat)
      requires CellsOk() && MarginsOk()
      ensures x == T().Column() < cols && y == T().Row() < rows
    {
      hide Ok, View;
      x := if cursorX >= cols then cols - 1 else cursorX;
      y := if cursorY >= rows then rows - 1 else cursorY;
    }

    /** flanterm_fb_save_state. */
    method SaveState()
      modifies this`savedFg, this`savedBg, this`savedX, this`savedY
      ensures savedFg == textFg && savedBg == textBg && savedX == cursorX && savedY == cursorY
    {
      savedFg, savedBg, savedX, savedY := textFg, textBg, cursorX, cursorY;
    }

    /** flanterm_fb_restore_state. */
    method RestoreState()
      requires CellsOk()
      modifies this`textFg, this`textBg, this`cursorX, this`cursorY
      ensures CellsOk() && T() == old(T()).(fg := savedFg, bg := savedBg, x := savedX, y := savedY)
    {
      textFg, textBg, cursorX, cursorY := savedFg, savedBg, savedX, savedY;
    }

    /** flanterm_fb_move_character. */
    method MoveCharacter(newX: nat, newY: nat, oldX: nat, oldY: nat)
      requires CellsOk()
      modifies this`queueI, queue, slots
      ensures CellsOk() && V() == MovedCell(old(V()), cols, rows, newX, newY, oldX, oldY)
    {
      hide Ok, View, PutCell, MovedCell;
      MovedCellIs(V(), cols, rows, newX, newY, oldX, oldY);
      if oldX >= cols || oldY >= rows || newX >= cols || newY >= rows {
        return;
      }
      var c := CellAt(oldX + oldY * cols);
      PushToQueue(c, newX, newY);
    }

    /** flanterm_fb_raw_putchar.  Wrapping to the next row compares the row with `cols`, as the C code does. */
    method RawPutchar(c: nat)
      requires CellsOk() && MarginsOk()
      modifies this`queueI, this`cursorX, this`cursorY, queue, slots
      ensures CellsOk() && T() == old(T()).Put(c)
    {
      hide Ok, View, PutCell, Scrolled;
      if cursorX >= cols && (cursorY < bottom - 1 || scrollEnabled) {
        cursorX := 0;
        cursorY := cursorY + 1;
        if cursorY == bottom {
          cursorY := cursorY - 1;
          Scroll();
        }
        if cursorY >= cols {
          cursorY := cols - 1;
        }
      }
      var ch := Cell(c, textFg, textBg);
      var x := cursorX;
      cursorX := cursorX + 1;
      PushToQueue(ch, x, cursorY);
    }

    // -------------------------------------------------------------------------------------------
    // Pixels
    // -------------------------------------------------------------------------------------------

    /** plot_char. */
    method PlotChar(c: Cell, x: nat, y: nat)
      requires Fixed() && Displays(framebuffer[..], look, painted)
      modifies this`painted, framebuffer
      ensures Displays(framebuffer[..], look, painted)
      ensures |painted| == |old(painted)| && painted == PutCell(old(painted), cols, rows, c, x, y)
    {
      hide PixelOf, PlottedTo, ShowsCell, MarginShows;
      if x >= cols || y >= rows {
        return;
      }
      ghost var f, k := framebuffer[..], look;
      var left, up := look.layout.offsetX + x * look.layout.glyphWidth, look.layout.offsetY + y * look.layout.glyphHeight;
      PlottedNothing(f, k, c, x, y);
      for gy := 0 to look.layout.glyphHeight
        invariant framebuffer[..] == PlottedTo(f, k, c, x, y, 0, gy) && painted == old(painted)
      {
        var line := left + (up + gy) * look.layout.stride;
        for fx := 0 to look.layout.fontWidth
          invariant framebuffer[..] == PlottedTo(f, k, c, x, y, look.layout.scaleX * fx, gy) && painted == old(painted)
        {
          ColumnsInside(look.layout, fx);
          for i := 0 to look.layout.scaleX
            invariant framebuffer[..] == PlottedTo(f, k, c, x, y, look.layout.scaleX * fx + i, gy) && painted == old(painted)
          {
            var gx := look.layout.scaleX * fx + i;
            PlottedNext(f, k, c, x, y, gx, gy);
            PixelColour(k, c, fx, i, gy);
            var bg := if c.bg == TRANSPARENT then look.defaultBg else c.bg;
            var fg := if c.fg == TRANSPARENT then look.defaultBg else c.fg;
            framebuffer[line + gx] := if look.font(c.c, gy / look.layout.scaleY % 0x100, fx) then fg else bg;
          }
        }
        ScaleCommutes(look.layout);
        PlottedRow(f, k, c, x, y, gy);
      }
      PlotUpdatesDisplay(f, k, painted, c, x, y);
      PosInRange(cols, rows, x, y);
      painted := painted[Pos(cols, x, y) := c];
    }

    /** draw_cursor: the cursor's logical cell drawn inverted, and committed if it was pending.  Its queue
        item stays behind without a map entry. */
    method DrawCursor(ghost v: seq<Cell>)
      requires PaintFits() && Flushing(P(), cols, rows, v, 0)
      modifies this`painted, grid, slots, framebuffer
      ensures PaintFits()
      ensures CursorDrawn(old(P()), P(), old(painted), painted, v, Index(cols, rows, cursorX, cursorY))
    {
      hide Displays, View, Pos, Flushing;
      if cursorX >= cols || cursorY >= rows {
        return;
      }
      PosInRange(cols, rows, cursorX, cursorY);
      var i := Pos(cols, cursorX, cursorY);
      FlushingView(P(), cols, rows, v, 0, i);
      var q := slots[i];
      var c := if q != NULL then queue[q].cell else grid[i];
      PlotChar(Invert(c), cursorX, cursorY);
      if q != NULL {
        grid[i] := queue[q].cell;
        slots[i] := NULL;
      }
      assert P() == Commit(old(P()), i, v[i]);
    }

    /** One item of the queue, drawn and committed unless its cell is no longer pending. */
    method FlushItem(i: nat, ghost v: seq<Cell>, ghost d: int, ghost o: int)
      requires PaintFits() && Flushing(P(), cols, rows, v, i) && i < queueI
      requires Painting(painted, slots[..], v, d, o)
      modifies this`painted, grid, slots, framebuffer
      ensures PaintFits() && Flushing(P(), cols, rows, v, i + 1)
      ensures Painting(painted, slots[..], v, d, o)
    {
      hide Displays, View, Pos, Flushing, Painting;
      FlushingItem(P(), cols, rows, v, i);
      var item := queue[i];
      var offset := item.y * cols + item.x;
      if slots[offset] != NULL {
        ghost var p, before := P(), painted;
        PlotChar(item.cell, item.x, item.y);
        grid[offset] := item.cell;
        slots[offset] := NULL;
        assert P() == Commit(p, offset, v[offset]);
        CommitKeepsFlushing(p, cols, rows, v, i, offset);
        PaintingItem(before, p.slot, v, d, o, offset);
      }
      SkipKeepsFlushing(P(), cols, rows, v, i);
    }

    /** The old cursor's cell, redrawn from the grid when the cursor has left it. */
    method EraseOldCursor()
      requires PaintFits() && grid.Length == rows * cols
      requires AllCommitted(painted, grid[..], if cursorEnabled then Index(cols, rows, cursorX, cursorY) else NULL,
                            Index(cols, rows, oldCursorX, oldCursorY))
      modifies this`painted, framebuffer
      ensures PaintFits() && grid[..] == old(grid[..])
      ensures painted == WithCursor(grid[..], cols, rows, cursorEnabled, cursorX, cursorY)
      ensures AllCommitted(painted, grid[..], NULL, Index(cols, rows, cursorX, cursorY))
    {
      hide Displays, Pos, AllCommitted, WithCursor, PutCell;
      ghost var before := painted;
      if (oldCursorX != cursorX || oldCursorY != cursorY) || !cursorEnabled {
        if oldCursorX < cols && oldCursorY < rows {
          PosInRange(cols, rows, oldCursorX, oldCursorY);
          PlotChar(grid[Pos(cols, oldCursorX, oldCursorY)], oldCursorX, oldCursorY);
        }
      }
      OldCursorErased(before, painted, grid[..], cols, rows, cursorEnabled, cursorX, cursorY, oldCursorX, oldCursorY);
    }

    /** flanterm_fb_double_buffer_flush: an incremental redraw. */
    method Flush()
      requires CellsOk() && PaintOk()
      modifies this`queueI, this`oldCursorX, this`oldCursorY, this`painted, grid, slots, framebuffer
      ensures CellsOk() && PaintOk() && queueI == 0
      ensures V() == old(V()) == grid[..]
      ensures Displays(framebuffer[..], look, WithCursor(V(), cols, rows, cursorEnabled, cursorX, cursorY))
      ensures Redrawn(framebuffer[..], look, V(), cursorEnabled, cursorX, cursorY)
    {
      hide Ok, Displays, View, Pos, Flushing, Painting, Redrawn;
      ghost var v := V();
      ghost var o, d := Index(cols, rows, oldCursorX, oldCursorY), NULL;
      ghost var p, before := P(), painted;
      StartFlushing(p, cols, rows);
      PaintingStarts(before, p, cols, rows, o);
      if cursorEnabled {
        DrawCursor(v);
        d := Index(cols, rows, cursorX, cursorY);
        CursorKeepsFlushing(p, P(), cols, rows, before, painted, v, d, o);
      }
      var i := 0;
      while i < queueI
        invariant i <= queueI && PaintFits() && Flushing(P(), cols, rows, v, i)
        invariant Painting(painted, slots[..], v, d, o)
        modifies this`painted, grid, slots, framebuffer
      {
        FlushItem(i, v, d, o);
        i := i + 1;
      }
      Flushed(P(), cols, rows, v);
      FlushedPainting(P(), cols, rows, painted, v, d, o);
      EraseOldCursor();
      oldCursorX := cursorX;
      oldCursorY := cursorY;
      queueI := 0;
      DisplayIsRedrawn(framebuffer[..], look, v, cursorEnabled, cursorX, cursorY);
    }

    /** flanterm_fb_full_refresh: a redraw of everything, used when nothing is pending. */
    method FullRefresh()
      requires CellsOk() && queueI == 0
      modifies this`painted, grid, slots, framebuffer
      ensures CellsOk() && V() == old(V()) == grid[..]
      ensures Displays(framebuffer[..], look, WithCursor(V(), cols, rows, cursorEnabled, cursorX, cursorY))
      ensures Redrawn(framebuffer[..], look, V(), cursorEnabled, cursorX, cursorY)
      ensures oldCursorX == cursorX && oldCursorY == cursorY ==> PaintOk()
    {
      hide Ok, Displays, View, Pos, Flushing, Painting, AllCommitted, WithCursor, Redrawn;
      ghost var v, p := V(), P();
      NothingPending(p, cols, rows);
      ClearFramebuffer();
      RepaintGrid();
      StartFlushing(p, cols, rows);
      ghost var before, d := painted, NULL;
      if cursorEnabled {
        DrawCursor(v);
        d := Index(cols, rows, cursorX, cursorY);
      }
      RedrawnCells(p, P(), before, painted, v, cols, rows, cursorEnabled, cursorX, cursorY);
      DisplayIsRedrawn(framebuffer[..], look, v, cursorEnabled, cursorX, cursorY);
    }

    /** The background, on every visible pixel. */
    method ClearFramebuffer()
      requires Fixed()
      modifies this`painted, framebuffer
      ensures Fixed() && |painted| == rows * cols && Displays(framebuffer[..], look, painted)
    {
      hide PixelOf;
      for y := 0 to look.layout.height
        invariant ClearedTo(framebuffer[..], look, 0, y)
      {
        for x := 0 to look.layout.width
          invariant ClearedTo(framebuffer[..], look, x, y)
        {
          AddressInBounds(look.layout, x, y);
          framebuffer[y * look.layout.stride + x] := look.defaultBg;
        }
      }
      painted := seq(rows * cols, i => Cell(0, TRANSPARENT, TRANSPARENT));
      ClearDisplaysNothing(framebuffer[..], look, painted);
    }

    method RepaintGrid()
      requires PaintFits() && grid.Length == rows * cols
      modifies this`painted, framebuffer
      ensures PaintFits() && painted == grid[..] == old(grid[..])
    {
      hide Displays, PutCell, Pos;
      ghost var g := grid[..];
      var n := grid.Length;
      for i := 0 to n
        invariant PaintFits() && n == rows * cols == |g| == |painted| && grid[..] == g
        invariant forall j :: 0 <= j < i ==> painted[j] == g[j]
      {
        CellOf(cols, rows, i);
        var x, y := i % cols, i / cols;
        PutCellAt(painted, cols, rows, grid[i], x, y);
        PlotChar(grid[i], x, y);
      }
    }

    /** flanterm_fb_init, from the blank grid on to the first redraw.  The framebuffer is the caller's. */
    constructor (look: Look, framebuffer: array<nat>, fg: nat)
      requires look.layout.Ok() && framebuffer.Length >= look.layout.height * look.layout.stride
      ensures this.look == look && this.framebuffer == framebuffer && fresh(grid) && fresh(queue) && fresh(slots)
      ensures CellsOk() && MarginsOk() && queueI == 0 && cursorEnabled
      ensures T() == Text(cols, rows, seq(rows * cols, i => Cell(0x20, fg, TRANSPARENT)), 0, 0, 0, rows, fg, TRANSPARENT, true)
      ensures oldCursorX == oldCursorY == savedX == savedY == 0
    {
      this.look, cols, rows := look, look.layout.cols, look.layout.rows;
      this.framebuffer := framebuffer;
      var n := look.layout.rows * look.layout.cols;
      grid := new Cell[n](i => Cell(0x20, fg, TRANSPARENT));
      queue := new Item[n](i => Item(0, 0, Cell(0, 0, 0)));
      slots := new int[n](i => NULL);
      queueI, textFg, textBg := 0, fg, TRANSPARENT;
      cursorX, cursorY, oldCursorX, oldCursorY := 0, 0, 0, 0;
      savedX, savedY, savedFg, savedBg := 0, 0, 0, 0;
      cursorEnabled, scrollEnabled, top, bottom := true, true, 0, look.layout.rows;
      new;
      hide Ok, View;
      StartsOk(P(), cols, rows);
      assert grid[..] == seq(rows * cols, i => Cell(0x20, fg, TRANSPARENT));
    }
  }

  lemma StartsOk(p: Pending, cols: nat, rows: nat)
    requires 0 < cols && |p.grid| == |p.queue| == |p.slot| == rows * cols && p.count == 0
    requires forall i :: 0 <= i < |p.slot| ==> p.slot[i] == NULL
    ensures Ok(p, cols, rows) && View(p) == p.grid
  {
  }

  /** Nothing is mapped when nothing is queued. */
  lemma NothingPending(p: Pending, cols: nat, rows: nat)
    requires Ok(p, cols, rows) && p.count == 0
    ensures View(p) == p.grid
    ensures forall i :: 0 <= i < |p.slot| ==> p.slot[i] == NULL
  {
  }

  /** A redraw of the grid, and of the cursor when it is enabled. */
  lemma RedrawnCells(p: Pending, r: Pending, painted: seq<Cell>, after: seq<Cell>, v: seq<Cell>, cols: nat, rows: nat, enabled: bool, x: nat, y: nat)
    requires Ok(p, cols, rows) && p.count == 0 && View(p) == v == painted
    requires CursorDrawn(p, r, painted, after, v, if enabled then Index(cols, rows, x, y) else NULL)
    ensures r == p && after == WithCursor(v, cols, rows, enabled, x, y)
    ensures AllCommitted(after, v, NULL, Index(cols, rows, x, y))
  {
    NothingPending(p, cols, rows);
    if x < cols && y < rows {
      PosInRange(cols, rows, x, y);
      var d := Pos(cols, x, y);
      assert v[d := v[d]] == v;
      assert p.slot[d := NULL] == p.slot;
    }
  }

  /** The visible pixels before (x, y) are cleared. */
  ghost predicate ClearedTo(f: seq<nat>, k: Look, x: nat, y: nat) {
    forall px: nat, py: nat {:trigger k.layout.At(px, py)} :: px < k.layout.width && Before(px, py, x, y) && k.layout.At(px, py) < |f| ==>
      f[k.layout.At(px, py)] == k.defaultBg
  }

  /** A clear screen displays cells without glyphs. */
  lemma ClearDisplaysNothing(f: seq<nat>, k: Look, cells: seq<Cell>)
    requires k.layout.Ok() && |f| >= k.layout.height * k.layout.stride && |cells| == k.layout.rows * k.layout.cols
    requires ClearedTo(f, k, 0, k.layout.height)
    requires forall i :: 0 <= i < |cells| ==> cells[i] == Cell(0, TRANSPARENT, TRANSPARENT)
    ensures Displays(f, k, cells)
  {
    hide ShowsCell, PixelOf;
    forall i | 0 <= i < |cells|
      ensures ShowsCell(f, k, i, cells[i])
    {
      ClearShowsNothing(f, k, i);
    }
  }

  lemma ClearShowsNothing(f: seq<nat>, k: Look, i: nat)
    requires k.layout.Ok() && ClearedTo(f, k, 0, k.layout.height) && i < k.layout.rows * k.layout.cols
    ensures ShowsCell(f, k, i, Cell(0, TRANSPARENT, TRANSPARENT))
  {
    hide Layout.InCell, Layout.At;
    var x, y := i % k.layout.cols, i / k.layout.cols;
    CellOf(k.layout.cols, k.layout.rows, i);
    forall px: nat, py: nat | k.layout.InCell(px, py, x, y) && k.layout.At(px, py) < |f|
      ensures f[k.layout.At(px, py)] == k.defaultBg
    {
      PixelInBounds(k.layout, px, py, x, y);
    }
  }

  /** During a flush: cell `d`, the cursor's, is drawn inverted, and every other cell that is not pending
      is drawn as it is, but for the old cursor's, which may still be inverted. */
  ghost predicate Painting(painted: seq<Cell>, slot: seq<int>, v: seq<Cell>, d: int, o: int) {
    && |painted| == |slot| == |v|
    && (d == NULL || (0 <= d < |v| && slot[d] == NULL))
    && forall j :: 0 <= j < |v| && slot[j] == NULL ==>
         if j == d then painted[j] == Invert(v[j]) else painted[j] == v[j] || (j == o && painted[j] == Invert(v[j]))
  }

  lemma PaintingStarts(painted: seq<Cell>, p: Pending, cols: nat, rows: nat, o: int)
    requires Ok(p, cols, rows) && |painted| == |p.grid|
    requires forall i :: 0 <= i < |painted| ==> painted[i] == p.grid[i] || (i == o && painted[i] == Invert(p.grid[i]))
    ensures Painting(painted, p.slot, View(p), NULL, o)
  {
  }

  /** What draw_cursor does, `d` being the cell of the cursor or NULL. */
  ghost predicate CursorDrawn(p: Pending, r: Pending, painted: seq<Cell>, after: seq<Cell>, v: seq<Cell>, d: int) {
    if d == NULL then r == p && after == painted
    else
      && 0 <= d < |v| == |p.grid| == |p.slot| == |painted|
      && r == Commit(p, d, v[d]) && after == painted[d := Invert(v[d])]
  }

  lemma CursorKeepsFlushing(p: Pending, r: Pending, cols: nat, rows: nat, painted: seq<Cell>, after: seq<Cell>, v: seq<Cell>, d: int, o: int)
    requires CursorDrawn(p, r, painted, after, v, d)
    requires Flushing(p, cols, rows, v, 0) && Painting(painted, p.slot, v, NULL, o)
    ensures Flushing(r, cols, rows, v, 0) && Painting(after, r.slot, v, d, o)
  {
    hide Flushing;
    if d != NULL {
      CommitKeepsFlushing(p, cols, rows, v, 0, d);
    }
  }

  lemma PaintingItem(painted: seq<Cell>, slot: seq<int>, v: seq<Cell>, d: int, o: int, i: nat)
    requires Painting(painted, slot, v, d, o) && i < |v| && slot[i] != NULL
    ensures Painting(painted[i := v[i]], slot[i := NULL], v, d, o)
  {
  }

  /** Everything is committed, and only the cursor's cell and the old cursor's may be inverted. */
  lemma FlushedPainting(p: Pending, cols: nat, rows: nat, painted: seq<Cell>, v: seq<Cell>, d: int, o: int)
    requires Flushing(p, cols, rows, v, p.count) && Painting(painted, p.slot, v, d, o)
    ensures |painted| == |v| == |p.grid| == rows * cols && AllCommitted(painted, v, d, o)
  {
  }

  ghost predicate AllCommitted(painted: seq<Cell>, v: seq<Cell>, d: int, o: int) {
    && |painted| == |v|
    && forall j :: 0 <= j < |v| ==>
         if j == d then painted[j] == Invert(v[j]) else painted[j] == v[j] || (j == o && painted[j] == Invert(v[j]))
  }

  /** The last step of a flush: what is drawn is the logical screen with its cursor, and the old cursor is
      the only cell the next flush will have to repair. */
  lemma OldCursorErased(painted: seq<Cell>, after: seq<Cell>, v: seq<Cell>, cols: nat, rows: nat, enabled: bool, x: nat, y: nat, oldX: nat, oldY: nat)
    requires |v| == |painted| == rows * cols
    requires AllCommitted(painted, v, if enabled then Index(cols, rows, x, y) else NULL, Index(cols, rows, oldX, oldY))
    requires (oldX == x && oldY == y && enabled) || !(oldX < cols && oldY < rows) ==> after == painted
    requires (oldX != x || oldY != y || !enabled) && oldX < cols && oldY < rows ==>
               Pos(cols, oldX, oldY) < |v| && after == PutCell(painted, cols, rows, v[Pos(cols, oldX, oldY)], oldX, oldY)
    ensures after == WithCursor(v, cols, rows, enabled, x, y)
    ensures AllCommitted(after, v, NULL, Index(cols, rows, x, y))
  {
    hide Pos;
    if oldX < cols && oldY < rows {
      PosInRange(cols, rows, oldX, oldY);
    }
    if x < cols && y < rows {
      PosInRange(cols, rows, x, y);
    }
  }

  lemma FlushingView(p: Pending, cols: nat, rows: nat, v: seq<Cell>, k: nat, i: nat)
    requires Flushing(p, cols, rows, v, k) && i < rows * cols
    ensures |p.grid| == |p.slot| == |p.queue| == |v| == rows * cols
    ensures p.slot[i] != NULL ==> k <= p.slot[i] < p.count <= |p.queue| && p.queue[p.slot[i]].cell == v[i]
    ensures p.slot[i] == NULL ==> p.grid[i] == v[i]
  {
  }

  /** Item `k` of the queue is due. */
  lemma FlushingItem(p: Pending, cols: nat, rows: nat, v: seq<Cell>, k: nat)
    requires Flushing(p, cols, rows, v, k) && k < p.count
    ensures |p.grid| == |p.slot| == |v| == rows * cols && p.count <= |p.queue|
    ensures var item := p.queue[k];
            && item.x < cols && item.y < rows && 0 <= item.y * cols + item.x == ItemPos(cols, item) < |v|
            && (p.slot[ItemPos(cols, item)] != NULL ==> item.cell == v[ItemPos(cols, item)])
  {
    hide Pos;
    var item := p.queue[k];
    PosInRange(cols, rows, item.x, item.y);
    PosIs(cols, item.x, item.y);
  }

  lemma PosIs(cols: nat, x: nat, y: nat)
    ensures Pos(cols, x, y) == y * cols + x == x + y * cols
  {
  }

  lemma ColumnsInside(l: Layout, fx: nat)
    requires l.Ok() && fx < l.fontWidth
    ensures l.scaleX * fx + l.scaleX == l.scaleX * (fx + 1) <= l.glyphWidth
  {
    MulLe(fx + 1, l.fontWidth, l.scaleX);
    assert (fx + 1) * l.scaleX == l.scaleX * (fx + 1);
  }

  lemma ScaleCommutes(l: Layout)
    requires l.Ok()
    ensures l.scaleX * l.fontWidth == l.glyphWidth
  {
  }

  lemma PixelColour(k: Look, c: Cell, fx: nat, i: nat, gy: nat)
    requires k.layout.Ok() && i < k.layout.scaleX
    ensures var bg, fg := if c.bg == TRANSPARENT then k.defaultBg else c.bg, if c.fg == TRANSPARENT then k.defaultBg else c.fg;
            PixelOf(k, c, k.layout.scaleX * fx + i, gy) == if k.font(c.c, gy / k.layout.scaleY % 0x100, fx) then fg else bg
  {
    DivModUnique(fx, i, k.layout.scaleX);
    assert fx * k.layout.scaleX == k.layout.scaleX * fx;
  }

  function MovedCell(v: seq<Cell>, cols: nat, rows: nat, newX: nat, newY: nat, oldX: nat, oldY: nat): (w: seq<Cell>)
    requires |v| == rows * cols
    ensures |w| == |v|
  {
    if oldX < cols && oldY < rows then
      PosInRange(cols, rows, oldX, oldY);
      PutCell(v, cols, rows, v[Pos(cols, oldX, oldY)], newX, newY)
    else v
  }

  lemma MovedCellIs(v: seq<Cell>, cols: nat, rows: nat, newX: nat, newY: nat, oldX: nat, oldY: nat)
    requires |v| == rows * cols
    ensures oldX < cols && oldY < rows ==>
              oldX + oldY * cols < |v| && MovedCell(v, cols, rows, newX, newY, oldX, oldY) == PutCell(v, cols, rows, v[oldX + oldY * cols], newX, newY)
    ensures oldX >= cols || oldY >= rows || newX >= cols || newY >= rows ==> MovedCell(v, cols, rows, newX, newY, oldX, oldY) == v
  {
    if oldX < cols && oldY < rows {
      PosInRange(cols, rows, oldX, oldY);
    }
  }

  lemma PutCellAt(v: seq<Cell>, cols: nat, rows: nat, c: Cell, x: nat, y: nat)
    requires |v| == rows * cols && x < cols && y < rows
    ensures y * cols + x < |v| && PutCell(v, cols, rows, c, x, y) == v[y * cols + x := c]
  {
    PosInRange(cols, rows, x, y);
  }

  lemma OkSizes(p: Pending, cols: nat, rows: nat)
    requires Ok(p, cols, rows)
    ensures |p.grid| == |p.queue| == |p.slot| == rows * cols && p.count <= |p.queue|
    ensures forall i :: 0 <= i < |p.slot| && p.slot[i] != NULL ==> 0 <= p.slot[i] < |p.queue|
  {
  }
}
