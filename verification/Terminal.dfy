/** The byte-driven control-sequence machine of the terminal
    (src/drivers/terminal/flanterm/flanterm.c:71-120, 391-482, 484-887, 1206-1353). */
module Terminal {
  import opened Arithmetic
  import opened DigitStrings
  import opened PendingCells
  import opened Geometry
  import opened TextState
  import opened ControlFunctions
  import opened ControlParameters
  import opened Screen
  import opened Machine

  class Terminal {
    const screen: Screen
    const tables: Tables

    var autoflush: bool
    var controlSequence: bool
    var escape: bool
    var osc: bool
    var oscEscape: bool
    var rrr: bool
    var discardNext: bool
    var decPrivate: bool
    var insertMode: bool
    var onlcr: bool
    var codePoint: nat
    var unicodeRemaining: nat
    var gSelect: nat
    // whether G0 and G1 are the DEC special graphics
    var charsets: seq<bool>
    var currentCharset: nat
    var savedCharset: nat
    var escapeOffset: nat
    const escValues: array<nat>
    var escValuesI: nat
    var savedCursorX: nat
    var savedCursorY: nat

    function Params(): Collector
      reads this`escValuesI, this`rrr, escValues
    {
      Collector(escValues[..], escValuesI, rrr)
    }

    function R(): Reader
      reads this`escape, this`controlSequence, this`osc, this`oscEscape, this`escapeOffset, this`discardNext, this`decPrivate
      reads this`escValuesI, this`rrr, escValues
    {
      Reader(escape, controlSequence, osc, oscEscape, escapeOffset, discardNext, decPrivate,
             if controlSequence then Params() else NothingRead())
    }

    function G(): Charsets
      reads this`gSelect, this`charsets, this`currentCharset
    {
      Charsets(gSelect, charsets, currentCharset)
    }

    function S(): Saved
      reads this`savedCharset, screen`savedX, screen`savedY, screen`savedFg, screen`savedBg
    {
      Saved(screen.savedX, screen.savedY, screen.savedFg, screen.savedBg, savedCharset)
    }

    /** The state as the specification has it: stale parameters count for nothing. */
    ghost function M(): Machine
      reads this, escValues, screen, screen.grid, screen.queue, screen.slots, screen.framebuffer
      requires screen.CellsOk()
    {
      Machine(screen.T(), R(), Decoder(unicodeRemaining, codePoint), G(), Settings(insertMode, screen.cursorEnabled, onlcr), S(),
              (savedCursorX, savedCursorY))
    }

    /** What the control functions need. */
    ghost predicate Ready()
      reads this, escValues, screen, screen.grid, screen.queue, screen.slots, screen.framebuffer
    {
      && Params().Ok() && screen.CellsOk()
      && screen.top < screen.bottom <= screen.rows
      && screen.cols < 0x4000_0000 && screen.rows < 0x4000_0000
      && (escValues as object) != screen.framebuffer && (escValues as object) != screen.slots
      && screen.T().Ok()
    }

    /** What holds between any two bytes. */
    ghost predicate Valid()
      reads this, escValues, screen, screen.grid, screen.queue, screen.slots, screen.framebuffer
    {
      Ready() && screen.PaintOk() && M().Ok()
    }

    /** The end of flanterm_fb_init: a new context, flanterm_context_reinit and the first redraw. */
    constructor (look: Look, framebuffer: array<nat>, fg: nat, tables: Tables)
      requires look.layout.Ok() && framebuffer.Length >= look.layout.height * look.layout.stride
      requires look.layout.cols < 0x4000_0000 && look.layout.rows < 0x4000_0000
      modifies framebuffer
      ensures Valid() && screen.look == look && screen.framebuffer == framebuffer
      ensures Displays(framebuffer[..], look, WithCursor(screen.V(), screen.cols, screen.rows, true, 0, 0))
    {
      screen := new Screen(look, framebuffer, fg);
      this.tables := tables;
      autoflush, onlcr := true, true;
      controlSequence, escape, osc, oscEscape, rrr, discardNext, decPrivate, insertMode := false, false, false, false, false, false, false, false;
      codePoint, unicodeRemaining, gSelect := 0, 0, 0;
      charsets, currentCharset, savedCharset := [false, true], 0, 0;
      escapeOffset, escValuesI, savedCursorX, savedCursorY := 0, 0, 0, 0;
      escValues := new nat[MAX_ESC_VALUES](i => 0);
      new;
      hide Ok, View, Displays, WithCursor, AllCommitted, NothingRead, Collector.Ok;
      assert Params() == NothingRead() by { StartsEmpty(Params()); }
      ghost var m := M();
      assert Ready() && m.Ok();
      screen.FullRefresh();
      assert M() == m;
    }

    // -------------------------------------------------------------------------------------------
    // Control functions
    // -------------------------------------------------------------------------------------------

    /** The loops that print blanks. */
    method PutBlanks(n: nat)
      requires screen.CellsOk() && screen.MarginsOk()
      modifies screen`queueI, screen`cursorX, screen`cursorY, screen.queue, screen.slots
      ensures screen.CellsOk() && screen.T() == old(screen.T()).Blanks(n)
    {
      hide Ok, View, Text.Put;
      ghost var t := screen.T();
      for i := 0 to n
        invariant screen.CellsOk() && screen.T() == t.Blanks(i)
      {
        screen.RawPutchar(0x20);
      }
    }

    /** CUU and CPL. */
    method CursorUp(x: nat, y: nat)
      requires Ready() && x < screen.cols && y < screen.rows
      modifies escValues, screen`cursorX, screen`cursorY
      ensures Ready() && screen.T() == old(screen.T()).(x := x, y := RowUp(y, old(escValues[0]), screen.top))
    {
      hide Ok, View;
      if escValues[0] > y {
        escValues[0] := y;
      }
      var origY, destY := y, y - escValues[0];
      var willBeInScrollRegion := false;
      if (screen.top >= destY && screen.top <= origY) || (screen.bottom >= destY && screen.bottom <= origY) {
        willBeInScrollRegion := true;
      }
      if willBeInScrollRegion && destY < screen.top {
        destY := screen.top;
      }
      screen.SetCursorPos(x, destY);
    }

    /** CUD, VPR and CNL. */
    method CursorDown(x: nat, y: nat)
      requires Ready() && x < screen.cols && y < screen.rows
      modifies escValues, screen`cursorX, screen`cursorY
      ensures Ready() && screen.T() == old(screen.T()).(x := x, y := RowDown(y, old(escValues[0]), screen.bottom, screen.rows))
    {
      hide Ok, View;
      if y + escValues[0] > screen.rows - 1 {
        escValues[0] := (screen.rows - 1) - y;
      }
      var origY, destY := y, y + escValues[0];
      var willBeInScrollRegion := false;
      if (screen.top >= origY && screen.top <= destY) || (screen.bottom >= origY && screen.bottom <= destY) {
        willBeInScrollRegion := true;
      }
      if willBeInScrollRegion && destY >= screen.bottom {
        destY := screen.bottom - 1;
      }
      screen.SetCursorPos(x, destY);
    }

    /** CUF and HPR, CUB. */
    method CursorSideways(right: bool, x: nat, y: nat)
      requires Ready() && x < screen.cols && y < screen.rows
      modifies escValues, screen`cursorX, screen`cursorY
      ensures Ready()
      ensures screen.T() == old(screen.T()).(
        x := if right then Min(x + old(escValues[0]), screen.cols - 1) else Max(x - old(escValues[0]), 0), y := y)
    {
      hide Ok, View;
      if right {
        if x + escValues[0] > screen.cols - 1 {
          escValues[0] := (screen.cols - 1) - x;
        }
        screen.SetCursorPos(x + escValues[0], y);
      } else {
        if escValues[0] > x {
          escValues[0] := x;
        }
        screen.SetCursorPos(x - escValues[0], y);
      }
    }

    /** VPA and CHA: the parameter less one wraps around at zero. */
    method CursorCoordinate(row: bool, x: nat, y: nat)
      requires Ready() && x < screen.cols && y < screen.rows
      modifies escValues, screen`cursorX, screen`cursorY
      ensures Ready()
      ensures screen.T() == old(screen.T()).(
        x := if row then x else Coordinate(old(escValues[0]), screen.cols),
        y := if row then Coordinate(old(escValues[0]), screen.rows) else y)
    {
      hide Ok, View;
      escValues[0] := if escValues[0] == 0 then U32 - 1 else escValues[0] - 1;
      var size := if row then screen.rows else screen.cols;
      if escValues[0] >= size {
        escValues[0] := size - 1;
      }
      if row {
        screen.SetCursorPos(x, escValues[0]);
      } else {
        screen.SetCursorPos(escValues[0], y);
      }
    }

    /** CUP and HVP. */
    method CursorPosition()
      requires Ready()
      modifies escValues, screen`cursorX, screen`cursorY
      ensures Ready()
      ensures screen.T() == old(screen.T()).(
        x := Coordinate(Max(old(escValues[1]), 1), screen.cols), y := Coordinate(Max(old(escValues[0]), 1), screen.rows))
    {
      hide Ok, View;
      ClampParameter(0, screen.rows);
      ClampParameter(1, screen.cols);
      screen.SetCursorPos(escValues[1], escValues[0]);
    }

    /** One of its parameters less one, on the screen; zero stands for one. */
    method ClampParameter(i: nat, size: nat)
      requires i < escValues.Length && 0 < size < U32 && escValues[i] < U32
      modifies escValues
      ensures escValues[i] == Coordinate(Max(old(escValues[i]), 1), size) < U32
      ensures forall j :: 0 <= j < escValues.Length && j != i ==> escValues[j] == old(escValues[j])
    {
      if escValues[i] != 0 {
        escValues[i] := escValues[i] - 1;
      }
      if escValues[i] >= size {
        escValues[i] := size - 1;
      }
    }

    /** DL. */
    method DeleteLines()
      requires Ready()
      modifies screen`queueI, screen.queue, screen.slots
      ensures Ready() && screen.T() == ControlFunctions.DeleteLines(old(screen.T()), escValues[0])
    {
      hide Ok, View, Scrolled;
      ghost var t := screen.T();
      var count := if escValues[0] > screen.rows then screen.rows else escValues[0];
      for i := 0 to count
        invariant Ready() && screen.T() == ScrollUp(t, i)
      {
        screen.Scroll();
      }
    }

    /** IL: for its duration the top margin is the cursor's row. */
    method InsertLines(y: nat)
      requires Ready() && y == screen.T().Row()
      modifies screen`queueI, screen`top, screen.queue, screen.slots
      ensures Ready() && screen.T() == ControlFunctions.InsertLines(old(screen.T()), escValues[0])
    {
      hide Ok, View, RevScrolled;
      var oldTop := screen.top;
      screen.top := y;
      ghost var t := screen.T();
      var count := if escValues[0] > screen.rows then screen.rows else escValues[0];
      for i := 0 to count
        invariant Params().Ok() && screen.CellsOk() && screen.T() == ScrollDown(t, i)
        modifies screen`queueI, screen.queue, screen.slots
      {
        screen.RevScroll();
      }
      screen.top := oldTop;
    }

    /** ED. */
    method EraseDisplay(x: nat, y: nat)
      requires Ready() && x == screen.T().Column() && y == screen.T().Row()
      modifies screen`queueI, screen`cursorX, screen`cursorY, screen.queue, screen.slots
      ensures Ready() && screen.T() == ControlFunctions.EraseDisplay(old(screen.T()), escValues[0])
    {
      hide Ok, View, Text.Put, Text.Blanks, Blanked, Pos;
      if escValues[0] == 0 {
        EraseFrom(x, y);
      } else if escValues[0] == 1 {
        screen.SetCursorPos(0, 0);
        EraseUpTo(x, y);
      } else if escValues[0] == 2 || escValues[0] == 3 {
        screen.Clear(false);
      }
    }

    /** The loop of ED 0. */
    method EraseFrom(x: nat, y: nat)
      requires Ready() && x < screen.cols && y < screen.rows
      modifies screen`queueI, screen`cursorX, screen`cursorY, screen.queue, screen.slots
      ensures Ready() && Pos(screen.cols, x, y) < screen.rows * screen.cols
      ensures screen.T() == old(screen.T()).Blanks(screen.rows * screen.cols - Pos(screen.cols, x, y)).MoveTo(x, y)
    {
      hide Ok, View, Text.Put, Text.Blanks, Pos;
      var rowsRemaining := screen.rows - (y + 1);
      var colsDiff := screen.cols - (x + 1);
      CellsBelow(screen.cols, screen.rows, x, y);
      var toClear := rowsRemaining * screen.cols + colsDiff + 1;
      PutBlanks(toClear);
      screen.SetCursorPos(x, y);
    }

    /** The loops of ED 1. */
    method EraseUpTo(x: nat, y: nat)
      requires Ready() && x < screen.cols && y < screen.rows
      modifies screen`queueI, screen`cursorX, screen`cursorY, screen.queue, screen.slots
      ensures Ready() && screen.T() == old(screen.T()).Blanks(Pos(screen.cols, x, y) + 1).MoveTo(x, y)
    {
      hide Ok, View, Text.Put, Pos;
      ghost var t := screen.T();
      var b := false;
      PosZero(screen.cols);
      for yc := 0 to screen.rows
        invariant Ready() && yc <= y && screen.T() == t.Blanks(Pos(screen.cols, 0, yc))
      {
        for xc := 0 to screen.cols
          invariant Ready() && (yc == y ==> xc <= x) && screen.T() == t.Blanks(Pos(screen.cols, xc, yc))
        {
          PosSplit(screen.cols, xc, yc);
          PosSplit(screen.cols, xc + 1, yc);
          screen.RawPutchar(0x20);
          if xc == x && yc == y {
            screen.SetCursorPos(x, y);
            return;
          }
        }
        RowEnd(screen.cols, yc);
      }
    }

    /** One round of the loop of ICH. */
    method InsertColumn(ghost v: seq<Cell>, n: nat, i: nat, y: nat)
      requires Ready() && i < screen.cols && y < screen.rows && |v| == screen.rows * screen.cols
      requires screen.V() == InsertedAt(v, Pos(screen.cols, 0, y), screen.cols, i + 1, n, screen.Blank())
      modifies screen`queueI, screen`cursorX, screen`cursorY, screen.queue, screen.slots
      ensures Ready() && screen.V() == InsertedAt(v, Pos(screen.cols, 0, y), screen.cols, i, n, screen.Blank())
    {
      hide Ok, View, InsertedAt, Pos, PutCell, MovedCell;
      InRow(screen.cols, i, y, y);
      RowFitsScreen(screen.cols, screen.rows, y);
      InsertedStep(v, Pos(screen.cols, 0, y), screen.cols, i, n, screen.Blank());
      MovedColumn(screen.V(), screen.cols, screen.rows, i, y, n);
      screen.MoveCharacter(i + n, y, i, y);
      screen.SetCursorPos(i, y);
      PutInRow(screen.V(), screen.cols, screen.rows, screen.Blank(), i, y);
      screen.RawPutchar(0x20);
    }

    /** ICH. */
    method InsertChars(x: nat, y: nat)
      requires Ready() && x == screen.T().Column() && y == screen.T().Row()
      modifies screen`queueI, screen`cursorX, screen`cursorY, screen.queue, screen.slots
      ensures Ready() && screen.T() == Insert(old(screen.T()), escValues[0])
    {
      hide Ok, View, InsertedAt, Pos;
      ghost var t := screen.T();
      InsertedNothing(t.v, Pos(screen.cols, 0, y), screen.cols, escValues[0], screen.Blank());
      var i := screen.cols - 1;
      while true
        invariant Ready() && x <= i < screen.cols
        invariant screen.V() == InsertedAt(t.v, Pos(screen.cols, 0, y), screen.cols, i + 1, escValues[0], screen.Blank())
        decreases i
      {
        InsertColumn(t.v, escValues[0], i, y);
        if i == x {
          break;
        }
        i := i - 1;
      }
      screen.SetCursorPos(x, y);
    }

    /** DCH. */
    method DeleteChars(x: nat, y: nat)
      requires Ready() && x == screen.T().Column() && y == screen.T().Row()
      modifies screen`queueI, screen`cursorX, screen`cursorY, screen.queue, screen.slots
      ensures Ready() && screen.T() == Delete(old(screen.T()), escValues[0])
    {
      hide Ok, View, ClosedUp, Pos, Text.Blanks;
      ghost var t := screen.T();
      CloseUp(x, y);
      screen.SetCursorPos(if escValues[0] <= screen.cols then screen.cols - escValues[0] else screen.cols + (U64 - escValues[0]), y);
      var count := if escValues[0] > screen.cols then screen.cols else escValues[0];
      PutBlanks(count);
      screen.SetCursorPos(x, y);
    }

    /** The loop of DCH. */
    method CloseUp(x: nat, y: nat)
      requires Ready() && x < screen.cols && y < screen.rows
      modifies screen`queueI, screen.queue, screen.slots
      ensures Ready() && Pos(screen.cols, 0, y) + screen.cols <= screen.rows * screen.cols
      ensures screen.V() == ClosedUp(old(screen.V()), Pos(screen.cols, 0, y), screen.cols, x, escValues[0])
    {
      hide Ok, View, Pos, Shifted, MovedCell;
      ghost var v, base := screen.V(), Pos(screen.cols, 0, y);
      var n := escValues[0];
      RowFitsScreen(screen.cols, screen.rows, y);
      ShiftedNothing(v, base + x, n);
      var i := x + n;
      while i < screen.cols
        invariant Ready() && x + n <= i && (i <= screen.cols || i == x + n)
        invariant screen.V() == if i <= screen.cols then Shifted(v, base + x, base + i - n, n) else v
      {
        ShiftedAt(v, base + x, base + i - n, n, base + i);
        ShiftedNext(v, base + x, base + i - n, n);
        MovedLeft(screen.V(), screen.cols, screen.rows, i, y, n);
        screen.MoveCharacter(i - n, y, i, y);
        i := i + 1;
      }
      if x + n == screen.cols {
        ShiftedNothing(v, base + x, n);
      }
    }

    /** ECH. */
    method EraseChars(x: nat, y: nat)
      requires Ready() && x == screen.T().Column() && y == screen.T().Row()
      modifies screen`queueI, screen`cursorX, screen`cursorY, screen.queue, screen.slots
      ensures Ready() && screen.T() == ControlFunctions.EraseChars(old(screen.T()), escValues[0])
    {
      hide Ok, View, Text.Blanks;
      var count := if escValues[0] > screen.cols then screen.cols else escValues[0];
      PutBlanks(count);
      screen.SetCursorPos(x, y);
    }

    /** EL. */
    method EraseLine(x: nat, y: nat)
      requires Ready() && x == screen.T().Column() && y == screen.T().Row()
      modifies screen`queueI, screen`cursorX, screen`cursorY, screen.queue, screen.slots
      ensures Ready() && screen.T() == ControlFunctions.EraseLine(old(screen.T()), escValues[0])
    {
      hide Ok, View, Text.Blanks;
      if escValues[0] == 0 {
        PutBlanks(screen.cols - x);
        screen.SetCursorPos(x, y);
      } else if escValues[0] == 1 {
        screen.SetCursorPos(0, y);
        PutBlanks(x);
      } else if escValues[0] == 2 {
        screen.SetCursorPos(0, y);
        PutBlanks(screen.cols);
        screen.SetCursorPos(x, y);
      }
    }

    /** DECSTBM. */
    method SetMargins()
      requires Ready()
      modifies escValues, screen`top, screen`bottom, screen`cursorX, screen`cursorY
      ensures Ready()
      ensures screen.T() == ControlFunctions.SetMargins(old(screen.T()), old(escValues[0]), old(escValues[1]), escValuesI)
    {
      hide Ok, View;
      ZeroIsOne();
      StoreMargins();
      screen.SetCursorPos(0, 0);
    }

    /** Parameters given as zero stand for one. */
    method ZeroIsOne()
      requires Ready()
      modifies escValues
      ensures Ready()
      ensures escValues[0] == Max(old(escValues[0]), 1) && escValues[1] == Max(old(escValues[1]), 1)
    {
      hide Ok, View;
      if escValues[0] == 0 {
        escValues[0] := 1;
      }
      if escValues[1] == 0 {
        escValues[1] := 1;
      }
    }

    method StoreMargins()
      requires Ready() && 0 < escValues[0] && 0 < escValues[1]
      modifies screen`top, screen`bottom
      ensures Ready()
      ensures screen.top == ControlFunctions.SetMargins(old(screen.T()), escValues[0], escValues[1], escValuesI).top
      ensures screen.bottom == ControlFunctions.SetMargins(old(screen.T()), escValues[0], escValues[1], escValuesI).bottom
    {
      hide Ok, View;
      screen.top := 0;
      screen.bottom := screen.rows;
      if escValuesI > 0 {
        screen.top := escValues[0] - 1;
      }
      if escValuesI > 1 {
        screen.bottom := escValues[1];
      }
      if screen.top >= screen.rows || screen.bottom > screen.rows || screen.top >= screen.bottom - 1 {
        screen.top := 0;
        screen.bottom := screen.rows;
      }
    }

    /** The cases of the switch that only move the cursor. */
    method MoveCursor(c: char, x: nat, y: nat)
      requires Ready() && x == screen.T().Column() && y == screen.T().Row()
      modifies escValues, screen`cursorX, screen`cursorY
      ensures Ready() && screen.T() == Motion(old(screen.T()), c, old(escValues[0]), old(escValues[1]))
    {
      hide Ok, View, RowUp, RowDown, Coordinate;
      match c
      case 'F' => CursorUp(0, y);
      case 'A' => CursorUp(x, y);
      case 'E' => CursorDown(0, y);
      case 'e' => CursorDown(x, y);
      case 'B' => CursorDown(x, y);
      case 'a' => CursorSideways(true, x, y);
      case 'C' => CursorSideways(true, x, y);
      case 'D' => CursorSideways(false, x, y);
      case 'd' => CursorCoordinate(true, x, y);
      case 'G' => CursorCoordinate(false, x, y);
      case '`' => CursorCoordinate(false, x, y);
      case 'H' => CursorPosition();
      case 'f' => CursorPosition();
      case _ =>
    }

    /** The cases that erase, insert and delete, or set the margins. */
    method Edit(c: char, x: nat, y: nat)
      requires Ready() && x == screen.T().Column() && y == screen.T().Row()
      modifies escValues, screen`queueI, screen`top, screen`bottom, screen`cursorX, screen`cursorY, screen.queue, screen.slots
      ensures Ready()
      ensures screen.T() == Edited(old(screen.T()), c, old(escValues[0]), old(escValues[1]), escValuesI, (savedCursorX, savedCursorY))
    {
      hide Ok, View, Insert, Delete, ControlFunctions.EraseChars, ControlFunctions.EraseDisplay, ControlFunctions.EraseLine,
        ControlFunctions.DeleteLines, ControlFunctions.InsertLines, ControlFunctions.SetMargins;
      match c
      case 'M' => DeleteLines();
      case 'L' => InsertLines(y);
      case 'J' => EraseDisplay(x, y);
      case '@' => InsertChars(x, y);
      case 'P' => DeleteChars(x, y);
      case 'X' => EraseChars(x, y);
      case 'u' => screen.SetCursorPos(savedCursorX, savedCursorY);
      case 'K' => EraseLine(x, y);
      case 'r' => SetMargins();
      case _ =>
    }

    /** sgr.  The colours it selects are not modelled: any may result. */
    method Sgr()
      requires Ready()
      modifies screen`textFg, screen`textBg
      ensures Ready() && screen.T() == old(screen.T()).(fg := screen.textFg, bg := screen.textBg)
    {
      hide Ok, View;
      var fg: nat, bg: nat := *, *;
      screen.textFg, screen.textBg := fg, bg;
    }

    /** mode_toggle. */
    method ModeToggle(c: char)
      requires Params().Ok()
      modifies this`insertMode
      ensures insertMode == if (c == 'h' || c == 'l') && 0 < escValuesI && escValues[0] == 4 then c == 'h' else old(insertMode)
    {
      if escValuesI == 0 {
        return;
      }
      if (c == 'h' || c == 'l') && escValues[0] == 4 {
        insertMode := c == 'h';
      }
    }

    /** The switch on the final byte. */
    method ControlFunction(c: char)
      requires Ready()
      modifies escValues, this`insertMode, this`savedCursorX, this`savedCursorY
      modifies screen`queueI, screen`top, screen`bottom, screen`cursorX, screen`cursorY, screen`textFg, screen`textBg
      modifies screen.queue, screen.slots
      ensures Ready()
      ensures screen.T() == Control(old(screen.T()), c, old(escValues[0]), old(escValues[1]), escValuesI, old((savedCursorX, savedCursorY)))
                            .(fg := screen.textFg, bg := screen.textBg)
      ensures c != 'm' ==> screen.textFg == old(screen.textFg) && screen.textBg == old(screen.textBg)
      ensures (savedCursorX, savedCursorY) ==
        if c == 's' then old((screen.T().Column(), screen.T().Row())) else old((savedCursorX, savedCursorY))
      ensures insertMode == if (c == 'h' || c == 'l') && 0 < escValuesI && old(escValues[0]) == 4 then c == 'h' else old(insertMode)
    {
      hide Ok, View, Motion, Edited;
      var x, y := screen.GetCursorPos();
      if c in MOTIONS {
        MoveCursor(c, x, y);
      } else {
        NoEdit(screen.T(), c, escValues[0], escValues[1], escValuesI, (savedCursorX, savedCursorY));
        if c == 'm' {
          Sgr();
        } else if c == 's' {
          savedCursorX, savedCursorY := x, y;
        } else if c == 'h' || c == 'l' {
          ModeToggle(c);
        } else {
          Edit(c, x, y);
        }
      }
    }

    /** The bytes of the parameters. */
    method CollectByte(c: nat) returns (used: bool)
      requires Params().Ok()
      modifies this`rrr, this`escValuesI, escValues
      ensures Params().Ok() && (Params(), used) == Collect(old(Params()), c)
    {
      if IsDigit(c) {
        if escValuesI == MAX_ESC_VALUES {
          return true;
        }
        rrr := true;
        escValues[escValuesI] := escValues[escValuesI] * 10 % U32;
        escValues[escValuesI] := (escValues[escValuesI] + (c - '0' as nat)) % U32;
        assert escValues[..] == old(escValues[..])[escValuesI := (old(escValues[escValuesI]) * 10 % U32 + (c - '0' as nat)) % U32];
        return true;
      }
      if rrr {
        escValuesI := escValuesI + 1;
        rrr := false;
        if c == ';' as nat {
          return true;
        }
      } else if c == ';' as nat {
        if escValuesI == MAX_ESC_VALUES {
          return true;
        }
        escValues[escValuesI] := 0;
        escValuesI := escValuesI + 1;
        return true;
      }
      return false;
    }

    /** The defaults of the parameters that were not given. */
    method FillDefaults(c: nat)
      requires Params().Ok() && !rrr
      modifies escValues
      ensures Params().Ok() && escValues[..] == Defaulted(old(Params()), DefaultFor(c))
    {
      var escDefault := DefaultFor(c);
      for i := escValuesI to MAX_ESC_VALUES
        invariant Params().Ok()
        invariant forall j :: 0 <= j < MAX_ESC_VALUES ==> escValues[j] == if escValuesI <= j < i then escDefault else old(escValues[j])
      {
        escValues[i] := escDefault;
      }
    }

    /** dec_private_parse: mode 25 shows and hides the cursor. */
    method DecPrivateParse(c: nat)
      requires Params().Ok()
      modifies this`decPrivate, screen`cursorEnabled
      ensures !decPrivate
      ensures screen.cursorEnabled == if (c == 'h' as nat || c == 'l' as nat) && 0 < escValuesI && escValues[0] == 25
                                      then c == 'h' as nat else old(screen.cursorEnabled)
    {
      decPrivate := false;
      if escValuesI == 0 {
        return;
      }
      if (c == 'h' as nat || c == 'l' as nat) && escValues[0] == 25 {
        screen.cursorEnabled := c == 'h' as nat;
      }
    }

    /** The end of a private control sequence. */
    method FinishPrivate(c: nat)
      requires Ready() && c < 0x100 && controlSequence && decPrivate
      modifies this`controlSequence, this`escape, this`decPrivate, screen`cursorEnabled
      ensures Ready() && M() == Finished(old(M()), c, escValues[..], escValuesI, (0, 0))
    {
      hide Ok, View, NothingRead, Executed, Screen.T, Screen.CellsOk;
      DecPrivateParse(c);
      controlSequence := false;
      escape := false;
    }

    /** The end of an ordinary one. */
    method FinishPublic(c: nat)
      requires Ready() && c < 0x100 && controlSequence && !decPrivate
      modifies escValues, this`controlSequence, this`escape, this`insertMode, this`savedCursorX, this`savedCursorY
      modifies screen`queueI, screen`top, screen`bottom, screen`cursorX, screen`cursorY, screen`textFg, screen`textBg
      modifies screen`scrollEnabled, screen.queue, screen.slots
      ensures Ready() && M() == Finished(old(M()), c, old(escValues[..]), escValuesI, (screen.textFg, screen.textBg))
    {
      hide Ok, View, NothingRead, Executed, Screen.T, Screen.CellsOk, Collector.Ok;
      Execute(c);
      controlSequence := false;
      escape := false;
    }

    /** The final byte. */
    method FinalByte(c: nat)
      requires Ready() && c < 0x100 && !rrr && controlSequence
      modifies escValues, this`controlSequence, this`escape
      modifies this`insertMode, this`savedCursorX, this`savedCursorY, this`decPrivate
      modifies screen`queueI, screen`top, screen`bottom, screen`cursorX, screen`cursorY, screen`textFg, screen`textBg
      modifies screen`scrollEnabled, screen`cursorEnabled, screen.queue, screen.slots
      ensures Ready()
      ensures M() == Finished(old(M()), c, Defaulted(old(Params()), DefaultFor(c)), escValuesI, (screen.textFg, screen.textBg))
    {
      hide Ok, View, NothingRead, Executed, Defaulted, Screen.T, Screen.CellsOk, Collector.Ok;
      FillDefaults(c);
      if decPrivate {
        FinishPrivate(c);
      } else {
        FinishPublic(c);
      }
    }

    /** A byte of the parameters, or the final byte. */
    method ParameterOrFinal(c: nat)
      requires Ready() && c < 0x100 && controlSequence
      modifies escValues, this`controlSequence, this`escape, this`rrr, this`escValuesI
      modifies this`insertMode, this`savedCursorX, this`savedCursorY, this`decPrivate
      modifies screen`queueI, screen`top, screen`bottom, screen`cursorX, screen`cursorY, screen`textFg, screen`textBg
      modifies screen`scrollEnabled, screen`cursorEnabled, screen.queue, screen.slots
      ensures Ready()
      ensures var (p, used) := Collect(old(Params()), c);
              var m := old(M()).(reader := old(R()).(p := p));
              M() == if used then m else Finished(m, c, Defaulted(p, DefaultFor(c)), p.count, (screen.textFg, screen.textBg))
    {
      hide Ok, View, Defaulted, NothingRead, Finished, Collect;
      var used := CollectByte(c);
      if !used {
        FinalByte(c);
      }
    }

    /** control_sequence_parse. */
    method ControlSequenceParse(c: nat)
      requires Ready() && c < 0x100 && controlSequence
      modifies escValues, this`controlSequence, this`escape, this`discardNext, this`rrr, this`escValuesI
      modifies this`insertMode, this`savedCursorX, this`savedCursorY, this`decPrivate
      modifies screen`queueI, screen`top, screen`bottom, screen`cursorX, screen`cursorY, screen`textFg, screen`textBg
      modifies screen`scrollEnabled, screen`cursorEnabled, screen.queue, screen.slots
      ensures Ready() && M() == ControlStep(old(M()), c, (screen.textFg, screen.textBg))
    {
      hide Ok, View, Defaulted, NothingRead, ControlStep, Finished, Collect, Screen.T, Screen.CellsOk, Collector.Ok;
      ghost var m, r := M(), R();
      assert r.p == Params();
      if escapeOffset == 2 && c == '[' as nat {
        discardNext := true;
        controlSequence := false;
        escape := false;
        assert R() == r.(discardNext := true, controlSequence := false, escape := false, p := NothingRead());
      } else if escapeOffset == 2 && c == '?' as nat {
        decPrivate := true;
        assert R() == r.(decPrivate := true);
      } else {
        ParameterOrFinal(c);
      }
      ControlStepCases(m, c, (screen.textFg, screen.textBg));
    }

    /** The control function itself, with scrolling off. */
    method Execute(c: nat)
      requires Ready() && c < 0x100
      modifies escValues, this`insertMode, this`savedCursorX, this`savedCursorY
      modifies screen`queueI, screen`top, screen`bottom, screen`cursorX, screen`cursorY, screen`textFg, screen`textBg
      modifies screen`scrollEnabled, screen.queue, screen.slots
      ensures Ready()
      ensures screen.T() == Executed(old(screen.T()), c, old(escValues[..]), escValuesI, old((savedCursorX, savedCursorY)),
                                     (screen.textFg, screen.textBg))
      ensures (savedCursorX, savedCursorY) ==
        if c == 's' as nat then old((screen.T().Column(), screen.T().Row())) else old((savedCursorX, savedCursorY))
      ensures insertMode == if Toggles(c, old(escValues[..]), escValuesI, 4) then c == 'h' as nat else old(insertMode)
    {
      hide Ok, View, Displays, Control;
      var r := screen.scrollEnabled;
      screen.scrollEnabled := false;
      ControlKeepsInk(screen.T(), c as char, escValues[0], escValues[1], escValuesI, (savedCursorX, savedCursorY));
      ControlFunction(c as char);
      screen.scrollEnabled := r;
    }

    // -------------------------------------------------------------------------------------------
    // Escape sequences
    // -------------------------------------------------------------------------------------------

    /** osc_parse. */
    method OscParse(c: nat)
      modifies this`oscEscape, this`osc, this`escape
      ensures R() == OscStep(old(R()), c)
    {
      hide NothingRead;
      if !(oscEscape && c == '\\' as nat) {
        oscEscape := false;
        if c == ESC {
          oscEscape := true;
        }
        if c != 0x07 {
          return;
        }
      }
      oscEscape := false;
      osc := false;
      escape := false;
    }

    /** save_state. */
    method SaveState()
      requires Ready()
      modifies this`savedCharset, screen`savedFg, screen`savedBg, screen`savedX, screen`savedY
      ensures S() == Saved(screen.T().x, screen.T().y, screen.T().fg, screen.T().bg, currentCharset)
    {
      screen.SaveState();
      savedCharset := currentCharset;
    }

    /** restore_state. */
    method RestoreState()
      requires Ready()
      modifies this`currentCharset, screen`textFg, screen`textBg, screen`cursorX, screen`cursorY
      ensures Ready() && currentCharset == savedCharset
      ensures screen.T() == old(screen.T()).(x := S().x, y := S().y, fg := S().fg, bg := S().bg)
    {
      hide Ok, View;
      currentCharset := savedCharset;
      screen.RestoreState();
    }

    /** flanterm_context_reinit: the escape sequence. */
    method ReinitReader()
      modifies this`escape, this`controlSequence, this`osc, this`oscEscape, this`escapeOffset, this`discardNext, this`decPrivate
      modifies this`rrr, this`escValuesI
      ensures !escape && !controlSequence && !osc && !oscEscape && escapeOffset == 0 && !discardNext && !decPrivate
      ensures !rrr && escValuesI == 0
    {
      hide *;
      controlSequence, escape, osc, oscEscape := false, false, false, false;
      rrr, discardNext, decPrivate, escapeOffset, escValuesI := false, false, false, 0, 0;
    }

    /** flanterm_context_reinit: character sets and modes. */
    method ReinitModes()
      modifies this`autoflush, this`insertMode, this`onlcr, this`unicodeRemaining, this`gSelect, this`charsets, this`currentCharset
      modifies this`savedCursorX, this`savedCursorY
      ensures autoflush && !insertMode && onlcr && unicodeRemaining == savedCursorX == savedCursorY == 0
      ensures gSelect == 0 && charsets == [false, true] && currentCharset == 0
    {
      hide *;
      autoflush, insertMode, unicodeRemaining, onlcr := true, false, 0, true;
      gSelect, charsets, currentCharset := 0, [false, true], 0;
      savedCursorX, savedCursorY := 0, 0;
    }

    /** flanterm_context_reinit. */
    method Reinit()
      requires Ready()
      modifies this, screen`cursorEnabled, screen`scrollEnabled, screen`top, screen`bottom
      ensures Ready() && autoflush
      ensures R() == Reader(false, false, false, false, 0, false, false, NothingRead())
      ensures G() == Charsets(0, [false, true], 0) && unicodeRemaining == 0 && codePoint == old(codePoint)
      ensures !insertMode && screen.cursorEnabled && onlcr && savedCharset == old(savedCharset)
      ensures savedCursorX == savedCursorY == 0
      ensures screen.T() == old(screen.T()).(top := 0, bottom := screen.rows, scrolls := true)
    {
      hide Ok, View, NothingRead, Screen.CellsOk;
      screen.cursorEnabled := true;
      screen.scrollEnabled := true;
      screen.top := 0;
      screen.bottom := screen.rows;
      ReinitReader();
      ReinitModes();
    }

    /** IND, NEL and the line feed characters. */
    method NextLine(x: nat, y: nat)
      requires Ready() && x < screen.cols && y == screen.T().Row()
      modifies screen`queueI, screen`cursorX, screen`cursorY, screen.queue, screen.slots
      ensures Ready() && screen.T() == LineFeed(old(screen.T()), x)
    {
      hide Ok, View, Scrolled, ClampTo;
      ghost var t := screen.T();
      ClampsRow(x, screen.cols, y, screen.rows);
      if y == screen.bottom - 1 {
        screen.Scroll();
        assert screen.T() == t.(v := Scrolled(t.v, t.cols, t.rows, t.top, t.bottom, t.Blank()));
        screen.SetCursorPos(x, y);
      } else {
        screen.SetCursorPos(x, y + 1);
      }
    }

    /** RI. */
    method PreviousLine(y: nat)
      requires Ready() && y == screen.T().Row()
      modifies screen`queueI, screen`cursorX, screen`cursorY, screen.queue, screen.slots
      ensures Ready() && screen.T() == ReverseLineFeed(old(screen.T()))
    {
      hide Ok, View, RevScrolled;
      if y == screen.top {
        screen.RevScroll();
        screen.SetCursorPos(0, y);
      } else {
        screen.SetCursorPos(0, if y == 0 then U64 - 1 else y - 1);
      }
    }

    /** RIS. */
    method ResetAll()
      requires Ready()
      modifies this, screen`cursorEnabled, screen`scrollEnabled, screen`top, screen`bottom
      modifies screen`queueI, screen`cursorX, screen`cursorY, screen.queue, screen.slots
      ensures Ready() && M() == Reset(old(M()))
    {
      hide Ok, View, NothingRead, Blanked;
      Reinit();
      screen.Clear(true);
    }

    /** The switch on the byte after ESC. */
    method EscapeByte(c: char)
      requires Ready() && !controlSequence
      modifies this, screen`cursorEnabled, screen`scrollEnabled, screen`top, screen`bottom
      modifies screen`savedFg, screen`savedBg, screen`savedX, screen`savedY, screen`textFg, screen`textBg
      modifies screen`queueI, screen`cursorX, screen`cursorY, screen.queue, screen.slots
      ensures Ready() && M() == EscapeCode(old(M()), c) && !controlSequence
    {
      hide Ok, View, NothingRead, LineFeed, ReverseLineFeed, Reset, Collector.Ok, Screen.CellsOk, Screen.T;
      match c
      case '7' => SaveState();
      case '8' => RestoreState();
      case 'c' =>
        ResetAll();
        ResetReads(old(M()));
      case '(' => gSelect := 1;
      case ')' => gSelect := 2;
      case _ => LineByte(c);
    }

    /** The escape codes that move the cursor by a row. */
    method LineByte(c: char)
      requires Ready() && c !in {'7', '8', 'c', '(', ')'}
      modifies screen`queueI, screen`cursorX, screen`cursorY, screen.queue, screen.slots
      ensures Ready() && M() == EscapeCode(old(M()), c)
    {
      hide Ok, View, NothingRead, LineFeed, ReverseLineFeed, Reset, Collector.Ok, Screen.CellsOk, Screen.T;
      var x, y := screen.GetCursorPos();
      match c
      case 'D' => NextLine(x, y);
      case 'E' => NextLine(0, y);
      case 'M' => PreviousLine(y);
      case _ =>
    }

    /** The byte after ESC. */
    method Introducer(c: nat)
      requires Ready() && c < 0x100 && !controlSequence
      modifies this, escValues, screen`cursorEnabled, screen`scrollEnabled, screen`top, screen`bottom
      modifies screen`savedFg, screen`savedBg, screen`savedX, screen`savedY, screen`textFg, screen`textBg
      modifies screen`queueI, screen`cursorX, screen`cursorY, screen.queue, screen.slots
      ensures Ready() && M() == Introduced(old(M()), c)
    {
      hide Ok, View, NothingRead, EscapeCode, Collector.Ok, Screen.CellsOk, Screen.T;
      if c == ']' as nat {
        oscEscape := false;
        osc := true;
      } else if c == '[' as nat {
        StartControlSequence();
      } else {
        EscapeByte(c as char);
        escape := false;
      }
    }

    /** escape_parse. */
    method EscapeParse(c: nat)
      requires Ready() && c < 0x100
      modifies this, escValues, screen`cursorEnabled, screen`scrollEnabled, screen`top, screen`bottom
      modifies screen`savedFg, screen`savedBg, screen`savedX, screen`savedY, screen`textFg, screen`textBg
      modifies screen`queueI, screen`cursorX, screen`cursorY, screen.queue, screen.slots
      ensures Ready() && M() == EscapeStep(old(M()), c, (screen.textFg, screen.textBg))
    {
      hide Ok, View, NothingRead, ControlStep, OscStep, Introduced;
      escapeOffset := escapeOffset + 1;
      if osc {
        OscParse(c);
        return;
      }
      if controlSequence {
        ControlSequenceParse(c);
        return;
      }
      Introducer(c);
    }

    method StartControlSequence()
      requires Ready()
      modifies escValues, this`escValuesI, this`rrr, this`controlSequence
      ensures Ready() && controlSequence && Params() == NothingRead()
    {
      hide Ok, View;
      for i := 0 to MAX_ESC_VALUES
        invariant Ready() && forall j :: 0 <= j < i ==> escValues[j] == 0
        modifies escValues
      {
        escValues[i] := 0;
      }
      escValuesI := 0;
      rrr := false;
      controlSequence := true;
    }

    // -------------------------------------------------------------------------------------------
    // Characters
    // -------------------------------------------------------------------------------------------

    /** One round of the loop of insert mode. */
    method OpenColumn(ghost v: seq<Cell>, i: nat, y: nat)
      requires Ready() && i < screen.cols && y < screen.rows && |v| == screen.rows * screen.cols
      requires screen.V() == RightOf(v, screen.cols, screen.rows, i + 1, y)
      modifies screen`queueI, screen.queue, screen.slots
      ensures Ready() && screen.V() == RightOf(v, screen.cols, screen.rows, i, y)
    {
      hide Ok, View, MovedCell, RightOf;
      RightOfStep(v, screen.cols, screen.rows, i, y);
      screen.MoveCharacter(i + 1, y, i, y);
    }

    /** The loop of insert mode. */
    method OpenUp(x: nat, y: nat)
      requires Ready() && x == screen.T().Column() && y == screen.T().Row()
      modifies screen`queueI, screen.queue, screen.slots
      ensures Ready() && screen.T() == Opened(old(screen.T()))
    {
      hide Ok, View, Pos, RightOf;
      ghost var t := screen.T();
      RightOfEnds(t);
      var i := screen.cols - 1;
      while true
        invariant Ready() && x <= i < screen.cols
        invariant screen.V() == RightOf(t.v, screen.cols, screen.rows, i + 1, y)
        decreases i
      {
        OpenColumn(t.v, i, y);
        if i == x {
          break;
        }
        i := i - 1;
      }
    }

    /** The end of flanterm_putchar: a byte that is no control character. */
    method PrintByte(c: nat, x: nat, y: nat)
      requires Ready() && CharsetsOk(G()) && x == screen.T().Column() && y == screen.T().Row()
      modifies screen`queueI, screen`cursorX, screen`cursorY, screen.queue, screen.slots
      ensures Ready() && M() == Printed(old(M()), tables, c)
    {
      hide Ok, View, NothingRead, Opened, Text.Put;
      if insertMode {
        OpenUp(x, y);
      }
      if charsets[currentCharset] {
        var special := tables.decSpecial(c);
        if special.Some? {
          screen.RawPutchar(special.value);
          return;
        }
      }
      if 0x20 <= c <= 0x7e {
        screen.RawPutchar(c);
      } else {
        screen.RawPutchar(BOX);
      }
    }

    /** HT. */
    method Tab(x: nat, y: nat)
      requires Ready() && x < screen.cols && y < screen.rows
      modifies screen`cursorX, screen`cursorY
      ensures Ready() && screen.T() == old(screen.T()).(x := Min((x / TAB_SIZE + 1) * TAB_SIZE, screen.cols - 1), y := y)
    {
      hide Ok, View, ClampTo;
      TabStop(x, y, screen.cols, screen.rows);
      if x / TAB_SIZE + 1 >= screen.cols {
        screen.SetCursorPos(screen.cols - 1, y);
      } else {
        screen.SetCursorPos((x / TAB_SIZE + 1) * TAB_SIZE, y);
      }
    }

    /** The control characters that move the cursor. */
    method MoveByte(c: nat, x: nat, y: nat)
      requires Ready() && CharsetsOk(G()) && x == screen.T().Column() && y == screen.T().Row()
      requires c == 0x08 || c == 0x09 || 0x0a <= c <= 0x0d
      modifies screen`queueI, screen`cursorX, screen`cursorY, screen.queue, screen.slots
      ensures Ready() && screen.T() == ControlCharacter(old(M()), tables, c).t
    {
      hide Ok, View, NothingRead, LineFeed, Printed, ClampTo;
      ClampsMove(x, y, screen.cols, screen.rows);
      if c == 0x09 {
        Tab(x, y);
      } else if c == 0x08 {
        screen.SetCursorPos(if x == 0 then U64 - 1 else x - 1, y);
      } else if c == 0x0d {
        screen.SetCursorPos(0, y);
      } else {
        NextLine(if onlcr then 0 else x, y);
      }
    }

    /** The switch on control characters. */
    method CharacterByte(c: nat)
      requires Ready() && CharsetsOk(G())
      modifies this`escapeOffset, this`escape, this`currentCharset
      modifies screen`queueI, screen`cursorX, screen`cursorY, screen.queue, screen.slots
      ensures Ready() && M() == ControlCharacter(old(M()), tables, c)
    {
      hide Ok, View, NothingRead, LineFeed, Printed, Screen.T, Screen.CellsOk, Collector.Ok;
      if c == 0x00 || c == 0x7f || c == 0x07 {
      } else if c == ESC {
        escapeOffset := 0;
        escape := true;
      } else if c == 14 {
        currentCharset := 1;
      } else if c == 15 {
        currentCharset := 0;
      } else {
        ScreenByte(c);
      }
    }

    /** The bytes that move the cursor or print. */
    method ScreenByte(c: nat)
      requires Ready() && CharsetsOk(G()) && c !in {0x00, 0x07, 0x7f, ESC, 14, 15}
      modifies screen`queueI, screen`cursorX, screen`cursorY, screen.queue, screen.slots
      ensures Ready() && M() == ControlCharacter(old(M()), tables, c)
    {
      hide Ok, View, NothingRead, LineFeed, Printed, Screen.T, Screen.CellsOk, Collector.Ok;
      var x, y := screen.GetCursorPos();
      if c == 0x08 || c == 0x09 || 0x0a <= c <= 0x0d {
        MoveByte(c, x, y);
      } else {
        PrintByte(c, x, y);
      }
    }

    /** A complete UTF-8 sequence. */
    method PutGlyph()
      requires Ready()
      modifies screen`queueI, screen`cursorX, screen`cursorY, screen.queue, screen.slots
      ensures Ready() && screen.T() == Glyph(old(screen.T()), tables, codePoint)
    {
      hide Ok, View, Text.Put, Text.Blanks;
      var cc := tables.glyphOf(codePoint);
      if cc.None? {
        var replacementWidth := tables.widthOf(codePoint);
        if replacementWidth > 0 {
          screen.RawPutchar(BOX);
          PutBlanks(replacementWidth - 1);
        }
      } else {
        screen.RawPutchar(cc.value);
      }
    }

    /** A continuation byte. */
    method ContinueUnicode(c: nat)
      requires Ready() && unicodeRemaining != 0 && 0x80 <= c < 0xc0
      modifies this`unicodeRemaining, this`codePoint
      modifies screen`queueI, screen`cursorX, screen`cursorY, screen.queue, screen.slots
      ensures Ready() && M() == NextByte(old(M()), tables, c)
    {
      hide Ok, View, NothingRead, Glyph, Power64, Screen.T, Screen.CellsOk, Collector.Ok;
      unicodeRemaining := unicodeRemaining - 1;
      codePoint := codePoint + c % 0x40 * Power64(unicodeRemaining);
      if unicodeRemaining != 0 {
        return;
      }
      PutGlyph();
    }

    /** A lead byte. */
    method StartUnicode(c: nat)
      requires 0xc0 <= c <= 0xf7
      modifies this`unicodeRemaining, this`codePoint
      ensures Decoder(unicodeRemaining, codePoint) == LeadByte(c)
    {
      if c <= 0xdf {
        unicodeRemaining := 1;
        codePoint := c % 0x20 * 64;
      } else if c <= 0xef {
        unicodeRemaining := 2;
        codePoint := c % 0x10 * 64 * 64;
      } else {
        unicodeRemaining := 3;
        codePoint := c % 0x08 * 64 * 64 * 64;
      }
    }

    /** The byte after ESC ( or ESC ). */
    method SelectCharset(c: nat)
      requires CharsetsOk(G()) && gSelect != 0
      modifies this`gSelect, this`charsets
      ensures G() == Selected(old(G()), c)
    {
      gSelect := gSelect - 1;
      if c == 'B' as nat {
        charsets := charsets[gSelect := false];
      } else if c == '0' as nat {
        charsets := charsets[gSelect := true];
      }
      gSelect := 0;
    }

    /** A byte that does not continue a UTF-8 sequence. */
    method PutNewByte(c: nat)
      requires Ready() && CharsetsOk(G()) && c < 0x100
      modifies this, escValues, screen`cursorEnabled, screen`scrollEnabled, screen`top, screen`bottom
      modifies screen`savedFg, screen`savedBg, screen`savedX, screen`savedY, screen`textFg, screen`textBg
      modifies screen`queueI, screen`cursorX, screen`cursorY, screen.queue, screen.slots
      ensures Ready() && M() == NewByte(old(M()), tables, c, (screen.textFg, screen.textBg))
    {
      hide Ok, View, NothingRead, EscapeStep, Selected, ControlCharacter;
      if 0xc0 <= c <= 0xf7 {
        StartUnicode(c);
      } else if escape {
        EscapeParse(c);
      } else if gSelect != 0 {
        SelectCharset(c);
      } else {
        CharacterByte(c);
      }
    }

    /** CAN, SUB, and the byte after CSI [. */
    method Cancel()
      modifies this`discardNext, this`escape, this`controlSequence, this`unicodeRemaining, this`osc, this`oscEscape, this`gSelect
      ensures !discardNext && !escape && !controlSequence && unicodeRemaining == 0 && !osc && !oscEscape && gSelect == 0
    {
      hide *;
      discardNext := false;
      escape := false;
      controlSequence := false;
      unicodeRemaining := 0;
      osc := false;
      oscEscape := false;
      gSelect := 0;
    }

    /** flanterm_putchar. */
    method PutAnyByte(c: nat)
      requires Ready() && CharsetsOk(G()) && c < 0x100
      modifies this, escValues, screen`cursorEnabled, screen`scrollEnabled, screen`top, screen`bottom
      modifies screen`savedFg, screen`savedBg, screen`savedX, screen`savedY, screen`textFg, screen`textBg
      modifies screen`queueI, screen`cursorX, screen`cursorY, screen.queue, screen.slots
      ensures Ready() && M() == Step(old(M()), tables, c, (screen.textFg, screen.textBg))
    {
      hide Ok, View, NothingRead, NewByte, NextByte, Collector.Ok, Screen.T, Screen.CellsOk;
      if discardNext || c == 0x18 || c == 0x1a {
        Cancel();
      } else if unicodeRemaining != 0 && 0x80 <= c < 0xc0 {
        ContinueUnicode(c);
      } else {
        unicodeRemaining := 0;
        PutNewByte(c);
      }
    }

    /** flanterm_putchar: one byte is one step of the machine, and nothing reaches the framebuffer. */
    method PutByte(c: nat)
      requires Valid() && c < 0x100
      modifies this, escValues, screen`cursorEnabled, screen`scrollEnabled, screen`top, screen`bottom
      modifies screen`savedFg, screen`savedBg, screen`savedX, screen`savedY, screen`textFg, screen`textBg
      modifies screen`queueI, screen`cursorX, screen`cursorY, screen.queue, screen.slots
      ensures Valid() && M() == Step(old(M()), tables, c, (screen.textFg, screen.textBg))
    {
      hide Ok, View, Step, Displays, NothingRead, Collector.Ok, Screen.T;
      ghost var m := M();
      assert CharsetsOk(G()) by { CharsetsAreOk(); }
      PutAnyByte(c);
      StepKeepsOk(m, tables, c, (screen.textFg, screen.textBg));
    }

    lemma CharsetsAreOk()
      requires Valid()
      ensures CharsetsOk(G())
    {
    }

    /** The flush at the end of a write changes the framebuffer and nothing else. */
    method FlushScreen()
      requires Valid()
      modifies screen`queueI, screen`oldCursorX, screen`oldCursorY, screen`painted, screen.grid, screen.slots, screen.framebuffer
      ensures Valid() && M() == old(M()) && screen.queueI == 0
      ensures Displays(screen.framebuffer[..], screen.look,
                       WithCursor(screen.V(), screen.cols, screen.rows, screen.cursorEnabled, screen.cursorX, screen.cursorY))
      ensures Redrawn(screen.framebuffer[..], screen.look, screen.V(), screen.cursorEnabled, screen.cursorX, screen.cursorY)
    {
      hide Ok, View, NothingRead, Displays, WithCursor, Redrawn, AllCommitted, Collector.Ok;
      screen.Flush();
    }

    /** flanterm_write: a run of the machine, after which the framebuffer is a redraw of the screen it
        reached, with its cursor. */
    method Write(buf: seq<nat>) returns (ghost inputs: seq<Input>)
      requires Valid() && forall b :: b in buf ==> b < 0x100
      modifies this, escValues, screen, screen.grid, screen.queue, screen.slots, screen.framebuffer
      ensures Valid() && Feeds(inputs, buf) && M() == Run(old(M()), tables, inputs)
      ensures autoflush ==>
                && Displays(screen.framebuffer[..], screen.look,
                            WithCursor(screen.V(), screen.cols, screen.rows, screen.cursorEnabled, screen.cursorX, screen.cursorY))
                && Redrawn(screen.framebuffer[..], screen.look, screen.V(), screen.cursorEnabled, screen.cursorX, screen.cursorY)
    {
      hide Ok, View, NothingRead, Displays, WithCursor, Redrawn, AllCommitted, Collector.Ok, Step;
      inputs := [];
      for i := 0 to |buf|
        invariant Valid() && Feeds(inputs, buf[..i]) && M() == Run(old(M()), tables, inputs)
      {
        assert buf[i] in buf;
        PutByte(buf[i]);
        inputs := inputs + [(buf[i], (screen.textFg, screen.textBg))];
        assert inputs[..i] + [inputs[i]] == inputs && buf[..i + 1] == buf[..i] + [buf[i]];
      }
      assert buf[..|buf|] == buf;
      if autoflush {
        FlushScreen();
      }
    }
  }

  lemma ClampsRow(x: nat, cols: nat, y: nat, rows: nat)
    requires x < cols && y < rows < 0x4000_0000
    ensures ClampTo(x, cols) == x && ClampTo(y, rows) == y && ClampTo(y + 1, rows) == Min(y + 1, rows - 1)
  {
  }

  lemma ClampsMove(x: nat, y: nat, cols: nat, rows: nat)
    requires x < cols < 0x4000_0000 && y < rows
    ensures ClampTo(y, rows) == y && ClampTo(0, cols) == 0
    ensures ClampTo(if x == 0 then U64 - 1 else x - 1, cols) == Max(x - 1, 0)
  {
  }

  lemma TabStop(x: nat, y: nat, cols: nat, rows: nat)
    requires x < cols < 0x4000_0000 && y < rows
    ensures ClampTo(y, rows) == y && ClampTo(cols - 1, cols) == cols - 1
    ensures ClampTo((x / TAB_SIZE + 1) * TAB_SIZE, cols) == Min((x / TAB_SIZE + 1) * TAB_SIZE, cols - 1)
    ensures x / TAB_SIZE + 1 >= cols ==> (x / TAB_SIZE + 1) * TAB_SIZE >= cols
  {
    var stop := (x / TAB_SIZE + 1) * TAB_SIZE;
    assert stop <= x + TAB_SIZE;
  }

  /** The cells of row `y` from column `i` on moved right by one. */
  function RightOf(v: seq<Cell>, cols: nat, rows: nat, i: nat, y: nat): (w: seq<Cell>)
    requires |v| == rows * cols && i <= cols && 0 < cols && y < rows
    ensures |w| == |v|
  {
    RowFitsScreen(cols, rows, y);
    PosSplit(cols, cols - 1, y);
    PosSplit(cols, i, y);
    Shifted(v, Pos(cols, i, y) + 1, Pos(cols, cols - 1, y) + 1, -1)
  }

  lemma RightOfEnds(t: Text)
    requires t.Ok()
    ensures RightOf(t.v, t.cols, t.rows, t.cols, t.Row()) == t.v
    ensures Opened(t) == t.(v := RightOf(t.v, t.cols, t.rows, t.Column(), t.Row()))
  {
    PosSplit(t.cols, t.cols, t.Row());
    PosSplit(t.cols, t.cols - 1, t.Row());
  }

  lemma RightOfStep(v: seq<Cell>, cols: nat, rows: nat, i: nat, y: nat)
    requires |v| == rows * cols && i < cols && y < rows
    ensures MovedCell(RightOf(v, cols, rows, i + 1, y), cols, rows, i + 1, y, i, y) == RightOf(v, cols, rows, i, y)
  {
    hide Pos, MovedCell, Shifted;
    var w := RightOf(v, cols, rows, i + 1, y);
    var p, last := Pos(cols, i, y), Pos(cols, cols - 1, y);
    PosInRange(cols, rows, i, y);
    PosInRange(cols, rows, cols - 1, y);
    PosSplit(cols, i, y);
    PosSplit(cols, i + 1, y);
    PosSplit(cols, cols - 1, y);
    MovedRight(w, cols, rows, i, y);
    if i + 1 < cols {
      ShiftedAt(v, p + 2, last + 1, -1, p);
      ShiftedPrevious(v, p + 2, last + 1, -1);
    } else {
      ShiftedSameEnd(v, p + 2, p + 1, last + 1, -1);
    }
  }

  lemma MovedRight(v: seq<Cell>, cols: nat, rows: nat, i: nat, y: nat)
    requires |v| == rows * cols && i < cols && y < rows
    ensures i + 1 < cols ==>
              Pos(cols, i, y) + 1 < |v| && MovedCell(v, cols, rows, i + 1, y, i, y) == v[Pos(cols, i, y) + 1 := v[Pos(cols, i, y)]]
    ensures i + 1 == cols ==> MovedCell(v, cols, rows, i + 1, y, i, y) == v
  {
    PosInRange(cols, rows, i, y);
    if i + 1 < cols {
      PosInRange(cols, rows, i + 1, y);
    }
  }

  lemma ResetReads(m: Machine)
    requires m.t.Ok()
    ensures !Reset(m).reader.controlSequence
  {
  }

  /** ControlStep, case by case. */
  lemma ControlStepCases(m: Machine, c: nat, ink: (nat, nat))
    requires m.t.Ok() && m.reader.p.Ok() && c < 0x100
    ensures var introducer := m.reader.escapeOffset == 2 && (c == '[' as nat || c == '?' as nat);
            var (p, used) := Collect(m.reader.p, c);
            ControlStep(m, c, ink) ==
              if introducer && c == '[' as nat then
                m.(reader := m.reader.(discardNext := true, controlSequence := false, escape := false, p := NothingRead()))
              else if introducer then m.(reader := m.reader.(decPrivate := true))
              else if used then m.(reader := m.reader.(p := p))
              else Finished(m.(reader := m.reader.(p := p)), c, Defaulted(p, DefaultFor(c)), p.count, ink)
  {
    hide Executed, Defaulted, NothingRead, Collect;
  }

  lemma NoEdit(t: Text, c: char, n: nat, m: nat, count: nat, saved: (nat, nat))
    requires t.Ok() && n < U64
    ensures c == 'm' || c == 's' || c == 'h' || c == 'l' ==> Edited(t, c, n, m, count, saved) == t
    ensures Edited(t, c, n, m, count, saved).(fg := t.fg, bg := t.bg) == Edited(t, c, n, m, count, saved)
  {
  }

  lemma MovedColumn(v: seq<Cell>, cols: nat, rows: nat, i: nat, y: nat, n: nat)
    requires |v| == rows * cols && i < cols && y < rows
    ensures var base := Pos(cols, 0, y);
            && base + i < |v| && (i + n < cols ==> base + i + n < |v|)
            && MovedCell(v, cols, rows, i + n, y, i, y) == if i + n < cols then v[base + i + n := v[base + i]] else v
  {
    PosInRange(cols, rows, i, y);
    PosSplit(cols, i, y);
    if i + n < cols {
      PosInRange(cols, rows, i + n, y);
      PosSplit(cols, i + n, y);
    }
  }

  lemma MovedLeft(v: seq<Cell>, cols: nat, rows: nat, i: nat, y: nat, n: nat)
    requires |v| == rows * cols && n <= i < cols && y < rows
    ensures var base := Pos(cols, 0, y);
            base + i < |v| && MovedCell(v, cols, rows, i - n, y, i, y) == v[base + i - n := v[base + i]]
  {
    PosInRange(cols, rows, i, y);
    PosSplit(cols, i, y);
    PosInRange(cols, rows, i - n, y);
    PosSplit(cols, i - n, y);
  }

  lemma PutInRow(v: seq<Cell>, cols: nat, rows: nat, c: Cell, i: nat, y: nat)
    requires |v| == rows * cols && i < cols && y < rows
    ensures Pos(cols, 0, y) + i < |v| && PutCell(v, cols, rows, c, i, y) == v[Pos(cols, 0, y) + i := c]
  {
    PosInRange(cols, rows, i, y);
    PosSplit(cols, i, y);
  }

  lemma StartsEmpty(p: Collector)
    requires |p.values| == MAX_ESC_VALUES && p.count == 0 && !p.rrr
    requires forall i :: 0 <= i < MAX_ESC_VALUES ==> p.values[i] == 0
    ensures p == NothingRead()
  {
  }

  lemma PosZero(cols: nat)
    ensures Pos(cols, 0, 0) == 0
  {
  }

  lemma CellsBelow(cols: nat, rows: nat, x: nat, y: nat)
    requires x < cols && y < rows
    ensures 0 < (rows - (y + 1)) * cols + (cols - (x + 1)) + 1 == rows * cols - Pos(cols, x, y)
  {
    PosInRange(cols, rows, x, y);
    assert (rows - (y + 1)) * cols == rows * cols - y * cols - cols;
  }
}
