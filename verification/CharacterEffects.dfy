/** What single characters and escape codes of one byte do to the screen, cell by cell
    (src/drivers/terminal/flanterm/flanterm.c:812-886, 1252-1353; backends/fb.c:789-809). */
module CharacterEffects {
  import opened Arithmetic
  import opened Bytes
  import opened PendingCells
  import opened TextState
  import opened ControlParameters
  import opened Machine
  import opened ControlSequences

  /** A character goes to the cursor's cell, or, from the pending wrap, to the start of the next row; at the end of
      the region the rows of the region move up instead, and the lowest is blank.  On a screen taller than wide a
      wrap goes no lower than row cols - 1. */
  lemma PutMeans(t: Text, c: nat, cx: nat, cy: nat)
    requires t.Ok() && t.scrolls && t.x <= t.cols && t.top < t.bottom && cx < t.cols && cy < t.rows
    ensures var wraps := t.x == t.cols;
            var up := wraps && t.y + 1 == t.bottom;
            var x, y := if wraps then 0 else t.x, if wraps then Min(if up then t.y else t.y + 1, t.cols - 1) else t.y;
            && Pos(t.cols, cx, cy) < |t.v| && (cy + 1 < t.rows ==> Pos(t.cols, cx, cy + 1) < |t.v|)
            && t.Put(c).x == x + 1 && t.Put(c).y == y
            && t.Put(c).v[Pos(t.cols, cx, cy)] ==
                 if cx == x && cy == y then Cell(c, t.fg, t.bg)
                 else if up && cy == t.bottom - 1 then Cell(0x20, t.fg, t.bg)
                 else if up && t.top <= cy < t.bottom then t.v[Pos(t.cols, cx, cy + 1)]
                 else t.v[Pos(t.cols, cx, cy)]
  {
    hide Scrolled, Pos;
    ScrolledRows(t.v, t.cols, t.rows, t.top, t.bottom, t.Blank(), cx, cy);
    var u := if t.Wraps() then t.Wrapped() else t;
    if u.x < t.cols && u.y < t.rows {
      SameCell(t.cols, t.rows, cx, cy, u.x, u.y);
    }
  }

  lemma SameCell(cols: nat, rows: nat, x: nat, y: nat, px: nat, py: nat)
    requires x < cols && px < cols && y < rows && py < rows
    ensures Pos(cols, x, y) == Pos(cols, px, py) <==> x == px && y == py
  {
    hide Pos;
    PosInRange(cols, rows, x, y);
    PosInRange(cols, rows, px, py);
  }

  /** In insert mode the cells right of the cursor have moved right by one first; the cursor's cell is overwritten. */
  lemma OpenedMeans(t: Text, cx: nat, cy: nat)
    requires t.Ok() && cx < t.cols && cy < t.rows
    ensures var x, y := if t.x < t.cols then t.x else t.cols - 1, if t.y < t.rows then t.y else t.rows - 1;
            && Pos(t.cols, cx, cy) < |t.v| && (0 < cx ==> Pos(t.cols, cx - 1, cy) < |t.v|)
            && Opened(t).v[Pos(t.cols, cx, cy)] == if cy == y && x < cx then t.v[Pos(t.cols, cx - 1, cy)] else t.v[Pos(t.cols, cx, cy)]
  {
    hide Pos;
    var x, y := t.Column(), t.Row();
    PosInRange(t.cols, t.rows, cx, cy);
    PosInRange(t.cols, t.rows, t.cols - 1, y);
    if 0 < cx {
      PosInRange(t.cols, t.rows, cx - 1, cy);
    }
    OpenedRow(t.cols, cx, cy, x, y);
  }

  lemma OpenedRow(cols: nat, cx: nat, cy: nat, x: nat, y: nat)
    requires cx < cols && x < cols
    ensures Pos(cols, x, y) < Pos(cols, cx, cy) <= Pos(cols, cols - 1, y) <==> cy == y && x < cx
    ensures 0 < cx ==> Pos(cols, cx - 1, cy) == Pos(cols, cx, cy) - 1
  {
    PosBetween(cols, cx, cy, y);
    PosBetween(cols, cx, cy, y + 1);
    assert (y + 1) * cols == y * cols + cols;
  }

  /** A byte that prints, to an idle machine. */
  lemma PrintableArrives(m: Machine, k: Tables, i: Input)
    requires m.Ok() && Idle(m) && i.0 !in {0x00, 0x18, 0x1a, 0x1b, 0x7f} && !(7 <= i.0 <= 15) && !(0xc0 <= i.0 <= 0xf7)
    ensures var t := if m.settings.insertMode then Opened(m.t) else m.t;
            var special := if m.charsets.special[m.charsets.current] then k.decSpecial(i.0) else None;
            Run(m, k, [i]) == m.(t := t.Put(if special.Some? then special.value else if 0x20 <= i.0 < 0x7f then i.0 else 0xfe))
  {
    hide Run, Text.Put, Opened, NothingRead, Text.Ok, Collector.Ok;
    RunOne(m, k, i);
    assert m.utf8.(remaining := 0) == m.utf8;
  }

  /** BS, HT, VT, FF, LF, CR, SO and SI, and the bytes that do nothing.  Tabs stand in every eighth column. */
  lemma ControlCharacterArrives(m: Machine, k: Tables, i: Input)
    requires m.Ok() && Idle(m) && i.0 in {0x00, 0x07, 0x08, 0x09, 0x0a, 0x0b, 0x0c, 0x0d, 0x0e, 0x0f, 0x7f}
    ensures var t, c := m.t, i.0;
            var x, y := if t.x < t.cols then t.x else t.cols - 1, if t.y < t.rows then t.y else t.rows - 1;
            Run(m, k, [i]) ==
              if c == 0x08 then m.(t := t.(x := Max(x - 1, 0), y := y))
              else if c == 0x09 then m.(t := t.(x := Min(x - x % 8 + 8, t.cols - 1), y := y))
              else if 0x0a <= c <= 0x0c then m.(t := LineDown(t, if m.settings.onlcr then 0 else x))
              else if c == 0x0d then m.(t := t.(x := 0, y := y))
              else if c == 0x0e then m.(charsets := m.charsets.(current := 1))
              else if c == 0x0f then m.(charsets := m.charsets.(current := 0))
              else m
  {
    hide Run, LineFeed, NothingRead, Text.Ok, Collector.Ok;
    RunOne(m, k, i);
    assert m.utf8.(remaining := 0) == m.utf8;
    LineDownIsLineFeed(m.t, if m.settings.onlcr then 0 else m.t.Column());
  }

  /** To column `x` of the next row, or of the same row when the region has scrolled up, or the last row. */
  function LineDown(t: Text, x: nat): Text
    requires t.Ok()
  {
    var y := if t.y < t.rows then t.y else t.rows - 1;
    if y == t.bottom - 1 then t.(v := Scrolled(t.v, t.cols, t.rows, t.top, t.bottom, Cell(0x20, t.fg, t.bg)), x := x, y := y)
    else t.(x := x, y := Min(y + 1, t.rows - 1))
  }

  lemma LineDownIsLineFeed(t: Text, x: nat)
    requires t.Ok() && x <= t.cols
    ensures LineFeed(t, x) == LineDown(t, x)
  {
    hide Scrolled;
  }

  /** ESC and a byte that starts no string and no control sequence. */
  lemma EscapeRun(m: Machine, k: Tables, c: nat, s: seq<Input>)
    requires m.Ok() && Idle(m) && c < 0x80 && c != '[' as nat && c != ']' as nat && c != 0x18 && c != 0x1a
    requires Feeds(s, [0x1b, c])
    ensures var n := EscapeCode(m.(reader := m.reader.(escape := true, escapeOffset := 1)), c as char);
            Run(m, k, s) == n.(reader := n.reader.(escape := false))
  {
    hide Run, EscapeCode, NothingRead, Text.Ok, Collector.Ok;
    assert s == [s[0]] + [s[1]];
    RunJoin(m, k, [s[0]], [s[1]]);
    RunOne(m, k, s[0]);
    assert m.utf8.(remaining := 0) == m.utf8;
    RunOne(Run(m, k, [s[0]]), k, s[1]);
  }

  /** ESC D and ESC E go down a row, E to the first column; ESC M goes up a row, or scrolls the region down, and
      goes to the first column; ESC c clears the screen, the margins and the modes, but not the colours nor what ESC 7
      saved. */
  lemma EscapeCodeArrives(m: Machine, k: Tables, c: char, s: seq<Input>)
    requires m.Ok() && Idle(m) && c in {'D', 'E', 'M', 'c'} && Feeds(s, [0x1b, c as nat])
    ensures var t, r := m.t, m.(reader := m.reader.(escapeOffset := 1));
            var x, y := if t.x < t.cols then t.x else t.cols - 1, if t.y < t.rows then t.y else t.rows - 1;
            Run(m, k, s) ==
              if c == 'D' then r.(t := LineDown(t, x))
              else if c == 'E' then r.(t := LineDown(t, 0))
              else if c == 'M' then
                r.(t := if y == t.top then t.(v := RevScrolled(t.v, t.cols, t.rows, t.top, t.bottom, Cell(0x20, t.fg, t.bg)), x := 0, y := y)
                        else t.(x := 0, y := Max(y - 1, 0)))
              else
                Machine(t.(v := seq(|t.v|, i => Cell(0x20, t.fg, t.bg)), x := 0, y := 0, top := 0, bottom := t.rows),
                        m.reader.(escapeOffset := 0, decPrivate := false), m.utf8,
                        Charsets(0, [false, true], 0), Settings(false, true, true), m.saved, (0, 0))
  {
    hide Run, LineFeed, Scrolled, RevScrolled, NothingRead, Collector.Ok;
    EscapeRun(m, k, c as nat, s);
    LineDownIsLineFeed(m.t, m.t.Column());
    LineDownIsLineFeed(m.t, 0);
  }

  /** ESC ( and ESC ) make G0 or G1 the DEC special graphics, or no longer, by the byte that follows. */
  lemma CharsetArrives(m: Machine, k: Tables, s: seq<Input>, g: nat, c: nat)
    requires m.Ok() && Idle(m) && g < 2 && c in {'0' as nat, 'B' as nat}
    requires Feeds(s, [0x1b, if g == 0 then '(' as nat else ')' as nat, c])
    ensures Run(m, k, s) ==
              m.(charsets := m.charsets.(special := m.charsets.special[g := c == '0' as nat]), reader := m.reader.(escapeOffset := 1))
  {
    hide Run, NothingRead, Text.Ok, Collector.Ok;
    var two := s[..2];
    assert s == two + [s[2]];
    RunJoin(m, k, two, [s[2]]);
    EscapeRun(m, k, two[1].0, two);
    RunOne(Run(m, k, two), k, s[2]);
    assert m.utf8.(remaining := 0) == m.utf8;
  }

  // ---------------------------------------------------------------------------------------------
  // Decoded characters
  // ---------------------------------------------------------------------------------------------

  /** Blanks that stay on their row. */
  lemma {:induction false} BlanksOnRow(t: Text, n: nat)
    requires t.Ok() && t.x + n <= t.cols && t.y < t.rows
    ensures var p := Pos(t.cols, t.x, t.y); t.Blanks(n) == t.(v := Blanked(t.v, p, p + n, t.Blank()), x := t.x + n)
  {
    hide Pos, PutCell, Scrolled, Blanked;
    var p := Pos(t.cols, t.x, t.y);
    if n == 0 {
      NothingBlanked(t.v, p, t.Blank());
    } else {
      BlanksOnRow(t, n - 1);
      OneMoreBlank(t.v, t.cols, t.rows, t.x, t.y, n - 1, t.Blank());
    }
  }

  lemma NothingBlanked(v: seq<Cell>, p: nat, blank: Cell)
    ensures Blanked(v, p, p, blank) == v
  {
  }

  lemma OneMoreBlank(v: seq<Cell>, cols: nat, rows: nat, x: nat, y: nat, n: nat, blank: Cell)
    requires |v| == rows * cols && x + n < cols && y < rows
    ensures var p := Pos(cols, x, y);
            PutCell(Blanked(v, p, p + n, blank), cols, rows, blank, x + n, y) == Blanked(v, p, p + n + 1, blank)
  {
    PosInRange(cols, rows, x + n, y);
  }

  /** A code point with room on its row: its glyph in the cursor's cell; without a glyph, a box and blanks, as many cells
      as the character is wide, and nothing if it has no width. */
  lemma GlyphMeans(t: Text, k: Tables, codePoint: nat, cx: nat, cy: nat)
    requires t.Ok() && t.y < t.rows && t.x < t.cols && cx < t.cols && cy < t.rows
    requires k.glyphOf(codePoint).None? ==> t.x + k.widthOf(codePoint) <= t.cols
    ensures var glyph := k.glyphOf(codePoint);
            var u, n := Glyph(t, k, codePoint), if glyph.Some? then 1 else k.widthOf(codePoint);
            && Pos(t.cols, cx, cy) < |t.v| && u.x == t.x + n && u.y == t.y
            && u.v[Pos(t.cols, cx, cy)] ==
                 if cy != t.y || cx < t.x || t.x + n <= cx then t.v[Pos(t.cols, cx, cy)]
                 else if cx != t.x then Cell(0x20, t.fg, t.bg)
                 else Cell(if glyph.Some? then glyph.value else 0xfe, t.fg, t.bg)
  {
    hide Pos, Blanked, Text.Blanks;
    var n := k.widthOf(codePoint);
    PosInRange(t.cols, t.rows, cx, cy);
    SameCell(t.cols, t.rows, cx, cy, t.x, t.y);
    if k.glyphOf(codePoint).None? && 0 < n {
      var u := t.Put(0xfe);
      BlanksOnRow(u, n - 1);
      BlankedCell(u.v, t.cols, t.rows, t.x + 1, t.y, n - 1, t.Blank(), cx, cy);
    }
  }

  lemma BlankedCell(v: seq<Cell>, cols: nat, rows: nat, x: nat, y: nat, n: nat, blank: Cell, cx: nat, cy: nat)
    requires |v| == rows * cols && x + n <= cols && y < rows && cx < cols && cy < rows
    ensures Pos(cols, cx, cy) < |v|
    ensures var p := Pos(cols, x, y);
            Blanked(v, p, p + n, blank)[Pos(cols, cx, cy)] == if cy == y && x <= cx < x + n then blank else v[Pos(cols, cx, cy)]
  {
    PosInRange(cols, rows, cx, cy);
    PosBetween(cols, cx, cy, y);
    PosBetween(cols, cx, cy, y + 1);
    assert (y + 1) * cols == y * cols + cols;
  }

  // ---------------------------------------------------------------------------------------------
  // Strings and cancelling
  // ---------------------------------------------------------------------------------------------

  /** An operating system command ends at BEL or ESC \ and does nothing. */
  lemma OscArrives(m: Machine, k: Tables, text: seq<nat>, end: seq<nat>, s: seq<Input>)
    requires m.Ok() && Idle(m) && (end == [0x07] || end == [0x1b, '\\' as nat])
    requires forall c :: c in text ==> c !in {0x07, 0x18, 0x1a, 0x1b} && !(0xc0 <= c <= 0xf7)
    requires Feeds(s, [0x1b, ']' as nat] + text + end)
    ensures Run(m, k, s) == m.(reader := m.reader.(escapeOffset := |s| - 1))
  {
    hide Run, NothingRead, Text.Ok, Collector.Ok;
    var n := 2 + |text|;
    assert s == s[..2] + s[2..n] + s[n..];
    RunJoin(m, k, s[..2] + s[2..n], s[n..]);
    RunJoin(m, k, s[..2], s[2..n]);
    assert s[..2] == [s[0]] + [s[1]];
    RunJoin(m, k, [s[0]], [s[1]]);
    RunOne(m, k, s[0]);
    assert m.utf8.(remaining := 0) == m.utf8;
    RunOne(Run(m, k, [s[0]]), k, s[1]);
    var inside := Run(m, k, s[..2]);
    OscText(inside, k, s[2..n], text);
    OscEnd(Run(inside, k, s[2..n]), k, s[n..], end);
  }

  ghost predicate InOsc(m: Machine) {
    && m.Ok() && m.reader == Reader(true, false, true, false, m.reader.escapeOffset, false, m.reader.decPrivate, NothingRead())
    && m.utf8.remaining == 0
  }

  lemma {:induction false} OscText(m: Machine, k: Tables, s: seq<Input>, text: seq<nat>)
    requires InOsc(m) && Feeds(s, text)
    requires forall c :: c in text ==> c !in {0x07, 0x18, 0x1a, 0x1b} && !(0xc0 <= c <= 0xf7)
    ensures Run(m, k, s) == m.(reader := m.reader.(escapeOffset := m.reader.escapeOffset + |s|))
  {
    hide NothingRead, Text.Ok, Collector.Ok, ControlCharacter, NextByte, EscapeCode, Steady;
    if s != [] {
      var n := |s| - 1;
      assert text[n] in text && forall c :: c in text[..n] ==> c in text;
      OscText(m, k, s[..n], text[..n]);
      assert m.utf8.(remaining := 0) == m.utf8;
    }
  }

  lemma OscEnd(m: Machine, k: Tables, s: seq<Input>, end: seq<nat>)
    requires InOsc(m) && Feeds(s, end) && (end == [0x07] || end == [0x1b, '\\' as nat])
    ensures Run(m, k, s) == m.(reader := m.reader.(escape := false, osc := false, escapeOffset := m.reader.escapeOffset + |s|))
  {
    hide Run, NothingRead, Text.Ok, Collector.Ok;
    assert m.utf8.(remaining := 0) == m.utf8;
    if end == [0x07] {
      assert s == [s[0]];
      RunOne(m, k, s[0]);
    } else {
      assert s == [s[0]] + [s[1]];
      RunJoin(m, k, [s[0]], [s[1]]);
      RunOne(m, k, s[0]);
      RunOne(Run(m, k, [s[0]]), k, s[1]);
    }
  }

  /** CAN and SUB abandon whatever is half read, but for a private introducer, and change nothing else. */
  lemma CancelArrives(m: Machine, k: Tables, i: Input)
    requires m.Ok() && i.0 in {0x18, 0x1a}
    ensures Idle(Run(m, k, [i]))
    ensures var n := Run(m, k, [i]);
            && n.t == m.t && n.settings == m.settings && n.saved == m.saved && n.savedCursor == m.savedCursor
            && n.charsets == m.charsets.(gSelect := 0) && n.reader.decPrivate == m.reader.decPrivate
  {
    hide Run, NothingRead, Text.Ok, Collector.Ok;
    RunOne(m, k, i);
  }

  /** ESC [ [ and any byte, as the function keys of a console send them, do nothing. */
  lemma FunctionKeyArrives(m: Machine, k: Tables, s: seq<Input>)
    requires m.Ok() && Idle(m) && |s| == 4 && s[0].0 == 0x1b && s[1].0 == '[' as nat && s[2].0 == '[' as nat
    ensures Run(m, k, s) == m.(reader := m.reader.(escapeOffset := 2))
  {
    hide Run, NothingRead, Text.Ok, Collector.Ok, Finished;
    assert s == [s[0], s[1]] + [s[2]] + [s[3]];
    IntroducerRun(m, k, s[0], s[1]);
    RunJoin(m, k, [s[0], s[1]], [s[2]]);
    RunJoin(m, k, [s[0], s[1]] + [s[2]], [s[3]]);
    var n := Run(m, k, [s[0], s[1]]);
    StepIsControlStep(n, k, s[2].0, s[2].1);
    RunOne(n, k, s[2]);
    RunOne(Run(n, k, [s[2]]), k, s[3]);
  }
}
