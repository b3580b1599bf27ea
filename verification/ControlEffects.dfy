/** What each control sequence does to the screen, from its bytes on
    (src/drivers/terminal/flanterm/flanterm.c:484-788; ECMA-48, sections 8.3.18 to 8.3.64). */
module ControlEffects {
  import opened Arithmetic
  import opened PendingCells
  import opened TextState
  import opened ControlFunctions
  import opened ControlParameters
  import opened Machine
  import opened ControlSequences

  /** The bytes of ESC [ parameters final, fed to an idle machine that has no private introducer left over. */
  ghost predicate Arrives(m: Machine, ps: seq<seq<nat>>, c: char, s: seq<Input>) {
    && m.Ok() && Idle(m) && !m.reader.decPrivate
    && 0 < |ps| && (forall q :: q in ps ==> Digits(q)) && (Written(ps) == [] ==> c != '[' && c != '?')
    && c as nat < 0x80 && !IsParameterByte(c as nat) && c as nat != 0x18 && c as nat != 0x1a
    && Feeds(s, [0x1b, '[' as nat] + Written(ps) + [c as nat])
  }

  /** The machine with another text, and nothing else changed but the count of bytes since ESC. */
  function Ended(m: Machine, t: Text, s: seq<Input>): Machine
    requires s != []
  {
    m.(t := t, reader := m.reader.(escapeOffset := |s| - 1))
  }

  lemma FinishedArrives(m: Machine, k: Tables, ps: seq<seq<nat>>, c: char, s: seq<Input>)
    requires Arrives(m, ps, c, s)
    ensures Run(m, k, s) == Finished(Ended(m, m.t, s), c as nat, Arguments(ps, DefaultFor(c as nat)), Told(ps), s[|s| - 1].1)
  {
    hide Run, Finished, Written, NothingRead, Text.Ok, Collector.Ok;
    assert [0x1b, '[' as nat] == Head(false);
    ControlSequenceArrives(m, k, ps, c as nat, s, false);
  }

  /** A sequence that sets no mode, saves no cursor and selects no colours acts on the text alone, with scrolling off. */
  lemma TextArrives(m: Machine, k: Tables, ps: seq<seq<nat>>, c: char, s: seq<Input>)
    requires Arrives(m, ps, c, s) && c !in {'h', 'l', 's', 'm'}
    ensures var a := Arguments(ps, DefaultFor(c as nat));
            Run(m, k, s) == Ended(m, Control(m.t.(scrolls := false), c, a[0], a[1], Told(ps), m.savedCursor).(scrolls := m.t.scrolls), s)
  {
    hide Run, NothingRead, Arguments, Written, Text.Ok, Collector.Ok, Control;
    FinishedArrives(m, k, ps, c, s);
    assert (c as nat) as char == c;
  }

  /** Up and down by `n` rows, where a count not given is 1: inside the region up to its margins, outside it up to the
      screen's; E and F also go to the first column. */
  lemma VerticalArrives(m: Machine, k: Tables, ps: seq<seq<nat>>, c: char, s: seq<Input>)
    requires Arrives(m, ps, c, s) && c in {'A', 'B', 'E', 'F', 'e'}
    ensures var t, n := m.t, Arguments(ps, 1)[0];
            var x, y := if t.x < t.cols then t.x else t.cols - 1, if t.y < t.rows then t.y else t.rows - 1;
            var up, down := Max(y - n, if t.top <= y then t.top else 0), Min(y + n, if y <= t.bottom then t.bottom - 1 else t.rows - 1);
            Run(m, k, s) == Ended(m, t.(x := if c in {'E', 'F'} then 0 else x, y := if c in {'A', 'F'} then up else down), s)
  {
    hide Run, NothingRead, Arguments, Written, Text.Ok, Collector.Ok;
    TextArrives(m, k, ps, c, s);
  }

  /** Sideways by `n` columns, up to the first or the last: C and a to the right, D to the left. */
  lemma SidewaysArrives(m: Machine, k: Tables, ps: seq<seq<nat>>, c: char, s: seq<Input>)
    requires Arrives(m, ps, c, s) && c in {'C', 'D', 'a'}
    ensures var t, n := m.t, Arguments(ps, 1)[0];
            var x, y := if t.x < t.cols then t.x else t.cols - 1, if t.y < t.rows then t.y else t.rows - 1;
            Run(m, k, s) == Ended(m, t.(x := if c == 'D' then Max(x - n, 0) else Min(x + n, t.cols - 1), y := y), s)
  {
    hide Run, NothingRead, Arguments, Written, Text.Ok, Collector.Ok;
    TextArrives(m, k, ps, c, s);
  }

  /** To row `n` and column `l`, counted from 1, or to row or column `n`, cut to the screen.  A zero is the first
      row or column for H and f, and the last for the others. */
  lemma PositionArrives(m: Machine, k: Tables, ps: seq<seq<nat>>, c: char, s: seq<Input>)
    requires Arrives(m, ps, c, s) && c in {'H', 'f', 'd', 'G', '`'}
    ensures var t, n, l := m.t, Arguments(ps, 1)[0], Arguments(ps, 1)[1];
            var x, y := if t.x < t.cols then t.x else t.cols - 1, if t.y < t.rows then t.y else t.rows - 1;
            Run(m, k, s) == Ended(m,
              if c == 'd' then t.(x := x, y := if n == 0 then t.rows - 1 else Min(n, t.rows) - 1)
              else if c in {'G', '`'} then t.(x := if n == 0 then t.cols - 1 else Min(n, t.cols) - 1, y := y)
              else t.(x := Max(Min(l, t.cols) - 1, 0), y := Max(Min(n, t.rows) - 1, 0)), s)
  {
    hide Run, NothingRead, Arguments, Written, Text.Ok, Collector.Ok;
    TextArrives(m, k, ps, c, s);
  }

  /** The text that an editing function finds. */
  function Still(t: Text): Text {
    t.(scrolls := false)
  }

  /** The cells after each editing function are those that the theorems of ControlFunctions compare with ECMA-48, or
      are given outright; the cursor is where it was reported, or does not move. */
  lemma EditArrives(m: Machine, k: Tables, ps: seq<seq<nat>>, c: char, s: seq<Input>)
    requires Arrives(m, ps, c, s) && c in {'@', 'P', 'X', 'L', 'M'}
    ensures var t, n := m.t, Arguments(ps, 1)[0];
            var x, y := if t.x < t.cols then t.x else t.cols - 1, if t.y < t.rows then t.y else t.rows - 1;
            Run(m, k, s) == Ended(m,
              if c == '@' then t.(v := Insert(Still(t), n).v, x := x, y := y)
              else if c == 'P' then t.(v := Delete(Still(t), n).v, x := x, y := y)
              else if c == 'X' then t.(v := EraseChars(Still(t), n).v, x := x, y := y)
              else if c == 'L' then t.(v := InsertLines(Still(t), n).v)
              else t.(v := DeleteLines(Still(t), n).v), s)
  {
    hide Run, NothingRead, Arguments, Written, Text.Ok, Collector.Ok, InsertedAt, DeleteFrom, Text.Blanks, ScrollDown, ScrollUp;
    TextArrives(m, k, ps, c, s);
  }

  /** ED from the cursor on or up to it; 2 and 3 blank the whole screen and leave the cursor alone. */
  lemma EraseDisplayArrives(m: Machine, k: Tables, ps: seq<seq<nat>>, s: seq<Input>)
    requires Arrives(m, ps, 'J', s)
    ensures var t, n := m.t, Arguments(ps, 0)[0];
            var x, y := if t.x < t.cols then t.x else t.cols - 1, if t.y < t.rows then t.y else t.rows - 1;
            Run(m, k, s) == Ended(m,
              if n <= 1 then t.(v := EraseDisplay(Still(t), n).v, x := x, y := y)
              else if n <= 3 then t.(v := seq(|t.v|, i => Cell(0x20, t.fg, t.bg)))
              else t, s)
  {
    hide Run, NothingRead, Arguments, Written, Collector.Ok, Control;
    TextArrives(m, k, ps, 'J', s);
    DisplayErased(Still(m.t), Arguments(ps, 0)[0], Arguments(ps, 0)[1], Told(ps), m.savedCursor);
  }

  lemma DisplayErased(t: Text, n: nat, l: nat, count: nat, saved: (nat, nat))
    requires t.Ok() && n < U64
    ensures var x, y := if t.x < t.cols then t.x else t.cols - 1, if t.y < t.rows then t.y else t.rows - 1;
            Control(t, 'J', n, l, count, saved) ==
              if n <= 1 then t.(v := EraseDisplay(t, n).v, x := x, y := y)
              else if n <= 3 then t.(v := seq(|t.v|, i => Cell(0x20, t.fg, t.bg)))
              else t
  {
    hide Text.Blanks;
  }

  /** EL from the cursor on, before it, or the whole row. */
  lemma EraseLineArrives(m: Machine, k: Tables, ps: seq<seq<nat>>, s: seq<Input>)
    requires Arrives(m, ps, 'K', s)
    ensures var t, n := m.t, Arguments(ps, 0)[0];
            var x, y := if t.x < t.cols then t.x else t.cols - 1, if t.y < t.rows then t.y else t.rows - 1;
            Run(m, k, s) == Ended(m, if n <= 2 then t.(v := EraseLine(Still(t), n).v, x := x, y := y) else t, s)
  {
    hide Run, NothingRead, Arguments, Written, Collector.Ok, Control;
    TextArrives(m, k, ps, 'K', s);
    LineErased(Still(m.t), Arguments(ps, 0)[0], Arguments(ps, 0)[1], Told(ps), m.savedCursor);
  }

  lemma LineErased(t: Text, n: nat, l: nat, count: nat, saved: (nat, nat))
    requires t.Ok() && n < U64
    ensures var x, y := if t.x < t.cols then t.x else t.cols - 1, if t.y < t.rows then t.y else t.rows - 1;
            Control(t, 'K', n, l, count, saved) == if n <= 2 then t.(v := EraseLine(t, n).v, x := x, y := y) else t
  {
    hide Text.Blanks;
    if n == 1 {
      BlanksStayOnRow(t.MoveTo(0, t.Row()), t.Column());
    }
  }

  /** CSI r with margins from row `n` to row `l` sets them if they are in order and on the screen, and else gives the
      region the whole screen; the cursor goes home.  CSI s and CSI u save the reported cursor and go back to it. */
  lemma MarginsArrive(m: Machine, k: Tables, ps: seq<seq<nat>>, c: char, s: seq<Input>)
    requires Arrives(m, ps, c, s) && c in {'r', 'u'}
    ensures var t, n, l := m.t, Arguments(ps, 1)[0], Arguments(ps, 1)[1];
            var top, bottom := if Told(ps) == 0 then 0 else Max(n, 1) - 1, if Told(ps) <= 1 then t.rows else Max(l, 1);
            var valid := top + 1 < bottom <= t.rows;
            Run(m, k, s) == Ended(m,
              if c == 'u' then t.(x := ClampTo(m.savedCursor.0, t.cols), y := ClampTo(m.savedCursor.1, t.rows))
              else t.(top := if valid then top else 0, bottom := if valid then bottom else t.rows, x := 0, y := 0), s)
  {
    hide Run, NothingRead, Arguments, Written, Text.Ok, Collector.Ok;
    TextArrives(m, k, ps, c, s);
  }

  lemma SaveArrives(m: Machine, k: Tables, ps: seq<seq<nat>>, s: seq<Input>)
    requires Arrives(m, ps, 's', s)
    ensures var t := m.t;
            Run(m, k, s) == Ended(m, t, s).(
              savedCursor := (if t.x < t.cols then t.x else t.cols - 1, if t.y < t.rows then t.y else t.rows - 1))
  {
    hide Run, NothingRead, Arguments, Written, Text.Ok, Collector.Ok;
    FinishedArrives(m, k, ps, 's', s);
  }

  /** No other final byte changes anything but colours. */
  lemma NothingArrives(m: Machine, k: Tables, ps: seq<seq<nat>>, c: char, s: seq<Input>)
    requires Arrives(m, ps, c, s)
    requires c !in {'A', 'B', 'C', 'D', 'E', 'F', 'G', 'H', '`', 'a', 'd', 'e', 'f', '@', 'P', 'X', 'L', 'M', 'J', 'K', 'r', 'u', 's', 'h', 'l'}
    ensures Run(m, k, s) == Ended(m, if c == 'm' then m.t.(fg := s[|s| - 1].1.0, bg := s[|s| - 1].1.1) else m.t, s)
  {
    hide Run, NothingRead, Arguments, Written, Text.Ok, Collector.Ok;
    FinishedArrives(m, k, ps, c, s);
    assert (c as nat) as char == c;
  }
}
