/** The terminal as a state machine over the bytes it is fed
    (src/drivers/terminal/flanterm/flanterm.c:391-482, 484-887, 1206-1353). */
module Machine {
  import opened Arithmetic
  import opened Bytes
  import opened PendingCells
  import opened TextState
  import opened ControlFunctions
  import opened ControlParameters

  const TAB_SIZE: nat := 8

  /** The glyph of a character without one. */
  const BOX: nat := 0xfe

  const ESC: nat := 0x1b

  /** unicode_to_cp437, mk_wcwidth and dec_special_print. */
  datatype Tables = Tables(glyphOf: nat -> Option<nat>, widthOf: nat -> nat, decSpecial: nat -> Option<nat>)

  /** Where the machine is in an escape sequence; `p` are the parameters of a control sequence. */
  datatype Reader = Reader(
    escape: bool, controlSequence: bool, osc: bool, oscEscape: bool, escapeOffset: nat, discardNext: bool, decPrivate: bool,
    p: Collector)

  /** Where it is in a UTF-8 sequence. */
  datatype Decoder = Decoder(remaining: nat, codePoint: nat)

  /** Whether G0 and G1 are the DEC special graphics, which of them is in use, and which one is being set. */
  datatype Charsets = Charsets(gSelect: nat, special: seq<bool>, current: nat)

  datatype Settings = Settings(insertMode: bool, cursorEnabled: bool, onlcr: bool)

  /** What ESC 7 saves. */
  datatype Saved = Saved(x: nat, y: nat, fg: nat, bg: nat, charset: nat)

  datatype Machine = Machine(
    t: Text, reader: Reader, utf8: Decoder, charsets: Charsets, settings: Settings, saved: Saved, savedCursor: (nat, nat))
  {
    /** What holds between any two bytes. */
    ghost predicate Ok() {
      && t.Ok() && Steady(t) && ReaderOk(reader) && CharsetsOk(charsets)
      && utf8.remaining <= 3 && saved.charset <= 1 && saved.x <= t.cols
    }
  }

  ghost predicate Steady(t: Text) {
    t.top < t.bottom && t.x <= t.cols && t.scrolls && t.cols < 0x4000_0000 && t.rows < 0x4000_0000
  }

  ghost predicate ReaderOk(r: Reader) {
    r.p.Ok() && (!r.controlSequence ==> r.p == NothingRead())
  }

  ghost predicate CharsetsOk(g: Charsets) {
    g.gSelect <= 2 && |g.special| == 2 && g.current <= 1
  }

  // ---------------------------------------------------------------------------------------------
  // Escape sequences
  // ---------------------------------------------------------------------------------------------

  /** The default of a parameter: zero for ED, EL and DECLL. */
  function DefaultFor(c: nat): nat {
    if c == 'J' as nat || c == 'K' as nat || c == 'q' as nat then 0 else 1
  }

  /** A control function, executed with scrolling off; `ink` are the colours an SGR selects. */
  function Executed(t: Text, c: nat, a: seq<nat>, count: nat, saved: (nat, nat), ink: (nat, nat)): Text
    requires t.Ok() && c < 0x100 && |a| == MAX_ESC_VALUES && a[0] < U32
  {
    var u := Control(t.(scrolls := false), c as char, a[0], a[1], count, saved).(scrolls := t.scrolls);
    if c == 'm' as nat then u.(fg := ink.0, bg := ink.1) else u
  }

  /** The setting that a final byte h or l changes. */
  predicate Toggles(c: nat, a: seq<nat>, count: nat, mode: nat)
    requires 0 < |a|
  {
    (c == 'h' as nat || c == 'l' as nat) && 0 < count && a[0] == mode
  }

  /** The end of a control sequence with arguments `a`, `count` of them given. */
  function Finished(m: Machine, c: nat, a: seq<nat>, count: nat, ink: (nat, nat)): Machine
    requires m.t.Ok() && c < 0x100 && |a| == MAX_ESC_VALUES && a[0] < U32
  {
    var s, reader := m.settings, m.reader.(controlSequence := false, escape := false, decPrivate := false, p := NothingRead());
    if m.reader.decPrivate then
      m.(settings := if Toggles(c, a, count, 25) then s.(cursorEnabled := c == 'h' as nat) else s, reader := reader)
    else
      m.(t := Executed(m.t, c, a, count, m.savedCursor, ink),
         savedCursor := if c == 's' as nat then (m.t.Column(), m.t.Row()) else m.savedCursor,
         settings := if Toggles(c, a, count, 4) then s.(insertMode := c == 'h' as nat) else s,
         reader := reader)
  }

  /** control_sequence_parse. */
  function ControlStep(m: Machine, c: nat, ink: (nat, nat)): Machine
    requires m.t.Ok() && m.reader.p.Ok() && c < 0x100
  {
    var r := m.reader;
    if r.escapeOffset == 2 && c == '[' as nat then
      m.(reader := r.(discardNext := true, controlSequence := false, escape := false, p := NothingRead()))
    else if r.escapeOffset == 2 && c == '?' as nat then
      m.(reader := r.(decPrivate := true))
    else
      var (p, used) := Collect(r.p, c);
      if used then m.(reader := r.(p := p)) else Finished(m, c, Defaulted(p, DefaultFor(c)), p.count, ink)
  }

  /** osc_parse. */
  function OscStep(r: Reader, c: nat): Reader {
    if (r.oscEscape && c == '\\' as nat) || c == 0x07 then r.(oscEscape := false, osc := false, escape := false)
    else r.(oscEscape := c == ESC)
  }

  /** The cursor one row down, scrolling at the end of the region. */
  function LineFeed(t: Text, x: nat): (u: Text)
    requires t.Ok() && x <= t.cols
    ensures u.Ok() && u.(v := t.v, x := t.x, y := t.y) == t && u.x <= t.cols
  {
    var y := t.Row();
    if y + 1 == t.bottom then t.(v := Scrolled(t.v, t.cols, t.rows, t.top, t.bottom, t.Blank()), x := x, y := y)
    else t.(x := x, y := Min(y + 1, t.rows - 1))
  }

  /** Reverse line feed, which also returns to the first column. */
  function ReverseLineFeed(t: Text): (u: Text)
    requires t.Ok()
    ensures u.Ok() && u.(v := t.v, x := t.x, y := t.y) == t && u.x <= t.cols
  {
    var y := t.Row();
    if y == t.top then t.(v := RevScrolled(t.v, t.cols, t.rows, t.top, t.bottom, t.Blank()), x := 0, y := y)
    else t.(x := 0, y := Max(y - 1, 0))
  }

  function Cleared(t: Text): (u: Text)
    requires t.Ok()
    ensures u.Ok() && u.(v := t.v, x := t.x, y := t.y, top := t.top, bottom := t.bottom, scrolls := t.scrolls) == t
    ensures u.top < u.bottom && u.x <= u.cols && u.scrolls
  {
    t.(v := Blanked(t.v, 0, |t.v|, t.Blank()), x := 0, y := 0, top := 0, bottom := t.rows, scrolls := true)
  }

  /** ESC c: everything but the colours and what ESC 7 saved. */
  function Reset(m: Machine): Machine
    requires m.t.Ok()
  {
    Machine(Cleared(m.t), Reader(false, false, false, false, 0, false, false, NothingRead()), m.utf8.(remaining := 0),
            Charsets(0, [false, true], 0), Settings(false, true, true), m.saved, (0, 0))
  }

  /** An escape code of one byte. */
  function EscapeCode(m: Machine, c: char): Machine
    requires m.t.Ok()
  {
    match c
    case '7' => m.(saved := Saved(m.t.x, m.t.y, m.t.fg, m.t.bg, m.charsets.current))
    case '8' => m.(t := m.t.(x := m.saved.x, y := m.saved.y, fg := m.saved.fg, bg := m.saved.bg),
                   charsets := m.charsets.(current := m.saved.charset))
    case 'c' => Reset(m)
    case 'D' => m.(t := LineFeed(m.t, m.t.Column()))
    case 'E' => m.(t := LineFeed(m.t, 0))
    case 'M' => m.(t := ReverseLineFeed(m.t))
    case '(' => m.(charsets := m.charsets.(gSelect := 1))
    case ')' => m.(charsets := m.charsets.(gSelect := 2))
    case _ => m
  }

  /** escape_parse. */
  function EscapeStep(m: Machine, c: nat, ink: (nat, nat)): Machine
    requires m.t.Ok() && m.reader.p.Ok() && c < 0x100
  {
    var n := m.(reader := m.reader.(escapeOffset := m.reader.escapeOffset + 1));
    if n.reader.osc then n.(reader := OscStep(n.reader, c))
    else if n.reader.controlSequence then ControlStep(n, c, ink)
    else Introduced(n, c)
  }

  /** The byte after ESC: the start of a string or a control sequence, or an escape code. */
  function Introduced(m: Machine, c: nat): Machine
    requires m.t.Ok() && c < 0x100
  {
    if c == ']' as nat then m.(reader := m.reader.(oscEscape := false, osc := true))
    else if c == '[' as nat then m.(reader := m.reader.(p := NothingRead(), controlSequence := true))
    else
      var n := EscapeCode(m, c as char);
      n.(reader := n.reader.(escape := false))
  }

  // ---------------------------------------------------------------------------------------------
  // Characters
  // ---------------------------------------------------------------------------------------------

  /** Room for one character at the cursor, in insert mode. */
  function Opened(t: Text): (u: Text)
    requires t.Ok()
    ensures u.Ok() && u.(v := t.v) == t
  {
    PosInRange(t.cols, t.rows, t.Column(), t.Row());
    PosSplit(t.cols, t.Column(), t.Row());
    PosSplit(t.cols, t.cols - 1, t.Row());
    PosInRange(t.cols, t.rows, t.cols - 1, t.Row());
    t.(v := Shifted(t.v, Pos(t.cols, t.Column(), t.Row()) + 1, Pos(t.cols, t.cols - 1, t.Row()) + 1, -1))
  }

  /** A byte that is no control character. */
  function Printed(m: Machine, k: Tables, c: nat): Machine
    requires m.t.Ok() && CharsetsOk(m.charsets)
  {
    var t := if m.settings.insertMode then Opened(m.t) else m.t;
    var special := if m.charsets.special[m.charsets.current] then k.decSpecial(c) else None;
    m.(t := t.Put(if special.Some? then special.value else if 0x20 <= c <= 0x7e then c else BOX))
  }

  function ControlCharacter(m: Machine, k: Tables, c: nat): Machine
    requires m.t.Ok() && CharsetsOk(m.charsets)
  {
    var x, y := m.t.Column(), m.t.Row();
    if c == 0x00 || c == 0x7f || c == 0x07 then m
    else if c == ESC then m.(reader := m.reader.(escapeOffset := 0, escape := true))
    else if c == 0x09 then m.(t := m.t.(x := Min((x / TAB_SIZE + 1) * TAB_SIZE, m.t.cols - 1), y := y))
    else if c == 0x0a || c == 0x0b || c == 0x0c then m.(t := LineFeed(m.t, if m.settings.onlcr then 0 else x))
    else if c == 0x08 then m.(t := m.t.(x := Max(x - 1, 0), y := y))
    else if c == 0x0d then m.(t := m.t.(x := 0, y := y))
    else if c == 14 then m.(charsets := m.charsets.(current := 1))
    else if c == 15 then m.(charsets := m.charsets.(current := 0))
    else Printed(m, k, c)
  }

  /** A complete UTF-8 sequence. */
  function Glyph(t: Text, k: Tables, codePoint: nat): (u: Text)
    requires t.Ok()
    ensures u.Ok() && u.(v := t.v, x := t.x, y := t.y) == t
  {
    var g := k.glyphOf(codePoint);
    if g.Some? then t.Put(g.value)
    else if k.widthOf(codePoint) == 0 then t
    else t.Put(BOX).Blanks(k.widthOf(codePoint) - 1)
  }

  function Power64(n: nat): nat {
    if n == 0 then 1 else 64 * Power64(n - 1)
  }

  /** A lead byte: how many bytes follow, and its bits. */
  function LeadByte(c: nat): (d: Decoder)
    requires 0xc0 <= c <= 0xf7
    ensures d.remaining <= 3
  {
    if c <= 0xdf then Decoder(1, c % 0x20 * 64)
    else if c <= 0xef then Decoder(2, c % 0x10 * 64 * 64)
    else Decoder(3, c % 0x08 * 64 * 64 * 64)
  }

  /** The second byte of ESC ( and ESC ). */
  function Selected(g: Charsets, c: nat): Charsets
    requires CharsetsOk(g) && g.gSelect != 0
  {
    Charsets(0,
             if c == 'B' as nat then g.special[g.gSelect - 1 := false]
             else if c == '0' as nat then g.special[g.gSelect - 1 := true]
             else g.special,
             g.current)
  }

  /** A byte that does not continue a UTF-8 sequence. */
  function NewByte(m: Machine, k: Tables, c: nat, ink: (nat, nat)): Machine
    requires m.t.Ok() && m.reader.p.Ok() && CharsetsOk(m.charsets) && c < 0x100
  {
    if 0xc0 <= c <= 0xf7 then m.(utf8 := LeadByte(c))
    else if m.reader.escape then EscapeStep(m, c, ink)
    else if m.charsets.gSelect != 0 then m.(charsets := Selected(m.charsets, c))
    else ControlCharacter(m, k, c)
  }

  /** A byte that does. */
  function NextByte(m: Machine, k: Tables, c: nat): Machine
    requires m.t.Ok() && m.utf8.remaining != 0
  {
    var n := m.utf8.remaining - 1;
    var codePoint := m.utf8.codePoint + c % 0x40 * Power64(n);
    m.(utf8 := Decoder(n, codePoint), t := if n != 0 then m.t else Glyph(m.t, k, codePoint))
  }

  /** CAN, SUB, and the byte after CSI [. */
  function Cancelled(m: Machine): Machine {
    m.(reader := Reader(false, false, false, false, m.reader.escapeOffset, false, m.reader.decPrivate, NothingRead()),
       utf8 := m.utf8.(remaining := 0), charsets := m.charsets.(gSelect := 0))
  }

  /** flanterm_putchar. */
  function Step(m: Machine, k: Tables, c: nat, ink: (nat, nat)): Machine
    requires m.t.Ok() && m.reader.p.Ok() && CharsetsOk(m.charsets) && c < 0x100
  {
    if m.reader.discardNext || c == 0x18 || c == 0x1a then Cancelled(m)
    else if m.utf8.remaining != 0 && 0x80 <= c < 0xc0 then NextByte(m, k, c)
    else NewByte(m.(utf8 := m.utf8.(remaining := 0)), k, c, ink)
  }

  // ---------------------------------------------------------------------------------------------
  // Every byte stream
  // ---------------------------------------------------------------------------------------------

  lemma PutKeepsColumn(t: Text, c: nat)
    requires t.Ok() && t.scrolls && t.x <= t.cols
    ensures t.Put(c).x <= t.cols
  {
    hide PutCell, Scrolled;
  }

  lemma {:induction false} BlanksKeepColumn(t: Text, n: nat)
    requires t.Ok() && t.scrolls && t.x <= t.cols
    ensures t.Blanks(n).x <= t.cols
  {
    hide Text.Put;
    if n == 0 {
    } else {
      BlanksKeepColumn(t, n - 1);
      PutKeepsColumn(t.Blanks(n - 1), 0x20);
    }
  }

  lemma ArgumentsOk(p: Collector, d: nat)
    requires p.Ok() && d < U32
    ensures |Defaulted(p, d)| == MAX_ESC_VALUES && forall i :: 0 <= i < MAX_ESC_VALUES ==> Defaulted(p, d)[i] < U32
  {
  }

  lemma ExecutedSteady(t: Text, c: nat, a: seq<nat>, count: nat, saved: (nat, nat), ink: (nat, nat))
    requires t.Ok() && Steady(t) && c < 0x100 && |a| == MAX_ESC_VALUES && a[0] < U32
    ensures var u := Executed(t, c, a, count, saved, ink); u.Ok() && Steady(u) && u.cols == t.cols
  {
    hide Control;
    ControlKeepsOk(t.(scrolls := false), c as char, a[0], a[1], count, saved);
  }

  lemma ControlStepKeepsOk(m: Machine, c: nat, ink: (nat, nat))
    requires m.Ok() && m.reader.controlSequence && c < 0x100
    ensures ControlStep(m, c, ink).Ok()
  {
    hide Collect, Defaulted, NothingRead, Executed, Toggles, Steady, Text.Ok, Collector.Ok;
    var (p, used) := Collect(m.reader.p, c);
    ArgumentsOk(p, DefaultFor(c));
    ExecutedSteady(m.t, c, Defaulted(p, DefaultFor(c)), p.count, m.savedCursor, ink);
  }

  lemma EscapeCodeKeepsOk(m: Machine, c: char)
    requires m.Ok()
    ensures EscapeCode(m, c).Ok()
    ensures EscapeCode(m, c).reader.controlSequence ==> m.reader.controlSequence
  {
    hide LineFeed, ReverseLineFeed, Cleared, NothingRead, Collector.Ok;
  }

  lemma EscapeStepKeepsOk(m: Machine, c: nat, ink: (nat, nat))
    requires m.Ok() && c < 0x100
    ensures EscapeStep(m, c, ink).Ok()
  {
    hide ControlStep, EscapeCode, NothingRead, Steady, Text.Ok, Collector.Ok;
    var n := m.(reader := m.reader.(escapeOffset := m.reader.escapeOffset + 1));
    if m.reader.controlSequence {
      ControlStepKeepsOk(n, c, ink);
    } else {
      EscapeCodeKeepsOk(n, c as char);
    }
  }

  lemma PrintedKeepsOk(m: Machine, k: Tables, c: nat)
    requires m.Ok()
    ensures Printed(m, k, c).Ok()
  {
    hide Opened, Text.Put, NothingRead, ReaderOk, Text.Ok;
    var t := if m.settings.insertMode then Opened(m.t) else m.t;
    forall g: nat
      ensures t.Put(g).x <= t.cols
    {
      PutKeepsColumn(t, g);
    }
  }

  lemma ControlCharacterKeepsOk(m: Machine, k: Tables, c: nat)
    requires m.Ok()
    ensures ControlCharacter(m, k, c).Ok()
  {
    hide Printed, LineFeed, NothingRead, Collector.Ok;
    PrintedKeepsOk(m, k, c);
  }

  lemma GlyphSteady(t: Text, k: Tables, codePoint: nat)
    requires t.Ok() && Steady(t)
    ensures Steady(Glyph(t, k, codePoint))
  {
    hide Text.Put, Text.Blanks, Text.Ok;
    forall g: nat
      ensures t.Put(g).x <= t.cols
    {
      PutKeepsColumn(t, g);
    }
    if k.widthOf(codePoint) != 0 {
      BlanksKeepColumn(t.Put(BOX), k.widthOf(codePoint) - 1);
    }
  }

  lemma StepKeepsOk(m: Machine, k: Tables, c: nat, ink: (nat, nat))
    requires m.Ok() && c < 0x100
    ensures Step(m, k, c, ink).Ok()
  {
    hide EscapeStep, ControlCharacter, Glyph, Power64, NothingRead, Steady, Text.Ok, Collector.Ok;
    var n := m.(utf8 := m.utf8.(remaining := 0));
    EscapeStepKeepsOk(n, c, ink);
    ControlCharacterKeepsOk(n, k, c);
    if m.utf8.remaining != 0 {
      GlyphSteady(m.t, k, m.utf8.codePoint + c % 0x40 * Power64(m.utf8.remaining - 1));
    }
  }

  /** A byte, and the colours that an SGR it completes would select. */
  type Input = i: (nat, (nat, nat)) | i.0 < 0x100 witness (0, (0, 0))

  /** The bytes of a run. */
  ghost predicate Feeds(s: seq<Input>, bytes: seq<nat>) {
    |s| == |bytes| && forall i :: 0 <= i < |s| ==> s[i].0 == bytes[i]
  }

  /** Whatever bytes arrive, the machine stays well formed. */
  function Run(m: Machine, k: Tables, s: seq<Input>): (r: Machine)
    requires m.Ok()
    ensures r.Ok()
  {
    if s == [] then m
    else
      var before := Run(m, k, s[..|s| - 1]);
      StepKeepsOk(before, k, s[|s| - 1].0, s[|s| - 1].1);
      Step(before, k, s[|s| - 1].0, s[|s| - 1].1)
  }
}
