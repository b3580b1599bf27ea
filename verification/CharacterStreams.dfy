/** From bytes to characters: UTF-8 sequences, and what ESC 7 saves for ESC 8
    (src/drivers/terminal/flanterm/flanterm.c:391-401, 1206-1270; backends/fb.c:417-431). */
module CharacterStreams {
  import opened Arithmetic
  import opened TextState
  import opened ControlParameters
  import opened Machine
  import opened ControlSequences

  // ---------------------------------------------------------------------------------------------
  // UTF-8
  // ---------------------------------------------------------------------------------------------

  /** The encoding of section 3 of RFC 3629, which leaves room for 21 bits. */
  function Utf8(codePoint: nat): (bytes: seq<nat>)
    requires 0x80 <= codePoint < 0x20_0000
  {
    var low := 0x80 + codePoint % 64;
    if codePoint < 0x800 then [0xC0 + codePoint / 64, low]
    else if codePoint < 0x1_0000 then [0xE0 + codePoint / 4096, 0x80 + codePoint / 64 % 64, low]
    else [0xF0 + codePoint / 0x4_0000, 0x80 + codePoint / 4096 % 64, 0x80 + codePoint / 64 % 64, low]
  }

  predicate IsContinuation(c: nat) { 0x80 <= c < 0xC0 }

  /** The bits of continuation bytes. */
  function Bits(bytes: seq<nat>): nat {
    if bytes == [] then 0 else bytes[0] % 64 * Power64(|bytes| - 1) + Bits(bytes[1..])
  }

  /** Continuation bytes complete a sequence, whatever else is half read. */
  lemma {:induction false} ContinuationsArrive(m: Machine, k: Tables, s: seq<Input>, bytes: seq<nat>)
    requires m.Ok() && !m.reader.discardNext && m.utf8.remaining == |s| && s != []
    requires Feeds(s, bytes) && forall c :: c in bytes ==> IsContinuation(c)
    ensures var codePoint := m.utf8.codePoint + Bits(bytes);
            Run(m, k, s) == m.(utf8 := Decoder(0, codePoint), t := Glyph(m.t, k, codePoint))
    decreases |s|
  {
    hide Step, Power64, Glyph, Text.Ok, Collector.Ok, NothingRead;
    var c, n := bytes[0], |s| - 1;
    assert IsContinuation(c);
    var next := m.(utf8 := Decoder(n, m.utf8.codePoint + c % 64 * Power64(n)), t := if n != 0 then m.t else Glyph(m.t, k, m.utf8.codePoint + c % 64 * Power64(n)));
    StepIsNextByte(m, k, c, s[0].1);
    RunOne(m, k, s[0]);
    assert s == [s[0]] + s[1..];
    RunJoin(m, k, [s[0]], s[1..]);
    if n == 0 {
      assert s[1..] == [] && bytes[1..] == [];
      RunNone(next, k);
    } else {
      ContinuationsArrive(next, k, s[1..], bytes[1..]);
    }
  }

  lemma RunNone(m: Machine, k: Tables)
    requires m.Ok()
    ensures Run(m, k, []) == m
  {
  }

  lemma StepIsNextByte(m: Machine, k: Tables, c: nat, ink: (nat, nat))
    requires m.Ok() && !m.reader.discardNext && m.utf8.remaining != 0 && IsContinuation(c)
    ensures Step(m, k, c, ink) == NextByte(m, k, c)
    ensures NextByte(m, k, c).Ok()
  {
    hide NextByte, NewByte, Text.Ok, Collector.Ok, NothingRead;
    StepKeepsOk(m, k, c, ink);
  }

  lemma StepIsLeadByte(m: Machine, k: Tables, c: nat, ink: (nat, nat))
    requires m.Ok() && !m.reader.discardNext && 0xC0 <= c <= 0xF7
    ensures Step(m, k, c, ink) == m.(utf8 := LeadByte(c)) && m.(utf8 := LeadByte(c)).Ok()
  {
    hide Text.Ok, Collector.Ok, NothingRead;
    StepKeepsOk(m, k, c, ink);
  }

  /** Any lead byte with the continuation bytes it asks for is one glyph. */
  lemma SequenceArrives(m: Machine, k: Tables, s: seq<Input>, lead: nat, bytes: seq<nat>)
    requires m.Ok() && !m.reader.discardNext && 0xC0 <= lead <= 0xF7
    requires |bytes| == LeadByte(lead).remaining && (forall c :: c in bytes ==> IsContinuation(c)) && Feeds(s, [lead] + bytes)
    ensures var codePoint := LeadByte(lead).codePoint + Bits(bytes);
            Run(m, k, s) == m.(utf8 := Decoder(0, codePoint), t := Glyph(m.t, k, codePoint))
  {
    hide Run, Step, Glyph, LeadByte, Bits, Text.Ok, Collector.Ok, NothingRead;
    assert LeadByte(lead).remaining != 0 by { LeadAsks(lead); }
    StepIsLeadByte(m, k, lead, s[0].1);
    RunOne(m, k, s[0]);
    assert s == [s[0]] + s[1..];
    RunJoin(m, k, [s[0]], s[1..]);
    ContinuationsArrive(m.(utf8 := LeadByte(lead)), k, s[1..], bytes);
  }

  lemma LeadAsks(lead: nat)
    requires 0xC0 <= lead <= 0xF7
    ensures 1 <= LeadByte(lead).remaining <= 3
  {
  }

  /** Decoding what was encoded. */
  lemma EncodedIsDecoded(codePoint: nat)
    requires 0x80 <= codePoint < 0x20_0000
    ensures var b := Utf8(codePoint);
            && 0xC0 <= b[0] <= 0xF7 && |b| == 1 + LeadByte(b[0]).remaining
            && (forall c :: c in b[1..] ==> IsContinuation(c))
            && LeadByte(b[0]).codePoint + Bits(b[1..]) == codePoint
  {
    hide Bits, LeadByte;
    var b := Utf8(codePoint);
    var low, mid, high := 0x80 + codePoint % 64, 0x80 + codePoint / 64 % 64, 0x80 + codePoint / 4096 % 64;
    SplitCodePoint(codePoint);
    ThreeBits(high, mid, low);
    SixBits(codePoint);
    SixBits(codePoint / 64);
    SixBits(codePoint / 4096);
    LeadBits(b[0]);
    assert b[1..] == if |b| == 2 then [low] else if |b| == 3 then [mid, low] else [high, mid, low];
  }

  lemma SplitCodePoint(c: nat)
    ensures c == c / 64 * 64 + c % 64
    ensures c == c / 4096 * 4096 + c / 64 % 64 * 64 + c % 64
    ensures c == c / 0x4_0000 * 0x4_0000 + c / 4096 % 64 * 4096 + c / 64 % 64 * 64 + c % 64
  {
    var q, p, o := c / 64, c / 64 / 64, c / 64 / 64 / 64;
    assert c == q * 64 + c % 64 && q == p * 64 + q % 64 && p == o * 64 + p % 64;
    DivModUnique(p, q % 64 * 64 + c % 64, 4096);
    DivModUnique(o, p % 64 * 4096 + q % 64 * 64 + c % 64, 0x4_0000);
  }

  lemma SixBits(c: nat)
    ensures (0x80 + c % 64) % 64 == c % 64
  {
  }

  lemma LeadBits(c: nat)
    requires 0xC0 <= c <= 0xF7
    ensures c < 0xE0 ==> LeadByte(c) == Decoder(1, (c - 0xC0) * 64)
    ensures 0xE0 <= c < 0xF0 ==> LeadByte(c) == Decoder(2, (c - 0xE0) * 4096)
    ensures 0xF0 <= c ==> LeadByte(c) == Decoder(3, (c - 0xF0) * 0x4_0000)
  {
  }

  lemma ThreeBits(high: nat, mid: nat, low: nat)
    ensures Bits([low]) == low % 64 && Bits([mid, low]) == mid % 64 * 64 + low % 64
    ensures Bits([high, mid, low]) == high % 64 * 4096 + mid % 64 * 64 + low % 64
  {
    assert Power64(0) == 1 && Power64(1) == 64 && Power64(2) == 4096;
    assert [low][1..] == [] && [mid, low][1..] == [low] && [high, mid, low][1..] == [mid, low];
    assert Bits([]) == 0;
  }

  /** The UTF-8 bytes of any code point above ASCII show its glyph, once, in whatever state of an escape
      sequence they arrive; nothing else changes. */
  lemma CodePointArrives(m: Machine, k: Tables, s: seq<Input>, codePoint: nat)
    requires m.Ok() && !m.reader.discardNext && 0x80 <= codePoint < 0x20_0000 && Feeds(s, Utf8(codePoint))
    ensures Run(m, k, s) == m.(utf8 := Decoder(0, codePoint), t := Glyph(m.t, k, codePoint))
  {
    hide Run, Glyph, LeadByte, Bits, Utf8, IsContinuation, Text.Ok, Collector.Ok, NothingRead;
    EncodedIsDecoded(codePoint);
    var b := Utf8(codePoint);
    assert b == [b[0]] + b[1..];
    SequenceArrives(m, k, s, b[0], b[1..]);
  }

  // ---------------------------------------------------------------------------------------------
  // Saving and restoring the cursor
  // ---------------------------------------------------------------------------------------------

  /** This byte is the 7 of an ESC 7. */
  ghost predicate Saves(m: Machine, c: nat) {
    c == '7' as nat && m.reader.escape && !m.reader.osc && !m.reader.controlSequence && !m.reader.discardNext
  }

  /** Nothing but ESC 7 changes what is saved, not even a reset. */
  lemma SavedIsKept(m: Machine, k: Tables, c: nat, ink: (nat, nat))
    requires m.Ok() && c < 0x100 && !Saves(m, c)
    ensures Step(m, k, c, ink).saved == m.saved
  {
    hide Text.Ok, Collector.Ok, NothingRead, EscapeStep, Glyph, Opened, LineFeed, Power64;
    if m.reader.escape && !m.reader.discardNext {
      EscapeStepKeepsSaved(m.(utf8 := m.utf8.(remaining := 0)), c, ink);
    }
  }

  lemma EscapeStepKeepsSaved(m: Machine, c: nat, ink: (nat, nat))
    requires m.t.Ok() && m.reader.p.Ok() && c < 0x100
    requires c != '7' as nat || m.reader.osc || m.reader.controlSequence
    ensures EscapeStep(m, c, ink).saved == m.saved
  {
    hide Text.Ok, Collector.Ok, NothingRead, EscapeCode, ControlStep;
    var n := m.(reader := m.reader.(escapeOffset := m.reader.escapeOffset + 1));
    assert (c as char) as nat == c;
    OtherCodesKeepSaved(n, c as char);
    ControlStepKeepsSaved(n, c, ink);
  }

  lemma ControlStepKeepsSaved(m: Machine, c: nat, ink: (nat, nat))
    requires m.t.Ok() && m.reader.p.Ok() && c < 0x100
    ensures ControlStep(m, c, ink).saved == m.saved
  {
    hide Text.Ok, Collector.Ok, NothingRead, Executed, Collect, Defaulted;
  }

  lemma OtherCodesKeepSaved(m: Machine, c: char)
    requires m.t.Ok()
    ensures c != '7' ==> EscapeCode(m, c).saved == m.saved
  {
    hide Text.Ok, LineFeed, ReverseLineFeed, Cleared, NothingRead;
  }

  ghost predicate NeverSaves(m: Machine, k: Tables, s: seq<Input>)
    requires m.Ok()
  {
    forall i :: 0 <= i < |s| ==> !Saves(Run(m, k, s[..i]), s[i].0)
  }

  lemma {:induction false} SavedThroughRun(m: Machine, k: Tables, s: seq<Input>)
    requires m.Ok() && NeverSaves(m, k, s)
    ensures Run(m, k, s).saved == m.saved
  {
    hide Step, Saves;
    if s == [] {
    } else {
      var n := |s| - 1;
      forall i | 0 <= i < n
        ensures !Saves(Run(m, k, s[..n][..i]), s[..n][i].0)
      {
        assert s[..n][..i] == s[..i];
        assert !Saves(Run(m, k, s[..i]), s[i].0);
      }
      SavedThroughRun(m, k, s[..n]);
      assert !Saves(Run(m, k, s[..n]), s[n].0);
      SavedIsKept(Run(m, k, s[..n]), k, s[n].0, s[n].1);
    }
  }

  /** ESC and the byte of an escape code. */
  lemma EscapeCodeArrives(m: Machine, k: Tables, s: seq<Input>, c: nat)
    requires m.Ok() && Idle(m) && Feeds(s, [ESC, c]) && c in {'7' as nat, '8' as nat}
    ensures var r := Run(m, k, s);
            r == EscapeCode(m, c as char).(reader := m.reader.(escapeOffset := 1)) && Idle(r)
  {
    hide Text.Ok, Collector.Ok, NothingRead;
    assert s == [s[0]] + [s[1]];
    RunJoin(m, k, [s[0]], [s[1]]);
    RunOne(m, k, s[0]);
    RunOne(Run(m, k, [s[0]]), k, s[1]);
    assert m.utf8.(remaining := 0) == m.utf8;
  }

  /** Whatever arrives between ESC 7 and ESC 8, a reset included, the cursor with its pending wrap, the colours
      and the character set are back, unless it holds an ESC 7 of its own or ends inside a sequence; the cells
      and the margins are those it left. */
  lemma RestoreBringsBack(m: Machine, k: Tables, save: seq<Input>, s: seq<Input>, restore: seq<Input>)
    requires m.Ok() && Idle(m) && Feeds(save, [ESC, '7' as nat]) && Feeds(restore, [ESC, '8' as nat])
    requires NeverSaves(Run(m, k, save), k, s) && Idle(Run(Run(m, k, save), k, s))
    ensures var r, u := Run(m, k, save + s + restore), Run(Run(m, k, save), k, s);
            && r.t == u.t.(x := m.t.x, y := m.t.y, fg := m.t.fg, bg := m.t.bg)
            && r.charsets == u.charsets.(current := m.charsets.current)
            && Run(m, k, save).t == m.t && Idle(r)
  {
    hide Run, NeverSaves, Text.Ok, Collector.Ok, NothingRead;
    EscapeCodeArrives(m, k, save, '7' as nat);
    SavedThroughRun(Run(m, k, save), k, s);
    RunJoin(m, k, save, s);
    RunJoin(m, k, save + s, restore);
    EscapeCodeArrives(Run(m, k, save + s), k, restore, '8' as nat);
  }
}
