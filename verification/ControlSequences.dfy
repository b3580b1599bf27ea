/** From bytes to control functions: a control sequence written out does what its numbers say
    (src/drivers/terminal/flanterm/flanterm.c:484-788, 812-836, 1206-1277). */
module ControlSequences {
  import opened Arithmetic
  import opened DigitStrings
  import opened TextState
  import opened ControlParameters
  import opened Machine

  /** Nothing is half read.  A private introducer may be left over. */
  ghost predicate Idle(m: Machine) {
    && m.reader == Reader(false, false, false, false, m.reader.escapeOffset, false, m.reader.decPrivate, NothingRead())
    && m.utf8.remaining == 0 && m.charsets.gSelect == 0
  }

  predicate IsParameterByte(c: nat) {
    IsDigit(c) || c == ';' as nat
  }

  lemma {:induction false} RunJoin(m: Machine, k: Tables, s: seq<Input>, u: seq<Input>)
    requires m.Ok()
    ensures Run(m, k, s + u) == Run(Run(m, k, s), k, u)
  {
    hide Step;
    if u == [] {
      assert s + u == s;
    } else {
      var n := |u| - 1;
      RunJoin(m, k, s, u[..n]);
      assert (s + u)[..|s + u| - 1] == s + u[..n];
    }
  }

  lemma RunOne(m: Machine, k: Tables, i: Input)
    requires m.Ok()
    ensures Run(m, k, [i]) == Step(m, k, i.0, i.1)
  {
    hide Step;
    assert [i][..0] == [];
    assert Run(m, k, [i][..0]) == m;
  }

  /** While a control sequence is being read. */
  ghost predicate InControlSequence(m: Machine) {
    && m.Ok() && m.reader.escape && m.reader.controlSequence && !m.reader.osc && !m.reader.discardNext
    && m.utf8.remaining == 0
  }

  /** Any byte but CAN, SUB and UTF-8 lead bytes goes to control_sequence_parse. */
  lemma StepIsControlStep(m: Machine, k: Tables, c: nat, ink: (nat, nat))
    requires InControlSequence(m) && c < 0x100 && c != 0x18 && c != 0x1a && !(0xc0 <= c <= 0xf7)
    ensures Step(m, k, c, ink) == ControlStep(m.(reader := m.reader.(escapeOffset := m.reader.escapeOffset + 1)), c, ink)
  {
    hide ControlStep, Text.Ok, Collector.Ok;
    assert m.utf8.(remaining := 0) == m.utf8;
  }

  lemma {:induction false} ParametersRun(m: Machine, k: Tables, s: seq<Input>, bytes: seq<nat>)
    requires InControlSequence(m) && Feeds(s, bytes) && forall c :: c in bytes ==> IsParameterByte(c)
    ensures Run(m, k, s) ==
              m.(reader := m.reader.(escapeOffset := m.reader.escapeOffset + |s|, p := CollectAll(m.reader.p, bytes)))
  {
    hide Step, ControlStep, Collect, Text.Ok, Collector.Ok;
    if s == [] {
    } else {
      var n := |s| - 1;
      assert bytes[n] in bytes;
      ParametersRun(m, k, s[..n], bytes[..n]);
      var before := Run(m, k, s[..n]);
      StepIsControlStep(before, k, bytes[n], s[n].1);
      var r := before.(reader := before.reader.(escapeOffset := before.reader.escapeOffset + 1));
      ParameterStep(r, bytes[n], s[n].1);
    }
  }

  lemma ParameterStep(m: Machine, c: nat, ink: (nat, nat))
    requires m.t.Ok() && m.reader.p.Ok() && c < 0x100 && IsParameterByte(c)
    ensures ControlStep(m, c, ink) == m.(reader := m.reader.(p := Collect(m.reader.p, c).0))
  {
    hide Collect, Finished, Text.Ok, Collector.Ok;
  }

  /** ESC [ starts a control sequence. */
  lemma IntroducerRun(m: Machine, k: Tables, a: Input, b: Input)
    requires m.Ok() && Idle(m) && a.0 == ESC && b.0 == '[' as nat
    ensures Run(m, k, [a, b]) ==
              m.(reader := Reader(true, true, false, false, 1, false, m.reader.decPrivate, NothingRead()))
  {
    hide Text.Ok, Collector.Ok, NothingRead;
    assert [a, b] == [a] + [b];
    RunJoin(m, k, [a], [b]);
    RunOne(m, k, a);
    assert m.utf8.(remaining := 0) == m.utf8;
    RunOne(Run(m, k, [a]), k, b);
  }

  lemma {:induction false} WrittenBytes(ps: seq<seq<nat>>)
    requires forall s :: s in ps ==> Digits(s)
    ensures forall c :: c in Written(ps) ==> IsParameterByte(c)
  {
    if ps == [] {
    } else {
      assert ps[|ps| - 1] in ps;
      WrittenBytes(ps[..|ps| - 1]);
    }
  }

  /** How many parameters were given: an empty last one does not count. */
  function Given(ps: seq<seq<nat>>): (n: nat)
    ensures n <= |ps|
  {
    if ps == [] || ps[|ps| - 1] != [] then |ps| else |ps| - 1
  }

  /** The numbers a control function finds: what was written, modulo 2^32, or the default. */
  function Arguments(ps: seq<seq<nat>>, d: nat): (a: seq<nat>)
    requires d < U32
    ensures |a| == MAX_ESC_VALUES && a[0] < U32
  {
    seq(MAX_ESC_VALUES, i requires 0 <= i < MAX_ESC_VALUES => if i < Given(ps) then Read(ps[i], 10) % U32 else d)
  }

  /** ESC [, with a private introducer or without. */
  function Head(private: bool): seq<nat> {
    if private then [ESC, '[' as nat, '?' as nat] else [ESC, '[' as nat]
  }

  /** How many parameters a control function is told it was given. */
  function Told(ps: seq<seq<nat>>): nat {
    Min(Given(ps), MAX_ESC_VALUES)
  }

  /** ESC [ parameters final, or ESC [ ? parameters final: the run is one application of Finished, with exactly
      the numbers that were written, to the machine as it was; so nothing else changes, and the machine is idle
      again.  Nothing that was read before matters, but for a private introducer left over, which makes the
      sequence a private one. */
  lemma ControlSequenceArrives(m: Machine, k: Tables, ps: seq<seq<nat>>, c: nat, s: seq<Input>, private: bool)
    requires m.Ok() && Idle(m) && 0 < |ps| && forall q :: q in ps ==> Digits(q)
    requires c < 0x100 && !IsParameterByte(c) && c != 0x18 && c != 0x1a && !(0xc0 <= c <= 0xf7)
    requires Written(ps) == [] && !private ==> c != '[' as nat && c != '?' as nat
    requires Feeds(s, Head(private) + Written(ps) + [c])
    ensures var start := m.(reader := m.reader.(escapeOffset := |s| - 1, decPrivate := m.reader.decPrivate || private));
            Run(m, k, s) == Finished(start, c, Arguments(ps, DefaultFor(c)), Told(ps), s[|s| - 1].1)
    ensures Idle(Run(m, k, s)) && !Run(m, k, s).reader.decPrivate
  {
    hide Run, Step, ControlStep, Executed, Collect, CollectAll, Written, NothingRead, Text.Ok, Collector.Ok, Defaulted, Read, Arguments, Toggles;
    var bytes := Written(ps);
    WrittenBytes(ps);
    SequenceRun(m, k, bytes, c, s, private);
    FinalArguments(ps, c);
    FinalStep(AtFinalByte(m, bytes, private), c, s[|s| - 1].1);
  }

  /** ESC [ ? 25 h shows the cursor and ESC [ ? 25 l hides it, and that is all they do. */
  lemma CursorModeArrives(m: Machine, k: Tables, c: nat, s: seq<Input>)
    requires m.Ok() && Idle(m) && (c == 'h' as nat || c == 'l' as nat)
    requires Feeds(s, [ESC, '[' as nat, '?' as nat, '2' as nat, '5' as nat, c])
    ensures Run(m, k, s) ==
              m.(settings := m.settings.(cursorEnabled := c == 'h' as nat), reader := m.reader.(escapeOffset := 5, decPrivate := false))
  {
    hide Run, Executed, NothingRead, Text.Ok, Collector.Ok;
    var ps: seq<seq<nat>> := [['2' as nat, '5' as nat]];
    assert Written(ps) == ps[0];
    assert Head(true) + Written(ps) + [c] == [ESC, '[' as nat, '?' as nat, '2' as nat, '5' as nat, c];
    ControlSequenceArrives(m, k, ps, c, s, true);
    TwentyFive();
  }

  /** ESC [ 4 h and ESC [ 4 l switch insert mode, and that is all they do. */
  lemma InsertModeArrives(m: Machine, k: Tables, c: nat, s: seq<Input>)
    requires m.Ok() && Idle(m) && !m.reader.decPrivate && (c == 'h' as nat || c == 'l' as nat)
    requires Feeds(s, [ESC, '[' as nat, '4' as nat, c])
    ensures Run(m, k, s) ==
              m.(settings := m.settings.(insertMode := c == 'h' as nat), reader := m.reader.(escapeOffset := 3))
  {
    hide Run, NothingRead, Text.Ok, Collector.Ok;
    var ps: seq<seq<nat>> := [['4' as nat]];
    assert Written(ps) == ps[0];
    assert Head(false) + Written(ps) + [c] == [ESC, '[' as nat, '4' as nat, c];
    ControlSequenceArrives(m, k, ps, c, s, false);
    ReadLast([], '4' as nat, 10);
    ModesEditNothing(m.t, c, Arguments(ps, 1), 1, m.savedCursor, s[3].1);
  }

  lemma TwentyFive()
    ensures Read(['2' as nat, '5' as nat], 10) == 25
  {
    ReadLast([], '2' as nat, 10);
    ReadLast(['2' as nat], '5' as nat, 10);
    assert [] + ['2' as nat] == ['2' as nat] && ['2' as nat] + ['5' as nat] == ['2' as nat, '5' as nat];
  }

  lemma ModesEditNothing(t: Text, c: nat, a: seq<nat>, count: nat, saved: (nat, nat), ink: (nat, nat))
    requires t.Ok() && (c == 'h' as nat || c == 'l' as nat) && |a| == MAX_ESC_VALUES && a[0] < U32
    ensures Executed(t, c, a, count, saved, ink) == t
  {
  }

  lemma FinalArguments(ps: seq<seq<nat>>, c: nat)
    requires 0 < |ps| && (forall q :: q in ps ==> Digits(q)) && !IsParameterByte(c)
    ensures var (p, used) := Collect(CollectAll(NothingRead(), Written(ps)), c);
            && !used
            && Defaulted(p, DefaultFor(c)) == Arguments(ps, DefaultFor(c))
            && p.count == Told(ps)
  {
    hide Collect, CollectAll, NothingRead, Written, Read, Collector.Ok;
    ParametersArrive(ps, c, DefaultFor(c));
  }

  /** The machine after the head, and when the final byte has arrived. */
  function AfterHead(m: Machine, private: bool): Machine {
    m.(reader := Reader(true, true, false, false, if private then 2 else 1, false, m.reader.decPrivate || private, NothingRead()))
  }

  function AtFinalByte(m: Machine, bytes: seq<nat>, private: bool): Machine {
    var n := AfterHead(m, private);
    n.(reader := n.reader.(escapeOffset := n.reader.escapeOffset + 1 + |bytes|, p := CollectAll(NothingRead(), bytes)))
  }

  lemma HeadRun(m: Machine, k: Tables, s: seq<Input>, private: bool)
    requires m.Ok() && Idle(m) && Feeds(s, Head(private))
    ensures Run(m, k, s) == AfterHead(m, private) && InControlSequence(AfterHead(m, private))
  {
    hide Run, Step, Text.Ok, Collector.Ok, NothingRead;
    IntroducerRun(m, k, s[0], s[1]);
    if private {
      var n := Run(m, k, [s[0], s[1]]);
      RunOne(n, k, s[2]);
      StepIsControlStep(n, k, s[2].0, s[2].1);
      RunJoin(m, k, [s[0], s[1]], [s[2]]);
      assert s == [s[0], s[1]] + [s[2]];
    } else {
      assert s == [s[0], s[1]];
    }
  }

  lemma SequenceRun(m: Machine, k: Tables, bytes: seq<nat>, c: nat, s: seq<Input>, private: bool)
    requires m.Ok() && Idle(m) && forall b :: b in bytes ==> IsParameterByte(b)
    requires c < 0x100 && c != 0x18 && c != 0x1a && !(0xc0 <= c <= 0xf7)
    requires Feeds(s, Head(private) + bytes + [c])
    ensures Run(m, k, s) == ControlStep(AtFinalByte(m, bytes, private), c, s[|s| - 1].1)
  {
    hide Run, Step, ControlStep, CollectAll, NothingRead, Text.Ok, Collector.Ok;
    var h, end := |Head(private)|, |s| - 1;
    FeedParts(s, Head(private), bytes, c);
    HeadRun(m, k, s[..h], private);
    ParametersRun(AfterHead(m, private), k, s[h..end], bytes);
    RunJoin(m, k, s[..h], s[h..end]);
    RunJoin(m, k, s[..h] + s[h..end], [s[end]]);
    var before := Run(m, k, s[..h] + s[h..end]);
    RunOne(before, k, s[end]);
    StepIsControlStep(before, k, c, s[end].1);
  }

  lemma FeedParts(s: seq<Input>, head: seq<nat>, bytes: seq<nat>, c: nat)
    requires Feeds(s, head + bytes + [c])
    ensures |s| == |head| + |bytes| + 1 && s == s[..|head|] + s[|head|..|s| - 1] + [s[|s| - 1]]
    ensures Feeds(s[..|head|], head) && Feeds(s[|head|..|s| - 1], bytes) && s[|s| - 1].0 == c
  {
    var all := head + bytes + [c];
    assert forall i :: 0 <= i < |head| ==> all[i] == head[i];
    assert forall i :: 0 <= i < |bytes| ==> all[|head| + i] == bytes[i];
  }

  lemma FinalStep(m: Machine, c: nat, ink: (nat, nat))
    requires m.t.Ok() && m.reader.p.Ok() && c < 0x100 && !Collect(m.reader.p, c).1
    requires !(m.reader.escapeOffset == 2 && (c == '[' as nat || c == '?' as nat))
    ensures var p := Collect(m.reader.p, c).0;
            ControlStep(m, c, ink) == Finished(m, c, Defaulted(p, DefaultFor(c)), p.count, ink)
  {
    hide Finished, Collect, Defaulted, Text.Ok, Collector.Ok, NothingRead;
  }

  /** CAN does not take back a private introducer: after ESC [ ? CAN the machine is idle, but the next
      control sequence is a private one. */
  lemma CancelKeepsPrivate(m: Machine, k: Tables, s: seq<Input>)
    requires m.Ok() && Idle(m) && Feeds(s, [ESC, '[' as nat, '?' as nat, 0x18])
    ensures Idle(Run(m, k, s)) && Run(m, k, s).reader.decPrivate && Run(m, k, s).t == m.t
  {
    hide Run, Step, Text.Ok, Collector.Ok, NothingRead;
    IntroducerRun(m, k, s[0], s[1]);
    var m2 := Run(m, k, [s[0], s[1]]);
    RunOne(m2, k, s[2]);
    StepIsControlStep(m2, k, s[2].0, s[2].1);
    RunJoin(m, k, [s[0], s[1]], [s[2]]);
    RunOne(Run(m2, k, [s[2]]), k, s[3]);
    RunJoin(m, k, [s[0], s[1]] + [s[2]], [s[3]]);
    assert s == [s[0], s[1]] + [s[2]] + [s[3]];
    CancelStep(Run(m2, k, [s[2]]), k, s[3].1);
  }

  lemma CancelStep(m: Machine, k: Tables, ink: (nat, nat))
    requires m.Ok()
    ensures Step(m, k, 0x18, ink) == Cancelled(m)
  {
    hide Text.Ok, Collector.Ok, NothingRead;
  }
}
