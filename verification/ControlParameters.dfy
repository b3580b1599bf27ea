/** How the numbers of a control sequence are collected byte by byte
    (src/drivers/terminal/flanterm/flanterm.c:497-531). */
module ControlParameters {
  import opened Arithmetic
  import opened DigitStrings

  const MAX_ESC_VALUES: nat := 16

  /** The fields esc_values, esc_values_i and rrr. */
  datatype Collector = Collector(values: seq<nat>, count: nat, rrr: bool)
  {
    /** While a number is being read there is room for it. */
    ghost predicate Ok() {
      && |values| == MAX_ESC_VALUES && count <= MAX_ESC_VALUES && (rrr ==> count < MAX_ESC_VALUES)
      && forall i :: 0 <= i < |values| ==> values[i] < U32
    }
  }

  /** As CSI leaves it. */
  function NothingRead(): (p: Collector)
    ensures p.Ok() && p.count == 0 && !p.rrr
    ensures forall i :: 0 <= i < MAX_ESC_VALUES ==> p.values[i] == 0
  {
    Collector(seq(MAX_ESC_VALUES, i => 0), 0, false)
  }

  /** One byte: the new state, and whether the byte was used up. */
  function Collect(p: Collector, c: nat): (r: (Collector, bool))
    requires p.Ok()
    ensures r.0.Ok() && (!r.1 ==> !r.0.rrr && !IsDigit(c) && c != ';' as nat)
  {
    if IsDigit(c) then
      if p.count == MAX_ESC_VALUES then (p, true)
      else
        var v := (p.values[p.count] * 10 % U32 + (c - '0' as nat)) % U32;
        (Collector(p.values[p.count := v], p.count, true), true)
    else if p.rrr then
      (Collector(p.values, p.count + 1, false), c == ';' as nat)
    else if c == ';' as nat then
      if p.count == MAX_ESC_VALUES then (p, true)
      else (Collector(p.values[p.count := 0], p.count + 1, false), true)
    else
      (p, false)
  }

  /** A run of bytes that are all used up. */
  function CollectAll(p: Collector, s: seq<nat>): (r: Collector)
    requires p.Ok()
    ensures r.Ok()
  {
    if s == [] then p else Collect(CollectAll(p, s[..|s| - 1]), s[|s| - 1]).0
  }

  /** The parameters that were not given. */
  function Defaulted(p: Collector, d: nat): seq<nat> {
    seq(|p.values|, i requires 0 <= i < |p.values| => if i < p.count then p.values[i] else d)
  }

  // ---------------------------------------------------------------------------------------------
  // What is collected is what was written
  // ---------------------------------------------------------------------------------------------

  ghost predicate Digits(s: seq<nat>) {
    forall c :: c in s ==> IsDigit(c)
  }

  /** Parameters as they are written: digits, each but the last followed by a semicolon. */
  function Written(ps: seq<seq<nat>>): seq<nat> {
    if ps == [] then [] else if |ps| == 1 then ps[0] else Written(ps[..|ps| - 1]) + [';' as nat] + ps[|ps| - 1]
  }

  /** While the last of these parameters is being read: the ones before it are in place modulo 2^32, and
      there are no more than sixteen. */
  ghost predicate Reading(p: Collector, ps: seq<seq<nat>>) {
    && p.Ok() && 0 < |ps|
    && p.count == (if |ps| <= MAX_ESC_VALUES then |ps| - 1 else MAX_ESC_VALUES)
    && (p.rrr <==> |ps| <= MAX_ESC_VALUES && ps[|ps| - 1] != [])
    && (forall i :: 0 <= i < |ps| && i < MAX_ESC_VALUES ==> p.values[i] == Read(ps[i], 10) % U32)
    && (forall i :: |ps| <= i < MAX_ESC_VALUES ==> p.values[i] == 0)
  }

  lemma Join(p: Collector, s: seq<nat>, c: nat)
    requires p.Ok()
    ensures CollectAll(p, s + [c]) == Collect(CollectAll(p, s), c).0
  {
    assert (s + [c])[..|s|] == s;
  }

  /** One more digit. */
  lemma DigitRead(p: Collector, ps: seq<seq<nat>>, s: seq<nat>, c: nat)
    requires (forall q :: q in ps ==> Digits(q)) && Digits(s) && IsDigit(c)
    requires Reading(p, ps + [s])
    ensures Digits(s + [c]) && Reading(Collect(p, c).0, ps + [s + [c]])
  {
    hide Read;
    var before, after := ps + [s], ps + [s + [c]];
    var r := Collect(p, c).0;
    ReadLast(s, c, 10);
    CutAtEachStep(Read(s, 10), c - '0' as nat);
    forall i | 0 <= i < |after| && i < MAX_ESC_VALUES
      ensures r.values[i] == Read(after[i], 10) % U32
    {
      assert i < |ps| ==> before[i] == after[i];
    }
  }

  /** A semicolon. */
  lemma SemicolonRead(p: Collector, ps: seq<seq<nat>>)
    requires (forall q :: q in ps ==> Digits(q)) && Reading(p, ps)
    ensures Reading(Collect(p, ';' as nat).0, ps + [[]])
  {
    hide Read;
    var after := ps + [[]];
    assert forall i :: 0 <= i < |ps| ==> after[i] == ps[i];
    ReadLast([], ZERO, 10);
  }

  lemma {:induction false} NumberRead(p: Collector, ps: seq<seq<nat>>, s: seq<nat>)
    requires (forall q :: q in ps ==> Digits(q)) && Digits(s) && Reading(p, ps + [[]])
    ensures Reading(CollectAll(p, s), ps + [s])
  {
    if s == [] {
    } else {
      var n := |s| - 1;
      NumberRead(p, ps, s[..n]);
      DigitRead(CollectAll(p, s[..n]), ps, s[..n], s[n]);
      assert s == s[..n] + [s[n]];
    }
  }

  lemma {:induction false} CollectRun(p: Collector, s: seq<nat>, u: seq<nat>)
    requires p.Ok()
    ensures CollectAll(p, s + u) == CollectAll(CollectAll(p, s), u)
  {
    if u == [] {
      assert s + u == s;
    } else {
      var n := |u| - 1;
      CollectRun(p, s, u[..n]);
      assert s + u == s + u[..n] + [u[n]];
      Join(p, s + u[..n], u[n]);
    }
  }

  lemma NothingIsReading()
    ensures Reading(NothingRead(), [] + [[]])
  {
  }

  lemma WrittenMore(ps: seq<seq<nat>>, s: seq<nat>)
    ensures Written(ps + [s]) == if ps == [] then s else Written(ps) + [';' as nat] + s
  {
    assert (ps + [s])[..|ps|] == ps;
  }

  lemma {:induction false} ParametersRead(ps: seq<seq<nat>>)
    requires 0 < |ps| && forall s :: s in ps ==> Digits(s)
    ensures Reading(CollectAll(NothingRead(), Written(ps)), ps)
  {
    hide Reading, Collect, CollectAll, NothingRead, Written;
    var n := |ps| - 1;
    assert ps == ps[..n] + [ps[n]];
    WrittenMore(ps[..n], ps[n]);
    if n == 0 {
      NothingIsReading();
      NumberRead(NothingRead(), [], ps[0]);
    } else {
      ParametersRead(ps[..n]);
      SemicolonThenNumber(Written(ps[..n]), ps[..n], ps[n]);
    }
  }

  lemma SemicolonThenNumber(written: seq<nat>, ps: seq<seq<nat>>, s: seq<nat>)
    requires (forall q :: q in ps ==> Digits(q)) && Digits(s) && Reading(CollectAll(NothingRead(), written), ps)
    ensures Reading(CollectAll(NothingRead(), written + [';' as nat] + s), ps + [s])
  {
    hide Reading, Collect, CollectAll, NothingRead;
    var p := CollectAll(NothingRead(), written);
    SemicolonRead(p, ps);
    Join(NothingRead(), written, ';' as nat);
    NumberRead(Collect(p, ';' as nat).0, ps, s);
    CollectRun(NothingRead(), written + [';' as nat], s);
  }

  /** The final byte finds the first sixteen parameters, modulo 2^32, and the default for the rest; an empty
      last parameter does not count as given. */
  lemma ParametersArrive(ps: seq<seq<nat>>, c: nat, d: nat)
    requires 0 < |ps| && forall s :: s in ps ==> Digits(s)
    requires !IsDigit(c) && c != ';' as nat
    ensures var (p, used) := Collect(CollectAll(NothingRead(), Written(ps)), c);
            var given := if ps[|ps| - 1] == [] then |ps| - 1 else |ps|;
            && !used
            && p.count == (if given < MAX_ESC_VALUES then given else MAX_ESC_VALUES)
            && |Defaulted(p, d)| == MAX_ESC_VALUES
            && forall i :: 0 <= i < MAX_ESC_VALUES ==> Defaulted(p, d)[i] == if i < given then Read(ps[i], 10) % U32 else d
  {
    hide NothingRead, CollectAll, Written, Reading, Collect;
    ParametersRead(ps);
    FinalByteReads(CollectAll(NothingRead(), Written(ps)), ps, c, d);
  }

  lemma FinalByteReads(p: Collector, ps: seq<seq<nat>>, c: nat, d: nat)
    requires Reading(p, ps) && !IsDigit(c) && c != ';' as nat
    ensures var (r, used) := Collect(p, c);
            var given := if ps[|ps| - 1] == [] then |ps| - 1 else |ps|;
            && !used
            && r.count == (if given < MAX_ESC_VALUES then given else MAX_ESC_VALUES)
            && |Defaulted(r, d)| == MAX_ESC_VALUES
            && forall i :: 0 <= i < MAX_ESC_VALUES ==> Defaulted(r, d)[i] == if i < given then Read(ps[i], 10) % U32 else d
  {
    hide Read;
  }
}
