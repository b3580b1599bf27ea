/** Which installations the undo log protects from every fault.  A write that fails after its copying loop
    has begun is not logged (limine/limine.c:476-495), so the question is what earlier writes have saved. */
module Rollback {
  import opened Arithmetic
  import opened Bytes
  import opened BlockCache
  import opened UndoLog

  /** What an operation asks for, whatever bytes it writes. */
  datatype Request = Reading(loc: nat, n: nat) | Writing(loc: nat, n: nat) | Flushing

  function RequestOf(op: Op): Request {
    match op
    case ReadOp(loc, n) => Reading(loc, n)
    case WriteOp(loc, data) => Writing(loc, |data|)
    case FlushOp => Flushing
  }

  function Requests(ops: seq<Op>): (rs: seq<Request>)
    ensures |rs| == |ops|
  {
    seq(|ops|, i requires 0 <= i < |ops| => RequestOf(ops[i]))
  }

  function WritesOf(rs: seq<Request>): (ws: seq<Request>)
    ensures forall w :: w in ws ==> w.Writing?
  {
    if rs == [] then [] else (if rs[0].Writing? then [rs[0]] else []) + WritesOf(rs[1..])
  }

  /** Where the last block of a request starts. */
  function LastBlock(bs: nat, loc: nat, n: nat): nat
    requires 0 < bs
  {
    if n == 0 then loc else (loc + n - 1) / bs * bs
  }

  /** The bytes of a write in front of its last block. */
  ghost predicate Exposed(bs: nat, r: Request, i: int)
    requires 0 < bs
  {
    r.Writing? && r.loc <= i < LastBlock(bs, r.loc, r.n)
  }

  ghost predicate Hit(ws: seq<Request>, i: int)
    requires forall w :: w in ws ==> w.Writing?
  {
    exists w :: w in ws && w.loc <= i < w.loc + w.n
  }

  /** Earlier writes have saved what a write exposes, unless the log is full by then. */
  ghost predicate Shielded(bs: nat, rs: seq<Request>)
    requires 0 < bs
  {
    forall k, i :: 0 <= k < |rs| && Exposed(bs, rs[k], i) && |WritesOf(rs[..k])| < 256 ==> Hit(WritesOf(rs[..k]), i)
  }

  /** Whatever the disk, the data and the faults, an uninstall that reports success restores the disk. */
  ghost predicate AlwaysRolledBack(bs: nat, rs: seq<Request>) {
    forall d: Device, ops: seq<Op> | d.Coherent() && !d.dirty && d.blockSize == bs && Requests(ops) == rs ::
      RolledBack(d, ops)
  }

  ghost predicate RolledBack(d: Device, ops: seq<Op>)
    requires d.Ok()
  {
    var out := Install(State(d, []), ops);
    var u := Uninstall(out.st.dev, Reversed(out.st.log));
    u.ok ==> u.dev.disk == d.disk
  }

  // ---------------------------------------------------------------------------------------------
  // Shielded installations are always rolled back
  // ---------------------------------------------------------------------------------------------

  function Ranges(log: seq<Entry>): (ws: seq<Request>)
    ensures |ws| == |log|
    ensures forall w :: w in ws ==> w.Writing?
  {
    seq(|log|, i requires 0 <= i < |log| => Writing(log[i].loc, |log[i].data|))
  }

  lemma RangesCover(log: seq<Entry>, n: nat, i: int)
    requires LogFits(n, log)
    ensures Hit(Ranges(log), i) <==> Covered(log, n, i)
  {
    var ws := Ranges(log);
    if Hit(ws, i) {
      var w :| w in ws && w.loc <= i < w.loc + w.n;
      var k :| 0 <= k < |ws| && ws[k] == w;
      assert Covers(log[k], n, i);
    }
    if Covered(log, n, i) {
      var k :| 0 <= k < |log| && Covers(log[k], n, i);
      assert ws[k] in ws;
    }
  }

  /** What a step adds to the log, and where a failed one stops. */
  ghost predicate StepLogs(s: State, op: Op)
    requires s.dev.Ok()
  {
    var r := Step(s, op);
    && r.st.dev.blockSize == s.dev.blockSize
    && (r.ok ==> Ranges(r.st.log) == Ranges(s.log) + WritesOf([RequestOf(op)]))
    && (!r.ok ==> r.st.log == s.log)
    && (!r.ok && 0 < r.progress ==>
          && op.WriteOp? && |s.log| < UNINSTALL_DATA_MAX
          && op.wloc + r.progress <= LastBlock(s.dev.blockSize, op.wloc, |op.data|))
  }

  lemma StepIsLogged(s: State, op: Op)
    requires s.dev.Ok()
    ensures StepLogs(s, op)
  {
    hide Read, Write, Flush, Ranges, LastBlock;
    var r := Step(s, op);
    assert WritesOf([RequestOf(op)]) == if op.WriteOp? then [RequestOf(op)] else [];
    if !op.WriteOp? {
      assert Ranges(s.log) + [] == Ranges(s.log);
    } else if r.ok {
      RangesPush(s.log, Entry(op.wloc, Read(s.dev, op.wloc, |op.data|).data));
    } else {
      FailedWrite(s, op.wloc, op.data);
      if 0 < r.progress {
        BoundaryBelow(s.dev.blockSize, op.wloc, r.progress, |op.data|);
      }
    }
  }

  lemma RangesPush(log: seq<Entry>, e: Entry)
    ensures Ranges(log + [e]) == Ranges(log) + [Writing(e.loc, |e.data|)]
  {
  }

  lemma BoundaryBelow(bs: nat, loc: nat, k: nat, n: nat)
    requires 0 < bs && k < n && (loc + k) % bs == 0
    ensures loc + k <= LastBlock(bs, loc, n)
  {
    var a, b := (loc + k) / bs, (loc + n - 1) / bs;
    assert loc + k == a * bs;
    assert loc + n - 1 == b * bs + (loc + n - 1) % bs;
    if b < a {
      MulLe(b + 1, a, bs);
    }
  }

  /** Operation `k` abandons the installation; the log has the ranges of the writes before it. */
  ghost predicate StopsAt(s: State, ops: seq<Op>, k: nat)
    requires s.dev.Ok()
  {
    var out := Install(s, ops);
    && k < |ops| && out.Abandoned? && out.op == ops[k]
    && Ranges(out.st.log) == Ranges(s.log) + WritesOf(Requests(ops)[..k])
    && (0 < out.progress ==>
          && out.op.WriteOp? && |out.st.log| < UNINSTALL_DATA_MAX
          && out.op.wloc + out.progress <= LastBlock(s.dev.blockSize, out.op.wloc, |out.op.data|))
  }

  lemma {:induction false} InstallStops(s: State, ops: seq<Op>) returns (k: nat)
    requires s.dev.Ok() && Install(s, ops).Abandoned?
    ensures StopsAt(s, ops, k)
    decreases |ops|
  {
    hide Step, Ranges, LastBlock;
    StepIsLogged(s, ops[0]);
    var first := Step(s, ops[0]);
    if first.ok {
      k := InstallStops(first.st, ops[1..]);
      StopsLater(ops, k);
      k := k + 1;
    } else {
      k := 0;
      assert Requests(ops)[..0] == [];
      assert Ranges(s.log) + [] == Ranges(s.log);
    }
  }

  lemma StopsLater(ops: seq<Op>, k: nat)
    requires k + 1 < |ops|
    ensures forall a: seq<Request> ::
              (a + WritesOf([RequestOf(ops[0])])) + WritesOf(Requests(ops[1..])[..k]) == a + WritesOf(Requests(ops)[..k + 1])
  {
    var rs := Requests(ops)[..k + 1];
    assert rs[1..] == Requests(ops[1..])[..k];
    assert WritesOf(rs) == WritesOf([rs[0]]) + WritesOf(rs[1..]);
  }

  lemma ShieldedIsRolledBack(d: Device, ops: seq<Op>)
    requires d.Coherent() && !d.dirty && Shielded(d.blockSize, Requests(ops))
    ensures RolledBack(d, ops)
  {
    assert 0 < d.blockSize;
    hide Install, Uninstall, Device.Ok, LastBlock, Covered, Hit, Ranges;
    var out := Install(State(d, []), ops);
    if Uninstall(out.st.dev, Reversed(out.st.log)).ok {
      StartsUndoable(d);
      RollbackRestores(d.disk, State(d, []), ops);
      if Torn(out, d.blockSize) {
        var k := InstallStops(State(d, []), ops);
        InstallLeavesBehind(d.disk, State(d, []), ops);
        NoRanges(WritesOf(Requests(ops)[..k]));
        forall i
          ensures !Unlogged(d.disk, out, i)
        {
          RangesCover(out.st.log, |d.disk|, i);
          var exposed := Exposed(d.blockSize, Requests(ops)[k], i);
          assert exposed ==> Covered(out.st.log, |d.disk|, i);
        }
      }
    }
  }

  lemma NoRanges(ws: seq<Request>)
    ensures Ranges([]) + ws == ws
  {
  }

  // ---------------------------------------------------------------------------------------------
  // A device that works for as long as it must, and then has `rest` coming
  // ---------------------------------------------------------------------------------------------

  lemma CacheBlockWorks(d: Device, b: nat, rest: seq<Fault>) returns (plan: seq<Fault>)
    requires d.Coherent() && d.plan == [] && d.OnDisk(b)
    ensures var c := CacheBlock(d, b);
            && c.ok && c.dev.Coherent() && c.dev.plan == []
            && CacheBlock(d.(plan := plan), b) == Reply(true, c.dev.(plan := rest))
  {
    hide Splice;
    plan := if d.block == b then rest else if d.dirty then [Works, Works] + rest else [Works] + rest;
    CacheBlockKeepsFlat(d, b);
    assert [Works] + rest != [] && ([Works] + rest)[1..] == rest;
    assert ([Works, Works] + rest)[1..] == [Works] + rest;
  }

  lemma {:induction false} ReadWorks(d: Device, loc: nat, n: nat, rest: seq<Fault>) returns (plan: seq<Fault>)
    requires d.Coherent() && d.plan == [] && Served(d, loc, n)
    ensures var r := Read(d, loc, n);
            && r.ok && r.dev.Coherent() && r.dev.plan == []
            && Read(d.(plan := plan), loc, n) == ReadReply(true, r.dev.(plan := rest), r.data)
    decreases n
  {
    hide CacheBlock, Read;
    ReadUnfolds(d, loc, n);
    if n == 0 {
      plan := rest;
    } else {
      BlockIsOnDisk(d, loc, n);
      var c, chunk := CacheBlock(d, loc / d.blockSize), Chunk(d.blockSize, loc, n);
      var _ := CacheBlockWorks(d, loc / d.blockSize, []);
      plan := ReadWorks(c.dev, loc + chunk, n - chunk, rest);
      plan := CacheBlockWorks(d, loc / d.blockSize, plan);
    }
    ReadUnfolds(d.(plan := plan), loc, n);
  }

  lemma PutUnplanned(d: Device, offset: nat, data: seq<Byte>, plan: seq<Fault>)
    requires d.Coherent() && d.block != NO_BLOCK && offset + |data| <= d.blockSize
    ensures Put(d.(plan := plan), offset, data) == Put(d, offset, data).(plan := plan)
    ensures var e := Put(d, offset, data); e.Coherent() && e.plan == d.plan && e.block == d.block && e.dirty
  {
  }

  lemma {:induction false} WriteWorks(d: Device, loc: nat, data: seq<Byte>, rest: seq<Fault>) returns (plan: seq<Fault>)
    requires d.Coherent() && d.plan == [] && Served(d, loc, |data|)
    ensures var r := Write(d, loc, data);
            && r.ok && r.dev.Coherent() && r.dev.plan == []
            && Write(d.(plan := plan), loc, data) == r.(dev := r.dev.(plan := rest))
    decreases |data|
  {
    hide CacheBlock, Put, Write;
    WriteUnfolds(d, loc, data);
    if data == [] {
      plan := rest;
    } else {
      BlockIsOnDisk(d, loc, |data|);
      var c, chunk := CacheBlock(d, loc / d.blockSize), Chunk(d.blockSize, loc, |data|);
      var _ := CacheBlockWorks(d, loc / d.blockSize, []);
      PutUnplanned(c.dev, loc % d.blockSize, data[..chunk], []);
      plan := WriteWorks(Put(c.dev, loc % d.blockSize, data[..chunk]), loc + chunk, data[chunk..], rest);
      PutUnplanned(c.dev, loc % d.blockSize, data[..chunk], plan);
      plan := CacheBlockWorks(d, loc / d.blockSize, plan);
    }
    WriteUnfolds(d.(plan := plan), loc, data);
  }

  ghost predicate ServedRequest(d: Device, r: Request)
    requires 0 < d.blockSize
  {
    r.Flushing? || Served(d, r.loc, r.n)
  }

  function Planned(s: State, plan: seq<Fault>): State {
    s.(dev := s.dev.(plan := plan))
  }

  lemma StepWorks(s: State, op: Op, rest: seq<Fault>) returns (plan: seq<Fault>)
    requires s.dev.Coherent() && s.dev.plan == [] && ServedRequest(s.dev, RequestOf(op))
    requires op.WriteOp? ==> |s.log| < UNINSTALL_DATA_MAX
    ensures var r := Step(s, op);
            && r.ok && r.st.dev.Coherent() && r.st.dev.plan == []
            && |r.st.dev.disk| == |s.dev.disk| && r.st.dev.blockSize == s.dev.blockSize
            && Step(Planned(s, plan), op) == r.(st := Planned(r.st, rest))
  {
    hide Read, Write, Splice;
    match op {
      case ReadOp(loc, n) =>
        plan := ReadWorks(s.dev, loc, n, rest);
      case WriteOp(loc, data) =>
        var _ := ReadWorks(s.dev, loc, |data|, []);
        plan := WriteWorks(Read(s.dev, loc, |data|).dev, loc, data, rest);
        plan := ReadWorks(s.dev, loc, |data|, plan);
      case FlushOp =>
        FlushKeepsFlat(s.dev);
        plan := if s.dev.dirty then [Works] + rest else rest;
    }
  }

  lemma {:induction false} WritesJoin(a: seq<Request>, b: seq<Request>)
    ensures WritesOf(a + b) == WritesOf(a) + WritesOf(b)
  {
    if a == [] {
      assert a + b == b;
    } else {
      assert (a + b)[1..] == a[1..] + b;
      WritesJoin(a[1..], b);
    }
  }

  /** Whatever the faults, an installation that completes has logged its writes. */
  lemma {:induction false} CompletedIsLogged(s: State, ops: seq<Op>)
    requires s.dev.Ok() && |s.log| <= UNINSTALL_DATA_MAX && Install(s, ops).Completed?
    ensures |Install(s, ops).st.log| == |s.log| + |WritesOf(Requests(ops))| <= 256
    decreases |ops|
  {
    hide Step, Ranges;
    if ops == [] {
      assert Requests(ops) == [];
    } else {
      assert Requests(ops) == [RequestOf(ops[0])] + Requests(ops[1..]);
      WritesJoin([RequestOf(ops[0])], Requests(ops[1..]));
      StepIsLogged(s, ops[0]);
      LogStaysShort(s, ops[0]);
      CompletedIsLogged(Step(s, ops[0]).st, ops[1..]);
    }
  }

  lemma LogStaysShort(s: State, op: Op)
    requires s.dev.Ok() && |s.log| <= UNINSTALL_DATA_MAX
    ensures |Step(s, op).st.log| <= UNINSTALL_DATA_MAX
  {
    hide Read, Write, Flush;
  }

  /** On a device that never fails, an installation completes if and only if the log has room for its
      writes. */
  lemma {:induction false} CompletesIffLogHasRoom(s: State, ops: seq<Op>)
    requires s.dev.Coherent() && s.dev.plan == [] && |s.log| <= UNINSTALL_DATA_MAX
    requires forall j :: 0 <= j < |ops| ==> ServedRequest(s.dev, RequestOf(ops[j]))
    ensures Install(s, ops).Completed? <==> |s.log| + |WritesOf(Requests(ops))| <= 256
    decreases |ops|
  {
    hide Step, Ranges;
    if ops == [] {
      assert Requests(ops) == [];
    } else {
      assert Requests(ops) == [RequestOf(ops[0])] + Requests(ops[1..]);
      WritesJoin([RequestOf(ops[0])], Requests(ops[1..]));
      assert ServedRequest(s.dev, RequestOf(ops[0]));
      if ops[0].WriteOp? && |s.log| == UNINSTALL_DATA_MAX {
        FullLogRefuses(s, ops[0]);
      } else {
        StepIsLogged(s, ops[0]);
        var _ := StepWorks(s, ops[0], []);
        var next := Step(s, ops[0]).st;
        forall j | 0 <= j < |ops[1..]|
          ensures ServedRequest(next.dev, RequestOf(ops[1..][j]))
        {
          assert ServedRequest(s.dev, RequestOf(ops[j + 1]));
        }
        CompletesIffLogHasRoom(next, ops[1..]);
      }
    }
  }

  lemma FullLogRefuses(s: State, op: Op)
    requires s.dev.Ok() && op.WriteOp? && |s.log| >= UNINSTALL_DATA_MAX
    ensures !Step(s, op).ok
  {
  }

  /** A fault that stops a write at its last block, with all before it on the disk. */
  lemma {:induction false} WriteBreaks(d: Device, loc: nat, data: seq<Byte>) returns (plan: seq<Fault>)
    requires d.Coherent() && d.plan == [] && data != [] && Served(d, loc, |data|)
    requires d.blockSize < loc % d.blockSize + |data| || (d.dirty && d.block != loc / d.blockSize)
    ensures var r := Write(d.(plan := plan), loc, data);
            && !r.ok && !r.dev.dirty && r.dev.plan == []
            && r.progress == Max(0, LastBlock(d.blockSize, loc, |data|) - loc)
    decreases |data|
  {
    hide CacheBlock, Put, LastBlock;
    var bs := d.blockSize;
    BlockIsOnDisk(d, loc, |data|);
    if bs < loc % bs + |data| {
      var c, chunk := CacheBlock(d, loc / bs), bs - loc % bs;
      var _ := CacheBlockWorks(d, loc / bs, []);
      PutUnplanned(c.dev, loc % bs, data[..chunk], []);
      NextBlock(bs, loc, |data|);
      plan := WriteBreaks(Put(c.dev, loc % bs, data[..chunk]), loc + chunk, data[chunk..]);
      PutUnplanned(c.dev, loc % bs, data[..chunk], plan);
      plan := CacheBlockWorks(d, loc / bs, plan);
    } else {
      plan := [Works, Breaks(0)];
      BreaksOnFetch(d, loc / bs);
      InLastBlock(bs, loc, |data|);
    }
  }

  lemma BreaksOnFetch(d: Device, b: nat)
    requires d.Ok() && d.dirty && d.block != b
    ensures var c := CacheBlock(d.(plan := [Works, Breaks(0)]), b); !c.ok && !c.dev.dirty && c.dev.plan == []
  {
  }

  lemma NextBlock(bs: nat, loc: nat, n: nat)
    requires 0 < bs < loc % bs + n
    ensures var next := loc + (bs - loc % bs);
            && next / bs == loc / bs + 1
            && LastBlock(bs, next, n - (bs - loc % bs)) == LastBlock(bs, loc, n) >= next
  {
    var next := loc + (bs - loc % bs);
    BlockAddress(loc, bs);
    assert next == (loc / bs + 1) * bs + 0;
    DivModUnique(loc / bs + 1, 0, bs);
    BoundaryBelow(bs, loc, next - loc, n);
  }

  lemma InLastBlock(bs: nat, loc: nat, n: nat)
    requires 0 < bs && 0 < n && loc % bs + n <= bs
    ensures LastBlock(bs, loc, n) <= loc
  {
    BlockAddress(loc, bs);
    assert loc + n - 1 == loc / bs * bs + (loc % bs + n - 1);
    DivModUnique(loc / bs, loc % bs + n - 1, bs);
  }

  // ---------------------------------------------------------------------------------------------
  // Installations that are not shielded are not always rolled back
  // ---------------------------------------------------------------------------------------------

  /** An installation stopped in the last block of this write, with the blocks before on the disk. */
  ghost predicate Broken(out: Outcome, op: Op, bs: nat, size: nat)
    requires op.WriteOp? && 0 < bs
  {
    var e := out.st.dev;
    && out.Abandoned? && out.op == op
    && out.progress == LastBlock(bs, op.wloc, |op.data|) - op.wloc
    && e.blockSize == bs && |e.disk| == size && !e.dirty && e.plan == []
    && (forall i :: op.wloc <= i < op.wloc + out.progress ==> Has(e.disk, i, op.wloc, op.data))
  }

  lemma StepBreaks(s: State, op: Op) returns (plan: seq<Fault>)
    requires s.dev.Coherent() && s.dev.plan == [] && |s.log| < UNINSTALL_DATA_MAX
    requires op.WriteOp? && s.dev.blockSize < op.wloc % s.dev.blockSize + |op.data| && Served(s.dev, op.wloc, |op.data|)
    ensures var r := Step(Planned(s, plan), op);
            !r.ok && r.st.log == s.log && Broken(Abandoned(r.st, op, r.progress), op, s.dev.blockSize, |s.dev.disk|)
  {
    hide Read, Write, LastBlock, Splice, DiskSettles;
    var bs, loc, data := s.dev.blockSize, op.wloc, op.data;
    var _ := ReadWorks(s.dev, loc, |data|, []);
    var saved := Read(s.dev, loc, |data|).dev;
    plan := WriteBreaks(saved, loc, data);
    NextBlock(bs, loc, |data|);
    WriteRefines(saved.(plan := plan), loc, data);
    WrittenBytes(saved.(plan := plan), loc, data);
    plan := ReadWorks(s.dev, loc, |data|, plan);
  }

  lemma WrittenBytes(d: Device, loc: nat, data: seq<Byte>)
    requires d.Coherent()
    ensures var w := Write(d, loc, data);
            !w.dev.dirty ==> forall i :: loc <= i < loc + w.progress ==> Has(w.dev.disk, i, loc, data)
  {
    hide Write, DiskSettles;
    WriteRefines(d, loc, data);
  }

  lemma {:induction false} InstallBreaks(s: State, ops: seq<Op>, k: nat) returns (plan: seq<Fault>)
    requires s.dev.Coherent() && s.dev.plan == [] && k < |ops|
    requires forall j :: 0 <= j <= k ==> ServedRequest(s.dev, RequestOf(ops[j]))
    requires |s.log| + |WritesOf(Requests(ops)[..k])| < UNINSTALL_DATA_MAX
    requires ops[k].WriteOp? && s.dev.blockSize < ops[k].wloc % s.dev.blockSize + |ops[k].data|
    ensures var out := Install(Planned(s, plan), ops);
            && Broken(out, ops[k], s.dev.blockSize, |s.dev.disk|)
            && Ranges(out.st.log) == Ranges(s.log) + WritesOf(Requests(ops)[..k])
    decreases k
  {
    hide Step, Ranges, Broken, LastBlock;
    assert ServedRequest(s.dev, RequestOf(ops[k]));
    if k == 0 {
      plan := StepBreaks(s, ops[0]);
      assert Requests(ops)[..0] == [];
      assert Ranges(s.log) + [] == Ranges(s.log);
    } else {
      StopsLater(ops, k - 1);
      assert ServedRequest(s.dev, RequestOf(ops[0]));
      StepIsLogged(s, ops[0]);
      var _ := StepWorks(s, ops[0], []);
      var next := Step(s, ops[0]).st;
      assert Ranges(next.log) + WritesOf(Requests(ops[1..])[..k - 1]) == Ranges(s.log) + WritesOf(Requests(ops)[..k]);
      forall j | 0 <= j <= k - 1
        ensures ServedRequest(next.dev, RequestOf(ops[1..][j]))
      {
        assert ServedRequest(s.dev, RequestOf(ops[j + 1]));
      }
      plan := InstallBreaks(next, ops[1..], k - 1);
      plan := StepWorks(s, ops[0], plan);
    }
  }

  // An adversary's disk, data and faults

  function Ones(n: nat): (b: seq<Byte>)
    ensures |b| == n && forall i :: 0 <= i < n ==> b[i] == 1
  {
    seq(n, i => 1 as Byte)
  }

  function OpOf(r: Request): (op: Op)
    ensures RequestOf(op) == r && (op.WriteOp? ==> op.data == Ones(|op.data|))
  {
    match r
    case Reading(loc, n) => ReadOp(loc, n)
    case Writing(loc, n) => WriteOp(loc, Ones(n))
    case Flushing => FlushOp
  }

  /** A size that has room for all requests. */
  function Room(rs: seq<Request>): (size: nat)
    ensures forall r :: r in rs && !r.Flushing? ==> r.loc + r.n <= size
  {
    if rs == [] then 0
    else
      var rest := Room(rs[1..]);
      if rs[0].Flushing? then rest else Max(rest, rs[0].loc + rs[0].n)
  }

  function Adversary(bs: nat, size: nat): (d: Device)
    requires 0 < bs
    ensures d.Coherent() && !d.dirty && d.blockSize == bs && |d.disk| == size * bs && d.plan == []
    ensures forall i :: 0 <= i < |d.disk| ==> d.disk[i] == 0
  {
    Device(seq(size * bs, i => 0 as Byte), bs, seq(bs, i => 0 as Byte), NO_BLOCK, false, [])
  }

  lemma AdversaryServes(bs: nat, rs: seq<Request>)
    requires 0 < bs
    ensures forall r :: r in rs ==> ServedRequest(Adversary(bs, Room(rs)), r)
  {
    var size := Room(rs);
    DivModUnique(size, 0, bs);
    MulLe(1, bs, size);
    assert bs * size == size * bs;
  }

  lemma {:induction false} WritesAreRequests(rs: seq<Request>)
    ensures forall w :: w in WritesOf(rs) ==> w in rs
  {
    if rs == [] {
    } else {
      WritesAreRequests(rs[1..]);
    }
  }

  lemma ExposedWrite(bs: nat, r: Request, i: int)
    requires 0 < bs && Exposed(bs, r, i)
    ensures bs < r.loc % bs + r.n
  {
    if r.n != 0 && r.loc % bs + r.n <= bs {
      InLastBlock(bs, r.loc, r.n);
    }
  }

  lemma UndoServes(d: Device, log: seq<Entry>, rs: seq<Request>)
    requires d.Ok() && d.plan == [] && Ranges(log) == WritesOf(rs)
    requires forall r :: r in rs ==> ServedRequest(d, r)
    ensures Uninstall(d, Reversed(log)).ok
  {
    hide PutBackAll, WritesOf;
    var es := Reversed(log);
    WritesAreRequests(rs);
    forall i | 0 <= i < |es|
      ensures Served(Forget(d), es[i].loc, |es[i].data|)
    {
      ReversedAt(log, i);
      assert Ranges(log)[|log| - 1 - i] in rs;
      assert ServedRequest(d, Ranges(log)[|log| - 1 - i]);
    }
    UninstallServes(Forget(d), es);
  }

  lemma ExposedInside(bs: nat, rs: seq<Request>, k: nat, i: int)
    requires 0 < bs && k < |rs| && Exposed(bs, rs[k], i)
    ensures i - rs[k].loc < rs[k].n && i < Room(rs) * bs
  {
    var r := rs[k];
    assert r in rs && r.loc + r.n <= Room(rs);
    if r.n != 0 {
      BlockAddress(r.loc + r.n - 1, bs);
    }
    MulLe(1, bs, Room(rs));
    assert bs * Room(rs) == Room(rs) * bs;
  }

  lemma UnshieldedFails(bs: nat, rs: seq<Request>, k: nat, i: int) returns (d: Device, ops: seq<Op>)
    requires 0 < bs && k < |rs| && Exposed(bs, rs[k], i)
    requires |WritesOf(rs[..k])| < UNINSTALL_DATA_MAX && !Hit(WritesOf(rs[..k]), i)
    ensures d.Coherent() && !d.dirty && d.blockSize == bs && Requests(ops) == rs && !RolledBack(d, ops)
  {
    hide RolledBack, LastBlock, Hit, Adversary, ServedRequest, WritesOf;
    ops := seq(|rs|, j requires 0 <= j < |rs| => OpOf(rs[j]));
    assert Requests(ops) == rs;
    var calm := Adversary(bs, Room(rs));
    AdversaryServes(bs, rs);
    ExposedInside(bs, rs, k, i);
    var plan := ExposedByteStays(calm, ops, k, i);
    d := calm.(plan := plan);
    StillCoherent(calm, plan);
  }

  lemma StillCoherent(d: Device, plan: seq<Fault>)
    requires d.Coherent()
    ensures d.(plan := plan).Coherent()
  {
  }

  lemma ServedAnyway(d: Device, plan: seq<Fault>, r: Request)
    requires 0 < d.blockSize && ServedRequest(d, r)
    ensures ServedRequest(d.(plan := plan), r)
  {
  }

  /** A write that exposes a byte, which differs from the disk's and which no earlier write has saved, has faults
      that leave it there after a successful uninstall. */
  lemma ExposedByteStays(d: Device, ops: seq<Op>, k: nat, i: int) returns (plan: seq<Fault>)
    requires d.Coherent() && !d.dirty && d.plan == [] && k < |ops| && ops[k].WriteOp?
    requires forall j :: 0 <= j <= k ==> ServedRequest(d, RequestOf(ops[j]))
    requires Exposed(d.blockSize, RequestOf(ops[k]), i)
    requires var ws := WritesOf(Requests(ops)[..k]); |ws| < UNINSTALL_DATA_MAX && !Hit(ws, i)
    requires i - ops[k].wloc < |ops[k].data| && 0 <= i < |d.disk| && ops[k].data[i - ops[k].wloc] != d.disk[i]
    ensures var out := Install(State(d.(plan := plan), []), ops);
            out.Abandoned? && Uninstall(out.st.dev, Reversed(out.st.log)).ok
    ensures !RolledBack(d.(plan := plan), ops)
  {
    hide Install, Uninstall, RolledBack, LastBlock, Hit, Ranges, ServedRequest, WritesOf;
    var rs := Requests(ops);
    ExposedWrite(d.blockSize, rs[k], i);
    NoRanges(WritesOf(rs[..k]));
    plan := InstallBreaks(State(d, []), ops, k);
    var torn := d.(plan := plan);
    assert Planned(State(d, []), plan) == State(torn, []);
    StillCoherent(d, plan);
    forall r | r in rs[..k]
      ensures ServedRequest(torn, r)
    {
      var j :| 0 <= j < k && rs[j] == r;
      ServedAnyway(d, plan, RequestOf(ops[j]));
    }
    BrokenIsNotUndone(torn, ops, rs, k, i);
  }

  /** A byte of the abandoning write that differs from the disk's, and that no earlier write has saved, stays. */
  lemma BrokenIsNotUndone(d: Device, ops: seq<Op>, rs: seq<Request>, k: nat, i: int)
    requires d.Coherent() && !d.dirty
    requires Requests(ops) == rs && k < |rs| && Exposed(d.blockSize, rs[k], i) && !Hit(WritesOf(rs[..k]), i)
    requires ops[k].WriteOp? && i - ops[k].wloc < |ops[k].data| && 0 <= i < |d.disk| && ops[k].data[i - ops[k].wloc] != d.disk[i]
    requires forall r :: r in rs[..k] ==> ServedRequest(d, r)
    requires Broken(Install(State(d, []), ops), ops[k], d.blockSize, |d.disk|)
    requires Ranges(Install(State(d, []), ops).st.log) == WritesOf(rs[..k])
    ensures !RolledBack(d, ops)
    ensures var out := Install(State(d, []), ops); Uninstall(out.st.dev, Reversed(out.st.log)).ok
  {
    hide Install, Uninstall, LastBlock, Hit, Covered, Ranges, WritesOf;
    var out := Install(State(d, []), ops);
    StartsUndoable(d);
    InstallLeavesBehind(d.disk, State(d, []), ops);
    forall r | r in rs[..k]
      ensures ServedRequest(out.st.dev, r)
    {
      assert ServedRequest(d, r);
    }
    UndoServes(out.st.dev, out.st.log, rs[..k]);
    RollbackRestores(d.disk, State(d, []), ops);
    OnlyTornWritesLose(State(d, []), ops);
    RangesCover(out.st.log, |d.disk|, i);
    assert Has(out.st.dev.disk, i, ops[k].wloc, ops[k].data);
    assert Unlogged(d.disk, out, i);
  }

  /** An installation is rolled back whatever the disk, the data and the faults if and only if each of its
      writes lies in one block, up to bytes that writes before it have saved. */
  lemma RolledBackIffShielded(bs: nat, rs: seq<Request>)
    requires 0 < bs
    ensures AlwaysRolledBack(bs, rs) <==> Shielded(bs, rs)
  {
    hide RolledBack, Exposed, Hit, WritesOf;
    if Shielded(bs, rs) {
      forall d: Device, ops: seq<Op> | d.Coherent() && !d.dirty && d.blockSize == bs && Requests(ops) == rs
        ensures RolledBack(d, ops)
      {
        ShieldedIsRolledBack(d, ops);
      }
    } else {
      var k, i :| 0 <= k < |rs| && Exposed(bs, rs[k], i) && |WritesOf(rs[..k])| < UNINSTALL_DATA_MAX && !Hit(WritesOf(rs[..k]), i);
      var d, ops := UnshieldedFails(bs, rs, k, i);
    }
  }

  lemma NothingExposed(bs: nat, loc: nat)
    requires 0 < bs
    ensures forall i :: !Exposed(bs, Writing(loc, 0), i)
  {
  }

  /** A single write is if and only if it does not straddle two blocks. */
  lemma OneWriteIsRolledBack(bs: nat, loc: nat, n: nat)
    requires 0 < bs
    ensures AlwaysRolledBack(bs, [Writing(loc, n)]) <==> loc % bs + n <= bs
  {
    hide AlwaysRolledBack, LastBlock;
    var w := Writing(loc, n);
    RolledBackIffShielded(bs, [w]);
    assert WritesOf([w][..0]) == [];
    if loc % bs + n <= bs {
      if 0 < n {
        InLastBlock(bs, loc, n);
      } else {
        NothingExposed(bs, loc);
      }
    } else {
      NextBlock(bs, loc, n);
      assert Exposed(bs, [w][0], loc);
    }
  }
}
