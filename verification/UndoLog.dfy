/** The undo log of the installer: every write saves the bytes it is about to replace, and a failed
    installation throws the cache away and replays the log backwards
    (limine/limine.c:313-333, 448-549, 1062-1067). */
module UndoLog {
  import opened Bytes
  import opened BlockCache

  const UNINSTALL_DATA_MAX: nat := 256

  datatype Entry = Entry(loc: nat, data: seq<Byte>)

  /** `uninstall_data[..uninstall_data_i]` next to the device. */
  datatype State = State(dev: Device, log: seq<Entry>)

  datatype StateReply = StateReply(ok: bool, st: State, data: seq<Byte>, progress: nat)

  /** _device_write while not uninstalling: log full, save-read, copying loop, and only then the
      counter moves. */
  function LoggedWrite(s: State, loc: nat, data: seq<Byte>): (r: StateReply)
    requires s.dev.Ok()
    ensures r.st.dev.Ok()
  {
    if |s.log| >= UNINSTALL_DATA_MAX then StateReply(false, s, [], 0)
    else
      var saved := Read(s.dev, loc, |data|);
      if !saved.ok then StateReply(false, s.(dev := saved.dev), [], 0)
      else
        var w := Write(saved.dev, loc, data);
        StateReply(w.ok, State(w.dev, if w.ok then s.log + [Entry(loc, saved.data)] else s.log), [], w.progress)
  }

  /** One step of an installation; for a failed write, `progress` says how far its copying loop got. */
  function Step(s: State, op: Op): (r: StateReply)
    requires s.dev.Ok()
    ensures r.st.dev.Ok()
  {
    match op
    case ReadOp(loc, n) => var r := Read(s.dev, loc, n); StateReply(r.ok, s.(dev := r.dev), r.data, 0)
    case WriteOp(loc, data) => LoggedWrite(s, loc, data)
    case FlushOp => var r := Flush(s.dev); StateReply(r.ok, s.(dev := r.dev), [], 0)
  }

  /** An installation: steps in order up to the first that fails, which is what abandons it.  `op` is
      the abandoning step. */
  datatype Outcome = Completed(st: State) | Abandoned(st: State, op: Op, progress: nat)

  function Install(s: State, ops: seq<Op>): (r: Outcome)
    requires s.dev.Ok()
    ensures r.st.dev.Ok()
    decreases |ops|
  {
    if ops == [] then Completed(s)
    else
      var first := Step(s, ops[0]);
      if first.ok then Install(first.st, ops[1..]) else Abandoned(first.st, ops[0], first.progress)
  }

  /** reverse_uninstall_data. */
  function Reversed(es: seq<Entry>): (r: seq<Entry>)
    ensures |r| == |es|
  {
    if es == [] then [] else [es[|es| - 1]] + Reversed(es[..|es| - 1])
  }

  lemma {:induction false} ReversedAt(es: seq<Entry>, k: nat)
    requires k < |es|
    ensures Reversed(es)[k] == es[|es| - 1 - k]
  {
    if k == 0 {
    } else {
      ReversedAt(es[..|es| - 1], k - 1);
    }
  }

  datatype UninstallReply = UninstallReply(ok: bool, dev: Device)

  function Forget(d: Device): Device {
    d.(dirty := false, block := NO_BLOCK)
  }

  /** One entry of `uninstall`: a failed write is retried once, after writing the cache back and
      forgetting it. */
  function PutBack(d: Device, e: Entry): (r: UninstallReply)
    requires d.Ok()
    ensures r.dev.Ok() && r.dev.blockSize == d.blockSize && |r.dev.disk| == |d.disk|
  {
    var w := Write(d, e.loc, e.data);
    if w.ok then UninstallReply(true, w.dev)
    else
      var f := Flush(w.dev);
      var again := Write(Forget(f.dev), e.loc, e.data);
      UninstallReply(f.ok && again.ok, again.dev)
  }

  function PutBackAll(d: Device, es: seq<Entry>): (r: UninstallReply)
    requires d.Ok()
    ensures r.dev.Ok() && |r.dev.disk| == |d.disk|
    decreases |es|
  {
    if es == [] then
      var f := Flush(d);
      UninstallReply(f.ok, f.dev)
    else
      var first := PutBack(d, es[0]);
      var rest := PutBackAll(first.dev, es[1..]);
      UninstallReply(first.ok && rest.ok, rest.dev)
  }

  /** uninstall. */
  function Uninstall(d: Device, es: seq<Entry>): (r: UninstallReply)
    requires d.Ok()
  {
    PutBackAll(Forget(d), es)
  }

  // ---------------------------------------------------------------------------------------------
  // Replaying entries on a plain byte array
  // ---------------------------------------------------------------------------------------------

  ghost function Replay(f: seq<Byte>, es: seq<Entry>): (g: seq<Byte>)
    ensures |g| == |f|
    decreases |es|
  {
    if es == [] then f else Replay(FlatWrite(f, es[0].loc, es[0].data), es[1..])
  }

  /** Byte `i` of a disk of `n` bytes is in the range of some entry. */
  ghost predicate Covered(es: seq<Entry>, n: nat, i: int) {
    exists k :: 0 <= k < |es| && Covers(es[k], n, i)
  }

  ghost predicate Covers(e: Entry, n: nat, i: int) {
    e.loc + |e.data| <= n && e.loc <= i < e.loc + |e.data|
  }

  lemma CoveredFirst(es: seq<Entry>, n: nat, i: int)
    requires es != []
    ensures Covered(es, n, i) <==> Covers(es[0], n, i) || Covered(es[1..], n, i)
  {
    if Covered(es, n, i) && !Covers(es[0], n, i) {
      var k :| 0 <= k < |es| && Covers(es[k], n, i);
      assert es[1..][k - 1] == es[k];
    }
    if Covered(es[1..], n, i) {
      var k :| 0 <= k < |es[1..]| && Covers(es[1..][k], n, i);
      assert es[k + 1] == es[1..][k];
    }
  }

  lemma {:induction false} ReversedCovers(es: seq<Entry>, n: nat, i: int)
    ensures Covered(Reversed(es), n, i) <==> Covered(es, n, i)
  {
    if es == [] {
    } else {
      var last := |es| - 1;
      ReversedCovers(es[..last], n, i);
      CoveredFirst(Reversed(es), n, i);
      assert Reversed(es)[1..] == Reversed(es[..last]);
      if Covered(es, n, i) && !Covers(es[last], n, i) {
        var k :| 0 <= k < |es| && Covers(es[k], n, i);
        assert es[..last][k] == es[k];
      }
    }
  }

  /** A replay depends on its base only outside the entries. */
  lemma {:induction false} ReplayOfCovered(f: seq<Byte>, g: seq<Byte>, es: seq<Entry>, i: nat)
    requires |f| == |g| && i < |f| && (Covered(es, |f|, i) || f[i] == g[i])
    ensures Replay(f, es)[i] == Replay(g, es)[i]
    decreases |es|
  {
    if es == [] {
    } else {
      CoveredFirst(es, |f|, i);
      ReplayOfCovered(FlatWrite(f, es[0].loc, es[0].data), FlatWrite(g, es[0].loc, es[0].data), es[1..], i);
    }
  }

  lemma ReplayForgetsBase(f: seq<Byte>, g: seq<Byte>, es: seq<Entry>)
    requires |f| == |g|
    requires forall i :: 0 <= i < |f| && !Covered(es, |f|, i) ==> f[i] == g[i]
    ensures Replay(f, es) == Replay(g, es)
  {
    forall i | 0 <= i < |f|
      ensures Replay(f, es)[i] == Replay(g, es)[i]
    {
      ReplayOfCovered(f, g, es, i);
    }
  }

  lemma {:induction false} ReplayKeepsRest(f: seq<Byte>, es: seq<Entry>, i: int)
    requires 0 <= i < |f| && !Covered(es, |f|, i)
    ensures Replay(f, es)[i] == f[i]
    decreases |es|
  {
    if es == [] {
    } else {
      CoveredFirst(es, |f|, i);
      ReplayKeepsRest(FlatWrite(f, es[0].loc, es[0].data), es[1..], i);
    }
  }

  // ---------------------------------------------------------------------------------------------
  // What every step of an installation keeps
  // ---------------------------------------------------------------------------------------------

  /** Replaying the log backwards onto the initial disk changes nothing. */
  ghost predicate LogRestores(init: seq<Byte>, log: seq<Entry>) {
    Replay(init, Reversed(log)) == init
  }

  /** Outside the log, the array still holds the initial bytes. */
  ghost predicate Untouched(init: seq<Byte>, log: seq<Entry>, f: seq<Byte>) {
    UntouchedBut(init, log, f, 0, [])
  }

  /** And so it does but for these bytes at `at`. */
  ghost predicate UntouchedBut(init: seq<Byte>, log: seq<Entry>, f: seq<Byte>, at: nat, lost: seq<Byte>) {
    && |f| == |init|
    && forall i :: 0 <= i < |init| && !Covered(log, |init|, i) ==> f[i] == init[i] || Has(f, i, at, lost)
  }

  ghost predicate Has(f: seq<Byte>, i: nat, at: nat, bytes: seq<Byte>) {
    at <= i < at + |bytes| && i < |f| && f[i] == bytes[i - at]
  }

  /** The log never outgrows its array, and it covers only bytes of the disk. */
  ghost predicate LogFits(n: nat, log: seq<Entry>) {
    && |log| <= UNINSTALL_DATA_MAX
    && forall k :: 0 <= k < |log| && log[k].data != [] ==> log[k].loc + |log[k].data| <= n
  }

  ghost predicate Undoable(init: seq<Byte>, s: State) {
    && s.dev.Coherent()
    && LogFits(|init|, s.log)
    && LogRestores(init, s.log)
    && Untouched(init, s.log, s.dev.disk)
    && Untouched(init, s.log, s.dev.Flat())
  }

  lemma SettledIsUntouched(init: seq<Byte>, log: seq<Entry>, d: Device, e: Device)
    requires d.Ok() && e.Ok() && DiskSettles(d, e) && e.Flat() == d.Flat()
    requires Untouched(init, log, d.disk) && Untouched(init, log, d.Flat())
    ensures Untouched(init, log, e.disk)
  {
  }

  /** A write that got through `bytes` leaves nothing else behind. */
  lemma WrittenIsUntouchedBut(init: seq<Byte>, log: seq<Entry>, d: Device, e: Device, at: nat, bytes: seq<Byte>)
    requires d.Ok() && e.Ok() && DiskSettles(d, e)
    requires 0 < |bytes| ==> at + |bytes| <= |d.disk|
    requires e.Flat() == if |bytes| == 0 then d.Flat() else Splice(d.Flat(), at, bytes)
    requires Untouched(init, log, d.disk) && Untouched(init, log, d.Flat())
    ensures UntouchedBut(init, log, e.disk, at, bytes) && UntouchedBut(init, log, e.Flat(), at, bytes)
  {
    hide Splice, Device.Flat, Covered;
    forall i | 0 <= i < |init| && !Covered(log, |init|, i)
      ensures e.disk[i] == init[i] || Has(e.disk, i, at, bytes)
    {
      assert d.disk[i] == init[i] && d.Flat()[i] == init[i];
      assert e.disk[i] == d.disk[i] || e.disk[i] == d.Flat()[i] || e.disk[i] == e.Flat()[i];
    }
  }

  lemma SameSize(init: seq<Byte>, log: seq<Entry>, f: seq<Byte>)
    requires Untouched(init, log, f)
    ensures |f| == |init|
  {
  }

  lemma NothingLost(init: seq<Byte>, log: seq<Entry>, f: seq<Byte>, at: nat)
    ensures UntouchedBut(init, log, f, at, []) <==> Untouched(init, log, f)
  {
  }

  lemma PushedLog(init: seq<Byte>, log: seq<Entry>, e: Entry, f: seq<Byte>)
    requires LogRestores(init, log) && Untouched(init, log, f)
    requires e.data != [] ==> e.loc + |e.data| <= |f| && e.data == f[e.loc..e.loc + |e.data|]
    ensures LogRestores(init, log + [e])
  {
    var es := Reversed(log + [e]);
    assert (log + [e])[..|log|] == log;
    assert es[1..] == Reversed(log);
    var g := FlatWrite(init, e.loc, e.data);
    forall i | 0 <= i < |init| && !Covered(Reversed(log), |init|, i)
      ensures g[i] == init[i]
    {
      ReversedCovers(log, |init|, i);
      if Covers(e, |init|, i) {
        assert e.data[i - e.loc] == f[i];
      }
    }
    ReplayForgetsBase(g, init, Reversed(log));
  }

  lemma CoveredMore(log: seq<Entry>, e: Entry, n: nat, i: int)
    ensures Covered(log + [e], n, i) <==> Covered(log, n, i) || Covers(e, n, i)
  {
    if Covered(log, n, i) {
      var k :| 0 <= k < |log| && Covers(log[k], n, i);
      assert (log + [e])[k] == log[k];
    }
    assert (log + [e])[|log|] == e;
  }

  lemma UntouchedMore(init: seq<Byte>, log: seq<Entry>, e: Entry, f: seq<Byte>, bytes: seq<Byte>)
    requires UntouchedBut(init, log, f, e.loc, bytes) && |bytes| <= |e.data|
    requires e.data != [] ==> e.loc + |e.data| <= |f|
    ensures Untouched(init, log + [e], f)
  {
    forall i | 0 <= i < |init| && !Covered(log + [e], |init|, i)
      ensures f[i] == init[i]
    {
      CoveredMore(log, e, |init|, i);
    }
  }

  /** A write keeps the installation undoable; if it fails, only bytes its copying loop got through may
      have replaced initial ones without the log knowing it. */
  lemma WriteKeepsUndoable(init: seq<Byte>, s: State, loc: nat, data: seq<Byte>)
    requires Undoable(init, s)
    ensures var r := LoggedWrite(s, loc, data);
            && r.progress <= |data|
            && (r.ok ==> Undoable(init, r.st))
            && (!r.ok ==> r.st.log == s.log && UntouchedBut(init, s.log, r.st.dev.disk, loc, data[..r.progress]))
  {
    hide DiskSettles, Device.Flat, Splice, Read, Write, UntouchedBut, LogRestores, Covered, Device.Ok;
    NothingLost(init, s.log, s.dev.disk, loc);
    if |s.log| < UNINSTALL_DATA_MAX {
      var saved := Read(s.dev, loc, |data|);
      ReadRefines(s.dev, loc, |data|);
      SettledIsUntouched(init, s.log, s.dev, saved.dev);
      NothingLost(init, s.log, saved.dev.disk, loc);
      if saved.ok {
        var w := Write(saved.dev, loc, data);
        WriteRefines(saved.dev, loc, data);
        WrittenIsUntouchedBut(init, s.log, saved.dev, w.dev, loc, data[..w.progress]);
        if w.ok {
          assert data[..|data|] == data;
          LoggedWriteDone(init, s.log, s.dev, w, loc, data, saved.data);
        }
      }
    }
  }

  /** When a failed write has begun copying, which it does only after saving what it replaces. */
  lemma FailedWrite(s: State, loc: nat, data: seq<Byte>)
    requires s.dev.Ok() && !LoggedWrite(s, loc, data).ok
    ensures var k, bs := LoggedWrite(s, loc, data).progress, s.dev.blockSize;
            && k <= |data| && (data != [] ==> k < |data|)
            && (0 < k ==>
                  && |s.log| < UNINSTALL_DATA_MAX && Read(s.dev, loc, |data|).ok
                  && (loc + k) % bs == 0 && bs < loc % bs + |data|)
  {
    hide Read, Write;
    if |s.log| < UNINSTALL_DATA_MAX && Read(s.dev, loc, |data|).ok {
      WriteStopsAtBlock(Read(s.dev, loc, |data|).dev, loc, data);
      if loc % s.dev.blockSize + |data| <= s.dev.blockSize {
        OneBlockWriteIsAtomic(s, loc, data);
      }
    }
  }

  lemma LoggedWriteDone(init: seq<Byte>, log: seq<Entry>, d: Device, w: WriteReply, loc: nat, data: seq<Byte>, saved: seq<Byte>)
    requires d.Ok() && w.dev.Coherent() && w.progress == |data| == |saved|
    requires 0 < |data| ==> loc + |data| <= |d.disk| && saved == d.Flat()[loc..loc + |data|]
    requires |w.dev.disk| == |d.disk|
    requires w.dev.Flat() == (if w.progress == 0 then d.Flat() else Splice(d.Flat(), loc, data[..w.progress]))
    requires LogFits(|init|, log) && |log| < UNINSTALL_DATA_MAX
    requires LogRestores(init, log) && Untouched(init, log, d.Flat())
    requires UntouchedBut(init, log, w.dev.disk, loc, data) && UntouchedBut(init, log, w.dev.Flat(), loc, data)
    ensures Undoable(init, State(w.dev, log + [Entry(loc, saved)]))
  {
    hide Device.Flat;
    var e := Entry(loc, saved);
    PushedLog(init, log, e, d.Flat());
    UntouchedMore(init, log, e, w.dev.disk, data);
    UntouchedMore(init, log, e, w.dev.Flat(), data);
  }

  lemma StepKeepsUndoable(init: seq<Byte>, s: State, op: Op)
    requires Undoable(init, s)
    ensures var r := Step(s, op);
            && (r.ok ==> Undoable(init, r.st))
            && (!r.ok && op.WriteOp? ==>
                  && r.st.log == s.log && r.progress <= |op.data|
                  && UntouchedBut(init, s.log, r.st.dev.disk, op.wloc, op.data[..r.progress]))
            && (!r.ok && !op.WriteOp? ==> r.st.log == s.log && Untouched(init, s.log, r.st.dev.disk))
  {
    hide DiskSettles, Device.Flat, Splice, Read, LoggedWrite, Flush, UntouchedBut, LogRestores, Covered, Device.Ok;
    match op
    case ReadOp(loc, n) =>
      ReadRefines(s.dev, loc, n);
      SettledIsUntouched(init, s.log, s.dev, Read(s.dev, loc, n).dev);
    case WriteOp(loc, data) =>
      WriteKeepsUndoable(init, s, loc, data);
    case FlushOp =>
      FlushKeepsFlat(s.dev);
      SettledIsUntouched(init, s.log, s.dev, Flush(s.dev).dev);
  }

  /** What an installation leaves behind, however it ends. */
  ghost predicate LeftBehind(init: seq<Byte>, out: Outcome) {
    && LogFits(|init|, out.st.log)
    && LogRestores(init, out.st.log)
    && match out
       case Completed(st) => Untouched(init, st.log, st.dev.disk)
       case Abandoned(st, op, progress) =>
         if op.WriteOp? then progress <= |op.data| && UntouchedBut(init, st.log, st.dev.disk, op.wloc, op.data[..progress])
         else Untouched(init, st.log, st.dev.disk)
  }

  lemma {:induction false} InstallThen(s: State, ops: seq<Op>, op: Op)
    requires s.dev.Ok() && Install(s, ops).Completed?
    ensures var r := Step(Install(s, ops).st, op);
            Install(s, ops + [op]) == if r.ok then Completed(r.st) else Abandoned(r.st, op, r.progress)
    decreases |ops|
  {
    hide Step;
    var more := ops + [op];
    if ops == [] {
      assert more[1..] == [];
      assert Install(s, more) == var r := Step(s, op); if r.ok then Install(r.st, []) else Abandoned(r.st, op, r.progress);
    } else {
      assert more[1..] == ops[1..] + [op];
      InstallThen(Step(s, ops[0]).st, ops[1..], op);
    }
  }

  lemma NothingIssued(s: State)
    requires s.dev.Ok()
    ensures Install(s, []) == Completed(s)
  {
  }

  /** What one more step makes of an installation that has completed these. */
  lemma OneMoreStep(init: seq<Byte>, start: State, ops: seq<Op>, op: Op)
    requires Undoable(init, start) && Install(start, ops).Completed?
    ensures var s, out := Install(start, ops).st, Install(start, ops + [op]);
            var r := Step(s, op);
            && Undoable(init, s)
            && (if r.ok then out == Completed(r.st) && Undoable(init, r.st)
                else out == Abandoned(r.st, op, r.progress) && r.st.log == s.log && LeftBehind(init, out))
  {
    assert start.dev.Ok();
    hide Step, LogRestores, UntouchedBut, LogFits, Device.Coherent, Device.Flat;
    InstallIsUndoable(init, start, ops);
    InstallThen(start, ops, op);
    StepKeepsUndoable(init, Install(start, ops).st, op);
    InstallLeavesBehind(init, start, ops + [op]);
  }

  lemma {:induction false} InstallIsUndoable(init: seq<Byte>, s: State, ops: seq<Op>)
    requires Undoable(init, s) && Install(s, ops).Completed?
    ensures Undoable(init, Install(s, ops).st)
    decreases |ops|
  {
    hide Step, LogRestores, UntouchedBut;
    if ops == [] {
    } else {
      StepKeepsUndoable(init, s, ops[0]);
      InstallIsUndoable(init, Step(s, ops[0]).st, ops[1..]);
    }
  }

  lemma {:induction false} InstallLeavesBehind(init: seq<Byte>, s: State, ops: seq<Op>)
    requires Undoable(init, s)
    ensures LeftBehind(init, Install(s, ops))
    decreases |ops|
  {
    hide Step, LogRestores, UntouchedBut;
    if ops == [] {
    } else {
      StepKeepsUndoable(init, s, ops[0]);
      var first := Step(s, ops[0]);
      if first.ok {
        InstallLeavesBehind(init, first.st, ops[1..]);
      }
    }
  }

  // ---------------------------------------------------------------------------------------------
  // Uninstalling
  // ---------------------------------------------------------------------------------------------

  lemma FlatWriteAgain(f: seq<Byte>, loc: nat, data: seq<Byte>, progress: nat)
    requires progress <= |data| && (0 < progress ==> loc + progress <= |f|)
    ensures FlatWrite(if progress == 0 then f else Splice(f, loc, data[..progress]), loc, data) == FlatWrite(f, loc, data)
         || loc + |data| > |f|
  {
    if 0 < progress && loc + |data| <= |f| {
      SplicePrefix(f, loc, data, progress);
    }
  }

  lemma CompleteWrite(d: Device, loc: nat, data: seq<Byte>)
    requires d.Coherent() && Write(d, loc, data).ok
    ensures var r := Write(d, loc, data);
            && r.dev.Coherent() && r.dev.Flat() == FlatWrite(d.Flat(), loc, data)
            && (data != [] ==> loc + |data| <= |d.disk|)
  {
    hide DiskSettles, Device.Flat, Write, Device.Ok;
    WriteRefines(d, loc, data);
    assert data[..|data|] == data;
    if data == [] && loc <= |d.Flat()| {
      SpliceNothing(d.Flat(), loc);
    }
  }

  lemma FlushThenForget(d: Device)
    requires d.Ok() && Flush(d).ok
    ensures var e := Forget(Flush(d).dev);
            e.Coherent() && e.disk == d.Flat() && e.Flat() == d.Flat()
  {
    FlushKeepsFlat(d);
  }

  /** Retrying after an incomplete write loses nothing: the entry is in place either way. */
  lemma PutBackReplays(d: Device, e: Entry)
    requires d.Coherent() && PutBack(d, e).ok
    ensures var r := PutBack(d, e);
            r.dev.Coherent() && r.dev.Flat() == FlatWrite(d.Flat(), e.loc, e.data)
  {
    hide DiskSettles, Device.Flat, Write, Device.Ok, Flush, Forget, FlatWrite;
    var w := Write(d, e.loc, e.data);
    if w.ok {
      CompleteWrite(d, e.loc, e.data);
    } else {
      WriteRefines(d, e.loc, e.data);
      FlushThenForget(w.dev);
      var f := Forget(Flush(w.dev).dev);
      CompleteWrite(f, e.loc, e.data);
      FlatWriteAgain(d.Flat(), e.loc, e.data, w.progress);
      assert e.data != [];
    }
  }

  lemma {:induction false} PutBackAllReplays(d: Device, es: seq<Entry>)
    requires d.Coherent() && PutBackAll(d, es).ok
    ensures var r := PutBackAll(d, es);
            r.dev.disk == Replay(d.Flat(), es)
    decreases |es|
  {
    hide DiskSettles, Device.Flat, Flush, FlatWrite, PutBack;
    if es == [] {
      FlushKeepsFlat(d);
    } else {
      PutBackReplays(d, es[0]);
      PutBackAllReplays(PutBack(d, es[0]).dev, es[1..]);
    }
  }

  /** An uninstall that reports success, through whatever retries, has replayed its entries onto the
      disk as it found it; the cache it found does not matter. */
  lemma UninstallReplays(d: Device, es: seq<Entry>)
    requires d.Ok() && Uninstall(d, es).ok
    ensures Uninstall(d, es).dev.disk == Replay(d.disk, es)
  {
    PutBackAllReplays(Forget(d), es);
  }

  /** And it does report success on a device that does not fail. */
  lemma {:induction false} UninstallServes(d: Device, es: seq<Entry>)
    requires d.Ok() && Healthy(d)
    requires forall i :: 0 <= i < |es| ==> Served(d, es[i].loc, |es[i].data|)
    ensures PutBackAll(d, es).ok
    decreases |es|
  {
    hide Flush, Write, CacheBlock;
    if es == [] {
      FlushServes(d);
    } else {
      assert Served(d, es[0].loc, |es[0].data|);
      WriteServes(d, es[0].loc, es[0].data);
      var e := Write(d, es[0].loc, es[0].data).dev;
      assert PutBack(d, es[0]) == UninstallReply(true, e);
      forall i | 0 <= i < |es[1..]|
        ensures Served(e, es[1..][i].loc, |es[1..][i].data|)
      {
        assert Served(d, es[i + 1].loc, |es[i + 1].data|);
      }
      UninstallServes(e, es[1..]);
    }
  }

  /** Replaying the reversed log restores the initial disk exactly when the bytes the log does not
      cover still are the initial ones. */
  lemma ReplayRestoresExactly(init: seq<Byte>, log: seq<Entry>, f: seq<Byte>)
    requires LogRestores(init, log) && |f| == |init|
    ensures Replay(f, Reversed(log)) == init <==> Untouched(init, log, f)
  {
    var es := Reversed(log);
    if Untouched(init, log, f) {
      forall i | 0 <= i < |f| && !Covered(es, |f|, i)
        ensures f[i] == init[i]
      {
        ReversedCovers(log, |f|, i);
      }
      ReplayForgetsBase(f, init, es);
    }
    if Replay(f, es) == init {
      forall i | 0 <= i < |init| && !Covered(log, |init|, i)
        ensures f[i] == init[i]
      {
        ReversedCovers(log, |init|, i);
        ReplayKeepsRest(f, es, i);
      }
    }
  }

  /** The bytes of an abandoning write that reached the disk without being logged. */
  ghost predicate Unlogged(init: seq<Byte>, out: Outcome, i: int)
    requires out.Abandoned? && out.op.WriteOp?
  {
    && out.op.wloc <= i < out.op.wloc + out.progress
    && 0 <= i < |init| && i < |out.st.dev.disk|
    && !Covered(out.st.log, |init|, i)
    && out.st.dev.disk[i] != init[i]
  }

  /** A write of several blocks that failed between two of them. */
  ghost predicate Torn(out: Outcome, bs: nat)
    requires 0 < bs
  {
    && out.Abandoned? && out.op.WriteOp? && 0 < out.progress < |out.op.data|
    && (out.op.wloc + out.progress) % bs == 0 && bs < out.op.wloc % bs + |out.op.data|
    && |out.st.log| < UNINSTALL_DATA_MAX
  }

  /** A write that fails before its copying loop has begun, and any other operation, loses nothing. */
  lemma {:induction false} OnlyTornWritesLose(s: State, ops: seq<Op>)
    requires s.dev.Ok()
    ensures var out := Install(s, ops);
            && out.st.dev.blockSize == s.dev.blockSize
            && (out.Abandoned? && 0 < out.progress ==> Torn(out, s.dev.blockSize))
    decreases |ops|
  {
    hide LoggedWrite;
    if ops == [] {
    } else {
      var first := Step(s, ops[0]);
      StepKeepsBlockSize(s, ops[0]);
      if first.ok {
        OnlyTornWritesLose(first.st, ops[1..]);
      } else if ops[0].WriteOp? {
        FailedWrite(s, ops[0].wloc, ops[0].data);
        FailedWriteIsNotLogged(s, ops[0].wloc, ops[0].data);
      }
    }
  }

  lemma StepKeepsBlockSize(s: State, op: Op)
    requires s.dev.Ok()
    ensures Step(s, op).st.dev.blockSize == s.dev.blockSize
  {
    hide Read, Write, Flush;
  }

  lemma FailedWriteIsNotLogged(s: State, loc: nat, data: seq<Byte>)
    requires s.dev.Ok() && !LoggedWrite(s, loc, data).ok
    ensures LoggedWrite(s, loc, data).st.log == s.log
  {
    hide Read, Write;
  }

  /** The disk is restored; but a torn write is not in the log, so after one each byte is restored or is one
      that it had got through, and all are restored exactly when it changed no unlogged byte of the disk. */
  ghost predicate Restored(init: seq<Byte>, out: Outcome, bs: nat, f: seq<Byte>)
    requires 0 < bs
  {
    if Torn(out, bs) then
      && |f| == |init|
      && (forall i :: 0 <= i < |f| ==> f[i] == init[i] || Has(f, i, out.op.wloc, out.op.data[..out.progress]))
      && (f == init <==> forall i :: !Unlogged(init, out, i))
    else f == init
  }

  /** Abandoning an installation at any point, with whatever part of the dirty data on the disk, and
      uninstalling successfully restores the disk. */
  lemma RollbackRestores(init: seq<Byte>, s: State, ops: seq<Op>)
    requires Undoable(init, s)
    requires var out := Install(s, ops);
             Uninstall(out.st.dev, Reversed(out.st.log)).ok
    ensures var out := Install(s, ops);
            Restored(init, out, s.dev.blockSize, Uninstall(out.st.dev, Reversed(out.st.log)).dev.disk)
  {
    assert s.dev.Ok();
    hide Install, Uninstall, Device.Ok, Replay, Covered, LogFits, Device.Flat;
    var out := Install(s, ops);
    InstallLeavesBehind(init, s, ops);
    OnlyTornWritesLose(s, ops);
    UninstallReplays(out.st.dev, Reversed(out.st.log));
    ReplayRestoresExactly(init, out.st.log, out.st.dev.disk);
    if Torn(out, s.dev.blockSize) {
      UnloggedExactly(init, out);
      ReplayRestoresRest(init, out.st.log, out.st.dev.disk, out.op.wloc, out.op.data[..out.progress]);
    }
  }

  /** Replaying the reversed log restores what it covers and leaves the rest. */
  lemma ReplayRestoresRest(init: seq<Byte>, log: seq<Entry>, f: seq<Byte>, at: nat, lost: seq<Byte>)
    requires LogRestores(init, log) && UntouchedBut(init, log, f, at, lost)
    ensures var g := Replay(f, Reversed(log));
            forall i :: 0 <= i < |init| ==> g[i] == init[i] || (!Covered(log, |init|, i) && g[i] == f[i] && Has(g, i, at, lost))
  {
    var es := Reversed(log);
    var g := Replay(f, es);
    forall i | 0 <= i < |init|
      ensures g[i] == init[i] || (!Covered(log, |init|, i) && g[i] == f[i] && Has(g, i, at, lost))
    {
      ReversedCovers(log, |init|, i);
      if Covered(log, |init|, i) {
        ReplayOfCovered(f, init, es, i);
      } else {
        ReplayKeepsRest(f, es, i);
      }
    }
  }

  lemma StartsUndoable(d: Device)
    requires d.Coherent() && !d.dirty
    ensures Undoable(d.disk, State(d, []))
  {
  }

  lemma UnloggedExactly(init: seq<Byte>, out: Outcome)
    requires out.Abandoned? && out.op.WriteOp? && LeftBehind(init, out)
    ensures Untouched(init, out.st.log, out.st.dev.disk) <==> forall i :: !Unlogged(init, out, i)
  {
    var log, f := out.st.log, out.st.dev.disk;
    if forall i :: !Unlogged(init, out, i) {
      forall i | 0 <= i < |init| && !Covered(log, |init|, i)
        ensures f[i] == init[i]
      {
        assert !Unlogged(init, out, i);
      }
    }
  }

  // ---------------------------------------------------------------------------------------------
  // When a failed write can be left out of the log
  // ---------------------------------------------------------------------------------------------

  /** A write that does not straddle two blocks is all or nothing. */
  lemma OneBlockWriteIsAtomic(s: State, loc: nat, data: seq<Byte>)
    requires s.dev.Ok() && loc % s.dev.blockSize + |data| <= s.dev.blockSize
    ensures var r := LoggedWrite(s, loc, data); !r.ok ==> r.progress == 0
  {
    hide CacheBlock, Put;
    var saved := Read(s.dev, loc, |data|);
    if |s.log| < UNINSTALL_DATA_MAX && saved.ok && data != [] {
      var c := CacheBlock(saved.dev, loc / saved.dev.blockSize);
      if c.ok {
        var e := Put(c.dev, loc % saved.dev.blockSize, data[..|data|]);
        assert Chunk(saved.dev.blockSize, loc, |data|) == |data|;
        assert Write(e, loc + |data|, data[|data|..]) == WriteReply(true, e, 0);
      }
    }
  }
}
