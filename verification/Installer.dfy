/** The installer's global state and the procedures that update it in place (limine/limine.c:223-549). */
module Installer {
  import opened Arithmetic
  import opened Bytes
  import opened BlockCache
  import opened UndoLog
  import opened UninstallFile

  /** The transfer with index `i` of the fault plan can read `n` bytes from the start of the device. */
  predicate Readable(disk: seq<Byte>, plan: seq<Fault>, i: nat, n: nat) {
    n <= |disk| && (i < |plan| ==> plan[i] == Works)
  }

  class Session {
    // The target device: its bytes, and which of the coming transfers complete.
    var disk: seq<Byte>
    var plan: seq<Fault>

    var blockSize: nat
    var cache: array<Byte>
    var cachedBlock: int
    var dirty: bool

    var log: array<Entry>
    var logCount: nat
    var uninstalling: bool

    // The disk as it was found, the state an installation started from and the operations issued since.
    ghost var initial: seq<Byte>
    ghost var start: State
    ghost var trace: seq<Op>

    function Dev(): Device
      reads this, cache
    {
      Device(disk, blockSize, cache[..], cachedBlock, dirty, plan)
    }

    function Log(): seq<Entry>
      reads this, log
      requires logCount <= log.Length
    {
      log[..logCount]
    }

    ghost predicate Valid()
      reads this, cache, log
    {
      && Dev().Ok()
      && logCount <= log.Length == UNINSTALL_DATA_MAX
    }

    /** The operations issued have all completed, and each write among them can be undone. */
    ghost predicate Recoverable()
      reads this, cache, log
      requires Valid()
    {
      && Undoable(initial, start) && Undoable(initial, State(Dev(), Log()))
      && Install(start, trace) == Completed(State(Dev(), Log()))
    }

    /** The last operation issued has failed, and has left no more behind than LeftBehind says. */
    ghost predicate Abandoned()
      reads this, cache, log
      requires Valid()
    {
      && Undoable(initial, start)
      && var out := Install(start, trace);
         out.Abandoned? && out.st == State(Dev(), Log()) && LeftBehind(initial, out)
    }

    constructor (disk: seq<Byte>, plan: seq<Fault>)
      ensures this.disk == disk && this.plan == plan && log.Length == UNINSTALL_DATA_MAX && logCount == 0 && !uninstalling
      ensures fresh(cache) && fresh(log)
    {
      this.disk, this.plan := disk, plan;
      blockSize, cachedBlock, dirty := 0, NO_BLOCK, false;
      cache := new Byte[0];
      log := new Entry[UNINSTALL_DATA_MAX](_ => Entry(0, []));
      logCount, uninstalling := 0, false;
    }

    method NextTransfer() returns (fault: Fault)
      modifies this`plan
      ensures fault == old(Dev()).NextFault() && Dev() == old(Dev()).Consumed()
    {
      if plan == [] {
        fault := Works;
      } else {
        fault, plan := plan[0], plan[1..];
      }
    }

    /** device_init: the first block size of which a whole block can be read from the start. */
    method DeviceInit() returns (ok: bool)
      requires logCount == 0 && log.Length == UNINSTALL_DATA_MAX
      modifies this`blockSize, this`cache, this`cachedBlock, this`dirty, this`plan, this`initial, this`start, this`trace
      ensures disk == old(disk)
      ensures fresh(cache) || cache == old(cache)
      ensures ok <==> Readable(disk, old(plan), 0, 512) || Readable(disk, old(plan), 1, 2048) || Readable(disk, old(plan), 2, 4096)
      ensures ok ==> Valid() && Dev().Coherent() && !dirty && cachedBlock == 0
      ensures ok ==> blockSize == if Readable(disk, old(plan), 0, 512) then 512 else if Readable(disk, old(plan), 1, 2048) then 2048 else 4096
      ensures ok ==> initial == disk && Recoverable() && trace == []
      ensures old(plan) == [] ==> plan == [] && (ok <==> 512 <= |disk|) && (ok ==> blockSize == 512)
    {
      hide Undoable, Install, Device.Coherent;
      var guesses := [512, 2048, 4096];
      for i := 0 to |guesses|
        invariant disk == old(disk)
        invariant fresh(cache) || cache == old(cache)
        invariant plan == if i <= |old(plan)| then old(plan)[i..] else []
        invariant 0 < i ==> !Readable(disk, old(plan), 0, 512)
        invariant 1 < i ==> !Readable(disk, old(plan), 1, 2048)
        invariant 2 < i ==> !Readable(disk, old(plan), 2, 4096)
      {
        var guess := guesses[i];
        cache := new Byte[guess](_ => 0);
        var fault := NextTransfer();
        if fault == Works && guess <= |disk| {
          StartWith(guess);
          return true;
        }
      }
      return false;
    }

    /** The first block has been read into the cache. */
    method StartWith(guess: nat)
      requires 0 < guess <= |disk| && logCount == 0 && log.Length == UNINSTALL_DATA_MAX
      modifies this`blockSize, this`cache, this`cachedBlock, this`dirty, this`initial, this`start, this`trace
      ensures fresh(cache)
      ensures Valid() && Dev().Coherent() && !dirty && cachedBlock == 0 && blockSize == guess
      ensures initial == disk && Recoverable() && trace == []
    {
      hide Undoable, Install;
      cache := new Byte[guess](j requires 0 <= j < guess <= |disk| reads this => disk[j]);
      blockSize, dirty, cachedBlock := guess, false, 0;
      initial := disk;
      assert cache[..] == disk[..guess] == disk[0 * guess..0 * guess + guess];
      assert Log() == [];
      StartsUndoable(Dev());
      start, trace := State(Dev(), []), [];
      NothingIssued(start);
    }

    /** device_flush_cache. */
    method FlushCache() returns (ok: bool)
      requires Valid()
      modifies this`disk, this`dirty, this`plan
      ensures Valid()
      ensures Reply(ok, Dev()) == Flush(old(Dev()))
    {
      if !dirty {
        return true;
      }
      var fault := NextTransfer();
      match fault {
        case Works =>
          disk := Splice(disk, cachedBlock * blockSize, cache[..]);
          dirty := false;
          return true;
        case Breaks(moved) =>
          disk := Splice(disk, cachedBlock * blockSize, cache[..][..Min(moved, blockSize)]);
          return false;
      }
    }

    /** The bytes of a transfer arrive at the start of the cache buffer. */
    method FillCache(bytes: seq<Byte>)
      requires |bytes| <= cache.Length
      modifies cache
      ensures cache[..] == bytes + old(cache[..])[|bytes|..]
    {
      forall i | 0 <= i < |bytes| {
        cache[i] := bytes[i];
      }
    }

    /** set_pos and fread into the cache. */
    method FetchBlock(block: nat) returns (ok: bool)
      requires Valid() && !dirty
      modifies this`plan, this`cachedBlock, cache
      ensures Valid()
      ensures Reply(ok, Dev()) == Fetch(old(Dev()), block)
    {
      hide Incoming;
      var fault := NextTransfer();
      var bytes := Incoming(disk, blockSize, block, fault);
      FillCache(bytes);
      ok := fault.Works? && |bytes| == blockSize;
      if ok {
        cachedBlock := block;
      }
    }

    /** device_cache_block. */
    method CacheTheBlock(block: nat) returns (ok: bool)
      requires Valid()
      modifies this`disk, this`dirty, this`plan, this`cachedBlock, cache
      ensures Valid()
      ensures Reply(ok, Dev()) == CacheBlock(old(Dev()), block)
    {
      if cachedBlock == block {
        return true;
      }
      if dirty {
        ok := FlushCache();
        if !ok {
          return;
        }
      }
      ok := FetchBlock(block);
    }

    /** The first half of a round of either loop: the block of `loc` in the cache, and the part of `left` bytes in it. */
    method CacheFor(loc: nat, left: nat) returns (ok: bool, offset: nat, chunk: nat)
      requires Valid()
      modifies this`disk, this`dirty, this`plan, this`cachedBlock, cache
      ensures Valid() && Reply(ok, Dev()) == CacheBlock(old(Dev()), loc / blockSize)
      ensures offset == loc % blockSize && chunk == Chunk(blockSize, loc, left)
    {
      hide CacheBlock;
      offset, chunk := loc % blockSize, left;
      if chunk > blockSize - offset {
        chunk := blockSize - offset;
      }
      ok := CacheTheBlock(loc / blockSize);
    }

    /** _device_read. */
    method DeviceRead(loc: nat, count: nat) returns (ok: bool, buffer: seq<Byte>)
      requires Valid()
      modifies this`disk, this`dirty, this`plan, this`cachedBlock, cache
      ensures Valid()
      ensures var r := Read(old(Dev()), loc, count);
              ok == r.ok && Dev() == r.dev && (ok ==> buffer == r.data)
    {
      hide Read, Flush, Fetch, CacheBlock, Chunk, Continues;
      var progress := 0;
      buffer := [];
      ghost var spec := Read(Dev(), loc, count);
      ContinuesAll(spec);
      while progress < count
        invariant progress <= count && Valid()
        invariant Continues(spec, buffer, Read(Dev(), loc + progress, count - progress))
      {
        ReadUnfolds(Dev(), loc + progress, count - progress);
        ContinuesEnd(spec, buffer, Read(Dev(), loc + progress, count - progress));
        var cached, offset, chunk := CacheFor(loc + progress, count - progress);
        if !cached {
          return false, [];
        }
        var bytes := cache[..][offset..offset + chunk];
        ContinuesWith(spec, buffer, bytes, Read(Dev(), loc + progress + chunk, count - progress - chunk));
        buffer := buffer + bytes;
        progress := progress + chunk;
      }
      ReadUnfolds(Dev(), loc + progress, 0);
      ContinuesEnd(spec, buffer, Read(Dev(), loc + progress, 0));
      ok := true;
    }

    /** The copying loop of _device_write. */
    method CopyIn(buffer: seq<Byte>, loc: nat) returns (ok: bool, ghost copied: nat)
      requires Valid()
      modifies this`disk, this`dirty, this`plan, this`cachedBlock, cache
      ensures Valid()
      ensures WriteReply(ok, Dev(), copied) == Write(old(Dev()), loc, buffer)
    {
      hide Write, Flush, Fetch, CacheBlock, Put, Chunk;
      var count, progress := |buffer|, 0;
      ghost var spec := Write(Dev(), loc, buffer);
      assert buffer[0..] == buffer;
      while progress < count
        invariant progress <= count && Valid()
        invariant var rest := Write(Dev(), loc + progress, buffer[progress..]);
                  spec.ok == rest.ok && spec.dev == rest.dev && spec.progress == progress + rest.progress
      {
        WriteUnfolds(Dev(), loc + progress, buffer[progress..]);
        var cached, offset, chunk := CacheFor(loc + progress, count - progress);
        if !cached {
          return false, progress;
        }
        CopyChunk(offset, buffer[progress..][..chunk]);
        assert buffer[progress..][chunk..] == buffer[progress + chunk..];
        progress := progress + chunk;
      }
      WriteUnfolds(Dev(), loc + progress, buffer[progress..]);
      return true, progress;
    }

    /** memcpy(&cache[offset], ...). */
    method CopyChunk(offset: nat, bytes: seq<Byte>)
      requires Valid() && cachedBlock != NO_BLOCK && offset + |bytes| <= blockSize
      modifies this`dirty, cache
      ensures Valid()
      ensures Dev() == Put(old(Dev()), offset, bytes)
    {
      forall i | 0 <= i < |bytes| {
        cache[offset + i] := bytes[i];
      }
      dirty := true;
      assert cache[..] == Splice(old(cache[..]), offset, bytes);
    }

    /** _device_write. */
    method DeviceWrite(buffer: seq<Byte>, loc: nat) returns (ok: bool, ghost copied: nat)
      requires Valid()
      modifies this`disk, this`dirty, this`plan, this`cachedBlock, this`logCount, cache, log
      ensures Valid()
      ensures uninstalling ==> Log() == old(Log()) && WriteReply(ok, Dev(), copied) == Write(old(Dev()), loc, buffer)
      ensures !uninstalling ==>
                var r := LoggedWrite(State(old(Dev()), old(Log())), loc, buffer);
                ok == r.ok && State(Dev(), Log()) == r.st && copied == r.progress
    {
      hide Read, Write;
      if !uninstalling {
        if logCount >= UNINSTALL_DATA_MAX {
          return false, 0;
        }
        var saved, data := DeviceRead(loc, |buffer|);
        if !saved {
          return false, 0;
        }
        log[logCount] := Entry(loc, data);
      }
      ok, copied := CopyIn(buffer, loc);
      if ok && !uninstalling {
        logCount := logCount + 1;
      }
    }

    /** The device_read macro: a failure abandons the installation, with nothing lost. */
    method TryRead(loc: nat, count: nat) returns (ok: bool, buffer: seq<Byte>)
      requires Valid() && !uninstalling && Recoverable()
      modifies this`disk, this`dirty, this`plan, this`cachedBlock, this`trace, cache
      ensures Valid() && trace == old(trace) + [ReadOp(loc, count)]
      ensures ok ==> Recoverable() && Dev().Flat() == old(Dev().Flat()) && buffer == FlatRead(Dev().Flat(), loc, count)
      ensures ok ==> |buffer| == count
      ensures !ok ==> Abandoned() && Install(start, trace).op == ReadOp(loc, count) && Untouched(initial, Log(), disk)
    {
      hide Read, Device.Flat, DiskSettles, UntouchedBut, LogRestores, LogFits, FlatRead, Install;
      ghost var d := Dev();
      ReadRefines(d, loc, count);
      if Read(d, loc, count).ok { ReadIsFlatRead(d, loc, count); }
      OneMoreStep(initial, start, trace, ReadOp(loc, count));
      ok, buffer := DeviceRead(loc, count);
      trace := trace + [ReadOp(loc, count)];
    }

    /** The device_write macro: a failure abandons the installation.  It can have lost bytes only of its own
        write, and only if it has failed between two blocks of it. */
    method TryWrite(buffer: seq<Byte>, loc: nat) returns (ok: bool)
      requires Valid() && !uninstalling && Recoverable()
      modifies this`disk, this`dirty, this`plan, this`cachedBlock, this`logCount, this`trace, cache, log
      ensures Valid() && trace == old(trace) + [WriteOp(loc, buffer)]
      ensures ok ==> Recoverable() && Dev().Flat() == FlatWrite(old(Dev().Flat()), loc, buffer)
      ensures ok && buffer != [] ==> loc + |buffer| <= |Dev().Flat()|
      ensures !ok ==>
                && Abandoned() && Log() == old(Log())
                && var k := Install(start, trace).progress;
                   && k <= |buffer| && UntouchedBut(initial, Log(), disk, loc, buffer[..k])
                   && (0 < k ==>
                         && k < |buffer| && (loc + k) % blockSize == 0 && blockSize < loc % blockSize + |buffer|
                         && old(logCount) < UNINSTALL_DATA_MAX && Read(old(Dev()), loc, |buffer|).ok)
    {
      hide LoggedWrite, Device.Flat, DiskSettles, UntouchedBut, LogRestores, LogFits, FlatWrite, Install, Read;
      ghost var st := State(Dev(), Log());
      if LoggedWrite(st, loc, buffer).ok { LoggedWriteIsFlatWrite(st, loc, buffer); } else { FailedWrite(st, loc, buffer); }
      OneMoreStep(initial, start, trace, WriteOp(loc, buffer));
      ghost var copied;
      ok, copied := DeviceWrite(buffer, loc);
      trace := trace + [WriteOp(loc, buffer)];
    }

    /** reverse_uninstall_data. */
    method ReverseLog()
      requires Valid()
      modifies log
      ensures Valid() && Log() == Reversed(old(Log()))
    {
      ghost var was := Log();
      var rev := new Entry[UNINSTALL_DATA_MAX](_ => Entry(0, []));
      var i, j := 0, logCount - 1;
      while i < logCount
        invariant 0 <= i <= logCount && j == logCount - 1 - i
        invariant log[..] == old(log[..])
        invariant forall k :: j < k < logCount ==> rev[k] == was[logCount - 1 - k]
      {
        rev[j] := log[i];
        i, j := i + 1, j - 1;
      }
      forall k | 0 <= k < logCount {
        log[k] := rev[k];
      }
      ReversedIs(was, Log());
    }

    /** uninstall. */
    method UninstallAll() returns (ret: bool)
      requires Valid()
      modifies this`disk, this`dirty, this`plan, this`cachedBlock, this`uninstalling, this`logCount, cache, log
      ensures Valid() && Log() == old(Log())
      ensures UninstallReply(ret, Dev()) == Uninstall(old(Dev()), old(Log()))
    {
      hide Flush, PutBack;
      var flushFailed, writeFailed := false, false;
      uninstalling := true;
      dirty := false;
      cachedBlock := NO_BLOCK;
      ghost var spec := PutBackAll(Dev(), Log());
      var i := 0;
      while i < logCount
        invariant 0 <= i <= logCount == old(logCount) && Valid() && uninstalling && Log() == old(Log())
        invariant var rest := PutBackAll(Dev(), Log()[i..]);
                  spec.dev == rest.dev && spec.ok == (rest.ok && !flushFailed && !writeFailed)
      {
        assert Log()[i..][1..] == Log()[i + 1..];
        var flushed, written := PutBackEntry(log[i]);
        if !flushed {
          flushFailed := true;
        }
        if !written {
          writeFailed := true;
        }
        i := i + 1;
      }
      var flushed := FlushCache();
      ret := flushed && !flushFailed && !writeFailed;
    }

    /** One entry, with its one retry after the cache has been written back and forgotten. */
    method PutBackEntry(e: Entry) returns (flushed: bool, written: bool)
      requires Valid() && uninstalling
      modifies this`disk, this`dirty, this`plan, this`cachedBlock, this`logCount, cache, log
      ensures Valid() && Log() == old(Log()) && logCount == old(logCount)
      ensures UninstallReply(flushed && written, Dev()) == PutBack(old(Dev()), e)
    {
      hide Flush, Write;
      flushed := true;
      ghost var copied;
      written, copied := DeviceWrite(e.data, e.loc);
      if !written {
        flushed := FlushCache();
        dirty := false;
        cachedBlock := NO_BLOCK;
        written, copied := DeviceWrite(e.data, e.loc);
      }
    }

    /** store_uninstall_data. */
    method StoreUninstallData() returns (file: Option<seq<Byte>>)
      requires Valid()
      ensures file == Store(Log())
    {
      var bytes := LittleEndian(logCount, 8);
      var i := 0;
      while i < logCount
        invariant i <= logCount
        invariant forall k :: 0 <= k < i ==> Log()[k].data != []
        invariant LittleEndian(logCount, 8) + StoredEntries(Log()) == bytes + StoredEntries(Log()[i..])
      {
        assert Log()[i..][1..] == Log()[i + 1..];
        StoredOnto(bytes, Log()[i], StoredEntries(Log()[i + 1..]));
        bytes := bytes + LittleEndian(log[i].loc, 8) + LittleEndian(|log[i].data|, 8);
        if log[i].data == [] {
          assert Log()[i].data == [];
          return None;
        }
        bytes := bytes + log[i].data;
        i := i + 1;
      }
      assert Log()[i..] == [] && bytes + [] == bytes;
      return Some(bytes);
    }

    /** load_uninstall_data. */
    method LoadUninstallData(file: seq<Byte>) returns (result: Loaded)
      requires Valid()
      modifies this`logCount, log
      ensures result == Load(file)
      ensures result.Loaded? ==> Valid() && Log() == result.log
    {
      hide Number;
      if |file| < 8 {
        return ReadError;
      }
      var n := Number(file[..8]);
      var rest, i := file[8..], 0;
      assert log[..0] == [];
      while i < n
        invariant i <= n && i <= log.Length == UNINSTALL_DATA_MAX
        invariant Load(file) == LoadedAfter(log[..i], LoadEntries(rest, n - i, UNINSTALL_DATA_MAX - i))
      {
        if i == UNINSTALL_DATA_MAX {
          return Overrun;
        }
        if |rest| < 16 {
          return ReadError;
        }
        var loc, count := Number(rest[..8]), Number(rest[8..16]);
        if count == 0 || |rest| < 16 + count {
          return ReadError;
        }
        ghost var before := log[..i];
        log[i] := Entry(loc, rest[16..16 + count]);
        assert log[..i + 1] == before + [log[i]];
        LoadedAfterBoth(before, [log[i]], LoadEntries(rest[16 + count..], n - i - 1, UNINSTALL_DATA_MAX - i - 1));
        i, rest := i + 1, rest[16 + count..];
      }
      logCount := n;
      assert log[..n] + [] == log[..n];
      return Loaded(log[..n]);
    }
  }

  /** A read that has put `soFar` into its buffer goes on as `rest`. */
  ghost predicate Continues(spec: ReadReply, soFar: seq<Byte>, rest: ReadReply) {
    spec.ok == rest.ok && spec.dev == rest.dev && (spec.ok ==> spec.data == soFar + rest.data)
  }

  lemma {:induction false} ReversedIs(s: seq<Entry>, r: seq<Entry>)
    requires |r| == |s| && forall k {:trigger r[k]} :: 0 <= k < |s| ==> r[k] == s[|s| - 1 - k]
    ensures r == Reversed(s)
  {
    if s != [] {
      var s', r' := s[..|s| - 1], r[1..];
      assert forall k {:trigger r'[k]} :: 0 <= k < |s'| ==> r'[k] == r[k + 1];
      ReversedIs(s', r');
      assert r == [r[0]] + r';
    }
  }

  lemma ContinuesAll(spec: ReadReply)
    ensures Continues(spec, [], spec)
  {
    assert [] + spec.data == spec.data;
  }

  lemma ContinuesEnd(spec: ReadReply, soFar: seq<Byte>, rest: ReadReply)
    requires Continues(spec, soFar, rest)
    ensures spec.ok == rest.ok && spec.dev == rest.dev && (rest.data == [] && spec.ok ==> spec.data == soFar)
  {
    assert soFar + [] == soFar;
  }

  lemma ContinuesWith(spec: ReadReply, soFar: seq<Byte>, chunk: seq<Byte>, rest: ReadReply)
    requires Continues(spec, soFar, ReadReply(rest.ok, rest.dev, chunk + rest.data))
    ensures Continues(spec, soFar + chunk, rest)
  {
    assert (soFar + chunk) + rest.data == soFar + (chunk + rest.data);
  }

  lemma StoredOnto(bytes: seq<Byte>, e: Entry, rest: seq<Byte>)
    ensures bytes + (StoredEntry(e) + rest) == (bytes + LittleEndian(e.loc, 8) + LittleEndian(|e.data|, 8) + e.data) + rest
  {
    hide LittleEndian;
  }

  lemma LoadedAfterBoth(a: seq<Entry>, b: seq<Entry>, r: Loaded)
    ensures LoadedAfter(a, LoadedAfter(b, r)) == LoadedAfter(a + b, r)
  {
    if r.Loaded? {
      assert a + (b + r.log) == (a + b) + r.log;
    }
  }

  lemma ReadIsFlatRead(d: Device, loc: nat, n: nat)
    requires d.Coherent() && Read(d, loc, n).ok
    ensures Read(d, loc, n).data == FlatRead(d.Flat(), loc, n)
  {
    hide Read;
    ReadRefines(d, loc, n);
  }

  lemma LoggedWriteIsFlatWrite(s: State, loc: nat, data: seq<Byte>)
    requires s.dev.Coherent() && LoggedWrite(s, loc, data).ok
    ensures var r := LoggedWrite(s, loc, data).st.dev;
            r.Flat() == FlatWrite(s.dev.Flat(), loc, data) && (data != [] ==> loc + |data| <= |r.Flat()|)
  {
    hide Read, Write, FlatWrite, Device.Flat, DiskSettles;
    ReadRefines(s.dev, loc, |data|);
    CompleteWrite(Read(s.dev, loc, |data|).dev, loc, data);
  }
}
