/** The installer's one-block write-back cache over the target device, and the byte-granular reads and
    writes built on it (limine/limine.c:223-311, 426-497).

    Every seek-and-transfer of the C code consumes one element of `plan`, which says whether the
    operating system completes it.  An exhausted plan means that nothing fails any more. */
module BlockCache {
  import opened Arithmetic
  import opened Bytes

  /** `Breaks(moved)`: the transfer reports an error after `moved` bytes went through. */
  datatype Fault = Works | Breaks(moved: nat)

  const NO_BLOCK: int := -1 // stands for (uint64_t)-1, which is no block number of a 64-bit address

  datatype Device = Device(
    disk: seq<Byte>,
    blockSize: nat,
    cache: seq<Byte>,
    block: int,
    dirty: bool,
    plan: seq<Fault>)
  {
    /** What holds after every call, successful or not. */
    ghost predicate Ok() {
      && 0 < blockSize == |cache|
      && (block == NO_BLOCK || OnDisk(block))
      && (dirty ==> block != NO_BLOCK)
    }

    ghost predicate OnDisk(b: int) {
      0 <= b && b * blockSize + blockSize <= |disk|
    }

    /** What holds as long as no call has failed: a clean cache agrees with the disk. */
    ghost predicate Coherent() {
      && Ok()
      && (block != NO_BLOCK && !dirty ==> cache == disk[block * blockSize..block * blockSize + blockSize])
    }

    /** The byte array that callers of the cache see. */
    ghost function Flat(): (f: seq<Byte>)
      requires Ok()
      ensures |f| == |disk|
    {
      if dirty then Splice(disk, block * blockSize, cache) else disk
    }

    function NextFault(): Fault {
      if plan == [] then Works else plan[0]
    }

    function Consumed(): (d: Device) {
      this.(plan := if plan == [] then [] else plan[1..])
    }
  }

  datatype Reply = Reply(ok: bool, dev: Device)
  datatype ReadReply = ReadReply(ok: bool, dev: Device, data: seq<Byte>)

  /** device_flush_cache. */
  function Flush(d: Device): (r: Reply)
    requires d.Ok()
    ensures r.dev.Ok() && r.dev.blockSize == d.blockSize && |r.dev.disk| == |d.disk|
  {
    if !d.dirty then Reply(true, d)
    else
      match d.NextFault()
      case Works =>
        Reply(true, d.Consumed().(disk := Splice(d.disk, d.block * d.blockSize, d.cache), dirty := false))
      case Breaks(moved) =>
        var part := d.cache[..Min(moved, d.blockSize)];
        Reply(false, d.Consumed().(disk := Splice(d.disk, d.block * d.blockSize, part)))
  }

  /** The bytes that a read of block `b` moves before it completes, reaches the end of the disk or fails. */
  function Incoming(disk: seq<Byte>, blockSize: nat, b: nat, fault: Fault): (bytes: seq<Byte>)
    ensures |bytes| <= blockSize
    ensures |bytes| == blockSize && 0 < blockSize ==>
              b * blockSize + blockSize <= |disk| && bytes == disk[b * blockSize..b * blockSize + blockSize]
  {
    var start := b * blockSize;
    var avail := if start + blockSize <= |disk| then blockSize else if start <= |disk| then |disk| - start else 0;
    var moved := if fault.Works? then avail else Min(fault.moved, avail);
    if moved == 0 then [] else disk[start..start + moved]
  }

  /** set_pos and fread of one block into the cache buffer.  A transfer that fails has already
      overwritten the start of the buffer. */
  function Fetch(d: Device, b: nat): (r: Reply)
    requires d.Ok() && !d.dirty
    ensures r.dev.Ok() && !r.dev.dirty && r.dev.disk == d.disk && r.dev.blockSize == d.blockSize
  {
    var bytes := Incoming(d.disk, d.blockSize, b, d.NextFault());
    var ok := d.NextFault().Works? && |bytes| == d.blockSize;
    Reply(ok, d.Consumed().(cache := bytes + d.cache[|bytes|..], block := if ok then b else d.block))
  }

  /** device_cache_block. */
  function CacheBlock(d: Device, b: nat): (r: Reply)
    requires d.Ok()
    ensures r.dev.Ok() && r.dev.blockSize == d.blockSize && |r.dev.disk| == |d.disk|
    ensures r.ok ==> r.dev.block == b != NO_BLOCK
  {
    if d.block == b then Reply(true, d)
    else if d.dirty then
      var f := Flush(d);
      if !f.ok then f else Fetch(f.dev, b)
    else Fetch(d, b)
  }

  /** The part of a request of `n` bytes at `loc` that lies in the block of `loc`. */
  function Chunk(blockSize: nat, loc: nat, n: nat): (c: nat)
    requires 0 < blockSize
    ensures c <= n && (0 < n ==> 0 < c) && loc % blockSize + c <= blockSize
  {
    Min(n, blockSize - loc % blockSize)
  }

  /** _device_read. */
  function Read(d: Device, loc: nat, n: nat): (r: ReadReply)
    requires d.Ok()
    ensures r.dev.Ok() && r.dev.blockSize == d.blockSize && |r.dev.disk| == |d.disk|
    ensures r.ok ==> |r.data| == n
    decreases n
  {
    if n == 0 then ReadReply(true, d, [])
    else
      var c := CacheBlock(d, loc / d.blockSize);
      if !c.ok then ReadReply(false, c.dev, [])
      else
        var offset, chunk := loc % d.blockSize, Chunk(d.blockSize, loc, n);
        var rest := Read(c.dev, loc + chunk, n - chunk);
        ReadReply(rest.ok, rest.dev, c.dev.cache[offset..offset + chunk] + rest.data)
  }

  datatype WriteReply = WriteReply(ok: bool, dev: Device, progress: nat)

  /** memcpy into the cached block, which becomes dirty. */
  function Put(d: Device, offset: nat, data: seq<Byte>): (r: Device)
    requires d.Ok() && d.OnDisk(d.block) && offset + |data| <= d.blockSize
    ensures r.Ok() && r.blockSize == d.blockSize && r.disk == d.disk
  {
    d.(cache := Splice(d.cache, offset, data), dirty := true)
  }

  /** The copying loop of _device_write. */
  function Write(d: Device, loc: nat, data: seq<Byte>): (r: WriteReply)
    requires d.Ok()
    ensures r.dev.Ok() && r.dev.blockSize == d.blockSize && |r.dev.disk| == |d.disk|
    ensures r.progress <= |data| && (r.ok <==> r.progress == |data|)
    decreases |data|
  {
    if data == [] then WriteReply(true, d, 0)
    else
      var c := CacheBlock(d, loc / d.blockSize);
      if !c.ok then WriteReply(false, c.dev, 0)
      else
        var chunk := Chunk(d.blockSize, loc, |data|);
        var rest := Write(Put(c.dev, loc % d.blockSize, data[..chunk]), loc + chunk, data[chunk..]);
        WriteReply(rest.ok, rest.dev, chunk + rest.progress)
  }

  lemma ReadUnfolds(d: Device, loc: nat, n: nat)
    requires d.Ok()
    ensures n == 0 ==> Read(d, loc, n) == ReadReply(true, d, [])
    ensures 0 < n ==>
              var c := CacheBlock(d, loc / d.blockSize);
              var offset, chunk := loc % d.blockSize, Chunk(d.blockSize, loc, n);
              && (!c.ok ==> Read(d, loc, n) == ReadReply(false, c.dev, []))
              && (c.ok ==>
                    var rest := Read(c.dev, loc + chunk, n - chunk);
                    Read(d, loc, n) == ReadReply(rest.ok, rest.dev, c.dev.cache[offset..offset + chunk] + rest.data))
  {
    hide Flush, Fetch, CacheBlock;
  }

  lemma WriteUnfolds(d: Device, loc: nat, data: seq<Byte>)
    requires d.Ok()
    ensures data == [] ==> Write(d, loc, data) == WriteReply(true, d, 0)
    ensures data != [] ==>
              var c := CacheBlock(d, loc / d.blockSize);
              var chunk := Chunk(d.blockSize, loc, |data|);
              && (!c.ok ==> Write(d, loc, data) == WriteReply(false, c.dev, 0))
              && (c.ok ==>
                    var rest := Write(Put(c.dev, loc % d.blockSize, data[..chunk]), loc + chunk, data[chunk..]);
                    Write(d, loc, data) == WriteReply(rest.ok, rest.dev, chunk + rest.progress))
  {
    hide Flush, Fetch, CacheBlock, Put;
  }

  // ---------------------------------------------------------------------------------------------
  // Refinement of a flat byte array
  // ---------------------------------------------------------------------------------------------

  /** Each byte of the disk is the one it was, the one the cache was holding for it, or the one the cache
      holds for it now: whatever part of the dirty data has been written back, torn blocks included. */
  ghost predicate DiskSettles(d: Device, e: Device)
    requires d.Ok() && e.Ok()
  {
    && |e.disk| == |d.disk|
    && forall i {:trigger e.disk[i]} :: 0 <= i < |d.disk| ==>
         e.disk[i] == d.disk[i] || e.disk[i] == d.Flat()[i] || e.disk[i] == e.Flat()[i]
  }

  lemma FlushKeepsFlat(d: Device)
    requires d.Ok()
    ensures var r := Flush(d);
            && r.dev.Flat() == d.Flat()
            && DiskSettles(d, r.dev)
            && (r.ok ==> !r.dev.dirty && r.dev.disk == d.Flat())
            && (d.Coherent() ==> r.dev.Coherent())
  {
    hide Splice;
    if d.dirty {
      var at := d.block * d.blockSize;
      SpliceShows(d.disk, at, d.cache);
      SplicePrefix(d.disk, at, d.cache, if Flush(d).ok then d.blockSize else Min(d.NextFault().moved, d.blockSize));
    }
  }

  lemma CacheBlockKeepsFlat(d: Device, b: nat)
    requires d.Ok()
    ensures var r := CacheBlock(d, b);
            && r.dev.Flat() == d.Flat()
            && DiskSettles(d, r.dev)
            && (r.ok && d.Coherent() ==> r.dev.Coherent())
  {
    if d.block != b && d.dirty {
      FlushKeepsFlat(d);
    }
  }

  lemma SettlesThen(d: Device, e: Device, f: Device)
    requires d.Ok() && e.Ok() && f.Ok() && DiskSettles(d, e) && DiskSettles(e, f)
    requires forall i :: 0 <= i < |d.disk| ==> e.Flat()[i] == d.Flat()[i] || e.Flat()[i] == f.Flat()[i]
    ensures DiskSettles(d, f)
  {
    forall i | 0 <= i < |d.disk|
      ensures f.disk[i] == d.disk[i] || f.disk[i] == d.Flat()[i] || f.disk[i] == f.Flat()[i]
    {
      assert f.disk[i] == e.disk[i] || f.disk[i] == e.Flat()[i] || f.disk[i] == f.Flat()[i];
    }
  }

  lemma BlockAddress(loc: nat, blockSize: nat)
    requires 0 < blockSize
    ensures loc == loc / blockSize * blockSize + loc % blockSize
  {
  }

  lemma SliceOfSlice(f: seq<Byte>, start: nat, size: nat, offset: nat, n: nat)
    requires start + size <= |f| && offset + n <= size
    ensures f[start + offset..start + offset + n] == f[start..start + size][offset..offset + n]
  {
    var block, left := f[start..start + size], f[start + offset..start + offset + n];
    var right := block[offset..offset + n];
    forall i | 0 <= i < n
      ensures left[i] == right[i]
    {
      assert right[i] == block[offset + i];
    }
  }

  /** A coherent cache shows the flat array's bytes of its block. */
  lemma CacheShowsFlat(d: Device, loc: nat, n: nat)
    requires d.Coherent() && d.block == loc / d.blockSize && loc % d.blockSize + n <= d.blockSize
    ensures loc + n <= |d.disk|
    ensures d.Flat()[loc..loc + n] == d.cache[loc % d.blockSize..loc % d.blockSize + n]
  {
    BlockAddress(loc, d.blockSize);
    var f, start, offset := d.Flat(), d.block * d.blockSize, loc % d.blockSize;
    assert loc == start + offset;
    assert f[start..start + d.blockSize] == d.cache;
    SliceOfSlice(f, start, d.blockSize, offset, n);
  }

  /** A copy into a block that is then copied into the array is a copy into the array. */
  lemma SpliceWithin(f: seq<Byte>, start: nat, block: seq<Byte>, offset: nat, data: seq<Byte>)
    requires start + |block| <= |f| && offset + |data| <= |block|
    ensures Splice(f, start, Splice(block, offset, data)) == Splice(Splice(f, start, block), start + offset, data)
  {
    hide Splice;
    var left, right := Splice(f, start, Splice(block, offset, data)), Splice(Splice(f, start, block), start + offset, data);
    forall i | 0 <= i < |f|
      ensures left[i] == right[i]
    {
    }
  }

  lemma SpliceSame(f: seq<Byte>, start: nat, size: nat)
    requires start + size <= |f|
    ensures Splice(f, start, f[start..start + size]) == f
  {
    hide Splice;
  }

  /** Dirty or not, the flat array is the disk with the cached block in its place. */
  lemma FlatHasCache(d: Device)
    requires d.Coherent() && d.block != NO_BLOCK
    ensures d.Flat() == Splice(d.disk, d.block * d.blockSize, d.cache)
  {
    hide Splice;
    if !d.dirty {
      SpliceSame(d.disk, d.block * d.blockSize, d.blockSize);
    }
  }

  lemma PutSplicesFlat(d: Device, loc: nat, data: seq<Byte>)
    requires d.Coherent() && d.block == loc / d.blockSize && loc % d.blockSize + |data| <= d.blockSize
    ensures loc + |data| <= |d.disk|
    ensures var e := Put(d, loc % d.blockSize, data);
            e.Coherent() && e.Flat() == Splice(d.Flat(), loc, data)
  {
    hide Splice;
    BlockAddress(loc, d.blockSize);
    FlatHasCache(d);
    SpliceWithin(d.disk, d.block * d.blockSize, d.cache, loc % d.blockSize, data);
  }

  /** What _device_read promises: the bytes the flat array holds, and no change that callers can see. */
  ghost predicate ReadsFlat(d: Device, loc: nat, n: nat, r: ReadReply)
    requires d.Ok()
  {
    && r.dev.Ok()
    && r.dev.Flat() == d.Flat()
    && DiskSettles(d, r.dev)
    && (r.ok && d.Coherent() ==>
          r.dev.Coherent() && (0 < n ==> loc + n <= |d.disk| && r.data == d.Flat()[loc..loc + n]))
  }

  lemma {:induction false} ReadRefines(d: Device, loc: nat, n: nat)
    requires d.Ok()
    ensures ReadsFlat(d, loc, n, Read(d, loc, n))
    decreases n
  {
    hide ReadsFlat, DiskSettles, Device.Flat, Splice, Flush, Fetch, CacheBlock, Put;
    if n == 0 {
      ReadNothing(d, d, loc, 0, ReadReply(true, d, []));
    } else {
      var c := CacheBlock(d, loc / d.blockSize);
      CacheBlockKeepsFlat(d, loc / d.blockSize);
      if c.ok {
        var chunk := Chunk(d.blockSize, loc, n);
        ReadRefines(c.dev, loc + chunk, n - chunk);
        ReadStep(d, c.dev, loc, n, chunk, Read(c.dev, loc + chunk, n - chunk));
      } else {
        ReadNothing(d, c.dev, loc, n, ReadReply(false, c.dev, []));
      }
    }
  }

  lemma ReadNothing(d: Device, e: Device, loc: nat, n: nat, r: ReadReply)
    requires d.Ok() && e.Ok() && e.Flat() == d.Flat() && DiskSettles(d, e)
    requires r.dev == e && (r.ok ==> n == 0 && e == d)
    ensures ReadsFlat(d, loc, n, r)
  {
  }

  lemma ReadStep(d: Device, e: Device, loc: nat, n: nat, chunk: nat, rest: ReadReply)
    requires d.Ok() && e.Ok() && e.Flat() == d.Flat() && DiskSettles(d, e) && (d.Coherent() ==> e.Coherent())
    requires e.blockSize == d.blockSize && e.block == loc / d.blockSize
    requires chunk <= n && (rest.ok ==> |rest.data| == n - chunk)
    requires ReadsFlat(e, loc + chunk, n - chunk, rest)
    requires loc % d.blockSize + chunk <= d.blockSize
    ensures ReadsFlat(d, loc, n,
              ReadReply(rest.ok, rest.dev, e.cache[loc % d.blockSize..loc % d.blockSize + chunk] + rest.data))
  {
    SettlesThen(d, e, rest.dev);
    if d.Coherent() && rest.ok {
      CacheShowsFlat(e, loc, chunk);
      JoinSlices(d.Flat(), loc, chunk, n, rest.data);
    }
  }

  lemma JoinSlices(f: seq<Byte>, loc: nat, chunk: nat, n: nat, rest: seq<Byte>)
    requires chunk <= n && loc + chunk <= |f| && |rest| == n - chunk
    requires chunk < n ==> loc + n <= |f| && rest == f[loc + chunk..loc + n]
    ensures f[loc..loc + chunk] + rest == f[loc..loc + n]
  {
  }

  /** What the copying loop of _device_write promises: exactly the bytes it got through are spliced into
      the flat array, and no byte of the disk turns into anything but one of the flat array's. */
  ghost predicate WritesFlat(d: Device, loc: nat, data: seq<Byte>, r: WriteReply)
    requires d.Ok()
  {
    && r.dev.Ok()
    && DiskSettles(d, r.dev)
    && r.progress <= |data|
    && (0 < r.progress ==> loc + r.progress <= |d.disk|)
    && r.dev.Flat() == (if r.progress == 0 then d.Flat() else Splice(d.Flat(), loc, data[..r.progress]))
    && (r.ok ==> r.dev.Coherent())
  }

  lemma {:induction false} WriteRefines(d: Device, loc: nat, data: seq<Byte>)
    requires d.Coherent()
    ensures WritesFlat(d, loc, data, Write(d, loc, data))
    decreases |data|
  {
    hide WritesFlat, DiskSettles, Device.Flat, Splice, Flush, Fetch, CacheBlock, Put;
    if data == [] {
      WriteNothing(d, d, loc, [], WriteReply(true, d, 0));
    } else {
      var c := CacheBlock(d, loc / d.blockSize);
      CacheBlockKeepsFlat(d, loc / d.blockSize);
      if c.ok {
        var chunk := Chunk(d.blockSize, loc, |data|);
        var e := Put(c.dev, loc % d.blockSize, data[..chunk]);
        PutRefines(c.dev, loc, data, chunk);
        WriteRefines(e, loc + chunk, data[chunk..]);
        WriteStep(d, c.dev, loc, data, chunk, Write(e, loc + chunk, data[chunk..]));
      } else {
        WriteNothing(d, c.dev, loc, data, WriteReply(false, c.dev, 0));
      }
    }
  }

  lemma WriteNothing(d: Device, e: Device, loc: nat, data: seq<Byte>, r: WriteReply)
    requires d.Coherent() && e.Ok() && e.Flat() == d.Flat() && DiskSettles(d, e)
    requires r.dev == e && r.progress == 0 && (r.ok ==> e.Coherent())
    ensures WritesFlat(d, loc, data, r)
  {
  }

  lemma PutRefines(d: Device, loc: nat, data: seq<Byte>, chunk: nat)
    requires d.Coherent() && d.block == loc / d.blockSize && chunk <= |data| && loc % d.blockSize + chunk <= d.blockSize
    ensures loc + chunk <= |d.disk|
    ensures var e := Put(d, loc % d.blockSize, data[..chunk]);
            && e.Coherent() && e.Flat() == Splice(d.Flat(), loc, data[..chunk])
            && DiskSettles(d, e)
  {
    PutSplicesFlat(d, loc, data[..chunk]);
  }

  lemma WriteStep(d: Device, c: Device, loc: nat, data: seq<Byte>, chunk: nat, rest: WriteReply)
    requires d.Ok() && c.Coherent() && c.Flat() == d.Flat() && DiskSettles(d, c)
    requires c.blockSize == d.blockSize && c.block == loc / d.blockSize
    requires chunk <= |data| && loc % d.blockSize + chunk <= d.blockSize
    requires var e := Put(c, loc % d.blockSize, data[..chunk]);
             && loc + chunk <= |d.disk|
             && e.Coherent() && e.Flat() == Splice(c.Flat(), loc, data[..chunk])
             && DiskSettles(c, e)
             && WritesFlat(e, loc + chunk, data[chunk..], rest)
    ensures WritesFlat(d, loc, data, WriteReply(rest.ok, rest.dev, chunk + rest.progress))
  {
    hide Splice, Device.Flat, DiskSettles, Put;
    var e := Put(c, loc % d.blockSize, data[..chunk]);
    forall i | 0 <= i < |d.disk|
      ensures e.Flat()[i] == c.Flat()[i] || e.Flat()[i] == rest.dev.Flat()[i]
    {
      assert i < loc + chunk ==> rest.dev.Flat()[i] == e.Flat()[i];
    }
    SettlesThen(c, e, rest.dev);
    SettlesThen(d, c, rest.dev);
    JoinSplices(d.Flat(), loc, data, chunk, rest.progress);
  }

  /** A write that fails after it has begun stops at the end of a block. */
  lemma {:induction false} WriteStopsAtBlock(d: Device, loc: nat, data: seq<Byte>)
    requires d.Ok()
    ensures var r := Write(d, loc, data); !r.ok && 0 < r.progress ==> (loc + r.progress) % d.blockSize == 0
    decreases |data|
  {
    hide CacheBlock, Put;
    if data == [] {
    } else {
      var c := CacheBlock(d, loc / d.blockSize);
      if c.ok {
        var chunk := Chunk(d.blockSize, loc, |data|);
        var rest := data[chunk..];
        WriteStopsAtBlock(Put(c.dev, loc % d.blockSize, data[..chunk]), loc + chunk, rest);
        if rest != [] {
          EndOfBlock(loc, d.blockSize);
        }
      }
    }
  }

  lemma EndOfBlock(loc: nat, blockSize: nat)
    requires 0 < blockSize
    ensures (loc + (blockSize - loc % blockSize)) % blockSize == 0
  {
    BlockAddress(loc, blockSize);
    var q := loc / blockSize + 1;
    assert q * blockSize == loc / blockSize * blockSize + blockSize;
    DivModUnique(q, 0, blockSize);
  }

  lemma JoinSplices(f: seq<Byte>, loc: nat, data: seq<Byte>, chunk: nat, progress: nat)
    requires chunk + progress <= |data| && loc + chunk + progress <= |f|
    ensures (if progress == 0 then Splice(f, loc, data[..chunk])
             else Splice(Splice(f, loc, data[..chunk]), loc + chunk, data[chunk..][..progress]))
         == Splice(f, loc, data[..chunk + progress])
  {
    SpliceJoin(f, loc, data[..chunk], data[chunk..][..progress]);
    assert data[..chunk] + data[chunk..][..progress] == data[..chunk + progress];
  }

  // ---------------------------------------------------------------------------------------------
  // Whole runs
  // ---------------------------------------------------------------------------------------------

  datatype Op = ReadOp(loc: nat, n: nat) | WriteOp(wloc: nat, data: seq<Byte>) | FlushOp

  /** `outs` holds the bytes returned by the completed reads; `done` counts the completed operations. */
  datatype RunReply = RunReply(ok: bool, dev: Device, outs: seq<seq<Byte>>, done: nat)

  function Do(d: Device, op: Op): (r: RunReply)
    requires d.Ok()
    ensures r.dev.Ok() && r.done == (if r.ok then 1 else 0)
  {
    match op
    case ReadOp(loc, n) => var r := Read(d, loc, n); RunReply(r.ok, r.dev, if r.ok then [r.data] else [], if r.ok then 1 else 0)
    case WriteOp(loc, data) => var r := Write(d, loc, data); RunReply(r.ok, r.dev, [], if r.ok then 1 else 0)
    case FlushOp => var r := Flush(d); RunReply(r.ok, r.dev, [], if r.ok then 1 else 0)
  }

  /** Operations in order, up to the first that fails. */
  function Run(d: Device, ops: seq<Op>): (r: RunReply)
    requires d.Ok()
    ensures r.dev.Ok() && r.done <= |ops| && (r.ok <==> r.done == |ops|)
    decreases |ops|
  {
    if ops == [] then RunReply(true, d, [], 0)
    else
      var first := Do(d, ops[0]);
      if !first.ok then first
      else
        var rest := Run(first.dev, ops[1..]);
        RunReply(rest.ok, rest.dev, first.outs + rest.outs, rest.done + 1)
  }

  function FlatRead(f: seq<Byte>, loc: nat, n: nat): seq<Byte> {
    if loc + n <= |f| then f[loc..loc + n] else []
  }

  function FlatWrite(f: seq<Byte>, loc: nat, data: seq<Byte>): (g: seq<Byte>)
    ensures |g| == |f|
  {
    if loc + |data| <= |f| then Splice(f, loc, data) else f
  }

  function FlatDo(f: seq<Byte>, op: Op): (seq<Byte>, seq<seq<Byte>>) {
    match op
    case ReadOp(loc, n) => (f, [FlatRead(f, loc, n)])
    case WriteOp(loc, data) => (FlatWrite(f, loc, data), [])
    case FlushOp => (f, [])
  }

  /** The flat byte array after the operations, and what their reads return. */
  function FlatRun(f: seq<Byte>, ops: seq<Op>): (seq<Byte>, seq<seq<Byte>>)
    decreases |ops|
  {
    if ops == [] then (f, [])
    else
      var first := FlatDo(f, ops[0]);
      var rest := FlatRun(first.0, ops[1..]);
      (rest.0, first.1 + rest.1)
  }

  lemma DoRefines(d: Device, op: Op)
    requires d.Coherent() && Do(d, op).ok
    ensures Do(d, op).dev.Coherent()
    ensures (Do(d, op).dev.Flat(), Do(d, op).outs) == FlatDo(d.Flat(), op)
  {
    hide DiskSettles, Device.Flat, Splice, Flush, Read, Write;
    match op
    case ReadOp(loc, n) =>
      ReadRefines(d, loc, n);
    case WriteOp(loc, data) =>
      WriteRefines(d, loc, data);
      assert data[..|data|] == data;
      if data == [] && loc <= |d.disk| { SpliceNothing(d.Flat(), loc); }
    case FlushOp =>
      FlushKeepsFlat(d);
  }

  /** Any interleaving of reads, writes and flushes of any offsets and lengths, at any block size: the
      completed operations read and leave behind what the flat array would. */
  lemma {:induction false} CacheRefinesFlatArray(d: Device, ops: seq<Op>)
    requires d.Coherent()
    ensures var r := Run(d, ops);
            && r.outs == FlatRun(d.Flat(), ops[..r.done]).1
            && (r.ok ==> r.dev.Coherent() && r.dev.Flat() == FlatRun(d.Flat(), ops).0)
    decreases |ops|
  {
    hide DiskSettles, Device.Flat, Splice, Flush, Read, Write, Device.Ok, Do, FlatRun;
    if ops == [] {
      RunNothing(d);
    } else {
      var first, r := Do(d, ops[0]), Run(d, ops);
      if first.ok {
        var rest := Run(first.dev, ops[1..]);
        DoRefines(d, ops[0]);
        CacheRefinesFlatArray(first.dev, ops[1..]);
        FlatRunUnfolds(d.Flat(), ops);
        FlatRunUnfolds(d.Flat(), ops[..r.done]);
        assert ops[..r.done][1..] == ops[1..][..rest.done];
      } else {
        DoFailed(d, ops[0]);
        assert ops[..0] == [];
      }
    }
  }

  lemma FlatRunUnfolds(f: seq<Byte>, ops: seq<Op>)
    requires ops != []
    ensures var first := FlatDo(f, ops[0]);
            var rest := FlatRun(first.0, ops[1..]);
            FlatRun(f, ops) == (rest.0, first.1 + rest.1)
  {
  }

  lemma RunNothing(d: Device)
    requires d.Ok()
    ensures Run(d, []) == RunReply(true, d, [], 0) && FlatRun(d.Flat(), []) == (d.Flat(), [])
  {
  }

  lemma DoFailed(d: Device, op: Op)
    requires d.Ok() && !Do(d, op).ok
    ensures Do(d, op).outs == [] && Do(d, op).done == 0 && FlatRun(d.Flat(), []) == (d.Flat(), [])
  {
  }

  // ---------------------------------------------------------------------------------------------
  // A device that does not fail serves every request that lies in its whole blocks
  // ---------------------------------------------------------------------------------------------

  ghost predicate Healthy(d: Device) {
    forall i :: 0 <= i < |d.plan| ==> d.plan[i] == Works
  }

  ghost predicate Served(d: Device, loc: nat, n: nat)
    requires 0 < d.blockSize
  {
    loc + n <= |d.disk| / d.blockSize * d.blockSize
  }

  lemma BlockIsOnDisk(d: Device, loc: nat, n: nat)
    requires 0 < d.blockSize && 0 < n && Served(d, loc, n)
    ensures d.OnDisk(loc / d.blockSize)
  {
    var bs, q, m := d.blockSize, loc / d.blockSize, |d.disk| / d.blockSize;
    BlockAddress(loc, bs);
    BlockAddress(|d.disk|, bs);
    if q >= m {
      MulLe(m, q, bs);
    } else {
      MulLe(q + 1, m, bs);
      assert (q + 1) * bs == q * bs + bs;
    }
  }

  lemma FlushServes(d: Device)
    requires d.Ok() && Healthy(d)
    ensures var r := Flush(d); r.ok && !r.dev.dirty && Healthy(r.dev)
  {
    hide Splice;
  }

  lemma FetchServes(d: Device, b: nat)
    requires d.Ok() && !d.dirty && Healthy(d) && d.OnDisk(b)
    ensures var r := Fetch(d, b); r.ok && Healthy(r.dev)
  {
  }

  lemma CacheBlockServes(d: Device, b: nat)
    requires d.Ok() && Healthy(d) && d.OnDisk(b)
    ensures var r := CacheBlock(d, b); r.ok && Healthy(r.dev)
  {
    hide Flush, Fetch, Healthy;
    if d.block != b {
      if d.dirty {
        FlushServes(d);
      }
      FetchServes(if d.dirty then Flush(d).dev else d, b);
    }
  }

  lemma {:induction false} ReadServes(d: Device, loc: nat, n: nat)
    requires d.Ok() && Healthy(d) && Served(d, loc, n)
    ensures var r := Read(d, loc, n); r.ok && Healthy(r.dev)
    decreases n
  {
    hide CacheBlock;
    if n == 0 {
    } else {
      BlockIsOnDisk(d, loc, n);
      CacheBlockServes(d, loc / d.blockSize);
      var chunk := Chunk(d.blockSize, loc, n);
      ReadServes(CacheBlock(d, loc / d.blockSize).dev, loc + chunk, n - chunk);
    }
  }

  lemma {:induction false} WriteServes(d: Device, loc: nat, data: seq<Byte>)
    requires d.Ok() && Healthy(d) && Served(d, loc, |data|)
    ensures var r := Write(d, loc, data); r.ok && Healthy(r.dev)
    decreases |data|
  {
    hide CacheBlock, Put;
    if data == [] {
    } else {
      BlockIsOnDisk(d, loc, |data|);
      var c := CacheBlock(d, loc / d.blockSize);
      CacheBlockServes(d, loc / d.blockSize);
      var chunk := Chunk(d.blockSize, loc, |data|);
      PutKeepsPlan(c.dev, loc % d.blockSize, data[..chunk]);
      WriteServes(Put(c.dev, loc % d.blockSize, data[..chunk]), loc + chunk, data[chunk..]);
    }
  }

  lemma PutKeepsPlan(d: Device, offset: nat, data: seq<Byte>)
    requires d.Ok() && d.OnDisk(d.block) && offset + |data| <= d.blockSize
    ensures Put(d, offset, data).plan == d.plan
  {
  }
}
