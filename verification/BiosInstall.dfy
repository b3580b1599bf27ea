/** The GPT path of bios_install (limine/limine.c:667-706, 874-1069) on the installer's session: probing,
    embedding, writing the stages, and undoing everything when a step fails. */
module BiosInstall {
  import opened Arithmetic
  import opened Bytes
  import opened BlockCache
  import opened UndoLog
  import opened Rollback
  import opened UninstallFile
  import opened Crc32
  import opened GptLayout
  import opened GptTables
  import opened GptEmbed
  import opened InstallPlan
  import opened Installer

  /** A write that is number `k` of a plan. */
  method PlannedWrite(s: Session, buffer: seq<Byte>, loc: nat, ghost before: seq<Op>, ghost ops: seq<Op>, ghost k: nat) returns (ok: bool)
    requires s.Valid() && !s.uninstalling && s.Recoverable()
    requires k < |ops| && ops[k] == WriteOp(loc, buffer) && s.trace == before + ops[..k]
    modifies s`disk, s`dirty, s`plan, s`cachedBlock, s`logCount, s`trace, s.cache, s.log
    ensures s.Valid() && s.trace == before + ops[..k + 1]
    ensures ok ==> s.Recoverable() && s.Dev().Flat() == FlatWrite(old(s.Dev().Flat()), loc, buffer)
    ensures !ok ==> s.Abandoned()
    ensures Issued(before, s.trace, ops, k + 1 == |ops|) && Issued(before, s.trace, ops, ok && k + 1 == |ops|)
  {
    hide Device.Flat, Install, FlatWrite, Undoable;
    ok := s.TryWrite(buffer, loc);
    IssuedOp(before, s.trace, ops, k);
  }

  /** The loop that looks for the last used entry. */
  method ScanEntries(s: Session, table: nat, entrySize: nat, n: nat) returns (ok: bool, maxUsed: int)
    requires s.Valid() && !s.uninstalling && s.Recoverable()
    modifies s`disk, s`dirty, s`plan, s`cachedBlock, s`trace, s.cache
    ensures s.Valid()
    ensures ok ==> s.Recoverable() && s.Dev().Flat() == old(s.Dev().Flat())
    ensures ok ==> maxUsed == MaxUsed(s.Dev().Flat(), table, entrySize, n)
    ensures !ok ==> s.Abandoned()
    ensures Issued(old(s.trace), s.trace, ScanOps(table, entrySize, n), ok)
  {
    hide Device.Flat, Install, FlatRead, Undoable;
    maxUsed := -1;
    ok := true;
    ghost var f := s.Dev().Flat();
    for i := 0 to n
      invariant s.Valid() && s.Recoverable() && s.Dev().Flat() == f
      invariant maxUsed == MaxUsed(f, table, entrySize, i)
      invariant s.trace == old(s.trace) + ScanOps(table, entrySize, n)[..i]
    {
      var entry;
      ok, entry := s.TryRead(Wrap(EntryAt(table, entrySize, i)), ENTRY_BYTES);
      IssuedOp(old(s.trace), s.trace, ScanOps(table, entrySize, n), i);
      if !ok {
        return;
      }
      if UsedEntry(entry) {
        if i > maxUsed {
          maxUsed := i;
        }
      }
    }
  }

  /** The loop that zeroes the unused entries of one array. */
  method ZeroTable(s: Session, table: nat, entrySize: nat, from: nat, until: nat) returns (ok: bool)
    requires s.Valid() && !s.uninstalling && s.Recoverable() && from <= until
    modifies s`disk, s`dirty, s`plan, s`cachedBlock, s`logCount, s`trace, s.cache, s.log
    ensures s.Valid()
    ensures ok ==> s.Recoverable() && s.Dev().Flat() == ZeroEntries(old(s.Dev().Flat()), table, entrySize, from, until)
    ensures !ok ==> s.Abandoned()
    ensures Issued(old(s.trace), s.trace, ZeroOps(table, entrySize, from, until), ok)
  {
    hide Device.Flat, Install, FlatWrite, Undoable, Wrap, EntryAt;
    ok := true;
    ghost var f := s.Dev().Flat();
    for i := from to until
      invariant s.Valid() && s.Recoverable() && !s.uninstalling
      invariant s.trace == old(s.trace) + ZeroOps(table, entrySize, from, until)[..i - from]
      invariant s.Dev().Flat() == ZeroEntries(f, table, entrySize, from, i)
    {
      ZeroEntriesEnd(f, table, entrySize, from, i);
      ok := s.TryWrite(Zeros(entrySize), Wrap(EntryAt(table, entrySize, i)));
      IssuedOp(old(s.trace), s.trace, ZeroOps(table, entrySize, from, until), i - from);
      if !ok {
        return;
      }
    }
  }

  datatype EmbedResult = Embedded(locA: nat, locB: nat) | Refused | NotEmbedded

  /** Embedding proper.  The zeroing of the backup array writes `EntrySize(h2)` bytes out of a buffer
      of `EntrySize(h)`. */
  method EmbedGpt(s: Session, lb: nat, h: Header, h2: Header, sizeA: nat, sizeB: nat) returns (r: EmbedResult)
    requires s.Valid() && !s.uninstalling && s.Recoverable()
    requires 0 < lb && 0 < EntrySize(h) && EntrySize(h2) <= EntrySize(h)
    modifies s`disk, s`dirty, s`plan, s`cachedBlock, s`logCount, s`trace, s.cache, s.log
    ensures s.Valid()
    ensures r.NotEmbedded? ==> s.Abandoned()
    ensures !r.NotEmbedded? ==> s.Recoverable()
    ensures r.Refused? ==> Embed(old(s.Dev().Flat()), lb, h, h2, sizeA, sizeB) == None && s.Dev().Flat() == old(s.Dev().Flat())
    ensures r.Embedded? ==> Embed(old(s.Dev().Flat()), lb, h, h2, sizeA, sizeB) == Some(s.Dev().Flat())
                            && r.locA == StageLocation(lb, Table(h), sizeA) && r.locB == StageLocation(lb, Table(h2), sizeB)
    ensures Issued(old(s.trace), s.trace, EmbedOps(old(s.Dev().Flat()), lb, h, h2, sizeA), !r.NotEmbedded?)
  {
    hide Device.Flat, Install, FlatWrite, FlatRead, Undoable, Wrap, EntryAt, ZeroEntries, MaxUsed, Number, Resized,
         StageLocation, NewEntryCount, Signed, Crc, ScanOps, ResizeOps, Issued;
    ghost var f, before := s.Dev().Flat(), s.trace;
    ghost var scan := ScanOps(Table(h) * lb, EntrySize(h), Count(h));
    var ok, maxUsed := ScanEntries(s, Table(h) * lb, EntrySize(h), Count(h));
    var locA, locB := StageLocation(lb, Table(h), sizeA), StageLocation(lb, Table(h2), sizeB);
    var count := NewEntryCount(lb, Table(h), EntrySize(h), sizeA);
    if !ok {
      ScanFailed(before, s.trace, f, lb, h, h2, sizeA);
      return NotEmbedded;
    }
    if Signed(count) <= maxUsed {
      assert scan + [] == scan;
      return Refused;
    }
    SignedBound(count, maxUsed);
    ghost var mid := s.trace;
    ok := ResizeGpt(s, lb, h, h2, maxUsed + 1, count);
    IssuedThen(before, mid, s.trace, scan, ResizeOps(f, lb, h, h2, maxUsed + 1, count), ok);
    if !ok {
      return NotEmbedded;
    }
    return Embedded(locA, locB);
  }

  lemma ScanFailed(before: seq<Op>, after: seq<Op>, f: seq<Byte>, lb: nat, h: Header, h2: Header, sizeA: nat)
    requires 0 < lb && 0 < EntrySize(h) && Issued(before, after, ScanOps(Table(h) * lb, EntrySize(h), Count(h)), false)
    ensures Issued(before, after, EmbedOps(f, lb, h, h2, sizeA), false)
  {
    hide Issued, ScanOps, ResizeOps, Number, MaxUsed, NewEntryCount;
    var scan, used, count := ScanOps(Table(h) * lb, EntrySize(h), Count(h)), MaxUsed(f, Table(h) * lb, EntrySize(h), Count(h)),
                             NewEntryCount(lb, Table(h), EntrySize(h), sizeA);
    if Signed(count) <= used {
      assert scan + [] == scan;
    } else {
      SignedBound(count, used);
      IssuedSome(before, after, scan, ResizeOps(f, lb, h, h2, used + 1, count));
    }
  }

  /** Zeroing the unused entries of both arrays and rewriting both headers. */
  method ResizeGpt(s: Session, lb: nat, h: Header, h2: Header, from: nat, count: nat) returns (ok: bool)
    requires s.Valid() && !s.uninstalling && s.Recoverable() && from <= count && EntrySize(h2) <= EntrySize(h)
    modifies s`disk, s`dirty, s`plan, s`cachedBlock, s`logCount, s`trace, s.cache, s.log
    ensures s.Valid()
    ensures ok ==> s.Recoverable() && s.Dev().Flat() == ResizedGpt(old(s.Dev().Flat()), lb, h, h2, from, count)
    ensures !ok ==> s.Abandoned()
    ensures Issued(old(s.trace), s.trace, ResizeOps(old(s.Dev().Flat()), lb, h, h2, from, count), ok)
  {
    hide Device.Flat, Install, FlatWrite, FlatRead, Undoable, Wrap, EntryAt, ZeroEntries, Number, Resized, Crc, ZeroOps, HeaderOps, Issued;
    ghost var f, before := s.Dev().Flat(), s.trace;
    ghost var zeros := ZeroOps(Table(h) * lb, EntrySize(h), from, count);
    ghost var zeros2 := ZeroOps(Table(h2) * lb, EntrySize(h2), from, count);
    ghost var zeroed := ZeroEntries(ZeroEntries(f, Table(h) * lb, EntrySize(h), from, count), Table(h2) * lb, EntrySize(h2), from, count);
    ghost var rest := HeaderOps(lb, h, h2, count, FlatRead(zeroed, Wrap(Table(h) * lb), count * EntrySize(h)));
    ok := ZeroTable(s, Table(h) * lb, EntrySize(h), from, count);
    if !ok {
      IssuedSome(before, s.trace, zeros, zeros2);
      IssuedSome(before, s.trace, zeros + zeros2, rest);
      return;
    }
    ghost var mid := s.trace;
    ok := ZeroTable(s, Table(h2) * lb, EntrySize(h2), from, count);
    IssuedThen(before, mid, s.trace, zeros, zeros2, ok);
    if !ok {
      IssuedSome(before, s.trace, zeros + zeros2, rest);
      return;
    }
    mid := s.trace;
    ok := WriteHeaders(s, lb, h, h2, count);
    IssuedThen(before, mid, s.trace, zeros + zeros2, rest, ok);
  }

  /** Both headers, for the entries that are now in the primary array. */
  method WriteHeaders(s: Session, lb: nat, h: Header, h2: Header, count: nat) returns (ok: bool)
    requires s.Valid() && !s.uninstalling && s.Recoverable()
    modifies s`disk, s`dirty, s`plan, s`cachedBlock, s`logCount, s`trace, s.cache, s.log
    ensures s.Valid()
    ensures var entries := FlatRead(old(s.Dev().Flat()), Wrap(Table(h) * lb), count * EntrySize(h));
            && (ok ==> s.Recoverable() && s.Dev().Flat() == WithHeaders(old(s.Dev().Flat()), lb, h, h2, count, entries))
            && (!ok ==> s.Abandoned())
            && Issued(old(s.trace), s.trace, HeaderOps(lb, h, h2, count, entries), ok)
  {
    hide Device.Flat, Install, FlatWrite, FlatRead, Undoable, Wrap, Number, Resized, Crc;
    ghost var ops := HeaderOps(lb, h, h2, count, FlatRead(s.Dev().Flat(), Wrap(Table(h) * lb), count * EntrySize(h)));
    var entries;
    ok, entries := s.TryRead(Wrap(Table(h) * lb), count * EntrySize(h));
    IssuedOp(old(s.trace), s.trace, ops, 0);
    if !ok {
      return;
    }
    var resized := ResizeHeader(h, count, entries);
    ok := PlannedWrite(s, resized, lb, old(s.trace), ops, 1);
    if !ok {
      return;
    }
    var resized2 := ResizeHeader(h2, count, entries);
    ok := PlannedWrite(s, resized2, Wrap(lb * Alternate(h)), old(s.trace), ops, 2);
  }

  /** The three fields of a header that change. */
  method ResizeHeader(h: Header, count: nat, entries: seq<Byte>) returns (r: Header)
    ensures r == Resized(h, count, entries)
  {
    hide Crc;
    var crc := TableCrc(entries);
    r := Splice(h, ARRAY_CRC_AT, LittleEndian(crc as int, 4));
    r := Splice(r, COUNT_AT, LittleEndian(count % U32, 4));
    r := Splice(r, CRC_AT, [0, 0, 0, 0]);
    crc := TableCrc(r[..92]);
    r := Splice(r, CRC_AT, LittleEndian(crc as int, 4));
  }

  /** The boot sector and both halves of the second stage. */
  method InstallStages(s: Session, image: seq<Byte>, sizeA: nat, sizeB: nat, locA: nat, locB: nat) returns (ok: bool)
    requires s.Valid() && !s.uninstalling && s.Recoverable() && 512 + sizeA <= |image|
    modifies s`disk, s`dirty, s`plan, s`cachedBlock, s`logCount, s`trace, s.cache, s.log
    ensures s.Valid()
    ensures ok ==> s.Recoverable() && s.Dev().Flat() == Staged(old(s.Dev().Flat()), image, sizeA, sizeB, locA, locB)
    ensures !ok ==> s.Abandoned()
    ensures Issued(old(s.trace), s.trace, StageOps(old(s.Dev().Flat()), image, sizeA, sizeB, locA, locB), ok)
  {
    hide Device.Flat, Install, FlatRead, Undoable, Imaged, Booted, ImageOps, BootOps, Issued;
    ghost var f, before := s.Dev().Flat(), s.trace;
    ghost var imageOps := ImageOps(image, sizeA, locA, locB);
    ghost var bootOps := BootOps(sizeA, sizeB, locA, locB, FlatRead(f, 218, 6), FlatRead(f, 440, 70));
    ghost var ops := [ReadOp(218, 6)] + [ReadOp(440, 70)];
    var timestamp, partitions;
    ok, timestamp := s.TryRead(218, 6);
    IssuedOp(before, s.trace, ops, 0);
    IssuedSome(before, s.trace, ops, imageOps);
    IssuedSome(before, s.trace, ops + imageOps, bootOps);
    if !ok { return; }
    ok, partitions := s.TryRead(440, 70);
    IssuedOp(before, s.trace, ops, 1);
    IssuedSome(before, s.trace, ops, imageOps);
    IssuedSome(before, s.trace, ops + imageOps, bootOps);
    if !ok { return; }
    ghost var mid := s.trace;
    ok := WriteImage(s, image, sizeA, locA, locB);
    IssuedThen(before, mid, s.trace, ops, imageOps, ok);
    if !ok {
      IssuedSome(before, s.trace, ops + imageOps, bootOps);
      return;
    }
    mid := s.trace;
    ok := FillBootSector(s, sizeA, sizeB, locA, locB, timestamp, partitions);
    IssuedThen(before, mid, s.trace, ops + imageOps, bootOps, ok);
  }

  method WriteImage(s: Session, image: seq<Byte>, sizeA: nat, locA: nat, locB: nat) returns (ok: bool)
    requires s.Valid() && !s.uninstalling && s.Recoverable() && 512 + sizeA <= |image|
    modifies s`disk, s`dirty, s`plan, s`cachedBlock, s`logCount, s`trace, s.cache, s.log
    ensures s.Valid()
    ensures ok ==> s.Recoverable() && s.Dev().Flat() == Imaged(old(s.Dev().Flat()), image, sizeA, locA, locB)
    ensures !ok ==> s.Abandoned()
    ensures Issued(old(s.trace), s.trace, ImageOps(image, sizeA, locA, locB), ok)
  {
    hide Device.Flat, Device.Ok, Install, FlatWrite, Undoable, LeftBehind;
    ghost var ops := ImageOps(image, sizeA, locA, locB);
    ok := PlannedWrite(s, image[..512], 0, old(s.trace), ops, 0);
    if !ok { return; }
    ok := PlannedWrite(s, image[512..512 + sizeA], locA, old(s.trace), ops, 1);
    if !ok { return; }
    ok := PlannedWrite(s, image[512 + sizeA..], locB, old(s.trace), ops, 2);
  }

  method FillBootSector(s: Session, sizeA: nat, sizeB: nat, locA: nat, locB: nat, timestamp: seq<Byte>, partitions: seq<Byte>)
    returns (ok: bool)
    requires s.Valid() && !s.uninstalling && s.Recoverable()
    modifies s`disk, s`dirty, s`plan, s`cachedBlock, s`logCount, s`trace, s.cache, s.log
    ensures s.Valid()
    ensures ok ==> s.Recoverable() && s.Dev().Flat() == Booted(old(s.Dev().Flat()), sizeA, sizeB, locA, locB, timestamp, partitions)
    ensures !ok ==> s.Abandoned()
    ensures Issued(old(s.trace), s.trace, BootOps(sizeA, sizeB, locA, locB, timestamp, partitions), ok)
  {
    hide Device.Flat, Device.Ok, Install, FlatWrite, Undoable, LeftBehind, Word, Issued;
    ghost var ops := BootOps(sizeA, sizeB, locA, locB, timestamp, partitions);
    ok := PlannedWrite(s, Word(sizeA, 2), 0x1A4, old(s.trace), ops, 0);
    if !ok { return; }
    ok := PlannedWrite(s, Word(sizeB, 2), 0x1A6, old(s.trace), ops, 1);
    if !ok { return; }
    ok := PlannedWrite(s, Word(locA, 8), 0x1A8, old(s.trace), ops, 2);
    if !ok { return; }
    ok := PlannedWrite(s, Word(locB, 8), 0x1B0, old(s.trace), ops, 3);
    if !ok { return; }
    ok := PlannedWrite(s, timestamp, 218, old(s.trace), ops, 4);
    if !ok { return; }
    ok := PlannedWrite(s, partitions, 440, old(s.trace), ops, 5);
  }

  /** The probe for a GPT header at either logical block size; `lb` is 0 when there is none. */
  method ProbeGpt(s: Session) returns (ok: bool, lb: nat, h: Header)
    requires s.Valid() && !s.uninstalling && s.Recoverable()
    modifies s`disk, s`dirty, s`plan, s`cachedBlock, s`trace, s.cache
    ensures s.Valid()
    ensures ok ==> s.Recoverable() && s.Dev().Flat() == old(s.Dev().Flat()) && (lb, h) == Probed(s.Dev().Flat())
    ensures !ok ==> s.Abandoned()
    ensures Issued(old(s.trace), s.trace, ProbeOps(old(s.Dev().Flat())), ok)
  {
    hide Device.Flat, Install, Undoable, FlatRead;
    var guesses := [512, 4096];
    ghost var f, ops: seq<Op> := s.Dev().Flat(), [ReadOp(512, HEADER_BYTES), ReadOp(4096, HEADER_BYTES)];
    ok, lb, h := true, 0, seq(96, _ => 0 as Byte);
    for i := 0 to |guesses|
      invariant s.Valid() && s.Recoverable() && s.Dev().Flat() == f
      invariant s.trace == old(s.trace) + ops[..i]
      invariant 0 < i ==> !Signs(FlatRead(f, 512, HEADER_BYTES))
      invariant 1 < i ==> !Signs(FlatRead(f, 4096, HEADER_BYTES))
    {
      var bytes;
      ok, bytes := s.TryRead(guesses[i], HEADER_BYTES);
      IssuedOp(old(s.trace), s.trace, ops, i);
      if !ok {
        assert ProbeOps(f) == ops || ProbeOps(f) == ops[..1];
        return;
      }
      if bytes[..8] == SIGNATURE {
        assert ProbeOps(f) == ops[..i + 1];
        return true, guesses[i], bytes;
      }
    }
  }

  /** The cleanup of a failed installation: if it reports success, the disk is restored. */
  method Undo(s: Session) returns (ok: bool)
    requires s.Valid() && (s.Recoverable() || s.Abandoned())
    modifies s`disk, s`dirty, s`plan, s`cachedBlock, s`uninstalling, s`logCount, s.cache, s.log
    ensures s.Valid()
    ensures UninstallReply(ok, s.Dev()) == UndoOf(s.start, s.trace)
    ensures ok ==> Restored(s.initial, Install(s.start, s.trace), s.blockSize, s.disk)
  {
    hide Install, Uninstall, Restored, LeftBehind;
    OnlyTornWritesLose(s.start, s.trace);
    s.ReverseLog();
    ok := s.UninstallAll();
    if ok {
      RollbackRestores(s.initial, s.start, s.trace);
    }
  }

  /** What undoing these operations comes to. */
  function UndoOf(start: State, trace: seq<Op>): UninstallReply
    requires start.dev.Ok()
  {
    var out := Install(start, trace);
    Uninstall(out.st.dev, Reversed(out.st.log))
  }

  /** The final flush. */
  method FlushInstall(s: Session) returns (ok: bool)
    requires s.Valid() && s.Recoverable()
    modifies s`disk, s`dirty, s`plan, s`trace
    ensures s.Valid() && s.trace == old(s.trace) + [FlushOp]
    ensures ok ==> s.Recoverable() && s.disk == old(s.Dev().Flat()) && Replay(s.disk, Reversed(s.Log())) == s.initial
    ensures !ok ==> s.Abandoned()
  {
    hide UntouchedBut, LogFits, LogRestores, Device.Flat, Flush, DiskSettles, Install;
    FlushKeepsFlat(s.Dev());
    OneMoreStep(s.initial, s.start, s.trace, FlushOp);
    ok := s.FlushCache();
    s.trace := s.trace + [FlushOp];
    if ok {
      SameSize(s.initial, s.Log(), s.disk);
      ReplayRestoresExactly(s.initial, s.Log(), s.disk);
    }
  }

  /** Where the steps of an installation end: at the end, at a step that failed, at a check that gave up
      without any transfer failing, at a disk without a GPT, where the C code goes on to look for an MBR, or
      at headers on which it divides by zero or reads past a buffer. */
  datatype Ending = Done | Failed | GaveUp | NoGpt | Undefined

  /** The steps of bios_install on a GPT disk without a partition index, up to its cleanup label. */
  method InstallSteps(s: Session, image: seq<Byte>) returns (r: Ending, ghost lb: nat, ghost h: Header, ghost h2: Header)
    requires s.Valid() && !s.uninstalling && s.Recoverable()
    requires 512 < |image| && 2 <= Sectors(|image| - 512) <= 254
    modifies s`disk, s`dirty, s`plan, s`cachedBlock, s`logCount, s`trace, s.cache, s.log
    ensures s.Valid() && 512 + SizeA(|image| - 512) <= |image|
    ensures r.Failed? ==> s.Abandoned()
    ensures !r.Failed? ==> s.Recoverable()
    ensures r.GaveUp? || r.NoGpt? || r.Undefined? ==> s.Dev().Flat() == old(s.Dev().Flat())
    ensures r.NoGpt? ==> Probed(s.Dev().Flat()).0 == 0
    ensures r.Done? ==> InstalledOn(old(s.Dev().Flat()), s.Dev().Flat(), lb, h, h2, image)
    ensures Issued(old(s.trace), s.trace, InstallOps(old(s.Dev().Flat()), image), !r.Failed?)
  {
    hide Device.Flat, Install, Undoable, LeftBehind, Number, SizeA, Sectors, InstalledOn, Issued, ProbedOps, ProbeOps, Probed;
    HalvesCover(|image| - 512);
    ghost var f, before := s.Dev().Flat(), s.trace;
    var ok, size, header := ProbeGpt(s);
    lb, h, h2 := size, header, header;
    ghost var mid := s.trace;
    if !ok {
      IssuedSome(before, mid, ProbeOps(f), ProbedOps(f, image));
      r := Failed;
      return;
    }
    r, h2 := InstallProbed(s, image, size, header);
    IssuedThen(before, mid, s.trace, ProbeOps(f), ProbedOps(f, image), !r.Failed?);
  }

  /** From the probe on. */
  method InstallProbed(s: Session, image: seq<Byte>, lb: nat, h: Header) returns (r: Ending, ghost h2: Header)
    requires s.Valid() && !s.uninstalling && s.Recoverable() && (lb, h) == Probed(s.Dev().Flat())
    requires 512 < |image| && 2 <= Sectors(|image| - 512) <= 254 && 512 + SizeA(|image| - 512) <= |image|
    modifies s`disk, s`dirty, s`plan, s`cachedBlock, s`logCount, s`trace, s.cache, s.log
    ensures s.Valid()
    ensures r.Failed? ==> s.Abandoned()
    ensures !r.Failed? ==> s.Recoverable()
    ensures r.GaveUp? || r.NoGpt? || r.Undefined? ==> s.Dev().Flat() == old(s.Dev().Flat())
    ensures r.NoGpt? ==> lb == 0
    ensures r.Done? ==> InstalledOn(old(s.Dev().Flat()), s.Dev().Flat(), lb, h, h2, image)
    ensures Issued(old(s.trace), s.trace, ProbedOps(old(s.Dev().Flat()), image), !r.Failed?)
  {
    hide Device.Flat, Install, Undoable, LeftBehind, Number, SizeA, Sectors, InstalledOn, Issued, BackedOps, Wrap, FlatRead, Probed;
    h2 := h;
    NothingMore(s.trace);
    if lb == 0 {
      return NoGpt, h2;
    }
    ghost var f, before := s.Dev().Flat(), s.trace;
    ghost var first := ReadOp(Wrap(lb * Alternate(h)), HEADER_BYTES);
    var ok, header2 := s.TryRead(Wrap(lb * Alternate(h)), HEADER_BYTES);
    IssuedNext(before, before, s.trace, [], first, BackedOps(f, image, lb, h));
    NothingBefore([first], BackedOps(f, image, lb, h));
    if !ok {
      return Failed, h2;
    }
    ghost var mid := s.trace;
    h2 := header2;
    r := InstallBacked(s, image, lb, h, header2);
    IssuedThen(before, mid, s.trace, [first], BackedOps(f, image, lb, h), !r.Failed?);
  }

  lemma NothingBefore(a: seq<Op>, b: seq<Op>)
    ensures [] + a == a && [] + (a + b) == a + b
  {
  }

  /** From the secondary header on. */
  method InstallBacked(s: Session, image: seq<Byte>, lb: nat, h: Header, h2: Header) returns (r: Ending)
    requires s.Valid() && !s.uninstalling && s.Recoverable()
    requires 512 < |image| && 2 <= Sectors(|image| - 512) <= 254 && 512 + SizeA(|image| - 512) <= |image|
    requires 0 < lb && (lb, h) == Probed(s.Dev().Flat()) && h2 == FlatRead(s.Dev().Flat(), Wrap(lb * Alternate(h)), HEADER_BYTES)
    modifies s`disk, s`dirty, s`plan, s`cachedBlock, s`logCount, s`trace, s.cache, s.log
    ensures s.Valid()
    ensures r.Failed? ==> s.Abandoned()
    ensures !r.Failed? ==> s.Recoverable()
    ensures !r.NoGpt?
    ensures r.GaveUp? || r.Undefined? ==> s.Dev().Flat() == old(s.Dev().Flat())
    ensures r.Done? ==> InstalledOn(old(s.Dev().Flat()), s.Dev().Flat(), lb, h, h2, image)
    ensures Issued(old(s.trace), s.trace, BackedOps(old(s.Dev().Flat()), image, lb, h), !r.Failed?)
  {
    hide Device.Flat, Install, Undoable, Number, Embed, Staged, StageLocation, SizeA, SizeB, Sectors, InstalledOn, Issued, EmbedOps, StageOps, Wrap, FlatRead,
         Zeroed;
    var sizeA, sizeB := SizeA(|image| - 512), SizeB(|image| - 512);
    NothingMore(s.trace);
    if h2[..8] != SIGNATURE {
      return GaveUp;
    }
    if EntrySize(h) == 0 || EntrySize(h2) > EntrySize(h) {
      return Undefined;
    }
    ghost var f, before := s.Dev().Flat(), s.trace;
    ghost var embed := EmbedOps(f, lb, h, h2, sizeA);
    var e := EmbedGpt(s, lb, h, h2, sizeA, sizeB);
    if !e.Embedded? {
      assert embed + [] == embed;
      BackedFailed(before, s.trace, f, image, lb, h, h2);
      return if e.NotEmbedded? then Failed else GaveUp;
    }
    ghost var mid, g := s.trace, s.Dev().Flat();
    var ok := InstallStages(s, image, sizeA, sizeB, e.locA, e.locB);
    IssuedThen(before, mid, s.trace, embed, StageOps(g, image, sizeA, sizeB, e.locA, e.locB), ok);
    r := if ok then Done else Failed;
    if ok {
      ProbedIsAt(f);
      IssuedExactly(before, s.trace, embed + StageOps(g, image, sizeA, sizeB, e.locA, e.locB));
      UndoableIsOk(s.initial, s.start);
      CompletedFits(s.start, before, s.trace, f, g, lb, h, h2, image);
      InstalledBySteps(f, g, s.Dev().Flat(), lb, h, h2, image);
    }
  }

  lemma UndoableIsOk(init: seq<Byte>, s: State)
    requires Undoable(init, s)
    ensures s.dev.Ok() && |s.log| <= UNINSTALL_DATA_MAX
  {
  }

  lemma IssuedExactly(before: seq<Op>, after: seq<Op>, ops: seq<Op>)
    ensures Issued(before, after, ops, true) ==> after == before + ops
  {
  }

  /** An installation that completes has found room in the log for every entry it zeroed. */
  lemma CompletedFits(start: State, before: seq<Op>, trace: seq<Op>, f: seq<Byte>, e: seq<Byte>, lb: nat, h: Header, h2: Header, image: seq<Byte>)
    requires start.dev.Ok() && |start.log| <= UNINSTALL_DATA_MAX && Install(start, trace).Completed?
    requires 512 < |image| && 512 + SizeA(|image| - 512) <= |image| && 0 < lb && 0 < EntrySize(h)
    requires var sizeA, sizeB := SizeA(|image| - 512), SizeB(|image| - 512);
             && Embed(f, lb, h, h2, sizeA, sizeB) == Some(e)
             && trace == before + (EmbedOps(f, lb, h, h2, sizeA)
                                   + StageOps(e, image, sizeA, sizeB, StageLocation(lb, Table(h), sizeA), StageLocation(lb, Table(h2), sizeB)))
    ensures FitsLog(f, lb, h, SizeA(|image| - 512))
  {
    hide Install, Embed, EmbedOps, StageOps, StageLocation, SizeA, SizeB, Number, Requests, WritesOf, Zeroed;
    var sizeA, sizeB := SizeA(|image| - 512), SizeB(|image| - 512);
    var embed := EmbedOps(f, lb, h, h2, sizeA);
    var stages := StageOps(e, image, sizeA, sizeB, StageLocation(lb, Table(h), sizeA), StageLocation(lb, Table(h2), sizeB));
    CompletedIsLogged(start, trace);
    WritesOfBoth(before, embed + stages);
    WritesOfBoth(embed, stages);
    WritesOfEmbedding(f, lb, h, h2, sizeA, sizeB);
    WritesOfStages(e, image, sizeA, sizeB, StageLocation(lb, Table(h), sizeA), StageLocation(lb, Table(h2), sizeB));
  }

  lemma NothingMore(before: seq<Op>)
    ensures Issued(before, before, [], true)
  {
  }

  lemma ProbedIsAt(f: seq<Byte>)
    ensures var (lb, h) := Probed(f); lb == 0 || (lb in {512, 4096} && HeaderAt(f, lb, h))
  {
  }

  lemma BackedFailed(before: seq<Op>, after: seq<Op>, f: seq<Byte>, image: seq<Byte>, lb: nat, h: Header, h2: Header)
    requires 512 < |image| && 512 + SizeA(|image| - 512) <= |image|
    requires 0 < lb && h2 == FlatRead(f, Wrap(lb * Alternate(h)), HEADER_BYTES) && Signs(h2) && 0 < EntrySize(h) && EntrySize(h2) <= EntrySize(h)
    ensures Issued(before, after, EmbedOps(f, lb, h, h2, SizeA(|image| - 512)), false) ==> Issued(before, after, BackedOps(f, image, lb, h), false)
  {
    hide Issued, EmbedOps, StageOps, StageLocation, Embed, Number, FlatRead, SizeA, SizeB, Wrap;
    var embed := EmbedOps(f, lb, h, h2, SizeA(|image| - 512));
    var all := BackedOps(f, image, lb, h);
    assert all == embed + all[|embed|..];
    if Issued(before, after, embed, false) {
      IssuedSome(before, after, embed, all[|embed|..]);
    }
  }

  /** The disk `g` is `f` with the image installed under these headers. */
  ghost predicate InstalledOn(f: seq<Byte>, g: seq<Byte>, lb: nat, h: Header, h2: Header, image: seq<Byte>)
    requires 512 < |image|
  {
    var sizeA, sizeB := SizeA(|image| - 512), SizeB(|image| - 512);
    && lb in {512, 4096} && HeaderAt(f, lb, h) && 0 < EntrySize(h)
    && h2 == FlatRead(f, Wrap(lb * Alternate(h)), HEADER_BYTES) && h2[..8] == SIGNATURE
    && 512 + sizeA <= |image|
    && Embed(f, lb, h, h2, sizeA, sizeB).Some? && FitsLog(f, lb, h, sizeA)
    && g == Staged(Embed(f, lb, h, h2, sizeA, sizeB).value, image, sizeA, sizeB,
                   StageLocation(lb, Table(h), sizeA), StageLocation(lb, Table(h2), sizeB))
  }

  lemma InstalledBySteps(f: seq<Byte>, e: seq<Byte>, g: seq<Byte>, lb: nat, h: Header, h2: Header, image: seq<Byte>)
    requires 512 < |image| && lb in {512, 4096} && HeaderAt(f, lb, h) && 0 < EntrySize(h)
    requires h2 == FlatRead(f, Wrap(lb * Alternate(h)), HEADER_BYTES) && h2[..8] == SIGNATURE
    requires var sizeA, sizeB := SizeA(|image| - 512), SizeB(|image| - 512);
             && 512 + sizeA <= |image|
             && Embed(f, lb, h, h2, sizeA, sizeB) == Some(e) && FitsLog(f, lb, h, sizeA)
             && g == Staged(e, image, sizeA, sizeB, StageLocation(lb, Table(h), sizeA), StageLocation(lb, Table(h2), sizeB))
    ensures InstalledOn(f, g, lb, h, h2, image)
  {
    hide Number, Embed, Staged, StageLocation, SizeA, SizeB, Wrap, FlatRead, Zeroed;
  }

  /** On a well-ordered disk, an installation leaves both headers valid and every used entry alone, whatever the
      size of the image; entries longer than a block need a first half of at most 32 blocks. */
  lemma InstalledGptIsIntact(f: seq<Byte>, g: seq<Byte>, lb: nat, h: Header, h2: Header, image: seq<Byte>)
    requires 512 < |image| && 2 <= Sectors(|image| - 512) <= 254
    requires InstalledOn(f, g, lb, h, h2, image) && WellOrdered(f, lb, h, h2)
    requires EntrySize(h) <= lb || RoundUp(SizeA(|image| - 512), lb) <= 32
    ensures var p := PlacesOf(f, lb, h, h2, SizeA(|image| - 512), SizeB(|image| - 512));
            && Ordered(f, p) && |g| == |f|
            && GptIntact(f, g, lb, NewEntryCount(lb, Table(h), EntrySize(h), SizeA(|image| - 512)), p)
  {
    hide Number, Embed, Staged, StageLocation, NewEntryCount, MaxUsed, SizeA, SizeB, Sectors, WellOrdered, Ordered, GptIntact, Wrap, FlatRead, RoundUp,
         FitsLog;
    HalvesCover(|image| - 512);
    SizeIsSmall(|image| - 512);
    TableEndsInside(f, lb, h, h2);
    CompletedIsShort(f, lb, h, h2, SizeA(|image| - 512), SizeB(|image| - 512));
    EmbeddingKeepsGptValid(f, lb, h, h2, image, SizeA(|image| - 512), SizeB(|image| - 512));
  }

  lemma TableEndsInside(f: seq<Byte>, lb: nat, h: Header, h2: Header)
    requires WellOrdered(f, lb, h, h2)
    ensures 0 < lb < U16 && U64 % lb == 0 && TableEnd(lb, Table(h)) < U64
  {
    hide Number, MaxUsed;
    TableEndsOrder(lb, Table(h), Table(h2));
  }

  /** A first half that completes takes at most 32 blocks: for a longer one the guard refuses, or the count wraps
      to more entries than the log has room for. */
  lemma CompletedIsShort(f: seq<Byte>, lb: nat, h: Header, h2: Header, sizeA: nat, sizeB: nat)
    requires 0 < lb < U16 && U64 % lb == 0 && 0 < EntrySize(h) && sizeA < U16 && TableEnd(lb, Table(h)) < U64
    requires Embed(f, lb, h, h2, sizeA, sizeB).Some? && FitsLog(f, lb, h, sizeA)
    ensures EntrySize(h) <= lb ==> RoundUp(sizeA, lb) <= 32
  {
    hide Number, NewEntryCount, MaxUsed, RoundUp, Signed, TableEnd, ResizedGpt;
    var used := MaxUsed(f, Table(h) * lb, EntrySize(h), Count(h));
    CountIsBelow(h);
    if sizeA <= TableEnd(lb, Table(h)) {
      GuardMeansRoom(lb, Table(h), EntrySize(h), sizeA, used);
    } else {
      CountBeyond(lb, Table(h), EntrySize(h), sizeA);
    }
  }

  lemma CountIsBelow(h: Header)
    ensures Count(h) < U32
  {
    LittleEndianOfNumber(h[COUNT_AT..COUNT_AT + 4]);
    assert Power256(4) == U32;
  }

  /** Beyond the end of the table area the guard lets the embedding through, and no installation completes,
      whatever the device and its faults. */
  lemma BeyondTableNeverCompletes(s: State, f: seq<Byte>, image: seq<Byte>)
    requires s.dev.Ok() && |s.log| <= UNINSTALL_DATA_MAX
    requires 512 < |image| && 512 + SizeA(|image| - 512) <= |image|
    requires var (lb, h) := Probed(f);
             && lb != 0 && 2 <= EntrySize(h) <= lb && TableEnd(lb, Table(h)) < SizeA(|image| - 512)
             && var h2 := FlatRead(f, Wrap(lb * Alternate(h)), HEADER_BYTES);
                Signs(h2) && EntrySize(h2) <= EntrySize(h)
    ensures var (lb, h) := Probed(f);
            var h2 := FlatRead(f, Wrap(lb * Alternate(h)), HEADER_BYTES);
            && Embed(f, lb, h, h2, SizeA(|image| - 512), SizeB(|image| - 512)).Some?
            && !Install(s, InstallOps(f, image)).Completed?
  {
    hide Install, InstallOps, Requests, WritesOf, Number, SizeA, SizeB, FlatRead, Wrap, TableEnd, NewEntryCount, MaxUsed, Signed, ResizedGpt;
    var (lb, h) := Probed(f);
    ProbedIsAt(f);
    SizeIsSmall(|image| - 512);
    CountIsBelow(h);
    CountBeyond(lb, Table(h), EntrySize(h), SizeA(|image| - 512));
    WritesOfInstall(f, image, lb, h);
    if Install(s, InstallOps(f, image)).Completed? {
      CompletedIsLogged(s, InstallOps(f, image));
    }
  }

  lemma SizeIsSmall(stage2: nat)
    ensures SizeA(stage2) < U16
  {
  }

  datatype InstallResult = Installed | Undone(restored: bool) | NotGpt | Unspecified

  /** bios_install with its cleanup: a failed installation is undone, a successful one leaves the log
      ready to be stored. */
  method InstallOnGpt(s: Session, image: seq<Byte>) returns (r: InstallResult, ghost lb: nat, ghost h: Header, ghost h2: Header)
    requires s.Valid() && !s.uninstalling && s.Recoverable() && s.Dev().Flat() == s.initial
    requires 512 < |image| && 2 <= Sectors(|image| - 512) <= 254
    modifies s`disk, s`dirty, s`plan, s`cachedBlock, s`logCount, s`trace, s`uninstalling, s.cache, s.log
    ensures s.Valid() && 512 + SizeA(|image| - 512) <= |image|
    ensures Issued(old(s.trace), s.trace, InstallOps(s.initial, image) + [FlushOp], r.Installed?)
    ensures r.Undone? ==> UninstallReply(r.restored, s.Dev()) == UndoOf(s.start, s.trace)
    ensures r.Undone? && r.restored ==> Restored(s.initial, Install(s.start, s.trace), s.blockSize, s.disk)
    ensures r.NotGpt? || r.Unspecified? ==> s.Recoverable() && s.Dev().Flat() == s.initial
    ensures r.NotGpt? ==> Probed(s.initial).0 == 0
    ensures r.Installed? ==> InstalledOn(s.initial, s.disk, lb, h, h2, image) && Replay(s.disk, s.Log()) == s.initial
  {
    hide Device.Flat, Install, Undoable, LeftBehind, InstalledOn, Replay, Sectors, Flush, InstallOps, Issued, Restored, SizeA, UndoOf;
    HalvesCover(|image| - 512);
    var ending;
    ghost var before, plan := s.trace, InstallOps(s.initial, image);
    ending, lb, h, h2 := InstallSteps(s, image);
    ghost var mid := s.trace;
    IssuedWeaker(before, mid, plan);
    IssuedSome(before, mid, plan, [FlushOp]);
    match ending {
      case Undefined =>
        return Unspecified, lb, h, h2;
      case NoGpt =>
        return NotGpt, lb, h, h2;
      case Failed =>
        var restored := Undo(s);
        return Undone(restored), lb, h, h2;
      case GaveUp =>
        var restored := Undo(s);
        return Undone(restored), lb, h, h2;
      case Done =>
        var ok := FlushInstall(s);
        IssuedNext(before, mid, s.trace, plan, FlushOp, []);
        IssuedWeaker(before, s.trace, plan + [FlushOp]);
        if !ok {
          var restored := Undo(s);
          return Undone(restored), lb, h, h2;
        }
        s.ReverseLog();
        return Installed, lb, h, h2;
    }
  }

  // ---------------------------------------------------------------------------------------------
  // When the log is long enough
  // ---------------------------------------------------------------------------------------------

  lemma {:induction false} WritesOfAll(ops: seq<Op>)
    requires forall i :: 0 <= i < |ops| ==> ops[i].WriteOp?
    ensures |WritesOf(Requests(ops))| == |ops|
  {
    if ops == [] {
    } else {
      assert Requests(ops)[1..] == Requests(ops[1..]);
      WritesOfAll(ops[1..]);
    }
  }

  lemma {:induction false} WritesOfNone(ops: seq<Op>)
    requires forall i :: 0 <= i < |ops| ==> !ops[i].WriteOp?
    ensures WritesOf(Requests(ops)) == []
  {
    if ops == [] {
    } else {
      assert Requests(ops)[1..] == Requests(ops[1..]);
      WritesOfNone(ops[1..]);
    }
  }

  lemma WritesOfBoth(a: seq<Op>, b: seq<Op>)
    ensures |WritesOf(Requests(a + b))| == |WritesOf(Requests(a))| + |WritesOf(Requests(b))|
  {
    assert Requests(a + b) == Requests(a) + Requests(b);
    WritesJoin(Requests(a), Requests(b));
  }

  /** How many entries of each array an embedding zeroes. */
  function Zeroed(f: seq<Byte>, lb: nat, h: Header, sizeA: nat): int
    requires 0 < lb && 0 < EntrySize(h)
  {
    NewEntryCount(lb, Table(h), EntrySize(h), sizeA) - UsedCount(f, lb, h)
  }

  /** The undo log holds the writes of an embedding and of the stages. */
  predicate FitsLog(f: seq<Byte>, lb: nat, h: Header, sizeA: nat)
    requires 0 < lb && 0 < EntrySize(h)
  {
    2 * Zeroed(f, lb, h, sizeA) + 11 <= 256
  }

  lemma WritesOfEmbedding(f: seq<Byte>, lb: nat, h: Header, h2: Header, sizeA: nat, sizeB: nat)
    requires 0 < lb && 0 < EntrySize(h) && Embed(f, lb, h, h2, sizeA, sizeB).Some?
    ensures |WritesOf(Requests(EmbedOps(f, lb, h, h2, sizeA)))| == 2 * Zeroed(f, lb, h, sizeA) + 2
  {
    hide NewEntryCount, MaxUsed, ZeroEntries, Number, Resized, HeaderOps, Requests, WritesOf, Signed;
    var size, used, count := EntrySize(h), MaxUsed(f, Table(h) * lb, EntrySize(h), Count(h)), NewEntryCount(lb, Table(h), EntrySize(h), sizeA);
    SignedBound(count, used);
    var scan := ScanOps(Table(h) * lb, size, Count(h));
    var zeros, zeros2 := ZeroOps(Table(h) * lb, size, used + 1, count), ZeroOps(Table(h2) * lb, EntrySize(h2), used + 1, count);
    var zeroed := ZeroEntries(ZeroEntries(f, Table(h) * lb, size, used + 1, count), Table(h2) * lb, EntrySize(h2), used + 1, count);
    var entries := FlatRead(zeroed, Wrap(Table(h) * lb), count * size);
    var headers := HeaderOps(lb, h, h2, count, entries);
    WritesOfNone(scan);
    WritesOfAll(zeros);
    WritesOfAll(zeros2);
    WritesOfHeaders(lb, h, h2, count, entries);
    WritesOfBoth(zeros, zeros2);
    WritesOfBoth(zeros + zeros2, headers);
    WritesOfBoth(scan, zeros + zeros2 + headers);
  }

  lemma WritesOfHeaders(lb: nat, h: Header, h2: Header, count: nat, entries: seq<Byte>)
    ensures |WritesOf(Requests(HeaderOps(lb, h, h2, count, entries)))| == 2
  {
    hide Number, Resized, WritesOf, Requests;
    var ops := HeaderOps(lb, h, h2, count, entries);
    WritesOfNone(ops[..1]);
    WritesOfAll(ops[1..]);
    WritesOfBoth(ops[..1], ops[1..]);
    assert ops[..1] + ops[1..] == ops;
  }

  lemma WritesOfStages(f: seq<Byte>, image: seq<Byte>, sizeA: nat, sizeB: nat, locA: nat, locB: nat)
    requires 512 + sizeA <= |image|
    ensures |WritesOf(Requests(StageOps(f, image, sizeA, sizeB, locA, locB)))| == 9
  {
    hide Word, WritesOf, Requests;
    var first: seq<Op> := [ReadOp(218, 6)] + [ReadOp(440, 70)];
    var rest := ImageOps(image, sizeA, locA, locB) + BootOps(sizeA, sizeB, locA, locB, FlatRead(f, 218, 6), FlatRead(f, 440, 70));
    WritesOfNone(first);
    WritesOfAll(rest);
    WritesOfBoth(first, rest);
    assert StageOps(f, image, sizeA, sizeB, locA, locB) == first + rest;
  }

  /** On a device that never fails, an installation that would embed fails exactly when zeroing the unused
      entries of both arrays leaves no room in the undo log for the eleven other writes. */
  lemma InstallFitsLog(s: State, f: seq<Byte>, image: seq<Byte>)
    requires s.dev.Coherent() && s.dev.plan == [] && s.log == []
    requires 512 < |image| && 512 + SizeA(|image| - 512) <= |image|
    requires var (lb, h) := Probed(f);
             && lb != 0 && 0 < EntrySize(h)
             && var h2 := FlatRead(f, Wrap(lb * Alternate(h)), HEADER_BYTES);
                Signs(h2) && EntrySize(h2) <= EntrySize(h) && Embed(f, lb, h, h2, SizeA(|image| - 512), SizeB(|image| - 512)).Some?
    requires forall op :: op in InstallOps(f, image) ==> ServedRequest(s.dev, RequestOf(op))
    ensures var (lb, h) := Probed(f);
            Install(s, InstallOps(f, image)).Completed? <==> FitsLog(f, lb, h, SizeA(|image| - 512))
  {
    hide Install, InstallOps, ServedRequest, Requests, WritesOf, Probed, Number, Embed, SizeA, SizeB, FlatRead, Wrap, Device.Coherent;
    var (lb, h) := Probed(f);
    WritesOfInstall(f, image, lb, h);
    CompletesIffLogHasRoom(s, InstallOps(f, image));
  }

  lemma WritesOfInstall(f: seq<Byte>, image: seq<Byte>, lb: nat, h: Header)
    requires 512 < |image| && 512 + SizeA(|image| - 512) <= |image|
    requires (lb, h) == Probed(f) && lb != 0 && 0 < EntrySize(h)
    requires var h2 := FlatRead(f, Wrap(lb * Alternate(h)), HEADER_BYTES);
             Signs(h2) && EntrySize(h2) <= EntrySize(h) && Embed(f, lb, h, h2, SizeA(|image| - 512), SizeB(|image| - 512)).Some?
    ensures |WritesOf(Requests(InstallOps(f, image)))| == 2 * Zeroed(f, lb, h, SizeA(|image| - 512)) + 11
  {
    hide EmbedOps, StageOps, Requests, WritesOf, Probed, Number, Embed, SizeA, SizeB, FlatRead, Wrap, Zeroed, StageLocation;
    var h2, sizeA, sizeB := FlatRead(f, Wrap(lb * Alternate(h)), HEADER_BYTES), SizeA(|image| - 512), SizeB(|image| - 512);
    var e := Embed(f, lb, h, h2, sizeA, sizeB).value;
    var locA, locB := StageLocation(lb, Table(h), sizeA), StageLocation(lb, Table(h2), sizeB);
    var second: seq<Op> := [ReadOp(Wrap(lb * Alternate(h)), HEADER_BYTES)];
    var embed, stages := EmbedOps(f, lb, h, h2, sizeA), StageOps(e, image, sizeA, sizeB, locA, locB);
    WritesOfNone(ProbeOps(f));
    WritesOfNone(second);
    WritesOfEmbedding(f, lb, h, h2, sizeA, sizeB);
    WritesOfStages(e, image, sizeA, sizeB, locA, locB);
    WritesOfBoth(embed, stages);
    WritesOfBoth(second, embed + stages);
    WritesOfBoth(ProbeOps(f), second + (embed + stages));
    assert BackedOps(f, image, lb, h) == embed + stages;
  }
}
