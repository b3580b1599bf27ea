/** The reads and writes that bios_install issues on a GPT disk (limine/limine.c:668-1050), as a function of
    the disk it finds. */
module InstallPlan {
  import opened Bytes
  import opened BlockCache
  import opened UninstallFile
  import opened GptLayout
  import opened GptTables
  import opened GptEmbed

  function ScanOps(table: nat, entrySize: nat, n: nat): (ops: seq<Op>)
    ensures |ops| == n
  {
    seq(n, i requires 0 <= i => ReadOp(Wrap(EntryAt(table, entrySize, i)), ENTRY_BYTES))
  }

  function ZeroOps(table: nat, entrySize: nat, from: nat, until: nat): (ops: seq<Op>)
    requires from <= until
    ensures |ops| == until - from
  {
    seq(until - from, i requires 0 <= i => WriteOp(Wrap(EntryAt(table, entrySize, from + i)), Zeros(entrySize)))
  }

  /** Zeroing both arrays from entry `from` up to `count`, and rewriting both headers. */
  function ResizeOps(f: seq<Byte>, lb: nat, h: Header, h2: Header, from: nat, count: nat): seq<Op>
    requires from <= count
  {
    var table, table2, size, size2 := Table(h) * lb, Table(h2) * lb, EntrySize(h), EntrySize(h2);
    var zeroed := ZeroEntries(ZeroEntries(f, table, size, from, count), table2, size2, from, count);
    var entries := FlatRead(zeroed, Wrap(table), count * size);
    ZeroOps(table, size, from, count) + ZeroOps(table2, size2, from, count) + HeaderOps(lb, h, h2, count, entries)
  }

  function HeaderOps(lb: nat, h: Header, h2: Header, count: nat, entries: seq<Byte>): seq<Op> {
    [ReadOp(Wrap(Table(h) * lb), count * EntrySize(h)),
     WriteOp(lb, Resized(h, count, entries)),
     WriteOp(Wrap(lb * Alternate(h)), Resized(h2, count, entries))]
  }

  function EmbedOps(f: seq<Byte>, lb: nat, h: Header, h2: Header, sizeA: nat): seq<Op>
    requires 0 < lb && 0 < EntrySize(h)
  {
    var used, count := MaxUsed(f, Table(h) * lb, EntrySize(h), Count(h)), NewEntryCount(lb, Table(h), EntrySize(h), sizeA);
    ScanOps(Table(h) * lb, EntrySize(h), Count(h))
    + if Signed(count) <= used then [] else (SignedBound(count, used); ResizeOps(f, lb, h, h2, used + 1, count))
  }

  function StageOps(f: seq<Byte>, image: seq<Byte>, sizeA: nat, sizeB: nat, locA: nat, locB: nat): seq<Op>
    requires 512 + sizeA <= |image|
  {
    [ReadOp(218, 6)] + [ReadOp(440, 70)] + ImageOps(image, sizeA, locA, locB)
    + BootOps(sizeA, sizeB, locA, locB, FlatRead(f, 218, 6), FlatRead(f, 440, 70))
  }

  function ImageOps(image: seq<Byte>, sizeA: nat, locA: nat, locB: nat): seq<Op>
    requires 512 + sizeA <= |image|
  {
    [WriteOp(0, image[..512]), WriteOp(locA, image[512..512 + sizeA]), WriteOp(locB, image[512 + sizeA..])]
  }

  function BootOps(sizeA: nat, sizeB: nat, locA: nat, locB: nat, timestamp: seq<Byte>, partitions: seq<Byte>): seq<Op> {
    [WriteOp(0x1A4, Word(sizeA, 2)), WriteOp(0x1A6, Word(sizeB, 2)), WriteOp(0x1A8, Word(locA, 8)), WriteOp(0x1B0, Word(locB, 8)),
     WriteOp(218, timestamp), WriteOp(440, partitions)]
  }

  /** The logical block size and the header of the first block that carries the GPT signature; 0 if neither
      guess does. */
  function Probed(f: seq<Byte>): (r: (nat, Header)) {
    var at512, at4096 := FlatRead(f, 512, HEADER_BYTES), FlatRead(f, 4096, HEADER_BYTES);
    if Signs(at512) then (512, at512) else if Signs(at4096) then (4096, at4096) else (0, seq(96, _ => 0 as Byte))
  }

  predicate Signs(b: seq<Byte>) {
    |b| == HEADER_BYTES && b[..8] == SIGNATURE
  }

  function ProbeOps(f: seq<Byte>): seq<Op> {
    [ReadOp(512, HEADER_BYTES)] + if Probed(f).0 == 512 then [] else [ReadOp(4096, HEADER_BYTES)]
  }

  /** Everything up to the final flush; embedding proper and the stages, when it comes to them. */
  function InstallOps(f: seq<Byte>, image: seq<Byte>): seq<Op>
    requires 512 < |image| && 512 + SizeA(|image| - 512) <= |image|
  {
    ProbeOps(f) + ProbedOps(f, image)
  }

  /** After the probe. */
  function ProbedOps(f: seq<Byte>, image: seq<Byte>): seq<Op>
    requires 512 < |image| && 512 + SizeA(|image| - 512) <= |image|
  {
    var (lb, h) := Probed(f);
    if lb == 0 then [] else [ReadOp(Wrap(lb * Alternate(h)), HEADER_BYTES)] + BackedOps(f, image, lb, h)
  }

  /** After the secondary header has been read. */
  function BackedOps(f: seq<Byte>, image: seq<Byte>, lb: nat, h: Header): seq<Op>
    requires 0 < lb && 512 < |image| && 512 + SizeA(|image| - 512) <= |image|
  {
    var h2 := FlatRead(f, Wrap(lb * Alternate(h)), HEADER_BYTES);
    if !Signs(h2) || EntrySize(h) == 0 || EntrySize(h2) > EntrySize(h) then []
    else
      var sizeA, sizeB := SizeA(|image| - 512), SizeB(|image| - 512);
      var e := Embed(f, lb, h, h2, sizeA, sizeB);
      EmbedOps(f, lb, h, h2, sizeA)
      + if e.None? then []
        else StageOps(e.value, image, sizeA, sizeB, StageLocation(lb, Table(h), sizeA), StageLocation(lb, Table(h2), sizeB))
  }

  // ---------------------------------------------------------------------------------------------
  // What is planned
  // ---------------------------------------------------------------------------------------------

  /** These bytes say EFI PART. */
  ghost predicate SignedAt(f: seq<Byte>, at: nat) {
    at + 96 <= |f| && forall i {:trigger f[at + i]} :: 0 <= i < 8 ==> f[at + i] == "EFI PART"[i] as int
  }

  /** The probe finds a GPT at 512 bytes, or else at 4096 bytes, exactly where a header of 96 bytes says EFI PART. */
  lemma ProbedMeans(f: seq<Byte>)
    ensures var (lb, h) := Probed(f);
            && lb == (if SignedAt(f, 512) then 512 else if SignedAt(f, 4096) then 4096 else 0)
            && (lb != 0 ==> h == f[lb..lb + 96])
  {
    SignsMeans(f, 512);
    SignsMeans(f, 4096);
  }

  lemma SignsMeans(f: seq<Byte>, at: nat)
    ensures Signs(FlatRead(f, at, 96)) <==> SignedAt(f, at)
    ensures SignedAt(f, at) ==> at + 96 <= |f| && FlatRead(f, at, 96) == f[at..at + 96]
  {
    if at + 96 <= |f| {
      var b := FlatRead(f, at, 96)[..8];
      assert b == f[at..at + 8];
      assert forall i :: 0 <= i < 8 ==> SIGNATURE[i] == "EFI PART"[i] as int;
      if SignedAt(f, at) {
        forall i | 0 <= i < 8
          ensures b[i] == SIGNATURE[i]
        {
          assert b[i] == f[at + i];
        }
      }
    }
  }

  /** The entries have a size that the backup's does not exceed, and there is to be room for more than the last used one. */
  ghost predicate Embeddable(f: seq<Byte>, lb: nat, h: Header, h2: seq<Byte>, sizeA: nat)
    requires 0 < lb
  {
    && |h2| == 96 && 0 < EntrySize(h) && EntrySize(h2) <= EntrySize(h)
    && MaxUsed(f, Table(h) * lb, EntrySize(h), Count(h)) < Signed(NewEntryCount(lb, Table(h), EntrySize(h), sizeA))
  }

  ghost predicate SomeWrite(ops: seq<Op>) {
    exists i :: 0 <= i < |ops| && ops[i].WriteOp?
  }

  /** An installation plans to write exactly on a disk on which the probe finds a header, with a backup header that says
      EFI PART where the primary one has it, and entries that leave room. */
  lemma InstallWritesIff(f: seq<Byte>, image: seq<Byte>)
    requires 512 < |image| && 512 + SizeA(|image| - 512) <= |image|
    ensures SomeWrite(InstallOps(f, image)) <==>
              var (lb, h) := Probed(f);
              && lb != 0 && SignedAt(f, Wrap(lb * Alternate(h)))
              && Embeddable(f, lb, h, FlatRead(f, Wrap(lb * Alternate(h)), 96), SizeA(|image| - 512))
  {
    hide MaxUsed, NewEntryCount, Signed, Number, SizeA, Wrap, StageOps, ResizeOps, ResizedGpt, SomeWrite, Probed, Signs, FlatRead, SignedAt, Embeddable, BackedOps;
    var (lb, h) := Probed(f);
    var probe, probed := ProbeOps(f), ProbedOps(f, image);
    NoWrite(probe);
    EitherWrites(probe, probed);
    if lb == 0 {
      NoWrite(probed);
    } else {
      var at, backed := Wrap(lb * Alternate(h)), BackedOps(f, image, lb, h);
      SignsMeans(f, at);
      NoWrite([ReadOp(at, 96)]);
      EitherWrites([ReadOp(at, 96)], backed);
      BackedWritesIff(f, image, lb, h);
    }
  }

  lemma BackedWritesIff(f: seq<Byte>, image: seq<Byte>, lb: nat, h: Header)
    requires 0 < lb && 512 < |image| && 512 + SizeA(|image| - 512) <= |image|
    ensures SomeWrite(BackedOps(f, image, lb, h)) <==>
              var h2 := FlatRead(f, Wrap(lb * Alternate(h)), 96);
              Signs(h2) && Embeddable(f, lb, h, h2, SizeA(|image| - 512))
  {
    hide MaxUsed, NewEntryCount, Signed, Number, SizeA, Wrap, StageOps, ResizeOps, ResizedGpt, SomeWrite, FlatRead;
    var h2, sizeA, sizeB := FlatRead(f, Wrap(lb * Alternate(h)), 96), SizeA(|image| - 512), SizeB(|image| - 512);
    if !Signs(h2) || EntrySize(h) == 0 || EntrySize(h2) > EntrySize(h) {
      NoWrite(BackedOps(f, image, lb, h));
    } else {
      var scan := ScanOps(Table(h) * lb, EntrySize(h), Count(h));
      NoWrite(scan);
      if Embed(f, lb, h, h2, sizeA, sizeB).None? {
        assert BackedOps(f, image, lb, h) == scan;
      } else {
        var used, count := MaxUsed(f, Table(h) * lb, EntrySize(h), Count(h)), NewEntryCount(lb, Table(h), EntrySize(h), sizeA);
        SignedBound(count, used);
        var resize := ResizeOps(f, lb, h, h2, used + 1, count);
        var stages := StageOps(Embed(f, lb, h, h2, sizeA, sizeB).value, image, sizeA, sizeB, StageLocation(lb, Table(h), sizeA), StageLocation(lb, Table(h2), sizeB));
        ResizeWrites(f, lb, h, h2, used + 1, count);
        EitherWrites(scan, resize);
        EitherWrites(scan + resize, stages);
      }
    }
  }

  lemma ResizeWrites(f: seq<Byte>, lb: nat, h: Header, h2: Header, from: nat, count: nat)
    requires from <= count
    ensures SomeWrite(ResizeOps(f, lb, h, h2, from, count))
  {
    hide Number, Resized, ZeroEntries, Wrap, FlatRead, ZeroOps;
    var ops := ResizeOps(f, lb, h, h2, from, count);
    assert ops[|ops| - 1].WriteOp?;
  }

  lemma NoWrite(ops: seq<Op>)
    ensures (forall i :: 0 <= i < |ops| ==> ops[i].ReadOp?) ==> !SomeWrite(ops)
  {
  }

  lemma EitherWrites(a: seq<Op>, b: seq<Op>)
    ensures SomeWrite(a + b) <==> SomeWrite(a) || SomeWrite(b)
  {
    if SomeWrite(a) {
      var i :| 0 <= i < |a| && a[i].WriteOp?;
      assert (a + b)[i].WriteOp?;
    } else if SomeWrite(b) {
      var i :| 0 <= i < |b| && b[i].WriteOp?;
      assert (a + b)[|a| + i].WriteOp?;
    }
  }

  // ---------------------------------------------------------------------------------------------
  // What the plan comes to
  // ---------------------------------------------------------------------------------------------

  function FlatAfter(f: seq<Byte>, ops: seq<Op>): seq<Byte> {
    FlatRun(f, ops).0
  }

  lemma {:induction false} FlatAfterBoth(f: seq<Byte>, a: seq<Op>, b: seq<Op>)
    ensures FlatAfter(f, a + b) == FlatAfter(FlatAfter(f, a), b)
    decreases |a|
  {
    hide FlatDo;
    if a == [] {
      assert a + b == b;
    } else {
      assert (a + b)[1..] == a[1..] + b;
      FlatAfterBoth(FlatDo(f, a[0]).0, a[1..], b);
    }
  }

  lemma {:induction false} FlatAfterReads(f: seq<Byte>, ops: seq<Op>)
    requires forall i :: 0 <= i < |ops| ==> ops[i].ReadOp?
    ensures FlatAfter(f, ops) == f
  {
    if ops != [] {
      FlatAfterReads(f, ops[1..]);
    }
  }

  lemma FlatAfterWrite(f: seq<Byte>, loc: nat, data: seq<Byte>, rest: seq<Op>)
    ensures FlatAfter(f, [WriteOp(loc, data)] + rest) == FlatAfter(FlatWrite(f, loc, data), rest)
    ensures FlatAfter(f, []) == f
  {
    hide FlatWrite;
    assert ([WriteOp(loc, data)] + rest)[1..] == rest;
  }

  lemma {:induction false} ZeroOpsZero(f: seq<Byte>, table: nat, entrySize: nat, from: nat, until: nat)
    requires from <= until
    ensures FlatAfter(f, ZeroOps(table, entrySize, from, until)) == ZeroEntries(f, table, entrySize, from, until)
    decreases until - from
  {
    hide FlatWrite, Wrap, EntryAt, Zeros;
    var ops := ZeroOps(table, entrySize, from, until);
    FlatAfterWrite(f, Wrap(EntryAt(table, entrySize, from)), Zeros(entrySize), if from == until then [] else ops[1..]);
    if from < until {
      assert ops == [WriteOp(Wrap(EntryAt(table, entrySize, from)), Zeros(entrySize))] + ops[1..];
      assert ops[1..] == ZeroOps(table, entrySize, from + 1, until);
      ZeroOpsZero(FlatWrite(f, Wrap(EntryAt(table, entrySize, from)), Zeros(entrySize)), table, entrySize, from + 1, until);
    }
  }

  lemma FlatAfterRead(f: seq<Byte>, loc: nat, n: nat, rest: seq<Op>)
    ensures FlatAfter(f, [ReadOp(loc, n)] + rest) == FlatAfter(f, rest)
  {
    assert ([ReadOp(loc, n)] + rest)[1..] == rest;
  }

  lemma HeaderOpsWrite(f: seq<Byte>, lb: nat, h: Header, h2: Header, count: nat, entries: seq<Byte>)
    ensures FlatAfter(f, HeaderOps(lb, h, h2, count, entries)) == WithHeaders(f, lb, h, h2, count, entries)
  {
    hide FlatRun, FlatWrite, Number, Resized, Wrap;
    var ops := HeaderOps(lb, h, h2, count, entries);
    var g := FlatWrite(f, lb, Resized(h, count, entries));
    assert ops == [ops[0]] + ops[1..] && ops[1..] == [ops[1]] + ops[2..] && ops[2..] == [ops[2]] + [];
    FlatAfterRead(f, Wrap(Table(h) * lb), count * EntrySize(h), ops[1..]);
    FlatAfterWrite(f, lb, Resized(h, count, entries), ops[2..]);
    FlatAfterWrite(g, Wrap(lb * Alternate(h)), Resized(h2, count, entries), []);
    FlatAfterWrite(FlatWrite(g, Wrap(lb * Alternate(h)), Resized(h2, count, entries)), 0, [], []);
  }

  lemma ResizeOpsResize(f: seq<Byte>, lb: nat, h: Header, h2: Header, from: nat, count: nat)
    requires from <= count
    ensures FlatAfter(f, ResizeOps(f, lb, h, h2, from, count)) == ResizedGpt(f, lb, h, h2, from, count)
  {
    hide FlatRun, FlatAfter, FlatRead, Number, ZeroOps, ZeroEntries, HeaderOps, WithHeaders, Wrap;
    var one, two := ZeroOps(Table(h) * lb, EntrySize(h), from, count), ZeroOps(Table(h2) * lb, EntrySize(h2), from, count);
    var f1 := ZeroEntries(f, Table(h) * lb, EntrySize(h), from, count);
    var f2 := ZeroEntries(f1, Table(h2) * lb, EntrySize(h2), from, count);
    var entries := FlatRead(f2, Wrap(Table(h) * lb), count * EntrySize(h));
    ZeroOpsZero(f, Table(h) * lb, EntrySize(h), from, count);
    ZeroOpsZero(f1, Table(h2) * lb, EntrySize(h2), from, count);
    HeaderOpsWrite(f2, lb, h, h2, count, entries);
    FlatAfterBoth(f, one, two);
    FlatAfterBoth(f, one + two, HeaderOps(lb, h, h2, count, entries));
  }

  lemma EmbedOpsEmbed(f: seq<Byte>, lb: nat, h: Header, h2: Header, sizeA: nat, sizeB: nat)
    requires 0 < lb && 0 < EntrySize(h)
    ensures var e := Embed(f, lb, h, h2, sizeA, sizeB);
            FlatAfter(f, EmbedOps(f, lb, h, h2, sizeA)) == if e.Some? then e.value else f
  {
    hide FlatRun, FlatAfter, Number, MaxUsed, NewEntryCount, Signed, ResizeOps, ResizedGpt;
    var used, count := MaxUsed(f, Table(h) * lb, EntrySize(h), Count(h)), NewEntryCount(lb, Table(h), EntrySize(h), sizeA);
    var scan := ScanOps(Table(h) * lb, EntrySize(h), Count(h));
    FlatAfterReads(f, scan);
    if Signed(count) <= used {
      assert scan + [] == scan;
    } else {
      SignedBound(count, used);
      FlatAfterBoth(f, scan, ResizeOps(f, lb, h, h2, used + 1, count));
      ResizeOpsResize(f, lb, h, h2, used + 1, count);
    }
  }

  lemma ImageOpsImage(f: seq<Byte>, image: seq<Byte>, sizeA: nat, locA: nat, locB: nat)
    requires 512 + sizeA <= |image|
    ensures FlatAfter(f, ImageOps(image, sizeA, locA, locB)) == Imaged(f, image, sizeA, locA, locB)
  {
    hide FlatRun, FlatWrite;
    var ops := ImageOps(image, sizeA, locA, locB);
    var f1 := FlatWrite(f, 0, image[..512]);
    var f2 := FlatWrite(f1, locA, image[512..512 + sizeA]);
    assert ops == [ops[0]] + ops[1..] && ops[1..] == [ops[1]] + ops[2..] && ops[2..] == [ops[2]] + [];
    FlatAfterWrite(f, 0, image[..512], ops[1..]);
    FlatAfterWrite(f1, locA, image[512..512 + sizeA], ops[2..]);
    FlatAfterWrite(f2, locB, image[512 + sizeA..], []);
    FlatAfterWrite(FlatWrite(f2, locB, image[512 + sizeA..]), 0, [], []);
  }

  lemma BootOpsBoot(f: seq<Byte>, sizeA: nat, sizeB: nat, locA: nat, locB: nat, timestamp: seq<Byte>, partitions: seq<Byte>)
    ensures FlatAfter(f, BootOps(sizeA, sizeB, locA, locB, timestamp, partitions)) == Booted(f, sizeA, sizeB, locA, locB, timestamp, partitions)
  {
    hide FlatRun, FlatWrite, Word;
    var ops := BootOps(sizeA, sizeB, locA, locB, timestamp, partitions);
    var f4 := FlatWrite(f, 0x1A4, Word(sizeA, 2));
    var f5 := FlatWrite(f4, 0x1A6, Word(sizeB, 2));
    var f6 := FlatWrite(f5, 0x1A8, Word(locA, 8));
    var f7 := FlatWrite(f6, 0x1B0, Word(locB, 8));
    var f8 := FlatWrite(f7, 218, timestamp);
    assert ops == [ops[0]] + ops[1..] && ops[1..] == [ops[1]] + ops[2..] && ops[2..] == [ops[2]] + ops[3..];
    assert ops[3..] == [ops[3]] + ops[4..] && ops[4..] == [ops[4]] + ops[5..] && ops[5..] == [ops[5]] + [];
    FlatAfterWrite(f, 0x1A4, Word(sizeA, 2), ops[1..]);
    FlatAfterWrite(f4, 0x1A6, Word(sizeB, 2), ops[2..]);
    FlatAfterWrite(f5, 0x1A8, Word(locA, 8), ops[3..]);
    FlatAfterWrite(f6, 0x1B0, Word(locB, 8), ops[4..]);
    FlatAfterWrite(f7, 218, timestamp, ops[5..]);
    FlatAfterWrite(f8, 440, partitions, []);
    FlatAfterWrite(FlatWrite(f8, 440, partitions), 0, [], []);
  }

  lemma StageOpsStage(f: seq<Byte>, image: seq<Byte>, sizeA: nat, sizeB: nat, locA: nat, locB: nat)
    requires 512 + sizeA <= |image|
    ensures FlatAfter(f, StageOps(f, image, sizeA, sizeB, locA, locB)) == Staged(f, image, sizeA, sizeB, locA, locB)
  {
    hide FlatRun, FlatAfter, FlatRead, ImageOps, BootOps, Imaged, Booted;
    var saves := [ReadOp(218, 6)] + [ReadOp(440, 70)];
    var writes, boot := ImageOps(image, sizeA, locA, locB), BootOps(sizeA, sizeB, locA, locB, FlatRead(f, 218, 6), FlatRead(f, 440, 70));
    FlatAfterReads(f, saves);
    FlatAfterBoth(f, saves, writes);
    FlatAfterBoth(f, saves + writes, boot);
    ImageOpsImage(f, image, sizeA, locA, locB);
    BootOpsBoot(Imaged(f, image, sizeA, locA, locB), sizeA, sizeB, locA, locB, FlatRead(f, 218, 6), FlatRead(f, 440, 70));
  }

  /** The disk that an installation asks for: with resized tables and the stages, or the one it found. */
  function Wanted(f: seq<Byte>, image: seq<Byte>, lb: nat, h: Header): seq<Byte>
    requires 0 < lb && 512 < |image| && 512 + SizeA(|image| - 512) <= |image|
  {
    var h2, sizeA, sizeB := FlatRead(f, Wrap(lb * Alternate(h)), 96), SizeA(|image| - 512), SizeB(|image| - 512);
    if !Signs(h2) || EntrySize(h) == 0 || EntrySize(h2) > EntrySize(h) || Embed(f, lb, h, h2, sizeA, sizeB).None? then f
    else Staged(Embed(f, lb, h, h2, sizeA, sizeB).value, image, sizeA, sizeB,
                StageLocation(lb, Table(h), sizeA), StageLocation(lb, Table(h2), sizeB))
  }

  /** The planned operations, one after the other, turn the disk into the one that is asked for. */
  lemma PlanInstalls(f: seq<Byte>, image: seq<Byte>)
    requires 512 < |image| && 512 + SizeA(|image| - 512) <= |image|
    ensures var (lb, h) := Probed(f);
            FlatRun(f, InstallOps(f, image)).0 == if lb == 0 then f else Wanted(f, image, lb, h)
  {
    hide FlatRun, Number, SizeA, Wrap, FlatRead, Probed, BackedOps, Wanted, Signs, FlatAfter;
    var (lb, h) := Probed(f);
    FlatAfterReads(f, ProbeOps(f));
    FlatAfterBoth(f, ProbeOps(f), ProbedOps(f, image));
    AfterIsRun(f, InstallOps(f, image));
    if lb == 0 {
      FlatAfterReads(f, []);
    } else {
      FlatAfterReads(f, [ReadOp(Wrap(lb * Alternate(h)), HEADER_BYTES)]);
      FlatAfterBoth(f, [ReadOp(Wrap(lb * Alternate(h)), HEADER_BYTES)], BackedOps(f, image, lb, h));
      BackedInstalls(f, image, lb, h);
    }
  }

  lemma AfterIsRun(f: seq<Byte>, ops: seq<Op>)
    ensures FlatAfter(f, ops) == FlatRun(f, ops).0
  {
  }

  lemma BackedInstalls(f: seq<Byte>, image: seq<Byte>, lb: nat, h: Header)
    requires 0 < lb && 512 < |image| && 512 + SizeA(|image| - 512) <= |image|
    ensures FlatAfter(f, BackedOps(f, image, lb, h)) == Wanted(f, image, lb, h)
  {
    hide FlatRun, Number, SizeA, SizeB, Wrap, FlatRead, FlatAfter, EmbedOps, StageOps, Embed, Staged, StageLocation;
    var h2, sizeA, sizeB := FlatRead(f, Wrap(lb * Alternate(h)), 96), SizeA(|image| - 512), SizeB(|image| - 512);
    if !Signs(h2) || EntrySize(h) == 0 || EntrySize(h2) > EntrySize(h) {
      FlatAfterReads(f, []);
    } else {
      var e := Embed(f, lb, h, h2, sizeA, sizeB);
      var embed := EmbedOps(f, lb, h, h2, sizeA);
      EmbedOpsEmbed(f, lb, h, h2, sizeA, sizeB);
      if e.None? {
        assert embed + [] == embed;
      } else {
        var locA, locB := StageLocation(lb, Table(h), sizeA), StageLocation(lb, Table(h2), sizeB);
        FlatAfterBoth(f, embed, StageOps(e.value, image, sizeA, sizeB, locA, locB));
        StageOpsStage(e.value, image, sizeA, sizeB, locA, locB);
      }
    }
  }

  // ---------------------------------------------------------------------------------------------
  // Keeping to a plan
  // ---------------------------------------------------------------------------------------------

  /** `after` goes on from `before` with these operations in order, with all of them if `all`. */
  ghost predicate Issued(before: seq<Op>, after: seq<Op>, ops: seq<Op>, all: bool) {
    before <= after <= before + ops && (all ==> after == before + ops)
  }

  lemma IssuedOp(before: seq<Op>, after: seq<Op>, ops: seq<Op>, k: nat)
    requires k < |ops| && after == before + ops[..k] + [ops[k]]
    ensures after == before + ops[..k + 1] && Issued(before, after, ops, false)
    ensures k + 1 == |ops| ==> Issued(before, after, ops, true)
  {
  }

  lemma IssuedThen(before: seq<Op>, mid: seq<Op>, after: seq<Op>, first: seq<Op>, second: seq<Op>, all: bool)
    requires Issued(before, mid, first, true) && Issued(mid, after, second, all)
    ensures Issued(before, after, first + second, all)
  {
  }

  lemma IssuedWeaker(before: seq<Op>, after: seq<Op>, ops: seq<Op>)
    ensures Issued(before, after, ops, true) ==> Issued(before, after, ops, false)
  {
  }

  lemma IssuedSome(before: seq<Op>, after: seq<Op>, first: seq<Op>, second: seq<Op>)
    requires Issued(before, after, first, false)
    ensures Issued(before, after, first + second, false)
  {
  }

  lemma IssuedNext(before: seq<Op>, mid: seq<Op>, after: seq<Op>, first: seq<Op>, op: Op, rest: seq<Op>)
    requires Issued(before, mid, first, true) && after == mid + [op]
    ensures Issued(before, after, first + [op], true) && Issued(before, after, first + ([op] + rest), false)
  {
    assert first + ([op] + rest) == (first + [op]) + rest;
  }
}
