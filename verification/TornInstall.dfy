/** The installer's own write of the first half of its second stage (limine/limine.c:1029), torn between two
    blocks: its undo reports success and leaves the bytes of the blocks before. */
module TornInstall {
  import opened Arithmetic
  import opened Bytes
  import opened BlockCache
  import opened UndoLog
  import opened Rollback
  import opened UninstallFile
  import opened GptLayout
  import opened GptTables
  import opened GptEmbed
  import opened InstallPlan
  import opened BiosInstall

  /** None of the writes among these touches byte `i`. */
  ghost predicate Misses(ops: seq<Op>, i: int) {
    forall op :: op in ops && op.WriteOp? ==> !(op.wloc <= i < op.wloc + |op.data|)
  }

  lemma MissesBoth(a: seq<Op>, b: seq<Op>, i: int)
    ensures Misses(a + b, i) <==> Misses(a, i) && Misses(b, i)
  {
  }

  lemma MissedIsNotHit(ops: seq<Op>, i: int)
    requires Misses(ops, i)
    ensures !Hit(WritesOf(Requests(ops)), i)
  {
    hide WritesOf;
    var rs := Requests(ops);
    WritesAreRequests(rs);
    forall w | w in WritesOf(rs)
      ensures !(w.loc <= i < w.loc + w.n)
    {
      var j :| 0 <= j < |rs| && rs[j] == w;
      assert ops[j] in ops;
    }
  }

  lemma ZeroOpsMiss(table: nat, size: nat, from: nat, until: nat, i: int)
    requires from <= until && EntryAt(table, size, until) < U64
    requires i < EntryAt(table, size, from) || EntryAt(table, size, until) <= i
    ensures Misses(ZeroOps(table, size, from, until), i)
  {
    hide EntryAt, Wrap;
    var ops := ZeroOps(table, size, from, until);
    forall op | op in ops && op.WriteOp?
      ensures !(op.wloc <= i < op.wloc + |op.data|)
    {
      var j :| 0 <= j < |ops| && ops[j] == op;
      EntryAtNext(table, size, from, from + j);
      EntryAtNext(table, size, from + j, from + j);
      EntryAtNext(table, size, from + j + 1, until);
      WrapSmall(EntryAt(table, size, from + j));
    }
  }

  /** Before the first half is written, nothing is written where it goes. */
  lemma EmbedOpsMiss(f: seq<Byte>, lb: nat, h: Header, h2: Header, sizeA: nat, sizeB: nat, i: int)
    requires WellOrdered(f, lb, h, h2) && sizeB <= sizeA < U16 && RoundUp(sizeA, lb) <= 32
    requires Embed(f, lb, h, h2, sizeA, sizeB).Some?
    requires StageLocation(lb, Table(h), sizeA) <= i < StageLocation(lb, Table(h), sizeA) + sizeA
    ensures Misses(EmbedOps(f, lb, h, h2, sizeA), i) && 512 <= i < |f|
  {
    hide Number, MaxUsed, NewEntryCount, StageLocation, Signed, RoundUp, EntryAt, ZeroEntries, Resized, Wrap, FlatRead, ResizedGpt, ScanOps, ZeroOps;
    var p := PlacesOf(f, lb, h, h2, sizeA, sizeB);
    var size, used, count := EntrySize(h), UsedCount(f, lb, h), NewEntryCount(lb, Table(h), EntrySize(h), sizeA);
    PlacesAreOrdered(f, lb, h, h2, sizeA, sizeB);
    ScanOpsMiss(Table(h) * lb, size, Count(h), i);
    ZeroOpsMiss(p.table, size, used, count, i);
    ZeroOpsMiss(p.table2, size, used, count, i);
    WrapSmall(p.header2);
    var scan, zeros, zeros2 := ScanOps(Table(h) * lb, size, Count(h)), ZeroOps(p.table, size, used, count), ZeroOps(p.table2, size, used, count);
    var zeroed := ZeroEntries(ZeroEntries(f, p.table, size, used, count), p.table2, size, used, count);
    var entries := FlatRead(zeroed, Wrap(p.table), count * size);
    var headers := HeaderOps(lb, h, h2, count, entries);
    assert Misses(headers, i);
    MissesBoth(zeros, zeros2, i);
    MissesBoth(zeros + zeros2, headers, i);
    MissesBoth(scan, zeros + zeros2 + headers, i);
  }

  lemma ScanOpsMiss(table: nat, size: nat, n: nat, i: int)
    ensures Misses(ScanOps(table, size, n), i)
  {
  }

  /** The operations of the stages up to the first half. */
  function Opening(image: seq<Byte>): seq<Op>
    requires 512 <= |image|
  {
    [ReadOp(218, 6), ReadOp(440, 70), WriteOp(0, image[..512])]
  }

  /** A GPT disk and an image that the installer sets out to embed. */
  ghost predicate Embeds(f: seq<Byte>, image: seq<Byte>, lb: nat, h: Header, h2: Header) {
    && 512 < |image| && 2 <= Sectors(|image| - 512) <= 254 && 512 + SizeA(|image| - 512) <= |image|
    && (lb, h) == Probed(f) && lb != 0 && WellOrdered(f, lb, h, h2)
    && h2 == FlatRead(f, Wrap(lb * Alternate(h)), HEADER_BYTES)
    && Embed(f, lb, h, h2, SizeA(|image| - 512), SizeB(|image| - 512)).Some?
    && FitsLog(f, lb, h, SizeA(|image| - 512)) && EntrySize(h) <= lb
  }

  /** What is issued before the first half. */
  function BeforeHalf(f: seq<Byte>, image: seq<Byte>, lb: nat, h: Header, h2: Header): seq<Op>
    requires 0 < lb && 0 < EntrySize(h) && 512 < |image|
  {
    ProbeOps(f) + [ReadOp(Wrap(lb * Alternate(h)), HEADER_BYTES)] + EmbedOps(f, lb, h, h2, SizeA(|image| - 512)) + Opening(image)
  }

  function HalfWrite(image: seq<Byte>, lb: nat, h: Header): Op
    requires 0 < lb && 512 < |image| && 512 + SizeA(|image| - 512) <= |image|
  {
    WriteOp(StageLocation(lb, Table(h), SizeA(|image| - 512)), image[512..512 + SizeA(|image| - 512)])
  }

  lemma HalfIsIssued(f: seq<Byte>, image: seq<Byte>, lb: nat, h: Header, h2: Header)
    requires Embeds(f, image, lb, h, h2)
    ensures var before, k := BeforeHalf(f, image, lb, h, h2), |BeforeHalf(f, image, lb, h, h2)|;
            && k < |InstallOps(f, image)| && InstallOps(f, image)[..k] == before && InstallOps(f, image)[k] == HalfWrite(image, lb, h)
  {
    hide Number, Embed, EmbedOps, Probed, ProbeOps, StageLocation, SizeA, SizeB, Sectors, FlatRead, Wrap, FitsLog, BootOps, WellOrdered;
    assert 0 < EntrySize(h) == EntrySize(h2) && Signs(h2) by { OrderedSigns(f, lb, h, h2); }
    var sizeA, sizeB := SizeA(|image| - 512), SizeB(|image| - 512);
    var e := Embed(f, lb, h, h2, sizeA, sizeB).value;
    var locA, locB := StageLocation(lb, Table(h), sizeA), StageLocation(lb, Table(h2), sizeB);
    var embed, stages := EmbedOps(f, lb, h, h2, sizeA), StageOps(e, image, sizeA, sizeB, locA, locB);
    assert BackedOps(f, image, lb, h) == embed + stages;
    assert stages[..3] == Opening(image) && stages[3] == HalfWrite(image, lb, h);
    var before := BeforeHalf(f, image, lb, h, h2);
    assert InstallOps(f, image) == (ProbeOps(f) + [ReadOp(Wrap(lb * Alternate(h)), HEADER_BYTES)] + embed) + stages;
    assert stages == stages[..3] + [stages[3]] + stages[4..];
    assert InstallOps(f, image) == before + [stages[3]] + stages[4..];
  }

  lemma OrderedSigns(f: seq<Byte>, lb: nat, h: Header, h2: Header)
    requires WellOrdered(f, lb, h, h2)
    ensures 0 < EntrySize(h) == EntrySize(h2) && Signs(h2)
  {
    hide Number, MaxUsed;
  }

  /** The log still has room, and nothing before has been written where the half goes. */
  lemma BeforeHalfIsClear(f: seq<Byte>, image: seq<Byte>, lb: nat, h: Header, h2: Header, i: int)
    requires Embeds(f, image, lb, h, h2)
    requires var half := HalfWrite(image, lb, h); half.wloc <= i < half.wloc + |half.data|
    ensures Misses(BeforeHalf(f, image, lb, h, h2), i) && 0 <= i < |f|
    ensures |WritesOf(Requests(BeforeHalf(f, image, lb, h, h2)))| < UNINSTALL_DATA_MAX
  {
    hide Number, Embed, EmbedOps, StageLocation, SizeA, SizeB, Sectors, FlatRead, Wrap, Probed, Requests, WritesOf, RoundUp, Zeroed, WellOrdered;
    OrderedSigns(f, lb, h, h2);
    HalvesCover(|image| - 512);
    SizeIsSmall(|image| - 512);
    TableEndsInside(f, lb, h, h2);
    var sizeA, sizeB := SizeA(|image| - 512), SizeB(|image| - 512);
    CompletedIsShort(f, lb, h, h2, sizeA, sizeB);
    EmbedOpsMiss(f, lb, h, h2, sizeA, sizeB, i);
    var second: seq<Op>, embed, opening := [ReadOp(Wrap(lb * Alternate(h)), HEADER_BYTES)], EmbedOps(f, lb, h, h2, sizeA), Opening(image);
    MissesBoth(ProbeOps(f), second, i);
    MissesBoth(ProbeOps(f) + second, embed, i);
    MissesBoth(ProbeOps(f) + second + embed, opening, i);
    WritesOfNone(ProbeOps(f));
    WritesOfNone(second);
    WritesOfEmbedding(f, lb, h, h2, sizeA, sizeB);
    WritesOfNone(opening[..2]);
    WritesOfAll(opening[2..]);
    WritesOfBoth(opening[..2], opening[2..]);
    assert opening[..2] + opening[2..] == opening;
    WritesOfBoth(ProbeOps(f), second);
    WritesOfBoth(ProbeOps(f) + second, embed);
    WritesOfBoth(ProbeOps(f) + second + embed, opening);
  }

  /** On a well-ordered GPT disk, an image whose first half straddles two blocks of the device, and differs from
      the disk somewhere before the last of them, has faults for which the installation is abandoned, its undo
      reports success, and the disk has changed. */
  lemma TornHalfStays(d: Device, image: seq<Byte>, lb: nat, h: Header, h2: Header, i: int) returns (plan: seq<Fault>)
    requires d.Coherent() && !d.dirty && d.plan == [] && Embeds(d.disk, image, lb, h, h2)
    requires Exposed(d.blockSize, RequestOf(HalfWrite(image, lb, h)), i)
    requires var half := HalfWrite(image, lb, h); 0 <= i < |d.disk| && i - half.wloc < |half.data| && half.data[i - half.wloc] != d.disk[i]
    requires forall op :: op in BeforeHalf(d.disk, image, lb, h, h2) + [HalfWrite(image, lb, h)] ==> ServedRequest(d, RequestOf(op))
    ensures var start := State(d.(plan := plan), []);
            var u := UndoOf(start, InstallOps(d.disk, image));
            Install(start, InstallOps(d.disk, image)).Abandoned? && u.ok && u.dev.disk != d.disk
  {
    hide Number, InstallOps, BeforeHalf, Install, Uninstall, Hit, WritesOf, ServedRequest, LastBlock, WellOrdered, FitsLog, Probed, Embed, FlatRead,
         StageLocation, SizeA, SizeB, Wrap;
    OrderedSigns(d.disk, lb, h, h2);
    var ops, before, half := InstallOps(d.disk, image), BeforeHalf(d.disk, image, lb, h, h2), HalfWrite(image, lb, h);
    var k := |before|;
    HalfIsIssued(d.disk, image, lb, h, h2);
    BeforeHalfIsClear(d.disk, image, lb, h, h2, i);
    MissedIsNotHit(before, i);
    assert Requests(ops)[..k] == Requests(before) by { assert ops[..k] == before; }
    forall j | 0 <= j <= k
      ensures ServedRequest(d, RequestOf(ops[j]))
    {
      assert ops[j] == (before + [half])[j];
    }
    plan := ExposedByteStays(d, ops, k, i);
  }
}
