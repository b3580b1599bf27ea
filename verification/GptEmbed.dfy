/** What embedding the second stage into a GPT disk does to its bytes (limine/limine.c:920-1047), as a
    function of the flat array the block cache presents, and why both headers stay valid. */
module GptEmbed {
  import opened Arithmetic
  import opened Bytes
  import opened BlockCache
  import opened UninstallFile
  import opened GptLayout
  import opened GptTables

  /** The disk with resized tables, and where the second stage goes; None when embedding is refused. */
  function Embed(f: seq<Byte>, lb: nat, h: Header, h2: Header, sizeA: nat, sizeB: nat): (r: Option<seq<Byte>>)
    requires 0 < lb && 0 < EntrySize(h)
    ensures r.Some? ==> |r.value| == |f|
  {
    var used, count := MaxUsed(f, Table(h) * lb, EntrySize(h), Count(h)), NewEntryCount(lb, Table(h), EntrySize(h), sizeA);
    if Signed(count) <= used then None
    else
      SignedBound(count, used);
      Some(ResizedGpt(f, lb, h, h2, used + 1, count))
  }

  /** The entries of both arrays from `from` up to `count` zeroed, and both headers rewritten. */
  function ResizedGpt(f: seq<Byte>, lb: nat, h: Header, h2: Header, from: nat, count: nat): (g: seq<Byte>)
    requires from <= count
    ensures |g| == |f|
  {
    var f1 := ZeroEntries(f, Table(h) * lb, EntrySize(h), from, count);
    var f2 := ZeroEntries(f1, Table(h2) * lb, EntrySize(h2), from, count);
    WithHeaders(f2, lb, h, h2, count, FlatRead(f2, Wrap(Table(h) * lb), count * EntrySize(h)))
  }

  function WithHeaders(f: seq<Byte>, lb: nat, h: Header, h2: Header, count: nat, entries: seq<Byte>): (g: seq<Byte>)
    ensures |g| == |f|
  {
    FlatWrite(FlatWrite(f, lb, Resized(h, count, entries)), Wrap(lb * Alternate(h)), Resized(h2, count, entries))
  }

  function Word(v: nat, n: nat): seq<Byte> {
    LittleEndian(v, n)
  }

  /** The three writes of image bytes. */
  function Imaged(f: seq<Byte>, image: seq<Byte>, sizeA: nat, locA: nat, locB: nat): (g: seq<Byte>)
    requires 512 + sizeA <= |image|
    ensures |g| == |f|
  {
    var f1 := FlatWrite(f, 0, image[..512]);
    var f2 := FlatWrite(f1, locA, image[512..512 + sizeA]);
    FlatWrite(f2, locB, image[512 + sizeA..])
  }

  /** The writes that fill in the boot sector. */
  function Booted(f: seq<Byte>, sizeA: nat, sizeB: nat, locA: nat, locB: nat, timestamp: seq<Byte>, partitions: seq<Byte>): (g: seq<Byte>)
    ensures |g| == |f|
  {
    var f4 := FlatWrite(f, 0x1A4, Word(sizeA, 2));
    var f5 := FlatWrite(f4, 0x1A6, Word(sizeB, 2));
    var f6 := FlatWrite(f5, 0x1A8, Word(locA, 8));
    var f7 := FlatWrite(f6, 0x1B0, Word(locB, 8));
    var f8 := FlatWrite(f7, 218, timestamp);
    FlatWrite(f8, 440, partitions)
  }

  /** The disk after the boot sector and the two halves of the second stage have been written. */
  function Staged(f: seq<Byte>, image: seq<Byte>, sizeA: nat, sizeB: nat, locA: nat, locB: nat): (g: seq<Byte>)
    requires 512 + sizeA <= |image|
    ensures |g| == |f|
  {
    Booted(Imaged(f, image, sizeA, locA, locB), sizeA, sizeB, locA, locB, FlatRead(f, 218, 6), FlatRead(f, 440, 70))
  }

  /** The two arrays agree on the bytes from `lo` up to `hi`. */
  ghost predicate Keeps(f: seq<Byte>, g: seq<Byte>, lo: nat, hi: nat) {
    |f| == |g| && forall i :: lo <= i < hi && i < |f| ==> g[i] == f[i]
  }

  lemma WriteKeeps(f: seq<Byte>, loc: nat, data: seq<Byte>, lo: nat, hi: nat)
    requires data == [] || loc + |data| <= lo || hi <= loc
    ensures Keeps(f, FlatWrite(f, loc, data), lo, hi)
  {
  }

  lemma BootedKeeps(f: seq<Byte>, sizeA: nat, sizeB: nat, locA: nat, locB: nat, timestamp: seq<Byte>, partitions: seq<Byte>, lo: nat, hi: nat)
    requires 512 <= lo && |timestamp| <= 6 && |partitions| <= 70
    ensures Keeps(f, Booted(f, sizeA, sizeB, locA, locB, timestamp, partitions), lo, hi)
  {
    hide FlatWrite, Word;
    WordLength();
    var f4 := FlatWrite(f, 0x1A4, Word(sizeA, 2));
    var f5 := FlatWrite(f4, 0x1A6, Word(sizeB, 2));
    var f6 := FlatWrite(f5, 0x1A8, Word(locA, 8));
    var f7 := FlatWrite(f6, 0x1B0, Word(locB, 8));
    WriteKeeps(f, 0x1A4, Word(sizeA, 2), lo, hi);
    WriteKeeps(f4, 0x1A6, Word(sizeB, 2), lo, hi);
    WriteKeeps(f5, 0x1A8, Word(locA, 8), lo, hi);
    WriteKeeps(f6, 0x1B0, Word(locB, 8), lo, hi);
    WriteKeeps(f7, 218, timestamp, lo, hi);
    WriteKeeps(FlatWrite(f7, 218, timestamp), 440, partitions, lo, hi);
  }

  /** Installing the stages changes nothing outside the boot sector and the two halves. */
  lemma StagedKeeps(f: seq<Byte>, image: seq<Byte>, sizeA: nat, sizeB: nat, locA: nat, locB: nat, lo: nat, hi: nat)
    requires 512 + sizeA <= |image| && 512 <= lo
    requires locA + sizeA <= lo || hi <= locA
    requires locB + (|image| - 512 - sizeA) <= lo || hi <= locB
    ensures Keeps(f, Staged(f, image, sizeA, sizeB, locA, locB), lo, hi)
  {
    hide FlatWrite, FlatRead, Booted;
    ReadLength(f, 218, 6);
    ReadLength(f, 440, 70);
    var f1 := FlatWrite(f, 0, image[..512]);
    var f2 := FlatWrite(f1, locA, image[512..512 + sizeA]);
    WriteKeeps(f, 0, image[..512], lo, hi);
    WriteKeeps(f1, locA, image[512..512 + sizeA], lo, hi);
    WriteKeeps(f2, locB, image[512 + sizeA..], lo, hi);
    BootedKeeps(Imaged(f, image, sizeA, locA, locB), sizeA, sizeB, locA, locB, FlatRead(f, 218, 6), FlatRead(f, 440, 70), lo, hi);
  }

  lemma WordLength()
    ensures forall v: nat, n: nat :: |Word(v, n)| == n
  {
  }

  lemma ReadLength(f: seq<Byte>, loc: nat, n: nat)
    ensures |FlatRead(f, loc, n)| <= n
  {
  }

  lemma BootedBytes(f: seq<Byte>, sizeA: nat, sizeB: nat, locA: nat, locB: nat, timestamp: seq<Byte>, partitions: seq<Byte>)
    requires 512 <= |f| && |timestamp| == 6 && |partitions| == 70
    ensures var g := Booted(f, sizeA, sizeB, locA, locB, timestamp, partitions);
            && g[..218] == f[..218] && g[218..224] == timestamp && g[224..0x1A4] == f[224..0x1A4]
            && g[0x1A4..0x1A6] == Word(sizeA, 2) && g[0x1A6..0x1A8] == Word(sizeB, 2)
            && g[0x1A8..0x1B0] == Word(locA, 8) && g[0x1B0..0x1B8] == Word(locB, 8)
            && g[440..510] == partitions && g[510..512] == f[510..512]
  {
    hide Word;
    WordLength();
  }

  lemma ImagedBytes(f: seq<Byte>, image: seq<Byte>, sizeA: nat, locA: nat, locB: nat)
    requires 512 + sizeA <= |image|
    requires 512 <= locA && locA + sizeA <= |f| && 512 <= locB && locB + (|image| - 512 - sizeA) <= |f|
    requires locA + sizeA <= locB || locB + (|image| - 512 - sizeA) <= locA
    ensures var g := Imaged(f, image, sizeA, locA, locB);
            && g[..512] == image[..512]
            && g[locA..locA + sizeA] == image[512..512 + sizeA]
            && g[locB..locB + (|image| - 512 - sizeA)] == image[512 + sizeA..]
  {
  }

  lemma KeepsSlice(f: seq<Byte>, g: seq<Byte>, lo: nat, hi: nat)
    requires Keeps(f, g, lo, hi) && lo <= hi <= |f|
    ensures g[lo..hi] == f[lo..hi]
  {
  }

  /** What installing the stages writes, when neither half touches the boot sector or the other half:
      both halves in place, and a boot sector that is the image's except for the timestamp, the
      partition table and the four words that say where the halves are. */
  lemma StagedBytes(f: seq<Byte>, image: seq<Byte>, sizeA: nat, sizeB: nat, locA: nat, locB: nat)
    requires 512 + sizeA <= |image|
    requires 512 <= locA && locA + sizeA <= |f| && 512 <= locB && locB + (|image| - 512 - sizeA) <= |f|
    requires locA + sizeA <= locB || locB + (|image| - 512 - sizeA) <= locA
    ensures var g := Staged(f, image, sizeA, sizeB, locA, locB);
            && g[locA..locA + sizeA] == image[512..512 + sizeA]
            && g[locB..locB + (|image| - 512 - sizeA)] == image[512 + sizeA..]
            && g[..218] == image[..218] && g[218..224] == f[218..224] && g[224..0x1A4] == image[224..0x1A4]
            && g[0x1A4..0x1A6] == Word(sizeA, 2) && g[0x1A6..0x1A8] == Word(sizeB, 2)
            && g[0x1A8..0x1B0] == Word(locA, 8) && g[0x1B0..0x1B8] == Word(locB, 8)
            && g[440..510] == f[440..510] && g[510..512] == image[510..512]
  {
    hide Imaged, Booted, Word, Keeps;
    ImagedBytes(f, image, sizeA, locA, locB);
    var m, timestamp, partitions := Imaged(f, image, sizeA, locA, locB), FlatRead(f, 218, 6), FlatRead(f, 440, 70);
    BootedBytes(m, sizeA, sizeB, locA, locB, timestamp, partitions);
    var g, endB := Staged(f, image, sizeA, sizeB, locA, locB), locB + (|image| - 512 - sizeA);
    BootedKeeps(m, sizeA, sizeB, locA, locB, timestamp, partitions, locA, locA + sizeA);
    KeepsSlice(m, g, locA, locA + sizeA);
    BootedKeeps(m, sizeA, sizeB, locA, locB, timestamp, partitions, locB, endB);
    KeepsSlice(m, g, locB, endB);
    BootSlices(m, image);
  }

  lemma BootSlices(m: seq<Byte>, image: seq<Byte>)
    requires 512 <= |m| && 512 <= |image| && m[..512] == image[..512]
    ensures m[..218] == image[..218] && m[224..0x1A4] == image[224..0x1A4] && m[510..512] == image[510..512]
  {
    assert m[..512][..218] == m[..218] && image[..512][..218] == image[..218];
    assert m[..512][224..0x1A4] == m[224..0x1A4] && image[..512][224..0x1A4] == image[224..0x1A4];
    assert m[..512][510..512] == m[510..512] && image[..512][510..512] == image[510..512];
  }

  // ---------------------------------------------------------------------------------------------
  // Both headers stay valid
  // ---------------------------------------------------------------------------------------------

  /** The places an embedding works with. */
  datatype Places = Places(header: nat, table: nat, kept: nat, end: nat, stageA: nat, endA: nat,
                           table2: nat, kept2: nat, end2: nat, stageB: nat, endB: nat, header2: nat)

  function UsedCount(f: seq<Byte>, lb: nat, h: Header): nat {
    MaxUsed(f, Table(h) * lb, EntrySize(h), Count(h)) + 1
  }

  function PlacesOf(f: seq<Byte>, lb: nat, h: Header, h2: Header, sizeA: nat, sizeB: nat): Places
    requires 0 < lb && 0 < EntrySize(h)
  {
    var size, used, count := EntrySize(h), UsedCount(f, lb, h), NewEntryCount(lb, Table(h), EntrySize(h), sizeA);
    var table, table2 := Table(h) * lb, Table(h2) * lb;
    var stageA, stageB := StageLocation(lb, Table(h), sizeA), StageLocation(lb, Table(h2), sizeB);
    Places(lb, table, EntryAt(table, size, used), EntryAt(table, size, count), stageA, stageA + sizeA,
           table2, EntryAt(table2, size, used), EntryAt(table2, size, count), stageB, stageB + sizeB, lb * Alternate(h))
  }

  /** A disk in the order GPT tools lay it out: boot sector, header, primary table area, backup table
      area, backup header; with a backup array that agrees on the entries up to the last used one. */
  ghost predicate WellOrdered(f: seq<Byte>, lb: nat, h: Header, h2: Header) {
    var table, table2, alternate := Table(h) * lb, Table(h2) * lb, lb * Alternate(h);
    && 512 <= lb < U16 && U64 % lb == 0 && |f| < U64
    && 0 < EntrySize(h) == EntrySize(h2)
    && lb + HEADER_BYTES <= table
    && TableEnd(lb, Table(h)) <= table2
    && TableEnd(lb, Table(h2)) <= alternate
    && HeaderAt(f, lb, h) && HeaderAt(f, alternate, h2)
    && HeaderSize(h) == 92 == HeaderSize(h2) && MyLba(h) * lb == lb && MyLba(h2) * lb == alternate
    && SameBytes(f, table, table2, UsedCount(f, lb, h) * EntrySize(h))
  }

  ghost predicate SameBytes(f: seq<Byte>, a: nat, b: nat, n: nat) {
    a + n <= |f| && b + n <= |f| && f[a..a + n] == f[b..b + n]
  }

  /** All that the installer's probe looks at. */
  ghost predicate HeaderAt(f: seq<Byte>, at: nat, h: Header) {
    at + HEADER_BYTES <= |f| && f[at..at + HEADER_BYTES] == h && h[..8] == SIGNATURE
  }

  ghost predicate Ordered(f: seq<Byte>, p: Places) {
    && 512 <= p.header && p.header + HEADER_BYTES <= p.table <= p.kept <= p.end <= p.stageA <= p.endA
    && p.endA <= p.table2 <= p.kept2 <= p.end2 <= p.stageB <= p.endB
    && p.endB <= p.header2 && p.header2 + HEADER_BYTES <= |f| < U64
  }

  lemma PlacesAreOrdered(f: seq<Byte>, lb: nat, h: Header, h2: Header, sizeA: nat, sizeB: nat)
    requires WellOrdered(f, lb, h, h2) && sizeB <= sizeA < U16 && RoundUp(sizeA, lb) <= 32
    requires Embed(f, lb, h, h2, sizeA, sizeB).Some?
    ensures Ordered(f, PlacesOf(f, lb, h, h2, sizeA, sizeB))
    ensures UsedCount(f, lb, h) <= NewEntryCount(lb, Table(h), EntrySize(h), sizeA) < U32
  {
    hide Number, MaxUsed, ZeroEntries, Resized, FlatRead, FlatWrite, NewEntryCount, StageLocation, Signed, HeaderCrc, CrcBytes, RoundUp;
    var size, used, count := EntrySize(h), UsedCount(f, lb, h), NewEntryCount(lb, Table(h), EntrySize(h), sizeA);
    var last: int := MaxUsed(f, Table(h) * lb, size, Count(h));
    TableEndsOrder(lb, Table(h), Table(h2));
    LayoutFits(lb, Table(h), Table(h2), size, sizeA, sizeB);
    SignedBound(count, last);
    EntryAtNext(Table(h) * lb, size, 0, used);
    EntryAtNext(Table(h) * lb, size, used, count);
    EntryAtNext(Table(h2) * lb, size, 0, used);
    EntryAtNext(Table(h2) * lb, size, used, count);
    CountBound(lb, Table(h), size, sizeA);
  }

  /** A first half of more than 32 blocks starts before its table, or ends beyond the disk. */
  lemma LargeHalfIsNotOrdered(f: seq<Byte>, lb: nat, h: Header, h2: Header, sizeA: nat, sizeB: nat)
    requires WellOrdered(f, lb, h, h2) && sizeA < U16 && 32 < RoundUp(sizeA, lb)
    ensures !Ordered(f, PlacesOf(f, lb, h, h2, sizeA, sizeB))
  {
    hide Number, MaxUsed, NewEntryCount, StageLocation, RoundUp;
    LargeHalfDoesNotFit(lb, Table(h), sizeA);
    var p := PlacesOf(f, lb, h, h2, sizeA, sizeB);
    if TableEnd(lb, Table(h)) < sizeA {
      LargeHalfLeavesDisk(lb, Table(h), sizeA);
    } else {
      StageBlock(lb, Table(h), sizeA);
    }
  }

  lemma LargeHalfLeavesDisk(lb: nat, table: nat, size: nat)
    requires 0 < lb && U64 % lb == 0 && TableEnd(lb, table) < size < U16
    ensures U64 <= StageLocation(lb, table, size) + size
  {
    hide RoundUp, StageLocation;
    var w, k: nat := U64 / lb, RoundUp(size, lb);
    StageBeyond(lb, table, size);
    RoundUpBounds(size, lb);
    assert (w + table + 32 - k) * lb == w * lb + (table + 32) * lb - k * lb;
    MulLe(1, table + 32, lb);
  }

  lemma TableEndsOrder(lb: nat, table: nat, table2: nat)
    requires TableEnd(lb, table) <= table2 * lb
    ensures TableEnd(lb, table) <= TableEnd(lb, table2)
  {
    assert (table2 + 32) * lb == table2 * lb + 32 * lb;
  }

  lemma SignedBound(count: nat, m: int)
    requires m < Signed(count) && -1 <= m
    ensures m + 1 <= count
  {
  }

  lemma CountBound(lb: nat, table: nat, entrySize: nat, sizeA: nat)
    requires 0 < lb < U16 && 0 < entrySize && sizeA < U16 && RoundUp(sizeA, lb) <= 32 && TableEnd(lb, table) < U64
    ensures NewEntryCount(lb, table, entrySize, sizeA) < U32
  {
    hide RoundUp, Signed, NewEntryCount, TableEnd;
    FewBlocksFit(lb, table, sizeA);
    CountIsRoom(lb, table, entrySize, sizeA);
    EntriesPerBlock(lb, entrySize);
    MulLeBoth(32 - RoundUp(sizeA, lb), 32, lb / entrySize, U16);
  }

  ghost predicate Blank(f: seq<Byte>, lo: nat, hi: nat) {
    forall i :: lo <= i < hi && i < |f| ==> f[i] == 0
  }

  lemma ZeroedTables(f: seq<Byte>, table: nat, table2: nat, size: nat, used: nat, count: nat)
    requires used <= count && EntryAt(table, size, count) <= EntryAt(table2, size, used)
    requires EntryAt(table2, size, count) <= |f| < U64
    ensures var f2 := ZeroEntries(ZeroEntries(f, table, size, used, count), table2, size, used, count);
            && Keeps(f, f2, 0, EntryAt(table, size, used)) && Blank(f2, EntryAt(table, size, used), EntryAt(table, size, count))
            && Keeps(f, f2, EntryAt(table, size, count), EntryAt(table2, size, used))
            && Blank(f2, EntryAt(table2, size, used), EntryAt(table2, size, count))
            && Keeps(f, f2, EntryAt(table2, size, count), |f|)
  {
    hide EntryAt;
    EntryAtNext(table, size, used, count);
    EntryAtNext(table2, size, used, count);
    ZeroEntriesBytes(f, table, size, used, count);
    ZeroEntriesBytes(ZeroEntries(f, table, size, used, count), table2, size, used, count);
  }

  /** What embedding leaves in the two table areas and the two headers. */
  ghost predicate Embedded(f: seq<Byte>, e: seq<Byte>, h: Header, h2: Header, count: nat, p: Places)
    requires Ordered(f, p) && |e| == |f|
  {
    var entries := e[p.table..p.end];
    && e[p.table..p.kept] == f[p.table..p.kept] && Blank(e, p.kept, p.end)
    && e[p.table2..p.kept2] == f[p.table2..p.kept2] && Blank(e, p.kept2, p.end2)
    && e[p.table2..p.end2] == entries
    && e[p.header..p.header + HEADER_BYTES] == Resized(h, count, entries)
    && e[p.header2..p.header2 + HEADER_BYTES] == Resized(h2, count, entries)
  }

  lemma SameArrays(f: seq<Byte>, lo: nat, mid: nat, hi: nat, lo2: nat, mid2: nat, hi2: nat)
    requires lo <= mid <= hi <= |f| && lo2 <= mid2 <= hi2 <= |f|
    requires mid - lo == mid2 - lo2 && hi - mid == hi2 - mid2
    requires f[lo..mid] == f[lo2..mid2] && Blank(f, mid, hi) && Blank(f, mid2, hi2)
    ensures f[lo..hi] == f[lo2..hi2]
  {
    forall i | 0 <= i < hi - lo
      ensures f[lo..hi][i] == f[lo2..hi2][i]
    {
      if i < mid - lo {
        assert f[lo..mid][i] == f[lo2..mid2][i];
      }
    }
  }

  /** Writing the two headers touches neither table area. */
  lemma HeadersWritten(f: seq<Byte>, g: seq<Byte>, p: Places, r: Header, r2: Header)
    requires Ordered(f, p) && |g| == |f|
    ensures var e := FlatWrite(FlatWrite(g, p.header, r), p.header2, r2);
            && Keeps(g, e, p.table, p.endB)
            && e[p.header..p.header + HEADER_BYTES] == r && e[p.header2..p.header2 + HEADER_BYTES] == r2
  {
    WriteKeeps(g, p.header, r, p.table, p.endB);
    WriteKeeps(FlatWrite(g, p.header, r), p.header2, r2, p.table, p.endB);
  }

  lemma TablesKept(f: seq<Byte>, g: seq<Byte>, e: seq<Byte>, p: Places)
    requires Ordered(f, p) && |f| == |g| == |e|
    requires Keeps(f, g, 0, p.kept) && Blank(g, p.kept, p.end) && Keeps(f, g, p.end, p.kept2) && Blank(g, p.kept2, p.end2)
    requires Keeps(g, e, p.table, p.endB)
    requires p.kept - p.table == p.kept2 - p.table2 && p.end - p.kept == p.end2 - p.kept2
    requires f[p.table..p.kept] == f[p.table2..p.kept2]
    ensures e[p.table..p.end] == g[p.table..p.end] == e[p.table2..p.end2]
    ensures e[p.table..p.kept] == f[p.table..p.kept] && Blank(e, p.kept, p.end)
    ensures e[p.table2..p.kept2] == f[p.table2..p.kept2] && Blank(e, p.kept2, p.end2)
  {
    KeepsSlice(g, e, p.table, p.end);
    assert e[p.table..p.kept] == f[p.table..p.kept];
    assert e[p.table2..p.kept2] == f[p.table2..p.kept2];
    SameArrays(e, p.table, p.kept, p.end, p.table2, p.kept2, p.end2);
  }

  lemma EmbedBytes(f: seq<Byte>, lb: nat, h: Header, h2: Header, sizeA: nat, sizeB: nat)
    requires WellOrdered(f, lb, h, h2) && sizeB <= sizeA < U16 && RoundUp(sizeA, lb) <= 32
    requires Embed(f, lb, h, h2, sizeA, sizeB).Some?
    ensures var p := PlacesOf(f, lb, h, h2, sizeA, sizeB);
            && Ordered(f, p)
            && Embedded(f, Embed(f, lb, h, h2, sizeA, sizeB).value, h, h2, NewEntryCount(lb, Table(h), EntrySize(h), sizeA), p)
  {
    hide Number, MaxUsed, ZeroEntries, Resized, FlatWrite, NewEntryCount, StageLocation, Signed, HeaderCrc, CrcBytes, EntryAt, Wrap, Keeps, Blank, TableEnd;
    var p := PlacesOf(f, lb, h, h2, sizeA, sizeB);
    var size, used, count := EntrySize(h), UsedCount(f, lb, h), NewEntryCount(lb, Table(h), EntrySize(h), sizeA);
    PlacesAreOrdered(f, lb, h, h2, sizeA, sizeB);
    ZeroedTables(f, p.table, p.table2, size, used, count);
    var f2 := ZeroEntries(ZeroEntries(f, p.table, size, used, count), p.table2, size, used, count);
    WrapSmall(p.table);
    WrapSmall(p.header2);
    EntrySpan(p.table, size, used, count);
    EntrySpan(p.table2, size, used, count);
    var entries := FlatRead(f2, p.table, count * size);
    assert entries == f2[p.table..p.end];
    HeadersWritten(f, f2, p, Resized(h, count, entries), Resized(h2, count, entries));
    var e := FlatWrite(FlatWrite(f2, lb, Resized(h, count, entries)), p.header2, Resized(h2, count, entries));
    TablesKept(f, f2, e, p);
  }

  lemma EntrySpan(table: nat, size: nat, used: nat, count: nat)
    requires used <= count
    ensures EntryAt(table, size, used) == table + used * size
    ensures EntryAt(table, size, count) == table + count * size
    ensures EntryAt(table, size, count) - EntryAt(table, size, used) == (count - used) * size
  {
  }

  /** Nothing an embedding put in place is touched by the later boot-sector and stage-2 writes. */
  lemma StagesKeepTables(f: seq<Byte>, e: seq<Byte>, h: Header, h2: Header, count: nat, p: Places, image: seq<Byte>, sizeA: nat, sizeB: nat)
    requires Ordered(f, p) && |e| == |f| && Embedded(f, e, h, h2, count, p)
    requires 512 + sizeA <= |image| <= 512 + sizeA + sizeB && p.endA == p.stageA + sizeA && p.endB == p.stageB + sizeB
    ensures Embedded(f, Staged(e, image, sizeA, sizeB, p.stageA, p.stageB), h, h2, count, p)
  {
    hide Resized, Staged;
    var g := Staged(e, image, sizeA, sizeB, p.stageA, p.stageB);
    StagedKeeps(e, image, sizeA, sizeB, p.stageA, p.stageB, p.header, p.end);
    StagedKeeps(e, image, sizeA, sizeB, p.stageA, p.stageB, p.table2, p.end2);
    StagedKeeps(e, image, sizeA, sizeB, p.stageA, p.stageB, p.header2, |f|);
    SubSlice(e, g, p.header, p.end, p.header, p.header + HEADER_BYTES);
    SubSlice(e, g, p.header, p.end, p.table, p.end);
    SubSlice(e, g, p.header, p.end, p.table, p.kept);
    SubSlice(e, g, p.table2, p.end2, p.table2, p.end2);
    SubSlice(e, g, p.table2, p.end2, p.table2, p.kept2);
    SubSlice(e, g, p.header2, |f|, p.header2, p.header2 + HEADER_BYTES);
  }

  lemma SubSlice(f: seq<Byte>, g: seq<Byte>, lo: nat, hi: nat, from: nat, until: nat)
    requires Keeps(f, g, lo, hi) && lo <= from <= until <= hi <= |f|
    ensures g[from..until] == f[from..until]
  {
  }

  /** A disk with these tables and headers has two valid headers. */
  lemma EmbeddedIsValid(f: seq<Byte>, g: seq<Byte>, lb: nat, h: Header, h2: Header, count: nat, p: Places)
    requires Ordered(f, p) && |g| == |f| && Embedded(f, g, h, h2, count, p) && count < U32
    requires EntrySize(h) == EntrySize(h2) && h[..8] == SIGNATURE == h2[..8]
    requires HeaderSize(h) == 92 == HeaderSize(h2) && MyLba(h) * lb == p.header && MyLba(h2) * lb == p.header2 == lb * Alternate(h)
    requires p.table == Table(h) * lb && p.table2 == Table(h2) * lb
    requires p.end - p.table == count * EntrySize(h) == p.end2 - p.table2
    ensures ValidHeader(g, lb, p.header) && ValidHeader(g, lb, p.header2)
  {
    hide Resized, HeaderCrc, CrcBytes, Number;
    var entries := g[p.table..p.end];
    ResizedHeader(h, count, entries);
    ResizedHeader(h2, count, entries);
    SignatureKept(h, Resized(h, count, entries));
    SignatureKept(h2, Resized(h2, count, entries));
  }

  lemma SignatureKept(h: Header, r: Header)
    requires r[..CRC_AT] == h[..CRC_AT]
    ensures r[..8] == h[..8]
  {
    assert r[..8] == r[..CRC_AT][..8] && h[..8] == h[..CRC_AT][..8];
  }

  /** Every used entry keeps its bytes in both arrays, the other entries of the new arrays are blank, both
      headers are valid for `count` entries, and the primary one names the backup. */
  ghost predicate GptIntact(f: seq<Byte>, g: seq<Byte>, lb: nat, count: nat, p: Places)
    requires Ordered(f, p) && |g| == |f|
  {
    && g[p.table..p.kept] == f[p.table..p.kept] && Blank(g, p.kept, p.end)
    && g[p.table2..p.kept2] == f[p.table2..p.kept2] && Blank(g, p.kept2, p.end2)
    && ValidHeader(g, lb, p.header) && ValidHeader(g, lb, p.header2)
    && Alternate(HeaderIn(g, p.header)) * lb == p.header2
    && Count(HeaderIn(g, p.header)) == count == Count(HeaderIn(g, p.header2))
  }

  /** A successful embedding on a well-ordered disk, boot-sector and stage-2 writes included, keeps the GPT
      intact if the first half takes at most 32 blocks; if it takes more, the places are not in order. */
  lemma EmbeddingKeepsGptValid(f: seq<Byte>, lb: nat, h: Header, h2: Header, image: seq<Byte>, sizeA: nat, sizeB: nat)
    requires WellOrdered(f, lb, h, h2) && sizeB <= sizeA < U16
    requires 512 + sizeA <= |image| <= 512 + sizeA + sizeB
    requires Embed(f, lb, h, h2, sizeA, sizeB).Some?
    ensures var p := PlacesOf(f, lb, h, h2, sizeA, sizeB);
            var g := Staged(Embed(f, lb, h, h2, sizeA, sizeB).value, image, sizeA, sizeB, p.stageA, p.stageB);
            && (Ordered(f, p) <==> RoundUp(sizeA, lb) <= 32)
            && (Ordered(f, p) ==> GptIntact(f, g, lb, NewEntryCount(lb, Table(h), EntrySize(h), sizeA), p))
  {
    hide Number, MaxUsed, Resized, NewEntryCount, StageLocation, CrcBytes, EntryAt, Blank, TableEnd, Staged, Embed, ValidHeader, Ordered, GptIntact,
         RoundUp;
    if RoundUp(sizeA, lb) <= 32 {
      OrderedEmbedding(f, lb, h, h2, image, sizeA, sizeB);
    } else {
      LargeHalfIsNotOrdered(f, lb, h, h2, sizeA, sizeB);
    }
  }

  lemma OrderedEmbedding(f: seq<Byte>, lb: nat, h: Header, h2: Header, image: seq<Byte>, sizeA: nat, sizeB: nat)
    requires WellOrdered(f, lb, h, h2) && sizeB <= sizeA < U16 && RoundUp(sizeA, lb) <= 32
    requires 512 + sizeA <= |image| <= 512 + sizeA + sizeB
    requires Embed(f, lb, h, h2, sizeA, sizeB).Some?
    ensures var p := PlacesOf(f, lb, h, h2, sizeA, sizeB);
            var g := Staged(Embed(f, lb, h, h2, sizeA, sizeB).value, image, sizeA, sizeB, p.stageA, p.stageB);
            Ordered(f, p) && GptIntact(f, g, lb, NewEntryCount(lb, Table(h), EntrySize(h), sizeA), p)
  {
    hide Number, MaxUsed, Resized, NewEntryCount, StageLocation, CrcBytes, EntryAt, Blank, TableEnd, Staged, Embed, ValidHeader, Ordered, GptIntact,
         RoundUp;
    var p := PlacesOf(f, lb, h, h2, sizeA, sizeB);
    var e, count := Embed(f, lb, h, h2, sizeA, sizeB).value, NewEntryCount(lb, Table(h), EntrySize(h), sizeA);
    EmbedBytes(f, lb, h, h2, sizeA, sizeB);
    PlacesAreOrdered(f, lb, h, h2, sizeA, sizeB);
    StagesKeepTables(f, e, h, h2, count, p, image, sizeA, sizeB);
    var g := Staged(e, image, sizeA, sizeB, p.stageA, p.stageB);
    EntrySpan(p.table, EntrySize(h), UsedCount(f, lb, h), count);
    EntrySpan(p.table2, EntrySize(h), UsedCount(f, lb, h), count);
    IntactFromEmbedded(f, g, lb, h, h2, count, p);
  }

  lemma IntactFromEmbedded(f: seq<Byte>, g: seq<Byte>, lb: nat, h: Header, h2: Header, count: nat, p: Places)
    requires Ordered(f, p) && |g| == |f| && Embedded(f, g, h, h2, count, p) && count < U32
    requires EntrySize(h) == EntrySize(h2) && h[..8] == SIGNATURE == h2[..8]
    requires HeaderSize(h) == 92 == HeaderSize(h2) && MyLba(h) * lb == p.header && MyLba(h2) * lb == p.header2 == lb * Alternate(h)
    requires p.table == Table(h) * lb && p.table2 == Table(h2) * lb
    requires p.end - p.table == count * EntrySize(h) == p.end2 - p.table2
    ensures GptIntact(f, g, lb, count, p)
  {
    hide Number, Resized, CrcBytes, ValidHeader;
    EmbeddedIsValid(f, g, lb, h, h2, count, p);
    ResizedHeader(h, count, g[p.table..p.end]);
    ResizedHeader(h2, count, g[p.table..p.end]);
  }

  /** The bytes of each used entry lie among those kept. */
  lemma UsedEntryIsKept(f: seq<Byte>, lb: nat, h: Header, i: nat)
    requires i < Count(h) && Used(f, Table(h) * lb, EntrySize(h), i)
    ensures EntryAt(Table(h) * lb, EntrySize(h), i + 1) <= EntryAt(Table(h) * lb, EntrySize(h), UsedCount(f, lb, h))
  {
    hide Number, EntryAt;
    assert i <= MaxUsed(f, Table(h) * lb, EntrySize(h), Count(h));
    EntryAtNext(Table(h) * lb, EntrySize(h), i + 1, UsedCount(f, lb, h));
  }
}
