/** GPT headers and entry arrays as bytes on a disk, after section 5.3 of the UEFI specification. */
module GptTables {
  import opened Arithmetic
  import opened Bytes
  import opened BlockCache
  import opened UninstallFile
  import opened Crc32
  import opened GptLayout

  const HEADER_BYTES: nat := 96 // sizeof(struct gpt_table_header): 92 bytes of fields, padded to a multiple of 8
  const ENTRY_BYTES: nat := 128 // sizeof(struct gpt_entry)

  const HEADER_SIZE_AT: nat := 12
  const CRC_AT: nat := 16
  const MY_LBA_AT: nat := 24
  const ALTERNATE_AT: nat := 32
  const TABLE_AT: nat := 72
  const COUNT_AT: nat := 80
  const ENTRY_SIZE_AT: nat := 84
  const ARRAY_CRC_AT: nat := 88

  const SIGNATURE: seq<Byte> := [0x45, 0x46, 0x49, 0x20, 0x50, 0x41, 0x52, 0x54] // "EFI PART"

  type Header = h: seq<Byte> | |h| == HEADER_BYTES witness seq(96, _ => 0 as Byte)

  function Field(h: Header, at: nat, n: nat): nat
    requires at + n <= HEADER_BYTES
  {
    Number(h[at..at + n])
  }

  function Table(h: Header): nat { Field(h, TABLE_AT, 8) }

  function HeaderSize(h: Header): nat { Field(h, HEADER_SIZE_AT, 4) }

  function MyLba(h: Header): nat { Field(h, MY_LBA_AT, 8) }

  function Alternate(h: Header): nat { Field(h, ALTERNATE_AT, 8) }

  function Count(h: Header): nat { Field(h, COUNT_AT, 4) }

  function EntrySize(h: Header): nat { Field(h, ENTRY_SIZE_AT, 4) }

  function CrcBytes(data: seq<Byte>): (b: seq<Byte>)
    ensures |b| == 4
  {
    LittleEndian(Crc(data) as int, 4)
  }

  /** The checksum a header must carry: over its 92 bytes, with the checksum field taken as zero. */
  function HeaderCrc(h: Header): seq<Byte> {
    CrcBytes(Splice(h, CRC_AT, [0, 0, 0, 0])[..92])
  }

  /** Section 5.3.2 of the UEFI specification: the header at `at` has the signature and names the block it
      lies in, and both its checksums agree with the disk.  The header has no more than the fields the
      specification gives it, as the installer takes for granted. */
  ghost predicate ValidHeader(f: seq<Byte>, lb: nat, at: nat) {
    && at + HEADER_BYTES <= |f|
    && var h := HeaderIn(f, at);
       && h[..8] == SIGNATURE && HeaderSize(h) == 92 && MyLba(h) * lb == at
       && h[CRC_AT..CRC_AT + 4] == HeaderCrc(h)
       && Checks(f, Table(h) * lb, Count(h) * EntrySize(h), h[ARRAY_CRC_AT..ARRAY_CRC_AT + 4])
  }

  function HeaderIn(f: seq<Byte>, at: nat): Header
    requires at + HEADER_BYTES <= |f|
  {
    f[at..at + HEADER_BYTES]
  }

  ghost predicate Checks(f: seq<Byte>, at: nat, n: nat, crc: seq<Byte>) {
    at + n <= |f| && crc == CrcBytes(f[at..at + n])
  }

  /** The header the installer writes back. */
  function Resized(h: Header, count: nat, entries: seq<Byte>): (r: Header) {
    var h1 := Splice(h, ARRAY_CRC_AT, CrcBytes(entries));
    var h2 := Splice(h1, COUNT_AT, LittleEndian(count % U32, 4));
    var h3 := Splice(h2, CRC_AT, [0, 0, 0, 0]);
    Splice(h3, CRC_AT, CrcBytes(h3[..92]))
  }

  lemma ResizedHeader(h: Header, count: nat, entries: seq<Byte>)
    requires count < U32
    ensures var r := Resized(h, count, entries);
            && r[CRC_AT..CRC_AT + 4] == HeaderCrc(r)
            && r[ARRAY_CRC_AT..ARRAY_CRC_AT + 4] == CrcBytes(entries)
            && Count(r) == count
            && r[..CRC_AT] == h[..CRC_AT] && r[CRC_AT + 4..COUNT_AT] == h[CRC_AT + 4..COUNT_AT]
            && r[ENTRY_SIZE_AT..ARRAY_CRC_AT] == h[ENTRY_SIZE_AT..ARRAY_CRC_AT] && r[92..] == h[92..]
            && Table(r) == Table(h) && Alternate(r) == Alternate(h) && EntrySize(r) == EntrySize(h)
            && MyLba(r) == MyLba(h) && HeaderSize(r) == HeaderSize(h)
  {
    hide CrcBytes, Number, LittleEndian;
    var h1 := Splice(h, ARRAY_CRC_AT, CrcBytes(entries));
    var h2 := Splice(h1, COUNT_AT, LittleEndian(count, 4));
    var h3 := Splice(h2, CRC_AT, [0, 0, 0, 0]);
    var r := Resized(h, count, entries);
    assert Splice(r, CRC_AT, [0, 0, 0, 0]) == h3;
    assert r[COUNT_AT..COUNT_AT + 4] == LittleEndian(count, 4);
    CountFits(count);
    assert r[TABLE_AT..TABLE_AT + 8] == h[TABLE_AT..TABLE_AT + 8];
    assert r[ALTERNATE_AT..ALTERNATE_AT + 8] == h[ALTERNATE_AT..ALTERNATE_AT + 8];
    assert r[MY_LBA_AT..MY_LBA_AT + 8] == h[MY_LBA_AT..MY_LBA_AT + 8];
    assert r[HEADER_SIZE_AT..HEADER_SIZE_AT + 4] == h[HEADER_SIZE_AT..HEADER_SIZE_AT + 4];
    assert r[ENTRY_SIZE_AT..ENTRY_SIZE_AT + 4] == h[ENTRY_SIZE_AT..ENTRY_SIZE_AT + 4];
  }

  lemma CountFits(count: nat)
    requires count < U32
    ensures Number(LittleEndian(count, 4)) == count
  {
    assert Power256(4) == U32;
    NumberOfLittleEndian(count, 4);
  }

  /** An entry is in use when its unique GUID, bytes 16 to 31, is not zero. */
  predicate UsedEntry(e: seq<Byte>)
    requires 32 <= |e|
  {
    e[16..32] != seq(16, _ => 0 as Byte)
  }

  function EntryAt(table: nat, entrySize: nat, i: nat): nat {
    table + i * entrySize
  }

  lemma EntryAtNext(table: nat, entrySize: nat, i: nat, j: nat)
    requires i <= j
    ensures EntryAt(table, entrySize, i) <= EntryAt(table, entrySize, j)
    ensures EntryAt(table, entrySize, i + 1) == EntryAt(table, entrySize, i) + entrySize
  {
    MulLe(i, j, entrySize);
    assert (i + 1) * entrySize == i * entrySize + entrySize;
  }

  /** Entry `i` of the array at `table`, as the installer reads it. */
  predicate Used(f: seq<Byte>, table: nat, entrySize: nat, i: nat) {
    var e := FlatRead(f, Wrap(EntryAt(table, entrySize, i)), ENTRY_BYTES);
    |e| == ENTRY_BYTES && UsedEntry(e)
  }

  /** The largest used index below `n`, or -1. */
  function MaxUsed(f: seq<Byte>, table: nat, entrySize: nat, n: nat): (m: int)
    ensures -1 <= m < n
    ensures 0 <= m ==> Used(f, table, entrySize, m)
    ensures forall i :: m < i < n ==> !Used(f, table, entrySize, i)
  {
    if n == 0 then -1
    else if Used(f, table, entrySize, n - 1) then n - 1
    else MaxUsed(f, table, entrySize, n - 1)
  }

  /** Entries `from` up to `until` overwritten with zeros, one at a time. */
  function ZeroEntries(f: seq<Byte>, table: nat, entrySize: nat, from: nat, until: nat): (g: seq<Byte>)
    requires from <= until
    ensures |g| == |f|
    decreases until - from
  {
    if from == until then f
    else ZeroEntries(FlatWrite(f, Wrap(EntryAt(table, entrySize, from)), Zeros(entrySize)), table, entrySize, from + 1, until)
  }

  function Zeros(n: nat): (z: seq<Byte>)
    ensures |z| == n
  {
    seq(n, _ => 0 as Byte)
  }

  /** One zeroing is a memset of the whole stretch. */
  lemma {:induction false} ZeroEntriesBytes(f: seq<Byte>, table: nat, entrySize: nat, from: nat, until: nat)
    requires from <= until && EntryAt(table, entrySize, until) <= |f| < U64
    ensures var g, lo, hi := ZeroEntries(f, table, entrySize, from, until), EntryAt(table, entrySize, from), EntryAt(table, entrySize, until);
            lo <= hi && forall i :: 0 <= i < |f| ==> g[i] == (if lo <= i < hi then 0 else f[i])
    decreases until - from
  {
    hide Wrap, EntryAt;
    EntryAtNext(table, entrySize, from, until);
    if from == until {
    } else {
      EntryAtNext(table, entrySize, from + 1, until);
      var at := EntryAt(table, entrySize, from);
      WrapSmall(at);
      var h := FlatWrite(f, at, Zeros(entrySize));
      assert at + entrySize <= |f| && h == Splice(f, at, Zeros(entrySize));
      ZeroEntriesBytes(h, table, entrySize, from + 1, until);
      var g, r := ZeroEntries(f, table, entrySize, from, until), ZeroEntries(h, table, entrySize, from + 1, until);
      assert g == r;
      var hi := EntryAt(table, entrySize, until);
      forall i | 0 <= i < |f|
        ensures g[i] == (if at <= i < hi then 0 else f[i])
      {
        assert r[i] == (if at + entrySize <= i < hi then 0 else h[i]);
        assert h[i] == (if at <= i < at + entrySize then 0 else f[i]);
      }
    }
  }

  lemma WrapSmall(x: nat)
    requires x < U64
    ensures Wrap(x) == x
  {
  }

  lemma {:induction false} ZeroEntriesEnd(f: seq<Byte>, table: nat, entrySize: nat, from: nat, until: nat)
    requires from <= until
    ensures ZeroEntries(f, table, entrySize, from, until + 1)
         == FlatWrite(ZeroEntries(f, table, entrySize, from, until), Wrap(EntryAt(table, entrySize, until)), Zeros(entrySize))
    decreases until - from
  {
    hide FlatWrite, Zeros, Wrap, EntryAt;
    if from == until {
    } else {
      ZeroEntriesEnd(FlatWrite(f, Wrap(EntryAt(table, entrySize, from)), Zeros(entrySize)), table, entrySize, from + 1, until);
    }
  }
}
