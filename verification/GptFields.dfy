/** The structures of a GPT as the installer declares them (limine/limine.c:76-112): each field has its width and
    follows the one before it, and what the installer reads and writes are the fields of these names. */
module GptFields {
  import opened Arithmetic
  import opened Bytes
  import opened UninstallFile
  import opened Crc32
  import opened GptTables

  /** struct gpt_table_header, with its padding. */
  datatype Fields = Fields(
    signature: seq<Byte>, revision: nat, headerSize: nat, crc: nat, reserved: nat,
    myLba: nat, alternateLba: nat, firstUsableLba: nat, lastUsableLba: nat,
    guid0: nat, guid1: nat,
    entryLba: nat, entryCount: nat, entrySize: nat, arrayCrc: nat,
    padding: seq<Byte>)
  {
    /** Each value fits its field. */
    predicate Ok() {
      && |signature| == 8 && |padding| == 4
      && revision < U32 && headerSize < U32 && crc < U32 && reserved < U32
      && myLba < U64 && alternateLba < U64 && firstUsableLba < U64 && lastUsableLba < U64
      && guid0 < U64 && guid1 < U64
      && entryLba < U64 && entryCount < U32 && entrySize < U32 && arrayCrc < U32
    }
  }

  function Head(r: Fields): (b: seq<Byte>)
    requires r.Ok()
    ensures |b| == 24
  {
    r.signature + LittleEndian(r.revision, 4) + LittleEndian(r.headerSize, 4) + LittleEndian(r.crc, 4) + LittleEndian(r.reserved, 4)
  }

  function Blocks(r: Fields): (b: seq<Byte>)
    ensures |b| == 32
  {
    LittleEndian(r.myLba, 8) + LittleEndian(r.alternateLba, 8) + LittleEndian(r.firstUsableLba, 8) + LittleEndian(r.lastUsableLba, 8)
  }

  function Guid(r: Fields): (b: seq<Byte>)
    ensures |b| == 16
  {
    LittleEndian(r.guid0, 8) + LittleEndian(r.guid1, 8)
  }

  function Entries(r: Fields): (b: seq<Byte>)
    ensures |b| == 20
  {
    LittleEndian(r.entryLba, 8) + LittleEndian(r.entryCount, 4) + LittleEndian(r.entrySize, 4) + LittleEndian(r.arrayCrc, 4)
  }

  /** The members in the order of their declaration. */
  function Pack(r: Fields): (h: Header)
    requires r.Ok()
  {
    Head(r) + Blocks(r) + Guid(r) + Entries(r) + r.padding
  }

  /** The bytes of each field. */
  lemma PackedBytes(r: Fields)
    requires r.Ok()
    ensures var h := Pack(r);
            && h[..8] == r.signature && h[8..12] == LittleEndian(r.revision, 4) && h[12..16] == LittleEndian(r.headerSize, 4)
            && h[16..20] == LittleEndian(r.crc, 4) && h[20..24] == LittleEndian(r.reserved, 4)
            && h[24..32] == LittleEndian(r.myLba, 8) && h[32..40] == LittleEndian(r.alternateLba, 8)
            && h[40..48] == LittleEndian(r.firstUsableLba, 8) && h[48..56] == LittleEndian(r.lastUsableLba, 8)
            && h[56..64] == LittleEndian(r.guid0, 8) && h[64..72] == LittleEndian(r.guid1, 8)
            && h[72..80] == LittleEndian(r.entryLba, 8) && h[80..84] == LittleEndian(r.entryCount, 4)
            && h[84..88] == LittleEndian(r.entrySize, 4) && h[88..92] == LittleEndian(r.arrayCrc, 4) && h[92..] == r.padding
  {
    hide LittleEndian, Pack, Head, Blocks, Guid, Entries;
    var h := Pack(r);
    GroupBytes(r);
    MemberBytes(r);
    Inner(h, 0, 24, 0, 8);
    Inner(h, 0, 24, 8, 12);
    Inner(h, 0, 24, 12, 16);
    Inner(h, 0, 24, 16, 20);
    Inner(h, 0, 24, 20, 24);
    Inner(h, 24, 56, 0, 8);
    Inner(h, 24, 56, 8, 16);
    Inner(h, 24, 56, 16, 24);
    Inner(h, 24, 56, 24, 32);
    Inner(h, 56, 72, 0, 8);
    Inner(h, 56, 72, 8, 16);
    Inner(h, 72, 92, 0, 8);
    Inner(h, 72, 92, 8, 12);
    Inner(h, 72, 92, 12, 16);
    Inner(h, 72, 92, 16, 20);
  }

  lemma Inner(h: Header, lo: nat, hi: nat, a: nat, b: nat)
    requires a <= b && lo + b <= hi <= HEADER_BYTES
    ensures h[lo..hi][a..b] == h[lo + a..lo + b]
  {
    var s, t := h[lo..hi][a..b], h[lo + a..lo + b];
    forall i | 0 <= i < |s|
      ensures s[i] == t[i]
    {
      assert s[i] == h[lo..hi][a + i];
    }
  }

  lemma Parts(a: seq<Byte>, b: seq<Byte>, c: seq<Byte>, d: seq<Byte>, e: seq<Byte>)
    ensures var s, m, n := a + b + c + d + e, |a| + |b|, |a| + |b| + |c|;
            s[0..|a|] == a && s[|a|..m] == b && s[m..n] == c && s[n..n + |d|] == d && s[n + |d|..] == e
  {
    var s, m := a + b + c + d + e, |a| + |b|;
    assert s[..|a| + |b| + |c| + |d|] == a + b + c + d;
    assert s[m..m + |c|] == (a + b + c)[m..] == c;
  }

  lemma GroupBytes(r: Fields)
    requires r.Ok()
    ensures var h := Pack(r);
            h[0..24] == Head(r) && h[24..56] == Blocks(r) && h[56..72] == Guid(r) && h[72..92] == Entries(r) && h[92..] == r.padding
  {
    hide LittleEndian, Head, Blocks, Guid, Entries;
    Parts(Head(r), Blocks(r), Guid(r), Entries(r), r.padding);
  }

  lemma MemberBytes(r: Fields)
    requires r.Ok()
    ensures var b := Head(r);
            && b[..8] == r.signature && b[8..12] == LittleEndian(r.revision, 4) && b[12..16] == LittleEndian(r.headerSize, 4)
            && b[16..20] == LittleEndian(r.crc, 4) && b[20..24] == LittleEndian(r.reserved, 4)
    ensures var b := Blocks(r);
            && b[0..8] == LittleEndian(r.myLba, 8) && b[8..16] == LittleEndian(r.alternateLba, 8)
            && b[16..24] == LittleEndian(r.firstUsableLba, 8) && b[24..32] == LittleEndian(r.lastUsableLba, 8)
    ensures Guid(r)[0..8] == LittleEndian(r.guid0, 8) && Guid(r)[8..16] == LittleEndian(r.guid1, 8)
    ensures var b := Entries(r);
            && b[0..8] == LittleEndian(r.entryLba, 8) && b[8..12] == LittleEndian(r.entryCount, 4)
            && b[12..16] == LittleEndian(r.entrySize, 4) && b[16..20] == LittleEndian(r.arrayCrc, 4)
  {
    hide LittleEndian;
  }

  lemma NumberOfField(v: nat, n: nat)
    requires (n == 4 && v < U32) || (n == 8 && v < U64)
    ensures Number(LittleEndian(v, n)) == v
  {
    Power256Of8();
    assert Power256(4) == U32;
    NumberOfLittleEndian(v, n);
  }

  /** The installer reads the fields of a packed header. */
  lemma FieldsAreRead(r: Fields)
    requires r.Ok()
    ensures var h := Pack(r);
            && HeaderSize(h) == r.headerSize && MyLba(h) == r.myLba && Alternate(h) == r.alternateLba
            && Table(h) == r.entryLba && Count(h) == r.entryCount && EntrySize(h) == r.entrySize
  {
    hide Pack, LittleEndian, Number;
    PackedBytes(r);
    NumberOfField(r.headerSize, 4);
    NumberOfField(r.myLba, 8);
    NumberOfField(r.alternateLba, 8);
    NumberOfField(r.entryLba, 8);
    NumberOfField(r.entryCount, 4);
    NumberOfField(r.entrySize, 4);
  }

  /** Two headers with the same fields are the same. */
  lemma SameHeader(g: Header, h: Header)
    requires g[..8] == h[..8] && g[8..12] == h[8..12] && g[12..16] == h[12..16] && g[16..20] == h[16..20] && g[20..24] == h[20..24]
    requires g[24..32] == h[24..32] && g[32..40] == h[32..40] && g[40..48] == h[40..48] && g[48..56] == h[48..56]
    requires g[56..64] == h[56..64] && g[64..72] == h[64..72] && g[72..80] == h[72..80] && g[80..84] == h[80..84]
    requires g[84..88] == h[84..88] && g[88..92] == h[88..92] && g[92..] == h[92..]
    ensures g == h
  {
    SameUpTo(g, h, 8, 12);
    SameUpTo(g, h, 12, 16);
    SameUpTo(g, h, 16, 20);
    SameUpTo(g, h, 20, 24);
    SameUpTo(g, h, 24, 32);
    SameUpTo(g, h, 32, 40);
    SameUpTo(g, h, 40, 48);
    SameUpTo(g, h, 48, 56);
    SameUpTo(g, h, 56, 64);
    SameUpTo(g, h, 64, 72);
    SameUpTo(g, h, 72, 80);
    SameUpTo(g, h, 80, 84);
    SameUpTo(g, h, 84, 88);
    SameUpTo(g, h, 88, 92);
    assert g == g[..92] + g[92..] && h == h[..92] + h[92..];
  }

  lemma SameUpTo(g: Header, h: Header, a: nat, b: nat)
    requires a <= b <= HEADER_BYTES && g[..a] == h[..a] && g[a..b] == h[a..b]
    ensures g[..b] == h[..b]
  {
    assert g[..b] == g[..a] + g[a..b] && h[..b] == h[..a] + h[a..b];
  }

  /** Every header is packed from its fields. */
  lemma HeaderIsPacked(h: Header) returns (r: Fields)
    ensures r.Ok() && Pack(r) == h
  {
    hide LittleEndian, Number, Pack;
    Power256Of8();
    assert Power256(4) == U32;
    r := Fields(h[..8], FieldOf(h[8..12]), FieldOf(h[12..16]), FieldOf(h[16..20]), FieldOf(h[20..24]),
                FieldOf(h[24..32]), FieldOf(h[32..40]), FieldOf(h[40..48]), FieldOf(h[48..56]),
                FieldOf(h[56..64]), FieldOf(h[64..72]),
                FieldOf(h[72..80]), FieldOf(h[80..84]), FieldOf(h[84..88]), FieldOf(h[88..92]), h[92..]);
    PackedBytes(r);
    SameHeader(Pack(r), h);
  }

  /** The number of a field; its bytes are its number's. */
  function FieldOf(b: seq<Byte>): (v: nat)
    ensures v < Power256(|b|) && LittleEndian(v, |b|) == b
  {
    LittleEndianOfNumber(b);
    Number(b)
  }

  /** The CRC-32 of some bytes as a number. */
  function Checksum(data: seq<Byte>): (v: nat)
    ensures v < U32
  {
    Crc(data) as int
  }

  lemma SpliceMiddle(a: seq<Byte>, b: seq<Byte>, c: seq<Byte>, d: seq<Byte>)
    requires |b| == |d|
    ensures Splice(a + b + c, |a|, d) == a + d + c
  {
  }

  lemma CrcReplaced(r: Fields, v: nat)
    requires r.Ok() && v < U32
    ensures Splice(Pack(r), 16, LittleEndian(v, 4)) == Pack(r.(crc := v))
  {
    hide LittleEndian, Splice, Blocks, Guid, Entries;
    var before := r.signature + LittleEndian(r.revision, 4) + LittleEndian(r.headerSize, 4);
    var after := LittleEndian(r.reserved, 4) + Blocks(r) + Guid(r) + Entries(r) + r.padding;
    SameGroups(r, r.(crc := v));
    assert Pack(r) == before + LittleEndian(r.crc, 4) + after;
    assert Pack(r.(crc := v)) == before + LittleEndian(v, 4) + after;
    SpliceMiddle(before, LittleEndian(r.crc, 4), after, LittleEndian(v, 4));
  }

  lemma SameGroups(r: Fields, w: Fields)
    ensures w == r.(crc := w.crc) ==> Blocks(w) == Blocks(r) && Guid(w) == Guid(r) && Entries(w) == Entries(r)
    ensures r.Ok() && w.Ok() && w == r.(entryCount := w.entryCount) ==> Head(w) == Head(r) && Blocks(w) == Blocks(r) && Guid(w) == Guid(r)
    ensures r.Ok() && w.Ok() && w == r.(arrayCrc := w.arrayCrc) ==> Head(w) == Head(r) && Blocks(w) == Blocks(r) && Guid(w) == Guid(r)
  {
    hide LittleEndian;
  }

  lemma CountReplaced(r: Fields, v: nat)
    requires r.Ok() && v < U32
    ensures Splice(Pack(r), 80, LittleEndian(v, 4)) == Pack(r.(entryCount := v))
  {
    hide LittleEndian, Splice, Head, Blocks, Guid;
    var before := Head(r) + Blocks(r) + Guid(r) + LittleEndian(r.entryLba, 8);
    var after := LittleEndian(r.entrySize, 4) + LittleEndian(r.arrayCrc, 4) + r.padding;
    SameGroups(r, r.(entryCount := v));
    assert Pack(r) == before + LittleEndian(r.entryCount, 4) + after;
    assert Pack(r.(entryCount := v)) == before + LittleEndian(v, 4) + after;
    SpliceMiddle(before, LittleEndian(r.entryCount, 4), after, LittleEndian(v, 4));
  }

  lemma ArrayCrcReplaced(r: Fields, v: nat)
    requires r.Ok() && v < U32
    ensures Splice(Pack(r), 88, LittleEndian(v, 4)) == Pack(r.(arrayCrc := v))
  {
    hide LittleEndian, Splice, Head, Blocks, Guid;
    var before := Head(r) + Blocks(r) + Guid(r) + LittleEndian(r.entryLba, 8) + LittleEndian(r.entryCount, 4) + LittleEndian(r.entrySize, 4);
    SameGroups(r, r.(arrayCrc := v));
    assert Pack(r) == before + LittleEndian(r.arrayCrc, 4) + r.padding;
    assert Pack(r.(arrayCrc := v)) == before + LittleEndian(v, 4) + r.padding;
    SpliceMiddle(before, LittleEndian(r.arrayCrc, 4), r.padding, LittleEndian(v, 4));
  }

  /** Rewriting a header is giving it the count, the checksum of the entries, and the checksum of its own 92 bytes
      with that field zero, and nothing else. */
  lemma ResizedIsPacked(r: Fields, count: nat, entries: seq<Byte>)
    requires r.Ok() && count < U32
    ensures var blank := r.(entryCount := count, arrayCrc := Checksum(entries), crc := 0);
            Resized(Pack(r), count, entries) == Pack(blank.(crc := Checksum(Pack(blank)[..92])))
  {
    hide LittleEndian, Pack, Crc, Splice;
    var r1 := r.(arrayCrc := Checksum(entries));
    var r2 := r1.(entryCount := count);
    var blank := r2.(crc := 0);
    ZeroField();
    ArrayCrcReplaced(r, Checksum(entries));
    CountReplaced(r1, count);
    CrcReplaced(r2, 0);
    CrcReplaced(blank, Checksum(Pack(blank)[..92]));
  }

  lemma ZeroField()
    ensures LittleEndian(0, 4) == [0, 0, 0, 0]
  {
  }

  function Signature(): seq<int> {
    seq(8, i requires 0 <= i < 8 => "EFI PART"[i] as int)
  }

  /** The CRC-32 of the 92 bytes of the members, that of the checksum itself taken as zero. */
  function OwnChecksum(r: Fields): (v: nat)
    requires r.Ok()
    ensures v < U32
  {
    Checksum(Pack(r.(crc := 0))[..92])
  }

  /** What section 5.3.2 of the UEFI specification asks of the header at `at`, field by field. */
  ghost predicate Valid(f: seq<Byte>, lb: nat, at: nat, r: Fields)
    requires r.Ok()
  {
    && r.signature == Signature()
    && r.headerSize == 92 && r.myLba * lb == at
    && r.crc == OwnChecksum(r)
    && ArrayValid(f, r.entryLba * lb, r.entryCount * r.entrySize, r.arrayCrc)
  }

  ghost predicate ArrayValid(f: seq<Byte>, at: nat, n: nat, crc: nat) {
    at + n <= |f| && crc == Checksum(f[at..at + n])
  }

  lemma ValidHeaderIsPacked(f: seq<Byte>, lb: nat, at: nat, r: Fields)
    requires r.Ok() && at + 96 <= |f| && f[at..at + 96] == Pack(r)
    ensures ValidHeader(f, lb, at) <==> Valid(f, lb, at, r)
  {
    hide LittleEndian, Number, Pack, Crc;
    FieldsAreRead(r);
    PackedBytes(r);
    BlankedCrc(r);
    SameField(r.crc, OwnChecksum(r));
    ChecksIsArrayValid(f, r.entryLba * lb, r.entryCount * r.entrySize, r.arrayCrc);
    SignatureIs();
  }

  lemma ChecksIsArrayValid(f: seq<Byte>, at: nat, n: nat, crc: nat)
    requires crc < U32
    ensures Checks(f, at, n, LittleEndian(crc, 4)) <==> ArrayValid(f, at, n, crc)
  {
    hide LittleEndian, Crc;
    if at + n <= |f| {
      SameField(crc, Checksum(f[at..at + n]));
    }
  }

  lemma SignatureIs()
    ensures SIGNATURE == Signature()
  {
  }

  lemma BlankedCrc(r: Fields)
    requires r.Ok()
    ensures HeaderCrc(Pack(r)) == CrcBytes(Pack(r.(crc := 0))[..92])
  {
    hide LittleEndian, Pack, Crc;
    ZeroField();
    CrcReplaced(r, 0);
  }

  lemma SameField(v: nat, w: nat)
    requires v < U32 && w < U32
    ensures LittleEndian(v, 4) == LittleEndian(w, 4) <==> v == w
  {
    hide LittleEndian, Number;
    NumberOfField(v, 4);
    NumberOfField(w, 4);
  }

  /** struct gpt_entry. */
  datatype EntryFields = EntryFields(
    type0: nat, type1: nat, unique0: nat, unique1: nat, startingLba: nat, endingLba: nat, attributes: nat, name: seq<Byte>)
  {
    predicate Ok() {
      && type0 < U64 && type1 < U64 && unique0 < U64 && unique1 < U64
      && startingLba < U64 && endingLba < U64 && attributes < U64 && |name| == 2 * 36
    }
  }

  function PackEntry(e: EntryFields): seq<Byte>
    requires e.Ok()
  {
    LittleEndian(e.type0, 8) + LittleEndian(e.type1, 8) + LittleEndian(e.unique0, 8) + LittleEndian(e.unique1, 8)
    + LittleEndian(e.startingLba, 8) + LittleEndian(e.endingLba, 8) + LittleEndian(e.attributes, 8) + e.name
  }

  /** An entry counts as used exactly when its unique GUID is not zero, and it is as long as the installer reads. */
  lemma EntryIsRead(e: EntryFields)
    requires e.Ok()
    ensures |PackEntry(e)| == ENTRY_BYTES
    ensures UsedEntry(PackEntry(e)) <==> e.unique0 != 0 || e.unique1 != 0
  {
    hide LittleEndian, Number;
    var b := PackEntry(e);
    var u, w, zero := LittleEndian(e.unique0, 8), LittleEndian(e.unique1, 8), LittleEndian(0, 8);
    assert b[16..24] == u && b[24..32] == w;
    assert b[16..32] == u + w;
    NumberOfField(e.unique0, 8);
    NumberOfField(e.unique1, 8);
    NumberOfField(0, 8);
    ZeroGuid();
    assert (u + w)[..8] == u && (u + w)[8..] == w && (zero + zero)[..8] == zero && (zero + zero)[8..] == zero;
  }

  lemma ZeroGuid()
    ensures LittleEndian(0, 8) == [0, 0, 0, 0, 0, 0, 0, 0]
    ensures seq(16, _ => 0 as Byte) == LittleEndian(0, 8) + LittleEndian(0, 8)
  {
    assert LittleEndian(0, 4) == [0, 0, 0, 0];
  }
}
