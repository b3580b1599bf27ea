/** The file that carries the undo log from an installation to a later uninstall
    (limine/limine.c:341-424, 649-664, 1049-1069).  Its 64-bit words are little endian, as on the
    machines the installer targets. */
module UninstallFile {
  import opened Arithmetic
  import opened Bytes
  import opened BlockCache
  import opened UndoLog

  function LittleEndian(v: nat, k: nat): (b: seq<Byte>)
    ensures |b| == k
  {
    if k == 0 then [] else [v % 0x100] + LittleEndian(v / 0x100, k - 1)
  }

  function Number(b: seq<Byte>): nat {
    if b == [] then 0 else b[0] + 0x100 * Number(b[1..])
  }

  function Power256(k: nat): (p: nat)
    ensures 0 < p
  {
    if k == 0 then 1 else 0x100 * Power256(k - 1)
  }

  /** Byte `i` has the weight 256^i. */
  lemma {:induction false} LittleEndianAt(v: nat, k: nat, i: nat)
    requires i < k
    ensures LittleEndian(v, k)[i] == v / Power256(i) % 0x100
  {
    if i == 0 {
    } else {
      LittleEndianAt(v / 0x100, k - 1, i - 1);
      QuotientTwice(v, Power256(i - 1));
    }
  }

  lemma QuotientTwice(v: nat, p: nat)
    requires 0 < p
    ensures v / 0x100 / p == v / (0x100 * p)
  {
    var q, o := v / 0x100, v / 0x100 / p;
    assert v == q * 0x100 + v % 0x100 && q == o * p + q % p;
    assert o * p * 0x100 == o * (0x100 * p);
    DivModUnique(o, q % p * 0x100 + v % 0x100, 0x100 * p);
  }

  lemma {:induction false} NumberOfLittleEndian(v: nat, k: nat)
    requires v < Power256(k)
    ensures Number(LittleEndian(v, k)) == v
  {
    if k == 0 {
    } else {
      NumberOfLittleEndian(v / 0x100, k - 1);
      assert LittleEndian(v, k)[1..] == LittleEndian(v / 0x100, k - 1);
    }
  }

  lemma {:induction false} LittleEndianOfNumber(b: seq<Byte>)
    ensures LittleEndian(Number(b), |b|) == b && Number(b) < Power256(|b|)
  {
    if b == [] {
    } else {
      LittleEndianOfNumber(b[1..]);
      LowByte(b[0], Number(b[1..]));
      assert b == [b[0]] + b[1..];
    }
  }

  lemma LowByte(low: Byte, high: nat)
    ensures (low + 0x100 * high) % 0x100 == low && (low + 0x100 * high) / 0x100 == high
  {
  }

  lemma Power256Of8()
    ensures Power256(8) == U64
  {
    assert Power256(4) == 0x1_0000_0000;
    assert Power256(6) == 0x1_0000_0000_0000;
  }

  function StoredEntry(e: Entry): seq<Byte> {
    LittleEndian(e.loc, 8) + LittleEndian(|e.data|, 8) + e.data
  }

  function StoredEntries(es: seq<Entry>): seq<Byte> {
    if es == [] then [] else StoredEntry(es[0]) + StoredEntries(es[1..])
  }

  /** store_uninstall_data on a file that takes every byte.  fwrite of a zero-length item returns 0,
      which the C code takes for an error. */
  function Store(es: seq<Entry>): Option<seq<Byte>> {
    if forall i :: 0 <= i < |es| ==> es[i].data != [] then Some(LittleEndian(|es|, 8) + StoredEntries(es)) else None
  }

  /** `Overrun`: the file announces more entries than the array holds.  The C code has no check for it. */
  datatype Loaded = Loaded(log: seq<Entry>) | ReadError | Overrun

  /** The loop of load_uninstall_data, with `room` array elements left. */
  function LoadEntries(b: seq<Byte>, n: nat, room: nat): (r: Loaded)
    decreases n
  {
    if n == 0 then Loaded([])
    else if room == 0 then Overrun
    else if |b| < 16 then ReadError
    else
      var loc, count := Number(b[..8]), Number(b[8..16]);
      if count == 0 || |b| < 16 + count then ReadError
      else
        LoadedAfter([Entry(loc, b[16..16 + count])], LoadEntries(b[16 + count..], n - 1, room - 1))
  }

  function LoadedAfter(es: seq<Entry>, r: Loaded): Loaded {
    match r
    case Loaded(more) => Loaded(es + more)
    case ReadError => ReadError
    case Overrun => Overrun
  }

  /** load_uninstall_data. */
  function Load(b: seq<Byte>): Loaded {
    if |b| < 8 then ReadError else LoadEntries(b[8..], Number(b[..8]), UNINSTALL_DATA_MAX)
  }

  ghost predicate Storable(e: Entry) {
    e.data != [] && e.loc < U64 && |e.data| < U64
  }

  lemma {:induction false} LoadStoredEntries(es: seq<Entry>, tail: seq<Byte>, room: nat)
    requires |es| <= room && forall i :: 0 <= i < |es| ==> Storable(es[i])
    ensures LoadEntries(StoredEntries(es) + tail, |es|, room) == Loaded(es)
    decreases |es|
  {
    hide LittleEndian, Number, StoredEntry, LoadEntries, Storable;
    if es == [] {
      assert StoredEntries(es) + tail == tail;
      LoadNothing(tail, room);
    } else {
      var e, more := es[0], StoredEntries(es[1..]) + tail;
      assert StoredEntries(es) + tail == StoredEntry(e) + more;
      LoadNext(e, more, |es|, room);
      LoadStoredEntries(es[1..], tail, room - 1);
      assert [e] + es[1..] == es;
    }
  }

  lemma LoadNothing(b: seq<Byte>, room: nat)
    ensures LoadEntries(b, 0, room) == Loaded([])
  {
  }

  lemma LoadNext(e: Entry, more: seq<Byte>, n: nat, room: nat)
    requires Storable(e) && 0 < n && 0 < room
    ensures LoadEntries(StoredEntry(e) + more, n, room) == LoadedAfter([e], LoadEntries(more, n - 1, room - 1))
  {
    hide LittleEndian, Number, StoredEntry;
    EntryAtStart(e, more);
  }

  lemma EntryAtStart(e: Entry, more: seq<Byte>)
    requires Storable(e)
    ensures var b, count := StoredEntry(e) + more, |e.data|;
            && |b| >= 16 + count
            && Number(b[..8]) == e.loc && Number(b[8..16]) == count
            && b[16..16 + count] == e.data && b[16 + count..] == more
  {
    hide Number, LittleEndian, Power256;
    Power256Of8();
    NumberOfLittleEndian(e.loc, 8);
    NumberOfLittleEndian(|e.data|, 8);
    var b := StoredEntry(e) + more;
    assert b[..8] == LittleEndian(e.loc, 8) && b[8..16] == LittleEndian(|e.data|, 8);
  }

  /** Storing succeeds exactly for logs without empty entries, and loading gives the same log back. */
  lemma StoreThenLoad(es: seq<Entry>)
    requires |es| <= 256
    requires forall i :: 0 <= i < |es| ==> es[i].loc < U64 && |es[i].data| < U64
    ensures Store(es).Some? <==> forall i :: 0 <= i < |es| ==> es[i].data != []
    ensures Store(es).Some? ==> Load(Store(es).value) == Loaded(es)
  {
    if Store(es).Some? {
      Power256Of8();
      NumberOfLittleEndian(|es|, 8);
      var b := Store(es).value;
      assert b[..8] == LittleEndian(|es|, 8) && b[8..] == StoredEntries(es) + [];
      LoadStoredEntries(es, [], UNINSTALL_DATA_MAX);
    }
  }

  lemma {:induction false} LoadedEntriesAreStored(b: seq<Byte>, n: nat, room: nat)
    requires LoadEntries(b, n, room).Loaded?
    ensures var es := LoadEntries(b, n, room).log;
            && |es| == n <= room
            && (forall i :: 0 <= i < |es| ==> Storable(es[i]))
            && StoredEntries(es) <= b
    decreases n
  {
    hide LittleEndian, Number, StoredEntry;
    if n == 0 {
    } else {
      var loc, count := Number(b[..8]), Number(b[8..16]);
      EntryBytes(b, count);
      var rest := b[16 + count..];
      LoadedEntriesAreStored(rest, n - 1, room - 1);
      var more := LoadEntries(rest, n - 1, room - 1).log;
      var e := Entry(loc, b[16..16 + count]);
      assert ([e] + more)[1..] == more;
      PrefixAfter(b, 16 + count, StoredEntries(more));
    }
  }

  lemma EntryBytes(b: seq<Byte>, count: nat)
    requires 16 + count <= |b| && count == Number(b[8..16])
    ensures StoredEntry(Entry(Number(b[..8]), b[16..16 + count])) == b[..16 + count]
    ensures Number(b[..8]) < U64 && count < U64
  {
    LittleEndianOfNumber(b[..8]);
    LittleEndianOfNumber(b[8..16]);
    Power256Of8();
  }

  lemma PrefixAfter(b: seq<Byte>, k: nat, p: seq<Byte>)
    requires k <= |b| && p <= b[k..]
    ensures b[..k] + p <= b
  {
    assert b == b[..k] + b[k..];
  }

  /** Whatever file loads is a stored log, up to trailing bytes that are never read. */
  lemma LoadThenStore(b: seq<Byte>)
    requires Load(b).Loaded?
    ensures var es := Load(b).log;
            |es| <= 256 && Store(es).Some? && Store(es).value <= b
  {
    LoadedEntriesAreStored(b[8..], Number(b[..8]), UNINSTALL_DATA_MAX);
    LittleEndianOfNumber(b[..8]);
    var es := Load(b).log;
    assert b == b[..8] + b[8..];
    assert forall i :: 0 <= i < |es| ==> Storable(es[i]);
  }

  lemma {:induction false} ReversedElements(es: seq<Entry>, e: Entry)
    ensures e in Reversed(es) <==> e in es
  {
    if es == [] {
    } else {
      ReversedElements(es[..|es| - 1], e);
      assert es == es[..|es| - 1] + [es[|es| - 1]];
    }
  }

  /** Installing, storing the reversed log, and in a later process loading it and uninstalling gives
      the disk back its bytes from before the installation.  `later` is that process's device: any
      block size and cache, any faults. */
  lemma UninstallUndoesInstall(d: Device, ops: seq<Op>, later: Device)
    requires d.Coherent() && !d.dirty && |d.disk| < U64
    requires var out := Install(State(d, []), ops);
             && out.Completed? && Flush(out.st.dev).ok
             && Store(Reversed(out.st.log)).Some?
             && later.Ok() && later.disk == Flush(out.st.dev).dev.disk
    ensures var file := Store(Reversed(Install(State(d, []), ops).st.log)).value;
            var l := Load(file);
            l.Loaded? && (Uninstall(later, l.log).ok ==> Uninstall(later, l.log).dev.disk == d.disk)
  {
    hide Install, Uninstall, Device.Ok, Device.Flat, Flush, UntouchedBut, DiskSettles, LogRestores, Store, Load;
    var out := Install(State(d, []), ops);
    var es := Reversed(out.st.log);
    StartsUndoable(d);
    InstallIsUndoable(d.disk, State(d, []), ops);
    FlushKeepsFlat(out.st.dev);
    SettledIsUntouched(d.disk, out.st.log, out.st.dev, Flush(out.st.dev).dev);
    SameSize(d.disk, out.st.log, later.disk);
    FittingIsStorable(|d.disk|, out.st.log);
    StoreThenLoad(es);
    if Uninstall(later, es).ok {
      UninstallReplays(later, es);
      ReplayRestoresExactly(d.disk, out.st.log, later.disk);
    }
  }

  lemma FittingIsStorable(n: nat, log: seq<Entry>)
    requires LogFits(n, log) && n < U64 && Store(Reversed(log)).Some?
    ensures var es := Reversed(log);
            |es| <= 256 && forall i :: 0 <= i < |es| ==> es[i].loc < U64 && |es[i].data| < U64
  {
    var es := Reversed(log);
    forall i | 0 <= i < |es|
      ensures es[i].loc < U64 && |es[i].data| < U64
    {
      ReversedElements(log, es[i]);
      assert es[i].data != [];
    }
  }
}
