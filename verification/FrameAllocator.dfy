/** The kernel's bitmap allocator for 4096-byte frames (src/kernel/pmm.c). */
module FrameAllocator {
  import opened Arithmetic
  import opened Bytes

  const PAGE: nat := 4096

  // ---------------------------------------------------------------------------------------------
  // Bits of a byte
  // ---------------------------------------------------------------------------------------------

  function Mask(position: nat): (m: bv8)
    requires position < 8
    ensures m == 1 << position
  {
    match position
    case 0 => 0x01
    case 1 => 0x02
    case 2 => 0x04
    case 3 => 0x08
    case 4 => 0x10
    case 5 => 0x20
    case 6 => 0x40
    case _ => 0x80
  }

  function GetBit(byte: bv8, position: nat): bool
    requires position < 8
  {
    byte & Mask(position) != 0
  }

  function SetBit(byte: bv8, position: nat, setTo: bool): bv8
  {
    if position < 8 then
      if setTo then byte | Mask(position) else byte & !Mask(position)
    else byte
  }

  /** Setting a bit changes that bit and no other. */
  lemma SetBitGetBit(byte: bv8, position: nat, setTo: bool, other: nat)
    requires position < 8 && other < 8
    ensures GetBit(SetBit(byte, position, setTo), other) == if other == position then setTo else GetBit(byte, other)
  {
  }

  // ---------------------------------------------------------------------------------------------
  // The bitmap as a sequence of flags
  // ---------------------------------------------------------------------------------------------

  function BitsOf(bytes: seq<bv8>): (bits: seq<bool>)
    ensures |bits| == 8 * |bytes|
  {
    seq(8 * |bytes|, i requires 0 <= i < 8 * |bytes| => GetBit(bytes[i / 8], i % 8))
  }

  lemma FlagOfBit(bytes: seq<bv8>, b: nat, y: nat)
    requires b < |bytes| && y < 8
    ensures BitsOf(bytes)[8 * b + y] == GetBit(bytes[b], y)
  {
  }

  lemma SetBitSetsFlag(bytes: seq<bv8>, b: nat, y: nat, setTo: bool)
    requires b < |bytes| && y < 8
    ensures BitsOf(bytes[b := SetBit(bytes[b], y, setTo)]) == BitsOf(bytes)[8 * b + y := setTo]
  {
    var after, flags := BitsOf(bytes[b := SetBit(bytes[b], y, setTo)]), BitsOf(bytes)[8 * b + y := setTo];
    forall i | 0 <= i < |flags|
      ensures after[i] == flags[i]
    {
      if i / 8 == b {
        SetBitGetBit(bytes[b], y, setTo, i % 8);
      }
    }
  }

  /** The first index from `i` on whose flag is clear. */
  function FirstFree(bits: seq<bool>, i: nat): (r: Option<nat>)
    requires i <= |bits|
    ensures r.Some? ==> i <= r.value < |bits| && !bits[r.value]
    ensures r.Some? ==> forall j :: i <= j < r.value ==> bits[j]
    ensures r.None? ==> forall j :: i <= j < |bits| ==> bits[j]
    decreases |bits| - i
  {
    if i == |bits| then None
    else if !bits[i] then Some(i)
    else FirstFree(bits, i + 1)
  }

  // ---------------------------------------------------------------------------------------------
  // Choosing the region
  // ---------------------------------------------------------------------------------------------

  datatype Region = Region(base: nat, length: nat, usable: bool)

  ghost predicate Eligible(r: Region) {
    r.usable && 0 < r.length && 0x10_0000 <= r.base
  }

  /** The region initPMM settles on: the first of the longest usable ones that start at or after 1 MiB. */
  ghost predicate Chosen(regions: seq<Region>, begin: int, length: int) {
    if length == 0 then begin == 0 && forall i :: 0 <= i < |regions| ==> !Eligible(regions[i])
    else exists k :: 0 <= k < |regions| && ChosenAt(regions, k, begin, length)
  }

  ghost predicate ChosenAt(regions: seq<Region>, k: nat, begin: int, length: int)
    requires k < |regions|
  {
    && Eligible(regions[k]) && begin == regions[k].base && length == regions[k].length
    && (forall i :: 0 <= i < |regions| && Eligible(regions[i]) ==> regions[i].length <= length)
    && (forall i :: 0 <= i < k && Eligible(regions[i]) ==> regions[i].length < length)
  }

  /** Bytes kept for the bitmap: the fewest whole pages with one bit per page of the region. */
  function ReservedFor(length: nat): (r: nat)
    ensures r % 4096 == 0 && length / 4096 <= 8 * r && (0 < r ==> 8 * (r - 4096) < length / 4096)
  {
    ((length / PAGE + 7) / 8 + (PAGE - 1)) / PAGE * PAGE
  }

  /** The (int) conversion of the fields of kernel.largestSect. */
  function Int32(x: int): (v: int)
    ensures -0x8000_0000 <= v < 0x8000_0000 && (v - x) % 0x1_0000_0000 == 0
  {
    if x % U32 < U32 / 2 then x % U32 else x % U32 - U32
  }

  // ---------------------------------------------------------------------------------------------
  // Flags and live frames
  // ---------------------------------------------------------------------------------------------

  function FrameAt(start: int, i: nat): int {
    start + i * PAGE
  }

  lemma FrameAtInjective(start: int, i: nat, j: nat)
    ensures FrameAt(start, i) == FrameAt(start, j) <==> i == j
  {
  }

  /** A flag is set exactly for the first `reserved` indices and for the live frames. */
  ghost predicate Tracks(bits: seq<bool>, live: set<int>, start: int, reserved: nat) {
    && (forall a :: a in live ==> exists i :: reserved <= i < |bits| && a == FrameAt(start, i))
    && (forall i :: 0 <= i < |bits| ==> (bits[i] <==> i < reserved || FrameAt(start, i) in live))
  }

  lemma TracksTake(bits: seq<bool>, live: set<int>, start: int, reserved: nat, i: nat)
    requires Tracks(bits, live, start, reserved) && i < |bits| && !bits[i]
    ensures FrameAt(start, i) !in live
    ensures Tracks(bits[i := true], live + {FrameAt(start, i)}, start, reserved)
  {
    var more := bits[i := true];
    forall j | 0 <= j < |more|
      ensures more[j] <==> j < reserved || FrameAt(start, j) in live + {FrameAt(start, i)}
    {
      FrameAtInjective(start, i, j);
    }
    forall a | a in live + {FrameAt(start, i)}
      ensures exists j :: reserved <= j < |more| && a == FrameAt(start, j)
    {
      if a in live {
        var j :| reserved <= j < |bits| && a == FrameAt(start, j);
      }
    }
  }

  lemma TracksGive(bits: seq<bool>, live: set<int>, start: int, reserved: nat, i: nat)
    requires Tracks(bits, live, start, reserved) && reserved <= i < |bits|
    ensures Tracks(bits[i := false], live - {FrameAt(start, i)}, start, reserved)
  {
    var fewer := bits[i := false];
    forall j | 0 <= j < |fewer|
      ensures fewer[j] <==> j < reserved || FrameAt(start, j) in live - {FrameAt(start, i)}
    {
      FrameAtInjective(start, i, j);
    }
    forall a | a in live - {FrameAt(start, i)}
      ensures exists j :: reserved <= j < |fewer| && a == FrameAt(start, j)
    {
      var j :| reserved <= j < |bits| && a == FrameAt(start, j);
    }
  }

  /** The bit that kfree clears. */
  function FrameNumber(start: int, location: int): nat {
    (location - start) % U64 / PAGE % U32
  }

  /** kfree's arithmetic finds the index of a frame again. */
  lemma FrameNumberOf(start: int, i: nat)
    requires i < U32
    ensures FrameNumber(start, FrameAt(start, i)) == i
  {
    assert FrameAt(start, i) - start == i * PAGE < U64;
  }

  lemma TracksInitially(n: nat, start: int, reserved: nat)
    ensures Tracks(seq(n, j => j < reserved), {}, start, reserved)
  {
  }

  lemma NoFlagSet(bytes: seq<bv8>)
    requires forall i :: 0 <= i < |bytes| ==> bytes[i] == 0
    ensures BitsOf(bytes) == seq(8 * |bytes|, j => j < 0)
  {
    forall i | 0 <= i < 8 * |bytes|
      ensures !BitsOf(bytes)[i]
    {
      assert bytes[i / 8] == 0;
    }
  }

  lemma ReservedPages(length: nat, pages: nat)
    requires pages == ((length / PAGE + 7) / 8 + (PAGE - 1)) / PAGE
    ensures ReservedFor(length) == pages * PAGE && ReservedFor(length) / PAGE == pages
  {
  }

  lemma ReservedIsSmall(length: nat)
    requires length < U32
    ensures ReservedFor(length) < U32 / 8
  {
  }

  /** A page-aligned region whose bitmap ends below 2 GiB. */
  ghost predicate RegionFits(begin: nat, length: nat) {
    begin % PAGE == 0 && length < U32 / 2 && begin + ReservedFor(length) < U32 / 2
  }

  /** The int fields of kernel.largestSect, and their sum where the frames start, keep the 64-bit values
      exactly for such regions. */
  lemma FieldsKeepValues(begin: nat, length: nat)
    requires begin % PAGE == 0
    ensures (&& Int32(begin) == begin && Int32(length) == length && Int32(ReservedFor(length)) == ReservedFor(length)
             && Int32(begin + ReservedFor(length)) == begin + ReservedFor(length)) <==> RegionFits(begin, length)
  {
    hide ReservedFor;
    IntKeeps(begin);
    IntKeeps(length);
    IntKeeps(ReservedFor(length));
    IntKeeps(begin + ReservedFor(length));
  }

  lemma IntKeeps(x: nat)
    ensures Int32(x) == x <==> x < U32 / 2
  {
  }

  lemma ChosenIsHigh(regions: seq<Region>, begin: nat, length: nat)
    requires Chosen(regions, begin, length)
    ensures 0 < length ==> 0x10_0000 <= begin
  {
    if length > 0 {
      var k :| 0 <= k < |regions| && ChosenAt(regions, k, begin, length);
    }
  }

  /** The scan over the memory map. */
  method ChooseRegion(regions: seq<Region>) returns (begin: nat, length: nat)
    ensures Chosen(regions, begin, length)
    ensures forall r :: r in regions && r.usable && 0x10_0000 <= r.base ==> r.length <= length
    ensures 0 < length ==> 0x10_0000 <= begin && Region(begin, length, true) in regions
  {
    begin, length := 0, 0;
    for i := 0 to |regions|
      invariant Chosen(regions[..i], begin, length)
    {
      ghost var before, after := regions[..i], regions[..i + 1];
      assert forall j :: 0 <= j < i ==> after[j] == before[j];
      if regions[i].usable && regions[i].length > length && regions[i].base >= 0x10_0000 {
        begin, length := regions[i].base, regions[i].length;
        assert ChosenAt(after, i, begin, length);
      } else if length > 0 {
        ghost var k :| 0 <= k < |before| && ChosenAt(before, k, begin, length);
        assert ChosenAt(after, k, begin, length);
      }
    }
    assert regions[..|regions|] == regions;
  }

  class Pmm {
    // kernel.largestSect and the bytes of the bitmap at its start
    var maxBegin: int
    var maxLength: int
    var bitmapReserved: int
    var bitmap: array<bv8>

    // The frames handed out and not yet freed.
    ghost var live: set<int>

    function Bits(): seq<bool>
      reads this, bitmap
    {
      BitsOf(bitmap[..])
    }

    function DataStart(): int
      reads this
    {
      maxBegin + bitmapReserved
    }

    ghost function BitmapPages(): nat
      reads this, bitmap
      requires Region()
    {
      bitmapReserved / PAGE
    }

    /** The bitmap has one bit per page of the region and fills whole pages. */
    ghost predicate Region()
      reads this, bitmap
    {
      && 0 <= maxBegin && 0 <= maxLength && RegionFits(maxBegin, maxLength)
      && (0 < maxLength ==> 0x10_0000 <= maxBegin)
      && bitmap.Length == bitmapReserved == ReservedFor(maxLength)
    }

    ghost predicate Valid()
      reads this, bitmap
    {
      Region() && Tracks(Bits(), live, DataStart(), BitmapPages())
    }

    /** What the fields say of the chosen region, and the allocator that works if that fits them. */
    ghost predicate Describes(begin: nat, length: nat)
      reads this, bitmap
    {
      && maxBegin == Int32(begin) && maxLength == Int32(length) && bitmapReserved == Int32(ReservedFor(length))
      && Bits() == seq(8 * ReservedFor(length), j => j < ReservedFor(length) / PAGE)
      && (RegionFits(begin, length) ==> Valid() && (maxBegin, maxLength) == (begin, length))
    }

    /** initPMM, on any memory map. */
    constructor (regions: seq<Region>)
      ensures exists begin: nat, length: nat :: Chosen(regions, begin, length) && Describes(begin, length)
      ensures live == {}
    {
      hide ReservedFor, Tracks, SetBit, GetBit, Chosen, Int32;
      var begin, length := ChooseRegion(regions);
      var totalPages := length / PAGE;
      var bitmapBytes := (totalPages + 7) / 8;
      var bitmapPages := (bitmapBytes + (PAGE - 1)) / PAGE;
      var reserved := bitmapPages * PAGE;
      ReservedPages(length, bitmapPages);
      ChosenIsHigh(regions, begin, length);
      if begin % PAGE == 0 { FieldsKeepValues(begin, length); }
      maxBegin, maxLength, bitmapReserved := Int32(begin), Int32(length), Int32(reserved);
      var bytes := new bv8[reserved](_ => 0);
      bitmap := bytes;
      live := {};
      new;
      NoFlagSet(bytes[..]);
      for i := 0 to bitmapPages
        invariant bitmap == bytes && bytes.Length == reserved && live == {}
        invariant (maxBegin, maxLength, bitmapReserved) == (Int32(begin), Int32(length), Int32(reserved))
        invariant BitsOf(bytes[..]) == seq(8 * reserved, j => j < i)
      {
        SetBitSetsFlag(bytes[..], i / 8, i % 8, true);
        bytes[i / 8] := SetBit(bytes[i / 8], i % 8, true);
      }
      TracksInitially(8 * reserved, DataStart(), bitmapPages);
      assert Describes(begin, length);
    }

    /** One byte of the bitmap with one bit changed. */
    method WriteBit(b: nat, y: nat, setTo: bool)
      requires b < bitmap.Length && y < 8
      modifies bitmap
      ensures Bits() == old(Bits())[8 * b + y := setTo]
    {
      SetBitSetsFlag(bitmap[..], b, y, setTo);
      bitmap[b] := SetBit(bitmap[b], y, setTo);
    }

    /** The nested scan of kmalloc over bytes and bits. */
    method FindFree() returns (r: Option<nat>)
      requires bitmap.Length == bitmapReserved
      ensures r == FirstFree(Bits(), 0)
    {
      hide GetBit, BitsOf;
      ghost var bits := Bits();
      for b := 0 to bitmapReserved
        invariant FirstFree(bits, 0) == FirstFree(bits, 8 * b)
      {
        for y := 0 to 8
          invariant FirstFree(bits, 0) == FirstFree(bits, 8 * b + y)
        {
          FlagOfBit(bitmap[..], b, y);
          if !GetBit(bitmap[b], y) {
            return Some(b * 8 + y);
          }
        }
      }
      return None;
    }

    /** kmalloc: 0 when every flag is set, and the C code then halts the machine. */
    method Kmalloc() returns (addr: int)
      requires Valid()
      modifies this`live, bitmap
      ensures Valid()
      ensures match FirstFree(old(Bits()), 0)
              case None => addr == 0 && Bits() == old(Bits()) && live == old(live)
              case Some(i) => && addr == DataStart() + 4096 * i && addr !in old(live) && live == old(live) + {addr}
                              && Bits() == old(Bits())[i := true]
    {
      hide Tracks, ReservedFor, BitsOf;
      var free := FindFree();
      match free {
        case None =>
          return 0;
        case Some(frameIndex) =>
          TracksTake(Bits(), live, DataStart(), BitmapPages(), frameIndex);
          WriteBit(frameIndex / 8, frameIndex % 8, true);
          addr := maxBegin + bitmapReserved + frameIndex * PAGE;
          live := live + {addr};
      }
    }

    /** kfree of a live frame. */
    method Kfree(location: int)
      requires Valid() && location in live
      modifies this`live, bitmap
      ensures Valid() && live == old(live) - {location}
      ensures var i := FrameNumber(DataStart(), location);
              i < |old(Bits())| && location == FrameAt(DataStart(), i) && Bits() == old(Bits())[i := false]
    {
      hide ReservedFor, BitsOf, FrameNumber, FrameAt;
      ghost var bits := Bits();
      ghost var i :| BitmapPages() <= i < |bits| && location == FrameAt(DataStart(), i);
      ReservedIsSmall(maxLength);
      FrameNumberOf(DataStart(), i);
      var pfNum := FrameNumber(DataStart(), location);
      TracksGive(bits, live, DataStart(), BitmapPages(), i);
      WriteBit(pfNum / 8, pfNum % 8, false);
      live := live - {location};
    }
  }

  // ---------------------------------------------------------------------------------------------
  // Whole runs
  // ---------------------------------------------------------------------------------------------

  datatype Request = Take | Give(frame: int)

  datatype Frames = Frames(bits: seq<bool>, live: set<int>)

  /** One call, as the contracts of Kmalloc and Kfree state it; only live frames are given back. */
  function Serve(f: Frames, start: int, r: Request): Frames {
    match r
    case Take =>
      (match FirstFree(f.bits, 0)
       case None => f
       case Some(i) => Frames(f.bits[i := true], f.live + {FrameAt(start, i)}))
    case Give(frame) =>
      var i := FrameNumber(start, frame);
      if frame in f.live && i < |f.bits| then Frames(f.bits[i := false], f.live - {frame}) else f
  }

  function ServeAll(f: Frames, start: int, rs: seq<Request>): Frames
    decreases |rs|
  {
    if rs == [] then f else ServeAll(Serve(f, start, rs[0]), start, rs[1..])
  }

  /** Over any run, the bitmap is exactly the reserved indices and the live frames, and every live frame
      is page aligned and clear of the bitmap and of the reserved indices. */
  lemma {:induction false} RunsKeepTrack(f: Frames, start: int, reserved: nat, rs: seq<Request>)
    requires Tracks(f.bits, f.live, start, reserved) && |f.bits| <= U32 && start % 4096 == 0
    ensures var g := ServeAll(f, start, rs);
            && |g.bits| == |f.bits|
            && Tracks(g.bits, g.live, start, reserved)
            && forall a :: a in g.live ==> a % 4096 == 0 && start + 4096 * reserved <= a < start + 4096 * |f.bits|
    decreases |rs|
  {
    hide Tracks, Serve;
    if rs == [] {
      LiveFramesAreFrames(f, start, reserved);
    } else {
      ServeKeepsTrack(f, start, reserved, rs[0]);
      RunsKeepTrack(Serve(f, start, rs[0]), start, reserved, rs[1..]);
    }
  }

  lemma ServeKeepsTrack(f: Frames, start: int, reserved: nat, r: Request)
    requires Tracks(f.bits, f.live, start, reserved) && |f.bits| <= U32
    ensures var g := Serve(f, start, r);
            |g.bits| == |f.bits| && Tracks(g.bits, g.live, start, reserved)
  {
    match r
    case Take =>
      if FirstFree(f.bits, 0).Some? {
        TracksTake(f.bits, f.live, start, reserved, FirstFree(f.bits, 0).value);
      }
    case Give(frame) =>
      if frame in f.live {
        var i :| reserved <= i < |f.bits| && frame == FrameAt(start, i);
        FrameNumberOf(start, i);
        TracksGive(f.bits, f.live, start, reserved, i);
      }
  }

  lemma LiveFramesAreFrames(f: Frames, start: int, reserved: nat)
    requires Tracks(f.bits, f.live, start, reserved) && start % PAGE == 0
    ensures forall a :: a in f.live ==> a % PAGE == 0 && FrameAt(start, reserved) <= a < FrameAt(start, |f.bits|)
  {
    forall a | a in f.live
      ensures a % PAGE == 0 && FrameAt(start, reserved) <= a < FrameAt(start, |f.bits|)
    {
      var i :| reserved <= i < |f.bits| && a == FrameAt(start, i);
      FrameIsAligned(start, i);
    }
  }

  lemma FrameIsAligned(start: int, i: nat)
    requires start % PAGE == 0
    ensures FrameAt(start, i) % PAGE == 0
  {
  }

  /** Giving a frame back right after taking it restores the bitmap. */
  lemma TakeThenGive(f: Frames, start: int, reserved: nat)
    requires Tracks(f.bits, f.live, start, reserved) && |f.bits| <= U32 && FirstFree(f.bits, 0).Some?
    ensures var i := FirstFree(f.bits, 0).value;
            ServeAll(f, start, [Take, Give(FrameAt(start, i))]) == f
  {
    var i := FirstFree(f.bits, 0).value;
    var g := Serve(f, start, Take);
    TracksTake(f.bits, f.live, start, reserved, i);
    FrameNumberOf(start, i);
    var h := Serve(g, start, Give(FrameAt(start, i)));
    assert h.bits == f.bits && h.live == f.live;
    assert [Take, Give(FrameAt(start, i))][1..] == [Give(FrameAt(start, i))];
    assert ServeAll(h, start, []) == h;
    assert ServeAll(g, start, [Give(FrameAt(start, i))]) == h;
  }

  /** The bitmap has flags for more pages than lie behind it: an allocated frame is inside the region
      exactly when its index is below the pages that the bitmap leaves over, and first fit keeps to those
      as long as one of them is free. */
  lemma AllocationInRegion(bits: seq<bool>, begin: int, length: nat)
    requires begin % 4096 == 0 && |bits| == 8 * ReservedFor(length) && FirstFree(bits, 0).Some?
    ensures var limit := length / 4096 - ReservedFor(length) / 4096;
            var i := FirstFree(bits, 0).value;
            && (begin + ReservedFor(length) + 4096 * i + 4096 <= begin + length <==> i < limit)
            && ((exists j :: 0 <= j < |bits| && j < limit && !bits[j]) ==> i < limit)
  {
    var i, pages := FirstFree(bits, 0).value, ReservedFor(length) / PAGE;
    assert ReservedFor(length) == pages * PAGE;
    assert length == length / PAGE * PAGE + length % PAGE;
    assert FrameAt(begin + ReservedFor(length), i) + PAGE == begin + (pages + i + 1) * PAGE;
    if exists j :: 0 <= j < |bits| && j < length / PAGE - pages && !bits[j] {
      var j :| 0 <= j < |bits| && j < length / PAGE - pages && !bits[j];
      assert !(0 <= j < i);
    }
  }
}
