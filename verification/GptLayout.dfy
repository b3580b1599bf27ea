/** Where the installer puts the two halves of its second stage, and how many partition entries it
    leaves room for (limine/limine.c:874-883, 935-953). */
module GptLayout {
  import opened Arithmetic

  /** Unsigned 64-bit wrap-around. */
  function Wrap(x: int): (w: nat)
    ensures w < U64
  {
    x % U64
  }

  /** The (int64_t) cast. */
  function Signed(x: nat): int {
    if x < U64 / 2 then x else x - U64
  }

  function RoundUp(a: nat, b: nat): nat
    requires 0 < b
  {
    (a + (b - 1)) / b
  }

  /** x & ~(b - 1) for a power of two `b`. */
  function AlignDown(x: nat, b: nat): (r: nat)
    requires 0 < b
    ensures r <= x
  {
    x - x % b
  }

  function Sectors(stage2: nat): nat {
    RoundUp(stage2, 512)
  }

  /** The two halves, each kept in a uint16_t. */
  function SizeA(stage2: nat): nat {
    (Sectors(stage2) / 2 * 512 + (if Sectors(stage2) % 2 != 0 then 512 else 0)) % U16
  }

  function SizeB(stage2: nat): nat {
    (Sectors(stage2) / 2 * 512) % U16
  }

  /** The halves cover the second stage exactly when it has at most 254 sectors, the most for which
      neither half is cut to 16 bits. */
  lemma HalvesCover(stage2: nat)
    requires 0 < stage2
    ensures SizeA(stage2) + SizeB(stage2) >= stage2 <==> Sectors(stage2) <= 254
    ensures Sectors(stage2) <= 254 ==> SizeB(stage2) <= SizeA(stage2) <= SizeB(stage2) + 512
    ensures 2 <= Sectors(stage2) <= 254 ==> SizeA(stage2) <= stage2 <= SizeA(stage2) + SizeB(stage2)
  {
    var s := Sectors(stage2);
    assert 512 * (s - 1) < stage2 <= 512 * s;
    var a, b := s / 2 * 512 + (if s % 2 != 0 then 512 else 0), s / 2 * 512;
    assert a + b == 512 * s;
    if s > 254 {
      assert a >= U16;
      assert a % U16 <= a - U16;
      assert b % U16 <= b;
    }
  }

  /** The end of the table area that both halves are laid out against. */
  function TableEnd(lb: nat, table: nat): nat {
    (table + 32) * lb
  }

  function StageLocation(lb: nat, table: nat, size: nat): nat
    requires 0 < lb
  {
    AlignDown(Wrap(TableEnd(lb, table) - size), lb)
  }

  function NewEntryCount(lb: nat, table: nat, entrySize: nat, sizeA: nat): nat
    requires 0 < lb && 0 < entrySize
  {
    Wrap(Wrap(StageLocation(lb, table, sizeA) / lb - table) * (lb / entrySize))
  }

  /** The block that a half of `size` bytes ending at the table's end starts in. */
  lemma StageBlock(lb: nat, table: nat, size: nat)
    requires 0 < lb && size <= TableEnd(lb, table) < U64
    ensures RoundUp(size, lb) <= table + 32
    ensures StageLocation(lb, table, size) == (table + 32 - RoundUp(size, lb)) * lb
    ensures StageLocation(lb, table, size) + size <= TableEnd(lb, table)
  {
    var end, k := TableEnd(lb, table), RoundUp(size, lb);
    RoundUpBounds(size, lb);
    assert Wrap(end - size) == end - size;
    assert k <= table + 32 by {
      if k > table + 32 {
        MulLe(table + 33, k, lb);
      }
    }
    var slack := k * lb - size;
    assert end - size == (table + 32 - k) * lb + slack by {
      assert (table + 32 - k) * lb == (table + 32) * lb - k * lb;
    }
    DivModUnique(table + 32 - k, slack, lb);
  }

  /** A half longer than everything below the table area's end: the subtraction wraps, and the half starts at
      the very end of the 64-bit space. */
  lemma StageBeyond(lb: nat, table: nat, size: nat)
    requires 0 < lb && U64 % lb == 0 && TableEnd(lb, table) < size < U16
    ensures table + 32 < RoundUp(size, lb) <= U64 / lb
    ensures StageLocation(lb, table, size) == (U64 / lb + table + 32 - RoundUp(size, lb)) * lb
  {
    var end, k, w := TableEnd(lb, table), RoundUp(size, lb), U64 / lb;
    RoundUpBounds(size, lb);
    RoundUpSmall(size, lb);
    BlockBelowHalf(lb, table, size);
    ManyBlocks(lb);
    assert k > table + 32 by {
      if k <= table + 32 {
        MulLe(k, table + 32, lb);
      }
    }
    assert w * lb == U64 && Wrap(end - size) == U64 + end - size;
    var slack := k * lb - size;
    assert U64 + end - size == (w + table + 32 - k) * lb + slack by {
      assert (w + table + 32 - k) * lb == w * lb + (table + 32) * lb - k * lb;
    }
    DivModUnique(w + table + 32 - k, slack, lb);
  }

  lemma BlockBelowHalf(lb: nat, table: nat, size: nat)
    requires TableEnd(lb, table) < size
    ensures lb <= size
  {
    MulLe(1, table + 32, lb);
  }

  lemma ManyBlocks(lb: nat)
    requires 0 < lb < U16
    ensures U64 / lb >= 0x1_0000_0000_0000
  {
    var w := U64 / lb;
    assert U64 == w * lb + U64 % lb;
    assert (w + 1) * lb == w * lb + lb;
    if w < 0x1_0000_0000_0000 {
      MulLeBoth(w + 1, 0x1_0000_0000_0000, lb, U16);
    }
  }

  lemma RoundUpBounds(a: nat, b: nat)
    requires 0 < b
    ensures a <= RoundUp(a, b) * b < a + b
  {
    var q, r := (a + (b - 1)) / b, (a + (b - 1)) % b;
    assert a + (b - 1) == q * b + r;
  }

  lemma RoundUpSmall(a: nat, b: nat)
    requires 0 < b
    ensures RoundUp(a, b) <= a
  {
    RoundUpBounds(a, b);
    var k := RoundUp(a, b);
    if k > 0 {
      MulLe(1, b, k - 1);
      assert b * (k - 1) == k * b - b;
    }
  }

  lemma EntriesPerBlock(lb: nat, entrySize: nat)
    requires 0 < entrySize
    ensures lb / entrySize <= lb && lb / entrySize * entrySize <= lb
    ensures if entrySize <= lb then 1 <= lb / entrySize else lb / entrySize == 0
  {
    var per := lb / entrySize;
    assert lb == per * entrySize + lb % entrySize;
    MulLe(1, entrySize, per);
    assert per * entrySize == entrySize * per;
  }

  /** The count the code computes: room for a signed number of blocks of entries. */
  lemma CountIsRoom(lb: nat, table: nat, entrySize: nat, sizeA: nat)
    requires 0 < lb < U16 && 0 < entrySize && sizeA < U16 && sizeA <= TableEnd(lb, table) < U64
    ensures var room := 32 - RoundUp(sizeA, lb) as int;
            && Signed(NewEntryCount(lb, table, entrySize, sizeA)) == room * (lb / entrySize)
            && (0 <= room ==> NewEntryCount(lb, table, entrySize, sizeA) == room * (lb / entrySize))
  {
    hide RoundUp, Wrap, Signed, StageLocation, TableEnd, NewEntryCount;
    var k: nat := RoundUp(sizeA, lb);
    StageBlock(lb, table, sizeA);
    RoundUpSmall(sizeA, lb);
    CountFromBlock(lb, table, entrySize, sizeA, table + 32 - k);
    EntriesPerBlock(lb, entrySize);
    WrapOfProduct(32 - k, lb / entrySize);
  }

  lemma CountFromBlock(lb: nat, table: nat, entrySize: nat, sizeA: nat, block: nat)
    requires 0 < lb && 0 < entrySize && StageLocation(lb, table, sizeA) == block * lb
    ensures NewEntryCount(lb, table, entrySize, sizeA) == Wrap(Wrap(block - table) * (lb / entrySize))
  {
    hide StageLocation, Wrap;
    DivModUnique(block, 0, lb);
    assert StageLocation(lb, table, sizeA) / lb == block;
  }

  lemma WrapOfProduct(room: int, per: nat)
    requires -0x2_0000 <= room <= 32 && per < U16
    ensures Signed(Wrap(Wrap(room) * per)) == room * per
    ensures 0 <= room ==> Wrap(Wrap(room) * per) == room * per
  {
    hide Wrap, Signed;
    SmallWord(room);
    ProductBound(room, per);
    if room < 0 {
      Distribute(room, U64, per);
      WrapShift(room * per, per);
    }
    SmallWord(room * per);
  }

  lemma Distribute(a: int, b: int, c: int)
    ensures (a + b) * c == a * c + b * c
  {
  }

  lemma ProductBound(room: int, per: nat)
    requires -0x2_0000 <= room <= 32 && per < U16
    ensures -0x2_0000_0000 <= room * per <= 0x20_0000 && (0 <= room ==> 0 <= room * per)
  {
    MulLe(room, 32, per);
    MulLe(-0x2_0000, room, per);
    if 0 <= room {
      MulLe(0, room, per);
    }
  }

  lemma SmallWord(x: int)
    requires -0x2_0000_0000 <= x <= 0x2_0000_0000
    ensures Wrap(x) == (if x < 0 then x + U64 else x) && Signed(Wrap(x)) == x
  {
  }

  lemma WrapShift(x: int, n: nat)
    ensures Wrap(x + U64 * n) == Wrap(x)
  {
    if n > 0 {
      WrapShift(x, n - 1);
      assert x + U64 * n == (x + U64 * (n - 1)) + U64;
    }
  }

  /** The count for such a half. */
  lemma CountBeyond(lb: nat, table: nat, entrySize: nat, sizeA: nat)
    requires 0 < lb && U64 % lb == 0 && 0 < entrySize && TableEnd(lb, table) < sizeA < U16
    ensures var count := NewEntryCount(lb, table, entrySize, sizeA);
            && (entrySize == 1 ==> Signed(count) <= -1)
            && (2 <= entrySize <= lb ==> 0x8000_0000_0000 <= Signed(count) == count)
            && (lb < entrySize ==> Signed(count) == count == 0)
  {
    hide RoundUp, Wrap, Signed, StageLocation, TableEnd, NewEntryCount;
    var k: nat, w, per := RoundUp(sizeA, lb), U64 / lb, lb / entrySize;
    StageBeyond(lb, table, sizeA);
    RoundUpSmall(sizeA, lb);
    BlockBelowHalf(lb, table, sizeA);
    ManyBlocks(lb);
    CountFromBlock(lb, table, entrySize, sizeA, w + table + 32 - k);
    assert w * lb == U64;
    MulLe(1, lb, w);
    assert Wrap(w + 32 - k) == w + 32 - k by { WrapSmallBlock(w + 32 - k); }
    HugeCount(lb, w, k, entrySize);
  }

  lemma WrapSmallBlock(x: nat)
    requires x < U64
    ensures Wrap(x) == x
  {
  }

  lemma HugeCount(lb: nat, w: nat, k: nat, entrySize: nat)
    requires 0 < lb && w * lb == U64 && 0x1_0000_0000_0000 <= w && 32 < k < U16 && 0 < entrySize
    ensures var count := Wrap((w + 32 - k) * (lb / entrySize));
            && (entrySize == 1 ==> Signed(count) <= -1)
            && (2 <= entrySize <= lb ==> 0x8000_0000_0000 <= Signed(count) == count)
            && (lb < entrySize ==> Signed(count) == count == 0)
  {
    hide Wrap, Signed;
    var per, n := lb / entrySize, w + 32 - k;
    SmallAgainstAll(lb, w, k);
    EntriesPerBlock(lb, entrySize);
    if entrySize == 1 {
      assert per == lb;
      HighHalf(n * lb);
    } else if entrySize <= lb {
      PairsInBlock(lb, entrySize);
      HalfOfAll(n, per, lb);
      LowHalf(n * per);
    } else {
      LowHalf(n * per);
    }
  }

  lemma HighHalf(x: nat)
    requires U64 / 2 <= x < U64
    ensures Signed(Wrap(x)) <= -1
  {
  }

  lemma LowHalf(x: nat)
    requires x < U64 / 2
    ensures Signed(Wrap(x)) == Wrap(x) == x
  {
  }

  lemma PairsInBlock(lb: nat, entrySize: nat)
    requires 2 <= entrySize
    ensures 2 * (lb / entrySize) <= lb
  {
    var per := lb / entrySize;
    assert lb == per * entrySize + lb % entrySize;
    MulLe(2, entrySize, per);
    assert per * entrySize == entrySize * per;
  }

  lemma HalfOfAll(n: nat, per: nat, lb: nat)
    requires 2 * per <= lb && 1 <= per && n * lb < U64
    ensures n <= n * per < U64 / 2
  {
    MulLe(2 * per, lb, n);
    assert lb * n == n * lb && 2 * per * n == 2 * (n * per);
    MulLe(1, per, n);
    assert per * n == n * per;
  }

  /** The blocks taken off are a small part of all. */
  lemma SmallAgainstAll(lb: nat, w: nat, k: nat)
    requires 0 < lb && w * lb == U64 && 0x1_0000_0000_0000 <= w && 32 < k < U16
    ensures var n := (w + 32 - k) * lb; U64 / 2 <= n < U64
  {
    assert (w + 32 - k) * lb == w * lb - (k - 32) * lb;
    MulLe(1, k - 32, lb);
    MulLe(2 * (k - 32), w, lb);
    assert 2 * (k - 32) * lb == 2 * ((k - 32) * lb);
  }

  /** What the guard is for: a first half of more than 32 blocks, or one that leaves too few entries. */
  predicate NoRoom(lb: nat, entrySize: nat, sizeA: nat, maxUsed: int)
    requires 0 < lb && 0 < entrySize
  {
    32 < RoundUp(sizeA, lb) || (32 - RoundUp(sizeA, lb)) * (lb / entrySize) <= maxUsed
  }

  /** The guard refuses to embed exactly when there is no room, for halves that end below the table area's end
      and entries that fit a block.  A longer half makes the count wrap to one that no used entry reaches, but
      for entries of one byte, whose count wraps to a negative one; and entries longer than a block count as
      none, so that a half that leaves no room is let through if no entry is in use. */
  lemma GuardMeansRoom(lb: nat, table: nat, entrySize: nat, sizeA: nat, maxUsed: int)
    requires 0 < lb < U16 && 0 < entrySize && sizeA < U16 && TableEnd(lb, table) < U64 && -1 <= maxUsed
    ensures var refused := Signed(NewEntryCount(lb, table, entrySize, sizeA)) <= maxUsed;
            && (entrySize <= lb && sizeA <= TableEnd(lb, table) ==> (refused <==> NoRoom(lb, entrySize, sizeA, maxUsed)))
            && (U64 % lb == 0 && maxUsed < U32 ==>
                  ((refused <==> NoRoom(lb, entrySize, sizeA, maxUsed)) <==>
                     || RoundUp(sizeA, lb) <= 32 || entrySize == 1
                     || (if entrySize <= lb then sizeA <= TableEnd(lb, table) else 0 <= maxUsed)))
  {
    hide RoundUp, Signed, NewEntryCount, TableEnd;
    EntriesPerBlock(lb, entrySize);
    FewBlocksFit(lb, table, sizeA);
    if sizeA <= TableEnd(lb, table) {
      CountIsRoom(lb, table, entrySize, sizeA);
      NegativeProduct(32 - RoundUp(sizeA, lb), lb / entrySize);
    } else if U64 % lb == 0 {
      CountBeyond(lb, table, entrySize, sizeA);
    }
  }

  /** 32 blocks lie below the end of any table area. */
  lemma FewBlocksFit(lb: nat, table: nat, size: nat)
    requires 0 < lb
    ensures RoundUp(size, lb) <= 32 ==> size <= TableEnd(lb, table)
  {
    RoundUpBounds(size, lb);
    if RoundUp(size, lb) <= 32 {
      MulLe(RoundUp(size, lb), table + 32, lb);
    }
  }

  /** A stage 2 of 70 sectors, for the disk of 512-byte blocks whose table starts in block 2: the installer sets
      out to zero 2^57 entries. */
  lemma LargeHalfWraps()
    ensures SizeA(70 * 512) == 17920 > TableEnd(512, 2) && RoundUp(17920, 512) == 35
    ensures StageLocation(512, 2, 17920) == U64 - 512
    ensures Signed(NewEntryCount(512, 2, 128, 17920)) == 0x200_0000_0000_0000 - 12
  {
    var last := U64 / 512 - 1;
    assert RoundUp(17920, 512) == 35 by { DivModUnique(35, 511, 512); }
    StageBeyond(512, 2, 17920);
    assert StageLocation(512, 2, 17920) == last * 512;
    CountFromBlock(512, 2, 128, 17920, last);
    assert 512 / 128 == 4;
    LowHalf((last - 2) * 4);
    WrapSmallBlock(last - 2);
  }

  lemma NegativeProduct(room: int, per: nat)
    ensures 1 <= per && room < 0 ==> room * per <= -1
    ensures per == 0 ==> room * per == 0
  {
    if room < 0 && 1 <= per {
      MulLe(1, per, -room);
      assert per * -room == -(room * per);
    }
  }

  /** Each half ends by the end of its table area, and the enlarged entry arrays end at or before the halves, in
      the backup area too although the count was computed for the primary one. */
  predicate Fits(lb: nat, table: nat, backup: nat, entrySize: nat, sizeA: nat, sizeB: nat)
    requires 0 < lb && 0 < entrySize
  {
    var count := NewEntryCount(lb, table, entrySize, sizeA);
    && table * lb + count * entrySize <= StageLocation(lb, table, sizeA)
    && StageLocation(lb, table, sizeA) + sizeA <= TableEnd(lb, table)
    && backup * lb + count * entrySize <= StageLocation(lb, backup, sizeB)
    && StageLocation(lb, backup, sizeB) + sizeB <= TableEnd(lb, backup)
  }

  /** Everything fits exactly when the first half takes at most 32 blocks. */
  lemma LayoutFits(lb: nat, table: nat, backup: nat, entrySize: nat, sizeA: nat, sizeB: nat)
    requires 0 < lb < U16 && 0 < entrySize && sizeB <= sizeA < U16
    requires TableEnd(lb, table) < U64 && TableEnd(lb, backup) < U64
    ensures RoundUp(sizeA, lb) <= 32 ==> Fits(lb, table, backup, entrySize, sizeA, sizeB)
    ensures RoundUp(sizeA, lb) > 32 && U64 % lb == 0 ==> !Fits(lb, table, backup, entrySize, sizeA, sizeB)
  {
    hide RoundUp, Wrap, Signed, StageLocation, NewEntryCount, TableEnd;
    var ka, kb, per := RoundUp(sizeA, lb), RoundUp(sizeB, lb), lb / entrySize;
    FewBlocksFit(lb, table, sizeA);
    FewBlocksFit(lb, backup, sizeB);
    if ka <= 32 {
      CountIsRoom(lb, table, entrySize, sizeA);
      RoundUpMonotone(sizeB, sizeA, lb);
      StageBlock(lb, table, sizeA);
      StageBlock(lb, backup, sizeB);
      EntriesPerBlock(lb, entrySize);
      var room: nat := 32 - ka;
      EntriesFit(room, per, entrySize, lb);
      BlocksBelow(lb, table, room, ka);
      BlocksBelow(lb, backup, room, kb);
    } else if U64 % lb == 0 {
      LargeHalfDoesNotFit(lb, table, sizeA);
    }
  }

  /** A half of more than 32 blocks starts before its table, or behind its end. */
  lemma LargeHalfDoesNotFit(lb: nat, table: nat, size: nat)
    requires 0 < lb < U16 && U64 % lb == 0 && size < U16 && TableEnd(lb, table) < U64 && 32 < RoundUp(size, lb)
    ensures StageLocation(lb, table, size) < table * lb || TableEnd(lb, table) < StageLocation(lb, table, size) + size
  {
    hide RoundUp, Wrap, StageLocation;
    var k: nat := RoundUp(size, lb);
    if size <= TableEnd(lb, table) {
      StageBlock(lb, table, size);
      MulLe(table + 32 - k + 1, table, lb);
      assert (table + 32 - k + 1) * lb == (table + 32 - k) * lb + lb;
    } else {
      StageBeyond(lb, table, size);
      ManyBlocks(lb);
      RoundUpSmall(size, lb);
      MulLe(table + 32, U64 / lb + table + 32 - k, lb);
    }
  }

  lemma RoundUpMonotone(a: nat, b: nat, c: nat)
    requires a <= b && 0 < c
    ensures RoundUp(a, c) <= RoundUp(b, c)
  {
    var ka, kb := RoundUp(a, c), RoundUp(b, c);
    RoundUpBounds(a, c);
    RoundUpBounds(b, c);
    if kb < ka {
      MulLe(kb + 1, ka, c);
    }
  }

  lemma EntriesFit(room: nat, per: nat, entrySize: nat, lb: nat)
    requires per * entrySize <= lb
    ensures room * per * entrySize <= room * lb
  {
    MulLe(per * entrySize, lb, room);
    assert room * per * entrySize == per * entrySize * room;
  }

  lemma BlocksBelow(lb: nat, table: nat, room: nat, k: nat)
    requires room + k <= 32
    ensures table * lb + room * lb <= (table + 32 - k) * lb
  {
    MulLe(table + room, table + 32 - k, lb);
    assert (table + room) * lb == table * lb + room * lb;
  }
}
