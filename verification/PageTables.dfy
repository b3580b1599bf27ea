/** Four-level page tables in frames from the bitmap allocator (src/kernel/paging.c:18-92, 450-568), as a
    partial map from virtual pages to leaf entries (section 4.5 of the Intel SDM, volume 3A). */
module PageTables {
  import opened Arithmetic
  import opened Bytes
  import opened FrameAllocator

  const ENTRIES: nat := 512
  const MAX_EARLY_PAGE_TABLES: nat := 256
  const PRESENT_RW: nat := 3
  const PRESENT_RW_USER: nat := 7

  // ---------------------------------------------------------------------------------------------
  // Entries
  // ---------------------------------------------------------------------------------------------

  /** The bitwise or of two words. */
  function BitOr(a: nat, b: nat): nat
    decreases a + b
  {
    if a == 0 then b
    else if b == 0 then a
    else 2 * BitOr(a / 2, b / 2) + (if a % 2 == 1 || b % 2 == 1 then 1 else 0)
  }

  function Power2(k: nat): (p: nat)
    ensures 0 < p
  {
    if k == 0 then 1 else 2 * Power2(k - 1)
  }

  /** Where no bit is shared, the or is the sum. */
  lemma {:induction false} OrOfDisjoint(m: nat, b: nat, k: nat)
    requires b < Power2(k)
    ensures BitOr(m * Power2(k), b) == m * Power2(k) + b
  {
    if k == 0 || m == 0 || b == 0 {
    } else {
      var half := m * Power2(k - 1);
      assert m * Power2(k) == 2 * half;
      OrOfDisjoint(m, b / 2, k - 1);
    }
  }

  lemma OrWithOffset(frame: nat, b: nat)
    requires frame % PAGE == 0 && b < PAGE
    ensures BitOr(frame, b) == frame + b
  {
    assert Power2(4) == 16 && Power2(8) == 256 && Power2(12) == PAGE;
    OrOfDisjoint(frame / PAGE, b, 12);
  }

  lemma OrHalves(a: nat, b: nat)
    ensures BitOr(a, b) / 2 == BitOr(a / 2, b / 2) && BitOr(a, b) % 2 == (if a % 2 == 1 || b % 2 == 1 then 1 else 0)
  {
  }

  /** All but the low `k` bits, and the low `k` bits. */
  function High(x: nat, k: nat): nat {
    if k == 0 then x else High(x / 2, k - 1)
  }

  function Low(x: nat, k: nat): nat {
    if k == 0 then 0 else 2 * Low(x / 2, k - 1) + x % 2
  }

  lemma {:induction false} HighAndLow(x: nat, k: nat)
    ensures x == High(x, k) * Power2(k) + Low(x, k) && Low(x, k) < Power2(k)
  {
    if k == 0 {
    } else {
      HighAndLow(x / 2, k - 1);
      assert High(x, k) * (2 * Power2(k - 1)) == 2 * (High(x, k) * Power2(k - 1));
    }
  }

  /** The or of two words is the or of their high bits and the or of their low bits. */
  lemma {:induction false} OrSplits(a: nat, b: nat, k: nat)
    ensures High(BitOr(a, b), k) == BitOr(High(a, k), High(b, k)) && Low(BitOr(a, b), k) == BitOr(Low(a, k), Low(b, k))
  {
    hide BitOr;
    if k == 0 {
      OrZero(0);
    } else {
      OrHalves(a, b);
      OrSplits(a / 2, b / 2, k - 1);
      OrOfSum(Low(a / 2, k - 1), a % 2, Low(b / 2, k - 1), b % 2);
    }
  }

  lemma OrOfSum(a: nat, p: nat, b: nat, q: nat)
    requires p < 2 && q < 2
    ensures BitOr(2 * a + p, 2 * b + q) == 2 * BitOr(a, b) + (if p == 1 || q == 1 then 1 else 0)
  {
    hide BitOr;
    OrHalves(2 * a + p, 2 * b + q);
  }

  lemma OrZero(x: nat)
    ensures BitOr(x, 0) == x && BitOr(0, x) == x
  {
  }

  lemma OrOfPages(a: nat, b: nat)
    ensures BitOr(a, b) / PAGE == BitOr(a / PAGE, b / PAGE) && BitOr(a, b) % PAGE == BitOr(a % PAGE, b % PAGE)
  {
    hide BitOr, High, Low;
    OrSplits(a, b, 12);
    PageBits(a);
    PageBits(b);
    PageBits(BitOr(a, b));
  }

  lemma PageBits(x: nat)
    ensures x / PAGE == High(x, 12) && x % PAGE == Low(x, 12)
  {
    hide High, Low;
    assert Power2(4) == 16 && Power2(8) == 256 && Power2(12) == PAGE;
    HighAndLow(x, 12);
    DivModUnique(High(x, 12), Low(x, 12), PAGE);
  }

  predicate Present(entry: nat) {
    entry % 2 == 1
  }

  /** entry & ~0xFFF */
  function Target(entry: nat): nat {
    entry - entry % PAGE
  }

  /** The entry that links a table: present, pointing at it. */
  lemma LinkEntry(frame: nat, bits: nat)
    requires frame % PAGE == 0 && bits < PAGE && bits % 2 == 1
    ensures Present(BitOr(frame, bits)) && Target(BitOr(frame, bits)) == frame
  {
    hide BitOr;
    var page := frame / PAGE;
    assert frame == page * PAGE;
    OrWithOffset(frame, bits);
    WithOffset(page, bits);
  }

  /** The leaf entry of map_page. */
  function LeafEntry(phys: nat, flags: nat): nat {
    BitOr(BitOr(Target(phys), flags % PAGE), 1)
  }

  /** It is present, translates to the physical page and carries the flags. */
  lemma LeafEntryMeaning(phys: nat, flags: nat)
    ensures var e := LeafEntry(phys, flags);
            && Present(e) && e % 2 == 1 && Target(e) == Target(phys) == phys - phys % 4096
            && e == phys - phys % 4096 + flags % 4096 + (if flags % 2 == 1 then 0 else 1)
  {
    hide BitOr;
    var page, f := phys / PAGE, flags % PAGE;
    assert Target(phys) == page * PAGE && f % 2 == flags % 2;
    LeafSum(page, f);
    WithOffset(page, f + (if f % 2 == 1 then 0 else 1));
  }

  lemma LeafSum(page: nat, f: nat)
    requires f < PAGE
    ensures BitOr(BitOr(page * PAGE, f), 1) == page * PAGE + f + (if f % 2 == 1 then 0 else 1)
  {
    hide BitOr;
    WithOffset(page, f);
    WithOffset(page, 0);
    OrWithOffset(page * PAGE, f);
    OrOne(page * PAGE + f);
  }

  lemma WithOffset(page: nat, offset: nat)
    requires offset < PAGE
    ensures (page * PAGE + offset) % PAGE == offset && (page * PAGE + offset) % 2 == offset % 2
  {
  }

  lemma OrOne(x: nat)
    ensures BitOr(x, 1) == x + (if x % 2 == 1 then 0 else 1)
  {
    if x > 0 {
      assert BitOr(x / 2, 0) == x / 2;
    }
  }

  // ---------------------------------------------------------------------------------------------
  // Virtual pages
  // ---------------------------------------------------------------------------------------------

  /** The four table indices of an address, PML4 first. */
  function Indices(virt: nat): (q: seq<nat>)
    ensures IsPage(q)
  {
    [virt / 0x80_0000_0000 % ENTRIES, virt / 0x4000_0000 % ENTRIES, virt / 0x20_0000 % ENTRIES, virt / PAGE % ENTRIES]
  }

  predicate IsPage(q: seq<nat>) {
    |q| == 4 && forall k :: 0 <= k < 4 ==> q[k] < ENTRIES
  }

  /** The indices are the digits of the page in base 512, most significant first, so two addresses have the same indices
      exactly when they lie in the same page of the 48-bit space. */
  lemma SameIndices(v: nat, w: nat)
    ensures var q := Indices(v); v % 0x1_0000_0000_0000 / 4096 == ((q[0] * 512 + q[1]) * 512 + q[2]) * 512 + q[3]
    ensures Indices(v) == Indices(w) <==> v % 0x1_0000_0000_0000 / 4096 == w % 0x1_0000_0000_0000 / 4096
  {
    PageFromIndices(v);
    PageFromIndices(w);
    if v % 0x1_0000_0000_0000 / PAGE == w % 0x1_0000_0000_0000 / PAGE {
      Digits(v % 0x1_0000_0000_0000 / PAGE, Indices(v), Indices(w));
    }
  }

  function PageNumber(q: seq<nat>): nat
    requires |q| == 4
  {
    q[0] * 0x800_0000 + q[1] * 0x4_0000 + q[2] * 0x200 + q[3]
  }

  lemma PageFromIndices(v: nat)
    ensures v % 0x1_0000_0000_0000 / PAGE == PageNumber(Indices(v))
  {
    var p, a, b, c := v / PAGE, v / 0x20_0000, v / 0x4000_0000, v / 0x80_0000_0000;
    assert a == p / 0x200 && b == a / 0x200 && c == b / 0x200;
    var high := c / 0x200;
    assert p == high * 0x10_0000_0000 + PageNumber(Indices(v)) by {
      FourDigits(p, a, b, c, high);
    }
    DivModUnique(high, PageNumber(Indices(v)), 0x10_0000_0000);
    PageOfLowBits(v);
  }

  lemma PageOfLowBits(v: nat)
    ensures v % 0x1_0000_0000_0000 / PAGE == v / PAGE % 0x10_0000_0000
  {
    var m, r := v / 0x1_0000_0000_0000, v % 0x1_0000_0000_0000;
    assert v == m * 0x1_0000_0000_0000 + r;
    assert v / PAGE == m * 0x10_0000_0000 + r / PAGE;
    DivModUnique(m, r / PAGE, 0x10_0000_0000);
  }

  lemma FourDigits(p: nat, a: nat, b: nat, c: nat, high: nat)
    requires a == p / 0x200 && b == a / 0x200 && c == b / 0x200 && high == c / 0x200
    ensures p == high * 0x10_0000_0000 + c % 0x200 * 0x800_0000 + b % 0x200 * 0x4_0000 + a % 0x200 * 0x200 + p % 0x200
  {
    assert p == a * 0x200 + p % 0x200;
    assert a == b * 0x200 + a % 0x200;
    assert b == c * 0x200 + b % 0x200;
    assert c == high * 0x200 + c % 0x200;
  }

  lemma Digits(n: nat, q: seq<nat>, r: seq<nat>)
    requires IsPage(q) && IsPage(r) && PageNumber(q) == n == PageNumber(r)
    ensures q == r
  {
    var q2, r2 := (q[0] * ENTRIES + q[1]) * ENTRIES + q[2], (r[0] * ENTRIES + r[1]) * ENTRIES + r[2];
    LastDigit(q2, q[3]);
    LastDigit(r2, r[3]);
    LastDigit(q[0] * ENTRIES + q[1], q[2]);
    LastDigit(r[0] * ENTRIES + r[1], r[2]);
    LastDigit(q[0], q[1]);
    LastDigit(r[0], r[1]);
  }

  lemma LastDigit(high: nat, digit: nat)
    requires digit < ENTRIES
    ensures (high * ENTRIES + digit) % ENTRIES == digit && (high * ENTRIES + digit) / ENTRIES == high
  {
  }

  // ---------------------------------------------------------------------------------------------
  // The tree
  // ---------------------------------------------------------------------------------------------

  type Memory = map<int, seq<nat>>

  /** Memory with word `i` of frame `t` overwritten. */
  function WriteWord(mem: Memory, t: int, i: nat, v: nat): Memory
    requires t in mem && i < |mem[t]|
  {
    var page: seq<nat> := mem[t][i := v];
    mem[t := page]
  }

  /** What the processor does with indices `q`, starting at the table in frame `t`. */
  function Translate(mem: Memory, t: int, q: seq<nat>): Option<nat>
    requires q != []
    decreases |q|
  {
    if t !in mem || q[0] >= |mem[t]| || !Present(mem[t][q[0]]) then None
    else if |q| == 1 then Some(mem[t][q[0]])
    else Translate(mem, Target(mem[t][q[0]]), q[1..])
  }

  /** `tables` names each table by the indices that lead to it.  Different paths lead to different
      frames, so no table is shared; every table is a live, page-aligned frame; and an entry above the
      last level is present exactly when it links the table one index further. */
  ghost predicate TreeOk(mem: Memory, tables: map<seq<nat>, int>, live: set<int>) {
    && [] in tables
    && (forall p :: p in tables ==> |p| <= 3 && IsTable(mem, tables[p], live))
    && (forall p :: p in tables && p != [] ==> p[..|p| - 1] in tables)
    && (forall p, q :: p in tables && q in tables && tables[p] == tables[q] ==> p == q)
    && (forall p, i :: p in tables && |p| < 3 && 0 <= i < ENTRIES ==> Links(mem, tables, p, i))
  }

  ghost predicate IsTable(mem: Memory, frame: int, live: set<int>) {
    && frame in live && 0 < frame && frame % PAGE == 0
    && frame in mem && |mem[frame]| == ENTRIES
  }

  ghost predicate Links(mem: Memory, tables: map<seq<nat>, int>, p: seq<nat>, i: nat)
    requires p in tables
  {
    && tables[p] in mem && i < |mem[tables[p]]|
    && var e := mem[tables[p]][i];
       && (Present(e) <==> p + [i] in tables)
       && (Present(e) ==> Target(e) == tables[p + [i]])
  }

  /** The leaf entry of a page, found through the names of the tables. */
  ghost function Leaf(mem: Memory, tables: map<seq<nat>, int>, q: seq<nat>): Option<nat>
    requires IsPage(q)
  {
    if q[..3] in tables && tables[q[..3]] in mem && q[3] < |mem[tables[q[..3]]]| && Present(mem[tables[q[..3]]][q[3]])
    then Some(mem[tables[q[..3]]][q[3]]) else None
  }

  ghost function LeafMap(mem: Memory, tables: map<seq<nat>, int>): imap<seq<nat>, nat> {
    imap q: seq<nat> | IsPage(q) && Leaf(mem, tables, q).Some? :: Leaf(mem, tables, q).value
  }

  ghost predicate SameLeaves(mem: Memory, tables: map<seq<nat>, int>, mem': Memory, tables': map<seq<nat>, int>) {
    forall q :: IsPage(q) ==> Leaf(mem', tables', q) == Leaf(mem, tables, q)
  }

  ghost predicate LeafChanged(mem: Memory, tables: map<seq<nat>, int>, mem': Memory, tables': map<seq<nat>, int>, q: seq<nat>, e: Option<nat>) {
    forall r :: IsPage(r) ==> Leaf(mem', tables', r) == if r == q then e else Leaf(mem, tables, r)
  }

  lemma LeafMapSame(mem: Memory, tables: map<seq<nat>, int>, mem': Memory, tables': map<seq<nat>, int>)
    requires SameLeaves(mem, tables, mem', tables')
    ensures LeafMap(mem', tables') == LeafMap(mem, tables)
  {
    hide Leaf;
  }

  lemma LeafMapChanged(mem: Memory, tables: map<seq<nat>, int>, mem': Memory, tables': map<seq<nat>, int>, q: seq<nat>, e: Option<nat>)
    requires IsPage(q) && LeafChanged(mem, tables, mem', tables', q, e)
    ensures LeafMap(mem', tables') == match e case Some(v) => LeafMap(mem, tables)[q := v] case None => LeafMap(mem, tables) - {q}
  {
    hide Leaf;
  }

  lemma {:induction false} PrefixesAreTables(mem: Memory, tables: map<seq<nat>, int>, live: set<int>, p: seq<nat>, k: nat)
    requires TreeOk(mem, tables, live) && p in tables && k <= |p|
    ensures p[..k] in tables
    decreases |p|
  {
    if k == |p| {
      assert p[..k] == p;
    } else {
      PrefixesAreTables(mem, tables, live, p[..|p| - 1], k);
      assert p[..|p| - 1][..k] == p[..k];
    }
  }

  /** The walk over memory finds what the names say. */
  lemma {:induction false} TranslateIsLeaf(mem: Memory, tables: map<seq<nat>, int>, live: set<int>, q: seq<nat>, k: nat)
    requires TreeOk(mem, tables, live) && IsPage(q) && k <= 3 && q[..k] in tables
    ensures Translate(mem, tables[q[..k]], q[k..]) == Leaf(mem, tables, q)
    decreases 3 - k
  {
    var p := q[..k];
    assert IsTable(mem, tables[p], live);
    assert q[k..][0] == q[k];
    if 3 <= k {
    } else {
      assert Links(mem, tables, p, q[k]);
      assert q[..k + 1] == p + [q[k]];
      assert q[k..][1..] == q[k + 1..];
      assert q[..3][..k + 1] == q[..k + 1];
      if q[..3] in tables {
        PrefixesAreTables(mem, tables, live, q[..3], k + 1);
      }
      if q[..k + 1] in tables {
        TranslateIsLeaf(mem, tables, live, q, k + 1);
      }
    }
  }

  function Zeros(): seq<nat> {
    seq(ENTRIES, _ => 0)
  }

  /** Memory after a fresh zeroed frame has been linked at index `i` of the table named `p`. */
  ghost function Linked(mem: Memory, table: int, i: nat, frame: int, bits: nat): Memory
    requires table in mem && i < |mem[table]| && 0 <= frame
  {
    var page: seq<nat> := mem[table][i := BitOr(frame, bits)];
    mem[frame := Zeros()][table := page]
  }

  lemma LinkKeepsTree(mem: Memory, tables: map<seq<nat>, int>, live: set<int>, p: seq<nat>, i: nat, frame: int, bits: nat)
    requires TreeOk(mem, tables, live) && p in tables && |p| < 3 && i < ENTRIES && p + [i] !in tables
    requires frame !in live && 0 < frame && frame % PAGE == 0 && bits < PAGE && bits % 2 == 1
    ensures tables[p] in mem && i < |mem[tables[p]]|
    ensures TreeOk(Linked(mem, tables[p], i, frame, bits), tables[p + [i] := frame], live + {frame})
  {
    hide BitOr, Zeros;
    LinkEntry(frame, bits);
    var t := tables[p];
    assert IsTable(mem, t, live);
    var mem', tables', live' := Linked(mem, t, i, frame, bits), tables[p + [i] := frame], live + {frame};
    ZerosAreAbsent();
    forall r | r in tables'
      ensures |r| <= 3 && IsTable(mem', tables'[r], live')
    {
      if r != p + [i] {
        assert IsTable(mem, tables[r], live);
      }
    }
    forall r | r in tables' && r != []
      ensures r[..|r| - 1] in tables'
    {
      if r == p + [i] {
        assert r[..|r| - 1] == p;
      }
    }
    forall r, j | r in tables' && |r| < 3 && 0 <= j < ENTRIES
      ensures Links(mem', tables', r, j)
    {
      LinkKeepsLinks(mem, tables, live, p, i, frame, bits, r, j);
    }
  }

  lemma LinkKeepsLinks(mem: Memory, tables: map<seq<nat>, int>, live: set<int>, p: seq<nat>, i: nat, frame: int, bits: nat, r: seq<nat>, j: nat)
    requires TreeOk(mem, tables, live) && p in tables && |p| < 3 && i < ENTRIES && p + [i] !in tables
    requires frame !in live && 0 < frame && frame % PAGE == 0 && bits < PAGE && bits % 2 == 1
    requires r in tables[p + [i] := frame] && |r| < 3 && j < ENTRIES
    ensures tables[p] in mem && i < |mem[tables[p]]|
    ensures Links(Linked(mem, tables[p], i, frame, bits), tables[p + [i] := frame], r, j)
  {
    hide BitOr, Zeros;
    LinkEntry(frame, bits);
    assert IsTable(mem, tables[p], live);
    ZerosAreAbsent();
    assert (r + [j])[..|r + [j]| - 1] == r;
    AppendInjective(r, j, p, i);
    if r in tables {
      assert Links(mem, tables, r, j);
      assert IsTable(mem, tables[r], live);
    }
  }

  lemma AppendInjective(r: seq<nat>, j: nat, p: seq<nat>, i: nat)
    ensures r + [j] == p + [i] <==> r == p && j == i
  {
    if r + [j] == p + [i] {
      assert (r + [j])[..|r|] == r && (p + [i])[..|p|] == p;
      assert (r + [j])[|r|] == j && (p + [i])[|p|] == i;
    }
  }

  lemma ZerosAreAbsent()
    ensures |Zeros()| == ENTRIES && forall i :: 0 <= i < ENTRIES ==> !Present(Zeros()[i])
  {
  }

  /** Linking an empty table translates nothing new. */
  lemma LinkKeepsLeaves(mem: Memory, tables: map<seq<nat>, int>, live: set<int>, p: seq<nat>, i: nat, frame: int, bits: nat, q: seq<nat>)
    requires TreeOk(mem, tables, live) && p in tables && |p| < 3 && i < ENTRIES && p + [i] !in tables
    requires frame !in live && 0 <= frame && IsPage(q)
    ensures tables[p] in mem && i < |mem[tables[p]]|
    ensures Leaf(Linked(mem, tables[p], i, frame, bits), tables[p + [i] := frame], q) == Leaf(mem, tables, q)
  {
    hide BitOr, Zeros;
    assert IsTable(mem, tables[p], live);
    ZerosAreAbsent();
    if q[..3] in tables {
      assert IsTable(mem, tables[q[..3]], live);
    }
  }

  /** Writing a leaf entry keeps the tree and changes the translation of that page only. */
  lemma LeafWriteKeepsTree(mem: Memory, tables: map<seq<nat>, int>, live: set<int>, q: seq<nat>, entry: nat)
    requires TreeOk(mem, tables, live) && IsPage(q) && q[..3] in tables
    ensures tables[q[..3]] in mem && q[3] < |mem[tables[q[..3]]]|
    ensures var t := tables[q[..3]]; TreeOk(WriteWord(mem, t, q[3], entry), tables, live)
  {
    var t := tables[q[..3]];
    assert IsTable(mem, t, live);
    var mem' := WriteWord(mem, t, q[3], entry);
    forall p | p in tables
      ensures |p| <= 3 && IsTable(mem', tables[p], live)
    {
      assert IsTable(mem, tables[p], live);
    }
    forall p, i | p in tables && |p| < 3 && 0 <= i < ENTRIES
      ensures Links(mem', tables, p, i)
    {
      assert Links(mem, tables, p, i);
      assert tables[p] != t;
    }
  }

  lemma LeafWriteLeaves(mem: Memory, tables: map<seq<nat>, int>, live: set<int>, q: seq<nat>, entry: nat, r: seq<nat>)
    requires TreeOk(mem, tables, live) && IsPage(q) && q[..3] in tables && IsPage(r)
    ensures tables[q[..3]] in mem && q[3] < |mem[tables[q[..3]]]|
    ensures var t := tables[q[..3]];
            Leaf(WriteWord(mem, t, q[3], entry), tables, r) ==
              (if r == q then (if Present(entry) then Some(entry) else None) else Leaf(mem, tables, r))
  {
    assert IsTable(mem, tables[q[..3]], live);
    if r[..3] == q[..3] && r[3] == q[3] {
      assert r == r[..3] + [r[3]] && q == q[..3] + [q[3]];
    }
  }

  // ---------------------------------------------------------------------------------------------
  // The code
  // ---------------------------------------------------------------------------------------------

  class Paging {
    const pmm: Pmm
    var mem: Memory
    var pml4: int
    var early: seq<int> // early_page_tables[..num_early_page_tables]
    ghost var tables: map<seq<nat>, int>

    ghost predicate Valid()
      reads this, pmm, pmm.bitmap
    {
      && pmm.Valid()
      && TreeOk(mem, tables, pmm.live)
      && tables[[]] == pml4
      && |early| <= MAX_EARLY_PAGE_TABLES
      && forall f :: f in mem ==> |mem[f]| == ENTRIES
    }

    /** The partial map from virtual pages to leaf entries that the processor sees. */
    ghost function Mapping(): imap<seq<nat>, nat>
      reads this
    {
      imap q: seq<nat> | IsPage(q) && Translate(mem, pml4, q).Some? :: Translate(mem, pml4, q).value
    }

    /** The start of init_paging: an empty PML4.  `ok` is false when no frame is left for it. */
    constructor (pmm: Pmm)
      requires pmm.Valid()
      modifies pmm`live, pmm.bitmap
      ensures this.pmm == pmm && pmm.Valid()
      ensures pml4 != 0 ==> Valid() && Mapping() == imap[] && early == [pml4]
      ensures pml4 == 0 ==> FirstFree(pmm.Bits(), 0) == None
    {
      this.pmm, mem, pml4, early, tables := pmm, map[], 0, [], map[];
      new;
      hide Tracks, TreeOk, Leaf, LeafMap, Paging.Mapping;
      pml4 := AllocTable();
      if pml4 != 0 {
        AddEarlyPageTable(pml4);
        tables := map[[] := pml4];
        EmptyTree(mem, tables, pmm.live, pml4);
        MappingOfLeaves();
        NoLeaves(mem, tables);
      }
    }

    /** add_early_page_table. */
    method AddEarlyPageTable(addr: int)
      modifies this`early
      ensures early == if |old(early)| < 256 then old(early) + [addr] else old(early)
    {
      if |early| < MAX_EARLY_PAGE_TABLES {
        early := early + [addr];
      }
    }

    /** The translation of every page, by the names of the tables. */
    lemma MappingOfLeaves()
      requires pmm.Valid() && TreeOk(mem, tables, pmm.live) && tables[[]] == pml4
      ensures Mapping() == LeafMap(mem, tables)
    {
      hide TreeOk, Leaf;
      forall q | IsPage(q)
        ensures Translate(mem, pml4, q) == Leaf(mem, tables, q)
      {
        assert q[..0] == [] && q[0..] == q;
        RootIsTable(mem, tables, pmm.live);
        TranslateIsLeaf(mem, tables, pmm.live, q, 0);
      }
    }

    /** alloc_table: a fresh frame, written once for testing and then zeroed word by word. */
    method AllocTable() returns (table: int)
      requires pmm.Valid() && forall f :: f in mem ==> |mem[f]| == ENTRIES
      modifies this`mem, pmm`live, pmm.bitmap
      ensures pmm.Valid() && forall f :: f in mem ==> |mem[f]| == ENTRIES
      ensures table == 0 ==> mem == old(mem) && pmm.live == old(pmm.live) && FirstFree(pmm.Bits(), 0) == None
      ensures table != 0 ==> && 0 < table && table % PAGE == 0
                             && table !in old(pmm.live) && pmm.live == old(pmm.live) + {table}
                             && mem == old(mem)[table := Zeros()]
    {
      hide Tracks, ReservedFor, BitsOf;
      ghost var bits := pmm.Bits();
      table := pmm.Kmalloc();
      if FirstFree(bits, 0).Some? {
        FreshFrame(pmm, FirstFree(bits, 0).value);
      }
      if table == 0 {
        return;
      }
      if table !in mem {
        mem := mem[table := Zeros()]; // contents unknown, and all overwritten below
      }
      mem := WriteWord(mem, table, 0, 0xDEAD_BEEF);
      for i := 0 to ENTRIES
        modifies this`mem
        invariant table in mem && |mem[table]| == ENTRIES
        invariant forall j :: 0 <= j < i ==> mem[table][j] == 0
        invariant mem - {table} == old(mem) - {table}
      {
        mem := WriteWord(mem, table, i, 0);
      }
      assert mem[table] == Zeros();
      SameElsewhere(old(mem), mem, table);
    }

    /** get_next_table.  `p` names the table. */
    method GetNextTable(table: int, index: nat, create: bool, ghost p: seq<nat>) returns (next: int)
      requires Valid() && p in tables && |p| < 3 && tables[p] == table && index < ENTRIES
      modifies this`mem, this`early, this`tables, pmm`live, pmm.bitmap
      ensures Valid() && pml4 == old(pml4)
      ensures SameLeaves(old(mem), old(tables), mem, tables)
      ensures old(pmm.live) <= pmm.live && |pmm.live - old(pmm.live)| <= 1
      ensures !create ==> mem == old(mem) && tables == old(tables) && pmm.live == old(pmm.live)
      ensures next == 0 ==> p + [index] !in tables && (create ==> FirstFree(pmm.Bits(), 0) == None)
      ensures next != 0 ==> p + [index] in tables && tables[p + [index]] == next
      ensures next != 0 && p + [index] !in old(tables) ==> LinksWith(table, index, next + 7)
    {
      hide Tracks, TreeOk, Leaf, BitOr, SameLeaves;
      SameLeavesReflexive(mem, tables);
      TableEntries(mem, tables, pmm.live, p, index);
      var current := mem[table][index];
      if !Present(current) {
        if !create {
          return 0;
        }
        next := LinkNewTable(table, index, PRESENT_RW_USER, p);
        if next != 0 {
          AddEarlyPageTable(next);
        }
        return;
      }
      next := Target(current);
    }

    /** The entry of a table that links another: its frame and the bits of the link. */
    ghost predicate LinksWith(table: int, index: nat, entry: int)
      reads this
    {
      table in mem && index < |mem[table]| && mem[table][index] == entry
    }

    /** A new table linked at an absent entry. */
    method LinkNewTable(table: int, index: nat, bits: nat, ghost p: seq<nat>) returns (next: int)
      requires Valid() && p in tables && |p| < 3 && tables[p] == table && index < ENTRIES && p + [index] !in tables
      requires bits < PAGE && bits % 2 == 1
      modifies this`mem, this`tables, pmm`live, pmm.bitmap
      ensures Valid()
      ensures SameLeaves(old(mem), old(tables), mem, tables)
      ensures old(pmm.live) <= pmm.live && |pmm.live - old(pmm.live)| <= 1
      ensures next == 0 ==> tables == old(tables) && FirstFree(pmm.Bits(), 0) == None
      ensures next != 0 ==> tables == old(tables)[p + [index] := next] && LinksWith(table, index, next + bits)
    {
      hide Tracks, TreeOk, Leaf, BitOr;
      ghost var mem0, tables0, live0 := mem, tables, pmm.live;
      TableEntries(mem, tables, pmm.live, p, index);
      next := AllocTable();
      if next == 0 {
        return;
      }
      mem := WriteWord(mem, table, index, BitOr(next, bits));
      tables := tables[p + [index] := next];
      assert pmm.live - live0 == {next};
      OrWithOffset(next, bits);
      LinkKeepsTree(mem0, tables0, live0, p, index, next, bits);
      assert mem == Linked(mem0, table, index, next, bits);
      forall q | IsPage(q)
        ensures Leaf(mem, tables, q) == Leaf(mem0, tables0, q)
      {
        LinkKeepsLeaves(mem0, tables0, live0, p, index, next, bits, q);
      }
    }

    /** map_page.  `ok` is false when a table could not be allocated, which the C code only reports. */
    method MapPage(virt: nat, phys: nat, flags: nat) returns (ok: bool)
      requires Valid()
      modifies this`mem, this`early, this`tables, pmm`live, pmm.bitmap
      ensures Valid() && pml4 == old(pml4)
      ensures ok ==> Mapping() == old(Mapping())[Indices(virt) := LeafEntry(phys, flags)]
      ensures !ok ==> Mapping() == old(Mapping()) && FirstFree(pmm.Bits(), 0) == None
      ensures old(pmm.live) <= pmm.live && |pmm.live - old(pmm.live)| <= 3
    {
      hide Tracks, TreeOk, Leaf, BitOr, Indices, LeafEntry, SameLeaves, LeafChanged, LeafMap, Paging.Mapping;
      ghost var mem0, tables0, live0 := mem, tables, pmm.live;
      MappingOfLeaves();
      var pt := Walk(virt, true);
      ok := pt != 0;
      if ok {
        SetLeaf(Indices(virt), pt, LeafEntry(phys, flags), mem0, tables0);
        LeafEntryMeaning(phys, flags);
        LeafMapChanged(mem0, tables0, mem, tables, Indices(virt), Some(LeafEntry(phys, flags)));
      } else {
        LeafMapSame(mem0, tables0, mem, tables);
      }
      MappingOfLeaves();
    }

    /** The three get_next_table calls that map_page and unmap_page share. */
    method Walk(virt: nat, create: bool) returns (pt: int)
      requires Valid()
      modifies this`mem, this`early, this`tables, pmm`live, pmm.bitmap
      ensures Valid() && pml4 == old(pml4)
      ensures SameLeaves(old(mem), old(tables), mem, tables)
      ensures old(pmm.live) <= pmm.live && |pmm.live - old(pmm.live)| <= 3
      ensures !create ==> pmm.live == old(pmm.live)
      ensures pt == 0 ==> Leaf(mem, tables, Indices(virt)) == None && (create ==> FirstFree(pmm.Bits(), 0) == None)
      ensures pt != 0 ==> Indices(virt)[..3] in tables && tables[Indices(virt)[..3]] == pt
    {
      hide Tracks, TreeOk, Leaf, BitOr, Indices, SameLeaves;
      ghost var mem0, tables0, live0 := mem, tables, pmm.live;
      var q := Indices(virt);
      Paths(q);
      RootIsTable(mem, tables, pmm.live);
      SameLeavesReflexive(mem, tables);
      var pdpt := GetNextTable(pml4, q[0], create, []);
      ghost var mem1, tables1, live1 := mem, tables, pmm.live;
      if pdpt == 0 {
        NoTableNoLeaf(mem, tables, pmm.live, q, 1);
        return 0;
      }
      var pd := GetNextTable(pdpt, q[1], create, q[..1]);
      SameLeavesThen(mem0, tables0, mem1, tables1, mem, tables);
      MoreLive(live0, live1, pmm.live, 1);
      ghost var mem2, tables2, live2 := mem, tables, pmm.live;
      if pd == 0 {
        NoTableNoLeaf(mem, tables, pmm.live, q, 2);
        return 0;
      }
      pt := GetNextTable(pd, q[2], create, q[..2]);
      SameLeavesThen(mem0, tables0, mem2, tables2, mem, tables);
      MoreLive(live0, live2, pmm.live, 2);
      if pt == 0 {
        NoTableNoLeaf(mem, tables, pmm.live, q, 3);
      }
    }

    /** The last write of map_page and unmap_page. */
    method SetLeaf(q: seq<nat>, pt: int, entry: nat, ghost mem0: Memory, ghost tables0: map<seq<nat>, int>)
      requires Valid() && IsPage(q) && q[..3] in tables && tables[q[..3]] == pt
      requires SameLeaves(mem0, tables0, mem, tables)
      modifies this`mem
      ensures Valid()
      ensures LeafChanged(mem0, tables0, mem, tables, q, if Present(entry) then Some(entry) else None)
    {
      hide Tracks, TreeOk, Leaf;
      LeafWriteKeepsTree(mem, tables, pmm.live, q, entry);
      ghost var m := mem;
      mem := WriteWord(mem, pt, q[3], entry);
      forall r | IsPage(r)
        ensures Leaf(mem, tables, r) == if r == q then (if Present(entry) then Some(entry) else None) else Leaf(mem0, tables0, r)
      {
        LeafWriteLeaves(m, tables, pmm.live, q, entry, r);
      }
    }

    /** unmap_page, with its last write going to the table frame. */
    method UnmapPage(virt: nat)
      requires Valid()
      modifies this`mem, this`early, this`tables, pmm`live, pmm.bitmap
      ensures Valid() && pml4 == old(pml4) && pmm.live == old(pmm.live)
      ensures Mapping() == old(Mapping()) - {Indices(virt)}
    {
      hide Tracks, TreeOk, Leaf, BitOr, Indices, SameLeaves, LeafMap, Paging.Mapping;
      ghost var mem0, tables0 := mem, tables;
      MappingOfLeaves();
      var pt := Walk(virt, false);
      if pt != 0 {
        SetLeaf(Indices(virt), pt, 0, mem0, tables0);
      } else {
        AbsentLeaf(mem0, tables0, mem, tables, Indices(virt));
      }
      LeafMapChanged(mem0, tables0, mem, tables, Indices(virt), None);
      MappingOfLeaves();
    }

    /** One level of map_range's inlined walk.  0 stands for the halt of a machine without free frames. */
    method InlinedTable(table: int, index: nat, ghost p: seq<nat>) returns (next: int)
      requires Valid() && p in tables && |p| < 3 && tables[p] == table && index < ENTRIES
      modifies this`mem, this`tables, pmm`live, pmm.bitmap
      ensures Valid()
      ensures SameLeaves(old(mem), old(tables), mem, tables)
      ensures next == 0 ==> FirstFree(pmm.Bits(), 0) == None
      ensures next != 0 ==> p + [index] in tables && tables[p + [index]] == next
      ensures next != 0 && p + [index] !in old(tables) ==> LinksWith(table, index, next + 3)
    {
      hide Tracks, TreeOk, Leaf, BitOr, SameLeaves;
      SameLeavesReflexive(mem, tables);
      TableEntries(mem, tables, pmm.live, p, index);
      if !Present(mem[table][index]) {
        var added := LinkNewTable(table, index, PRESENT_RW, p);
        if added == 0 {
          return 0;
        }
        TableEntries(mem, tables, pmm.live, p, index);
      }
      next := Target(mem[table][index]);
    }

    /** map_range.  `ok` is false when the machine halted for want of a frame. */
    method MapRange(virtStart: nat, virtEnd: nat, flags: nat, hhdm: nat) returns (ok: bool)
      requires Valid() && virtEnd + PAGE <= U64
      modifies this`mem, this`tables, pmm`live, pmm.bitmap
      ensures Valid()
      ensures ok ==> Mapping() == RangeMap(old(Mapping()), Target(virtStart), virtEnd, flags, hhdm, false)
      ensures !ok ==> FirstFree(pmm.Bits(), 0) == None
    {
      hide Tracks, TreeOk, Leaf, BitOr, Indices, SameLeaves, LeafMap, Paging.Mapping, LeafChanged;
      ghost var spec := RangeMap(Mapping(), Target(virtStart), virtEnd, flags, hhdm, false);
      var vaddr := Target(virtStart);
      while vaddr < virtEnd
        invariant Valid()
        invariant RangeMap(Mapping(), vaddr, virtEnd, flags, hhdm, false) == spec
        decreases virtEnd - vaddr
      {
        ok := MapRangePage(vaddr, flags, hhdm);
        if !ok {
          return;
        }
        vaddr := vaddr + PAGE;
      }
      ok := true;
    }

    /** The inlined walk of map_range. */
    method InlinedWalk(vaddr: nat) returns (pt: int)
      requires Valid()
      modifies this`mem, this`tables, pmm`live, pmm.bitmap
      ensures Valid()
      ensures SameLeaves(old(mem), old(tables), mem, tables)
      ensures pt == 0 ==> FirstFree(pmm.Bits(), 0) == None
      ensures pt != 0 ==> Indices(vaddr)[..3] in tables && tables[Indices(vaddr)[..3]] == pt
    {
      hide Tracks, TreeOk, Leaf, BitOr, Indices, SameLeaves;
      ghost var mem0, tables0 := mem, tables;
      var q := Indices(vaddr);
      Paths(q);
      RootIsTable(mem, tables, pmm.live);
      var pdpt := InlinedTable(pml4, q[0], []);
      ghost var mem1, tables1 := mem, tables;
      if pdpt == 0 {
        return 0;
      }
      var pd := InlinedTable(pdpt, q[1], q[..1]);
      SameLeavesThen(mem0, tables0, mem1, tables1, mem, tables);
      ghost var mem2, tables2 := mem, tables;
      if pd == 0 {
        return 0;
      }
      pt := InlinedTable(pd, q[2], q[..2]);
      SameLeavesThen(mem0, tables0, mem2, tables2, mem, tables);
    }

    /** The body of map_range's loop. */
    method MapRangePage(vaddr: nat, flags: nat, hhdm: nat) returns (ok: bool)
      requires Valid()
      modifies this`mem, this`tables, pmm`live, pmm.bitmap
      ensures Valid()
      ensures ok ==> Mapping() == old(Mapping())[Indices(vaddr) := PageEntry(vaddr, flags, hhdm, false)]
      ensures !ok ==> FirstFree(pmm.Bits(), 0) == None
    {
      hide Tracks, TreeOk, Leaf, BitOr, Indices, SameLeaves, LeafMap, Paging.Mapping, LeafChanged;
      ghost var mem0, tables0 := mem, tables;
      MappingOfLeaves();
      var paddr := if vaddr >= hhdm then vaddr - hhdm else vaddr;
      var pt := InlinedWalk(vaddr);
      if pt == 0 {
        return false;
      }
      var entry := BitOr(BitOr(paddr, flags), 1);
      OrOne(BitOr(paddr, flags));
      SetLeaf(Indices(vaddr), pt, entry, mem0, tables0);
      LeafMapChanged(mem0, tables0, mem, tables, Indices(vaddr), Some(entry));
      MappingOfLeaves();
      return true;
    }
  }

  // ---------------------------------------------------------------------------------------------
  // What map_range maps
  // ---------------------------------------------------------------------------------------------

  function RangeTarget(v: nat, hhdm: nat): nat {
    if v >= hhdm then v - hhdm else v
  }

  /** The entry of a page: map_page cuts the flags to twelve bits and the target to its page, map_range does not. */
  function PageEntry(v: nat, flags: nat, hhdm: nat, masked: bool): nat {
    if masked then LeafEntry(RangeTarget(v, hhdm), flags) else BitOr(BitOr(RangeTarget(v, hhdm), flags), 1)
  }

  /** The pages from `v` below `end`, entered one after the other. */
  ghost function RangeMap(m: imap<seq<nat>, nat>, v: nat, end: nat, flags: nat, hhdm: nat, masked: bool): imap<seq<nat>, nat>
    decreases end - v
  {
    if v >= end then m else RangeMap(m[Indices(v) := PageEntry(v, flags, hhdm, masked)], v + PAGE, end, flags, hhdm, masked)
  }

  /** Flags beyond the low twelve bits leave the page alone. */
  predicate KeepsTarget(target: nat, flags: nat) {
    BitOr(target / PAGE, flags / PAGE) == target / PAGE
  }

  /** What a target has below its page leaves the flags alone. */
  predicate KeepsFlags(target: nat, flags: nat) {
    BitOr(BitOr(target % PAGE, flags % PAGE), 1) == BitOr(flags % PAGE, 1)
  }

  /** An entry is present; it translates to the page and carries the flags unless the two get mixed. */
  lemma PageEntryMeaning(v: nat, flags: nat, hhdm: nat, masked: bool)
    ensures var e, t := PageEntry(v, flags, hhdm, masked), RangeTarget(v, hhdm);
            && Present(e)
            && (Target(e) == Target(t) <==> masked || KeepsTarget(t, flags))
            && (e % PAGE == flags % PAGE + (if flags % 2 == 1 then 0 else 1) <==> masked || KeepsFlags(t, flags))
  {
    hide BitOr;
    var t := RangeTarget(v, hhdm);
    LeafEntryMeaning(t, flags);
    OrOne(flags % PAGE);
    if !masked {
      UnmaskedEntry(t, flags);
    }
  }

  lemma UnmaskedEntry(t: nat, flags: nat)
    ensures var e := BitOr(BitOr(t, flags), 1);
            Present(e) && e / PAGE == BitOr(t / PAGE, flags / PAGE) && e % PAGE == BitOr(BitOr(t % PAGE, flags % PAGE), 1)
  {
    hide BitOr, Present;
    OrOfPages(t, flags);
    OrWithOne(BitOr(t, flags));
  }

  lemma OrWithOne(x: nat)
    ensures Present(BitOr(x, 1)) && BitOr(x, 1) / PAGE == x / PAGE && BitOr(x, 1) % PAGE == BitOr(x % PAGE, 1)
  {
    hide BitOr;
    OrOfPages(x, 1);
    OrOne(x);
    OrZero(x / PAGE);
    assert 1 / PAGE == 0 && 1 % PAGE == 1;
  }

  /** map_range and map_page give a page the same entry exactly when neither mixes them. */
  lemma SameEntry(v: nat, flags: nat, hhdm: nat)
    ensures var t := RangeTarget(v, hhdm);
            PageEntry(v, flags, hhdm, false) == PageEntry(v, flags, hhdm, true) <==> KeepsTarget(t, flags) && KeepsFlags(t, flags)
  {
    hide BitOr;
    PageEntryMeaning(v, flags, hhdm, false);
    PageEntryMeaning(v, flags, hhdm, true);
  }

  ghost predicate AllSame(v: nat, end: nat, flags: nat, hhdm: nat) {
    forall w | v <= w < end && w % PAGE == 0 ::
      KeepsTarget(RangeTarget(w, hhdm), flags) && KeepsFlags(RangeTarget(w, hhdm), flags)
  }

  /** map_range is map_page on each page if neither mixes target and flags on any page, and, in a range of at
      most the 48-bit space, only then. */
  lemma RangeIsMapPageFold(m: imap<seq<nat>, nat>, v: nat, end: nat, flags: nat, hhdm: nat)
    requires v % PAGE == 0
    ensures AllSame(v, end, flags, hhdm) ==> RangeMap(m, v, end, flags, hhdm, false) == RangeMap(m, v, end, flags, hhdm, true)
    ensures end <= v + 0x1_0000_0000_0000 && RangeMap(m, v, end, flags, hhdm, false) == RangeMap(m, v, end, flags, hhdm, true) ==>
              AllSame(v, end, flags, hhdm)
  {
    hide KeepsTarget, KeepsFlags, RangeMap, PageEntry, RangeTarget, Indices;
    if AllSame(v, end, flags, hhdm) {
      FoldOfSame(m, v, end, flags, hhdm);
    }
    if end <= v + 0x1_0000_0000_0000 && RangeMap(m, v, end, flags, hhdm, false) == RangeMap(m, v, end, flags, hhdm, true) {
      forall w | v <= w < end && w % PAGE == 0
        ensures KeepsTarget(RangeTarget(w, hhdm), flags) && KeepsFlags(RangeTarget(w, hhdm), flags)
      {
        RangeMapEnters(m, v, end, flags, hhdm, false, w);
        RangeMapEnters(m, v, end, flags, hhdm, true, w);
        SameEntry(w, flags, hhdm);
      }
    }
  }

  lemma {:induction false} FoldOfSame(m: imap<seq<nat>, nat>, v: nat, end: nat, flags: nat, hhdm: nat)
    requires v % PAGE == 0 && AllSame(v, end, flags, hhdm)
    ensures RangeMap(m, v, end, flags, hhdm, false) == RangeMap(m, v, end, flags, hhdm, true)
    decreases end - v
  {
    hide KeepsTarget, KeepsFlags, PageEntry, RangeTarget, Indices;
    if end <= v {
    } else {
      SameEntry(v, flags, hhdm);
      FoldOfSame(m[Indices(v) := PageEntry(v, flags, hhdm, true)], v + PAGE, end, flags, hhdm);
    }
  }

  /** For every range of addresses. */
  ghost predicate AlwaysFolds(flags: nat, hhdm: nat) {
    forall m: imap<seq<nat>, nat>, v: nat, end: nat | v % PAGE == 0 && end + PAGE <= U64 ::
      RangeMap(m, v, end, flags, hhdm, false) == RangeMap(m, v, end, flags, hhdm, true)
  }

  /** map_range is map_page on each page of whatever range exactly when the flags have no bit above the low
      twelve, and what a page-aligned address has left of the direct map's base adds no bit to them: nothing,
      with an aligned base. */
  lemma RangesAlwaysFold(flags: nat, hhdm: nat)
    requires hhdm + 2 * PAGE <= U64
    ensures AlwaysFolds(flags, hhdm) <==> flags < PAGE && KeepsFlags((PAGE - hhdm % PAGE) % PAGE, flags)
    ensures hhdm % PAGE == 0 ==> KeepsFlags((PAGE - hhdm % PAGE) % PAGE, flags)
  {
    hide BitOr, RangeMap;
    OrZero(flags % PAGE);
    if AlwaysFolds(flags, hhdm) {
      var w := hhdm + (PAGE - hhdm % PAGE) % PAGE;
      RangeIsMapPageFold(imap[], 0, 1, flags, hhdm);
      OrZero(flags / PAGE);
      assert KeepsTarget(RangeTarget(0, hhdm), flags);
      NextPage(hhdm);
      RangeIsMapPageFold(imap[], w, w + 1, flags, hhdm);
      assert KeepsFlags(RangeTarget(w, hhdm), flags);
    }
    if flags < PAGE && KeepsFlags((PAGE - hhdm % PAGE) % PAGE, flags) {
      forall m: imap<seq<nat>, nat>, v: nat, end: nat | v % PAGE == 0 && end + PAGE <= U64
        ensures RangeMap(m, v, end, flags, hhdm, false) == RangeMap(m, v, end, flags, hhdm, true)
      {
        EveryPageSame(v, end, flags, hhdm);
        RangeIsMapPageFold(m, v, end, flags, hhdm);
      }
    }
  }

  lemma NextPage(hhdm: nat)
    ensures (hhdm + (PAGE - hhdm % PAGE) % PAGE) % PAGE == 0
  {
  }

  lemma EveryPageSame(v: nat, end: nat, flags: nat, hhdm: nat)
    requires flags < PAGE && KeepsFlags((PAGE - hhdm % PAGE) % PAGE, flags)
    ensures AllSame(v, end, flags, hhdm)
  {
    hide BitOr;
    forall w | v <= w < end && w % PAGE == 0
      ensures KeepsTarget(RangeTarget(w, hhdm), flags) && KeepsFlags(RangeTarget(w, hhdm), flags)
    {
      OrZero(RangeTarget(w, hhdm) / PAGE);
      OrZero(flags % PAGE);
      PageOffset(w, hhdm);
    }
  }

  lemma PageOffset(w: nat, hhdm: nat)
    requires w % PAGE == 0
    ensures hhdm <= w ==> (w - hhdm) % PAGE == (PAGE - hhdm % PAGE) % PAGE
  {
  }

  /** In a range of at most the 48-bit space, every page of the range is present.  It maps to the page that its
      address less `base` names, where `base` is that of the direct map above it and 0 below, exactly when that
      is page-aligned and flags beyond the low twelve bits leave it alone; and it carries the flags. */
  lemma RangeMapAt(m: imap<seq<nat>, nat>, v: nat, end: nat, flags: nat, hhdm: nat, masked: bool, w: nat)
    requires v % 4096 == 0 && w % 4096 == 0 && end <= v + 0x1_0000_0000_0000 && v <= w < end
    ensures Indices(w) in RangeMap(m, v, end, flags, hhdm, masked)
    ensures var e, base := RangeMap(m, v, end, flags, hhdm, masked)[Indices(w)], if hhdm <= w then hhdm else 0;
            && e % 2 == 1
            && (e - e % 4096 == w - base <==> (w - base) % 4096 == 0 && (masked || KeepsTarget(w - base, flags)))
            && (e % 4096 == flags % 4096 + (if flags % 2 == 1 then 0 else 1) <==> masked || KeepsFlags(w - base, flags))
    ensures hhdm % 4096 == 0 && flags < 4096 ==>
              var e := RangeMap(m, v, end, flags, hhdm, masked)[Indices(w)];
              && (hhdm <= w ==> e - e % 4096 == w - hhdm)
              && (w < hhdm ==> e - e % 4096 == w)
              && e % 4096 == flags + (if flags % 2 == 1 then 0 else 1)
  {
    hide BitOr, RangeMap, Indices, PageEntry;
    var t := RangeTarget(w, hhdm);
    RangeMapEnters(m, v, end, flags, hhdm, masked, w);
    PageEntryMeaning(w, flags, hhdm, masked);
    OrZero(t / PAGE);
    OrZero(flags % PAGE);
    assert Target(t) == t <==> t % PAGE == 0;
    if !masked && !KeepsTarget(t, flags) {
      UnmaskedTarget(w, flags, hhdm);
    }
  }

  /** A page that flags have changed is not the one below the target either. */
  lemma UnmaskedTarget(w: nat, flags: nat, hhdm: nat)
    ensures var t := RangeTarget(w, hhdm);
            Target(PageEntry(w, flags, hhdm, false)) == t ==> KeepsTarget(t, flags)
  {
    hide BitOr;
    UnmaskedEntry(RangeTarget(w, hhdm), flags);
  }

  lemma {:induction false} RangeMapEnters(m: imap<seq<nat>, nat>, v: nat, end: nat, flags: nat, hhdm: nat, masked: bool, w: nat)
    requires v % PAGE == 0 && w % PAGE == 0 && end <= v + 0x1_0000_0000_0000
    ensures v <= w < end ==>
              && Indices(w) in RangeMap(m, v, end, flags, hhdm, masked)
              && RangeMap(m, v, end, flags, hhdm, masked)[Indices(w)] == PageEntry(w, flags, hhdm, masked)
    decreases end - v
  {
    hide PageEntry, Indices;
    if end <= v {
    } else {
      var n := m[Indices(v) := PageEntry(v, flags, hhdm, masked)];
      if v == w {
        forall u | v < u < end && u % PAGE == 0
          ensures Indices(u) != Indices(w)
        {
          DistinctPages(v, u);
        }
        RangeMapElsewhere(n, v + PAGE, end, flags, hhdm, masked, Indices(w));
      } else {
        RangeMapEnters(n, v + PAGE, end, flags, hhdm, masked, w);
      }
    }
  }

  lemma {:induction false} RangeMapElsewhere(m: imap<seq<nat>, nat>, v: nat, end: nat, flags: nat, hhdm: nat, masked: bool, q: seq<nat>)
    requires v % PAGE == 0
    requires forall u :: v <= u < end && u % PAGE == 0 ==> Indices(u) != q
    ensures var r := RangeMap(m, v, end, flags, hhdm, masked);
            (q in r <==> q in m) && (q in m ==> r[q] == m[q])
    decreases end - v
  {
    hide PageEntry, Indices;
    if end <= v {
    } else {
      RangeMapElsewhere(m[Indices(v) := PageEntry(v, flags, hhdm, masked)], v + PAGE, end, flags, hhdm, masked, q);
    }
  }

  lemma DistinctResidues(p: nat, r: nat)
    requires 0 < r - p < 0x10_0000_0000
    ensures p % 0x10_0000_0000 != r % 0x10_0000_0000
  {
    assert p == p / 0x10_0000_0000 * 0x10_0000_0000 + p % 0x10_0000_0000;
    assert r == r / 0x10_0000_0000 * 0x10_0000_0000 + r % 0x10_0000_0000;
  }

  lemma DistinctPages(v: nat, u: nat)
    requires v % PAGE == 0 && u % PAGE == 0 && v < u < v + 0x1_0000_0000_0000
    ensures Indices(v) != Indices(u)
  {
    SameIndices(v, u);
    var p, r := v / PAGE, u / PAGE;
    PageOfLowBits(v);
    PageOfLowBits(u);
    assert v == p * PAGE && u == r * PAGE;
    assert 0 < r - p < 0x10_0000_0000;
    DistinctResidues(p, r);
  }

  lemma AbsentLeaf(mem: Memory, tables: map<seq<nat>, int>, mem': Memory, tables': map<seq<nat>, int>, q: seq<nat>)
    requires SameLeaves(mem, tables, mem', tables') && IsPage(q) && Leaf(mem', tables', q) == None
    ensures LeafChanged(mem, tables, mem', tables', q, None)
  {
    hide Leaf;
  }

  lemma SameLeavesReflexive(mem: Memory, tables: map<seq<nat>, int>)
    ensures SameLeaves(mem, tables, mem, tables)
  {
  }

  lemma SameLeavesThen(a: Memory, at: map<seq<nat>, int>, b: Memory, bt: map<seq<nat>, int>, c: Memory, ct: map<seq<nat>, int>)
    requires SameLeaves(a, at, b, bt) && SameLeaves(b, bt, c, ct)
    ensures SameLeaves(a, at, c, ct)
  {
    hide Leaf;
  }

  lemma Paths(q: seq<nat>)
    requires IsPage(q)
    ensures [] + [q[0]] == q[..1] && q[..1] + [q[1]] == q[..2] && q[..2] + [q[2]] == q[..3]
  {
  }

  lemma MoreLive(a: set<int>, b: set<int>, c: set<int>, n: nat)
    requires a <= b <= c && |b - a| <= n && |c - b| <= 1
    ensures |c - a| <= n + 1
  {
    assert c - a == (b - a) + (c - b);
  }

  lemma NoTableNoLeaf(mem: Memory, tables: map<seq<nat>, int>, live: set<int>, q: seq<nat>, k: nat)
    requires TreeOk(mem, tables, live) && IsPage(q) && k <= 3 && q[..k] !in tables
    ensures Leaf(mem, tables, q) == None
  {
    if q[..3] in tables {
      PrefixesAreTables(mem, tables, live, q[..3], k);
    }
    assert q[..3][..k] == q[..k];
  }

  lemma SameElsewhere(m: Memory, n: Memory, t: int)
    requires t in n && m - {t} == n - {t}
    ensures n == m[t := n[t]]
    ensures forall f :: f in n && f != t ==> f in m && n[f] == m[f]
  {
    forall f | f != t
      ensures f in n <==> f in m
      ensures f in n ==> n[f] == m[f]
    {
      assert f in n <==> f in n - {t};
      assert f in m <==> f in m - {t};
      if f in n {
        assert (n - {t})[f] == (m - {t})[f];
      }
    }
  }

  lemma RootIsTable(mem: Memory, tables: map<seq<nat>, int>, live: set<int>)
    requires TreeOk(mem, tables, live)
    ensures [] in tables
  {
  }

  lemma TableEntries(mem: Memory, tables: map<seq<nat>, int>, live: set<int>, p: seq<nat>, i: nat)
    requires TreeOk(mem, tables, live) && p in tables && |p| < 3 && i < ENTRIES
    ensures IsTable(mem, tables[p], live) && Links(mem, tables, p, i)
    ensures p + [i] in tables ==> IsTable(mem, tables[p + [i]], live)
  {
  }

  lemma NoLeaves(mem: Memory, tables: map<seq<nat>, int>)
    requires forall q :: IsPage(q) ==> Leaf(mem, tables, q) == None
    ensures LeafMap(mem, tables) == imap[]
  {
    hide Leaf;
  }

  lemma EmptyTree(mem: Memory, tables: map<seq<nat>, int>, live: set<int>, root: int)
    requires tables == map[[] := root] && root in live && 0 < root && root % PAGE == 0
    requires root in mem && mem[root] == Zeros()
    ensures TreeOk(mem, tables, live)
    ensures forall q :: IsPage(q) ==> Leaf(mem, tables, q) == None
  {
    hide Zeros;
    ZerosAreAbsent();
    forall q | IsPage(q)
      ensures Leaf(mem, tables, q) == None
    {
      assert q[..3] != [];
    }
  }

  /** A frame the allocator hands out is page aligned and not the null pointer. */
  lemma FreshFrame(pmm: Pmm, i: nat)
    requires pmm.Valid() && i < |pmm.Bits()|
    ensures 0 < FrameAt(pmm.DataStart(), i) && FrameAt(pmm.DataStart(), i) % PAGE == 0
  {
    FrameIsAligned(pmm.DataStart(), i);
    NothingReserved(pmm.maxLength);
  }

  lemma NothingReserved(length: nat)
    ensures ReservedFor(length) % PAGE == 0 && (length == 0 ==> ReservedFor(length) == 0)
  {
  }
}
