/** The committed grid, the queue of pending changes and the map from cells to queue items, which together
    encode one logical screen (src/drivers/terminal/flanterm/backends/fb.c:521-662). */
module PendingCells {
  import opened Arithmetic

  datatype Cell = Cell(c: nat, fg: nat, bg: nat)

  datatype Item = Item(x: nat, y: nat, cell: Cell)

  /** `slot[i]`, the C code's map[i], is the queue index of the item for cell `i`, or NULL. */
  datatype Pending = Pending(grid: seq<Cell>, queue: seq<Item>, count: nat, slot: seq<int>)

  const NULL: int := -1

  function Pos(cols: nat, x: nat, y: nat): nat {
    y * cols + x
  }

  lemma PosInRange(cols: nat, rows: nat, x: nat, y: nat)
    requires x < cols && y < rows
    ensures Pos(cols, x, y) < rows * cols
    ensures Pos(cols, x, y) / cols == y && Pos(cols, x, y) % cols == x
  {
    MulLe(y + 1, rows, cols);
    assert (y + 1) * cols == y * cols + cols;
    DivModUnique(y, x, cols);
  }

  lemma CellOf(cols: nat, rows: nat, i: nat)
    requires 0 < cols && i < rows * cols
    ensures i % cols < cols && i / cols < rows && Pos(cols, i % cols, i / cols) == i
  {
    if i / cols >= rows {
      MulLe(rows, i / cols, cols);
    }
  }

  ghost predicate ItemFits(cols: nat, rows: nat, item: Item) {
    item.x < cols && item.y < rows
  }

  function ItemPos(cols: nat, item: Item): nat {
    Pos(cols, item.x, item.y)
  }

  /** Sizes, and items that lie on the screen. */
  ghost predicate Sized(p: Pending, cols: nat, rows: nat) {
    && 0 < cols && |p.grid| == |p.queue| == |p.slot| == rows * cols
    && p.count <= rows * cols
    && forall k :: 0 <= k < p.count ==> ItemFits(cols, rows, p.queue[k])
  }

  /** Queue items below `count` and mapped cells are in bijection. */
  ghost predicate Ok(p: Pending, cols: nat, rows: nat) {
    && Sized(p, cols, rows)
    && (forall i :: 0 <= i < |p.slot| && p.slot[i] != NULL ==> 0 <= p.slot[i] < p.count && ItemPos(cols, p.queue[p.slot[i]]) == i)
    && (forall k :: 0 <= k < p.count ==> ItemPos(cols, p.queue[k]) < |p.slot| && p.slot[ItemPos(cols, p.queue[k])] == k)
  }

  /** The logical screen. */
  function View(p: Pending): (v: seq<Cell>)
    requires |p.slot| == |p.grid|
    requires forall i :: 0 <= i < |p.slot| ==> p.slot[i] == NULL || 0 <= p.slot[i] < |p.queue|
    ensures |v| == |p.grid|
    ensures forall i :: 0 <= i < |v| ==> v[i] == if p.slot[i] != NULL then p.queue[p.slot[i]].cell else p.grid[i]
  {
    seq(|p.grid|, i requires 0 <= i < |p.grid| => if p.slot[i] != NULL then p.queue[p.slot[i]].cell else p.grid[i])
  }

  /** The numbers below `n`. */
  ghost function Below(n: nat): (s: set<nat>)
    ensures forall i: nat :: i in s <==> i < n
    ensures |s| == n
  {
    if n == 0 then {}
    else
      var rest := Below(n - 1);
      assert n - 1 !in rest;
      rest + {n - 1}
  }

  ghost function Elements(s: seq<nat>): set<nat> {
    set x: nat | x in s
  }

  lemma {:induction false} DistinctElements(s: seq<nat>)
    requires forall j, k :: 0 <= j < k < |s| ==> s[j] != s[k]
    ensures |Elements(s)| == |s|
  {
    if s == [] {
    } else {
      var last := |s| - 1;
      DistinctElements(s[..last]);
      assert s[last] !in Elements(s[..last]);
      assert s == s[..last] + [s[last]];
      assert Elements(s) == Elements(s[..last]) + {s[last]};
    }
  }

  /** Distinct numbers below `n`, one of which is missing, are fewer than `n`. */
  lemma Pigeonhole(s: seq<nat>, n: nat, missing: nat)
    requires forall k :: 0 <= k < |s| ==> s[k] < n && s[k] != missing
    requires forall j, k :: 0 <= j < k < |s| ==> s[j] != s[k]
    requires missing < n
    ensures |s| < n
  {
    DistinctElements(s);
    var used, rest := Elements(s), Below(n) - {missing};
    assert missing in Below(n) && |rest| == n - 1;
    assert used <= rest;
    assert rest == used + (rest - used);
  }

  /** Room for another item as long as some cell has none: the queue never exceeds the screen. */
  lemma RoomForItem(p: Pending, cols: nat, rows: nat, i: nat)
    requires Ok(p, cols, rows) && i < |p.slot| && p.slot[i] == NULL
    ensures p.count < rows * cols
  {
    var s := seq(p.count, k requires 0 <= k < p.count => ItemPos(cols, p.queue[k]));
    forall j, k | 0 <= j < k < |s|
      ensures s[j] != s[k]
    {
      assert p.slot[s[j]] == j && p.slot[s[k]] == k;
    }
    forall k | 0 <= k < |s|
      ensures s[k] < rows * cols && s[k] != i
    {
      assert p.slot[ItemPos(cols, p.queue[k])] == k;
    }
    Pigeonhole(s, rows * cols, i);
  }

  /** push_to_queue. */
  function Push(p: Pending, cols: nat, rows: nat, c: Cell, x: nat, y: nat): (r: Pending)
    requires Ok(p, cols, rows)
  {
    if x >= cols || y >= rows then p
    else
      PosInRange(cols, rows, x, y);
      var i := Pos(cols, x, y);
      if p.slot[i] == NULL then
        if p.grid[i] == c then p
        else
          RoomForItem(p, cols, rows, i);
          Pending(p.grid, p.queue[p.count := Item(x, y, c)], p.count + 1, p.slot[i := p.count])
      else
        p.(queue := p.queue[p.slot[i] := p.queue[p.slot[i]].(cell := c)])
  }

  /** What a push means: one cell of the logical screen. */
  function PutCell(v: seq<Cell>, cols: nat, rows: nat, c: Cell, x: nat, y: nat): (w: seq<Cell>)
    requires |v| == rows * cols
    ensures |w| == |v|
  {
    if x < cols && y < rows then
      PosInRange(cols, rows, x, y);
      v[Pos(cols, x, y) := c]
    else v
  }

  lemma PushKeepsOk(p: Pending, cols: nat, rows: nat, c: Cell, x: nat, y: nat)
    requires Ok(p, cols, rows)
    ensures Ok(Push(p, cols, rows, c, x, y), cols, rows)
    ensures Push(p, cols, rows, c, x, y).grid == p.grid
  {
    hide Pos;
    if x < cols && y < rows {
      PosInRange(cols, rows, x, y);
      var i, r := Pos(cols, x, y), Push(p, cols, rows, c, x, y);
      if p.slot[i] == NULL && p.grid[i] != c {
        RoomForItem(p, cols, rows, i);
        assert ItemPos(cols, r.queue[p.count]) == i;
        forall k | 0 <= k < p.count
          ensures ItemPos(cols, p.queue[k]) != i
        {
          assert p.slot[ItemPos(cols, p.queue[k])] == k;
        }
      }
    }
  }

  lemma PushPutsCell(p: Pending, cols: nat, rows: nat, c: Cell, x: nat, y: nat)
    requires Ok(p, cols, rows)
    ensures Ok(Push(p, cols, rows, c, x, y), cols, rows)
    ensures View(Push(p, cols, rows, c, x, y)) == PutCell(View(p), cols, rows, c, x, y)
  {
    hide Pos;
    PushKeepsOk(p, cols, rows, c, x, y);
    var r := Push(p, cols, rows, c, x, y);
    if x < cols && y < rows {
      PosInRange(cols, rows, x, y);
      var i := Pos(cols, x, y);
      var v, w := View(p), View(r);
      forall j | 0 <= j < |v|
        ensures w[j] == v[i := c][j]
      {
        if p.slot[i] != NULL && j != i && p.slot[j] != NULL {
          assert p.slot[j] != p.slot[i];
        }
      }
    }
  }

  // ---------------------------------------------------------------------------------------------
  // Moving rows
  // ---------------------------------------------------------------------------------------------

  /** Cells `lo` up to `hi` replaced by the ones `d` further on. */
  function Shifted(v: seq<Cell>, lo: int, hi: int, d: int): (w: seq<Cell>)
    requires lo < hi ==> 0 <= lo && 0 <= lo + d && hi <= |v| && hi + d <= |v|
    ensures |w| == |v|
  {
    seq(|v|, i requires 0 <= i < |v| => if lo <= i < hi then v[i + d] else v[i])
  }

  function Blanked(v: seq<Cell>, lo: int, hi: int, blank: Cell): (w: seq<Cell>)
    ensures |w| == |v|
  {
    seq(|v|, i requires 0 <= i < |v| => if lo <= i < hi then blank else v[i])
  }

  lemma ShiftedNext(v: seq<Cell>, lo: nat, hi: nat, d: int)
    requires lo <= hi < |v| && 0 <= lo + d && hi + d < |v|
    ensures Shifted(v, lo, hi, d)[hi := v[hi + d]] == Shifted(v, lo, hi + 1, d)
  {
  }

  lemma ShiftedPrevious(v: seq<Cell>, lo: nat, hi: nat, d: int)
    requires 0 < lo <= hi <= |v| && 0 < lo + d && hi + d <= |v|
    ensures Shifted(v, lo, hi, d)[lo - 1 := v[lo - 1 + d]] == Shifted(v, lo - 1, hi, d)
  {
  }

  lemma BlankedNext(v: seq<Cell>, lo: nat, hi: nat, blank: Cell)
    requires lo <= hi < |v|
    ensures Blanked(v, lo, hi, blank)[hi := blank] == Blanked(v, lo, hi + 1, blank)
  {
  }

  lemma BlankedNothing(v: seq<Cell>, lo: int, blank: Cell)
    ensures Blanked(v, lo, lo, blank) == v
  {
  }

  lemma ShiftedNothing(v: seq<Cell>, lo: int, d: int)
    ensures Shifted(v, lo, lo, d) == v
  {
  }

  lemma ShiftedAt(v: seq<Cell>, lo: int, hi: int, d: int, i: nat)
    requires lo < hi ==> 0 <= lo && 0 <= lo + d && hi <= |v| && hi + d <= |v|
    requires i < |v| && (i < lo || hi <= i)
    ensures Shifted(v, lo, hi, d)[i] == v[i]
  {
  }

  lemma ShiftedSame(v: seq<Cell>, lo: int, hi: int, hi': int, d: int)
    requires lo < hi ==> 0 <= lo && 0 <= lo + d && hi <= |v| && hi + d <= |v|
    requires hi == hi' || (hi <= lo && hi' <= lo)
    ensures Shifted(v, lo, hi, d) == Shifted(v, lo, hi', d)
  {
  }

  lemma ShiftedSameEnd(v: seq<Cell>, lo: int, lo': int, hi: int, d: int)
    requires lo < hi ==> 0 <= lo && 0 <= lo + d && hi <= |v| && hi + d <= |v|
    requires lo == lo' || (hi <= lo && hi <= lo')
    ensures Shifted(v, lo, hi, d) == Shifted(v, lo', hi, d)
  {
  }

  lemma RowOrder(cols: nat, top: nat, bottom: nat)
    requires 0 < bottom
    ensures top < bottom ==> top * cols <= (bottom - 1) * cols
    ensures bottom <= top ==> bottom * cols <= top * cols
    ensures (bottom - 1) * cols == bottom * cols - cols && (top + 1) * cols == top * cols + cols
  {
    if top < bottom {
      MulLe(top, bottom - 1, cols);
    } else {
      MulLe(bottom, top, cols);
    }
  }

  lemma RowBounds(cols: nat, rows: nat, row: nat)
    requires row < rows
    ensures 0 <= row * cols <= row * cols + cols == (row + 1) * cols <= rows * cols
  {
    MulLe(row + 1, rows, cols);
  }

  /** Scrolling up: the rows of the region move up by one and its last row is blank. */
  function Scrolled(v: seq<Cell>, cols: nat, rows: nat, top: nat, bottom: nat, blank: Cell): (w: seq<Cell>)
    requires |v| == rows * cols && 0 < bottom <= rows
    ensures |w| == |v|
  {
    RowBounds(cols, rows, bottom - 1);
    Blanked(Shifted(v, top * cols, (bottom - 1) * cols, cols), (bottom - 1) * cols, bottom * cols, blank)
  }

  /** Scrolling down. */
  function RevScrolled(v: seq<Cell>, cols: nat, rows: nat, top: nat, bottom: nat, blank: Cell): (w: seq<Cell>)
    requires |v| == rows * cols && top < rows && bottom <= rows
    ensures |w| == |v|
  {
    RowBounds(cols, rows, top);
    MulLe(bottom, rows, cols);
    Blanked(Shifted(v, (top + 1) * cols, bottom * cols, -(cols as int)), top * cols, (top + 1) * cols, blank)
  }

  lemma ScrolledAt(v: seq<Cell>, cols: nat, rows: nat, top: nat, bottom: nat, blank: Cell, i: nat)
    requires |v| == rows * cols && top < bottom <= rows && i < |v|
    ensures top * cols <= i < (bottom - 1) * cols ==> i + cols < |v|
    ensures Scrolled(v, cols, rows, top, bottom, blank)[i] ==
              if (bottom - 1) * cols <= i < bottom * cols then blank else if top * cols <= i < (bottom - 1) * cols then v[i + cols] else v[i]
  {
    RowBounds(cols, rows, bottom - 1);
  }

  lemma RevScrolledAt(v: seq<Cell>, cols: nat, rows: nat, top: nat, bottom: nat, blank: Cell, i: nat)
    requires |v| == rows * cols && top < rows && bottom <= rows && i < |v|
    ensures (top + 1) * cols <= i ==> cols <= i
    ensures RevScrolled(v, cols, rows, top, bottom, blank)[i] ==
              if top * cols <= i < (top + 1) * cols then blank else if (top + 1) * cols <= i < bottom * cols then v[i - cols] else v[i]
  {
    MulLe(1, top + 1, cols);
  }

  /** Row by row: a scroll moves exactly the rows of the margin region. */
  lemma ScrolledRows(v: seq<Cell>, cols: nat, rows: nat, top: nat, bottom: nat, blank: Cell, x: nat, y: nat)
    requires |v| == rows * cols && top < bottom <= rows && x < cols && y < rows
    ensures Pos(cols, x, y) < |v| && (y + 1 < rows ==> Pos(cols, x, y + 1) < |v|)
    ensures Scrolled(v, cols, rows, top, bottom, blank)[Pos(cols, x, y)] ==
              if y < top || y >= bottom then v[Pos(cols, x, y)] else if y == bottom - 1 then blank else v[Pos(cols, x, y + 1)]
  {
    hide Scrolled;
    PosInRange(cols, rows, x, y);
    ScrolledAt(v, cols, rows, top, bottom, blank, Pos(cols, x, y));
    PosBetween(cols, x, y, top);
    PosBetween(cols, x, y, bottom - 1);
    PosBetween(cols, x, y, bottom);
    if y + 1 < rows {
      PosInRange(cols, rows, x, y + 1);
      assert Pos(cols, x, y + 1) == Pos(cols, x, y) + cols;
    }
  }

  /** A reverse scroll blanks the top row even when it lies below the region. */
  lemma RevScrolledRows(v: seq<Cell>, cols: nat, rows: nat, top: nat, bottom: nat, blank: Cell, x: nat, y: nat)
    requires |v| == rows * cols && top < rows && bottom <= rows && x < cols && y < rows
    ensures Pos(cols, x, y) < |v| && (0 < y ==> Pos(cols, x, y - 1) < |v|)
    ensures RevScrolled(v, cols, rows, top, bottom, blank)[Pos(cols, x, y)] ==
              if y == top then blank else if top < y < bottom then v[Pos(cols, x, y - 1)] else v[Pos(cols, x, y)]
  {
    hide RevScrolled;
    PosInRange(cols, rows, x, y);
    RevScrolledAt(v, cols, rows, top, bottom, blank, Pos(cols, x, y));
    PosBetween(cols, x, y, top);
    PosBetween(cols, x, y, top + 1);
    PosBetween(cols, x, y, bottom);
    if 0 < y {
      PosInRange(cols, rows, x, y - 1);
      assert Pos(cols, x, y - 1) == Pos(cols, x, y) - cols;
    }
  }

  lemma PosBetween(cols: nat, x: nat, y: nat, row: nat)
    requires x < cols
    ensures Pos(cols, x, y) < row * cols <==> y < row
  {
    if y < row {
      MulLe(y + 1, row, cols);
      assert (y + 1) * cols == y * cols + cols;
    } else {
      MulLe(row, y, cols);
    }
  }

  // ---------------------------------------------------------------------------------------------
  // Flushing
  // ---------------------------------------------------------------------------------------------

  /** During a flush of the items from `k` on: the logical screen is `v`, and what is still mapped is
      still queued. */
  ghost predicate Flushing(p: Pending, cols: nat, rows: nat, v: seq<Cell>, k: nat) {
    && Sized(p, cols, rows) && k <= p.count
    && (forall i :: 0 <= i < |p.slot| && p.slot[i] != NULL ==> k <= p.slot[i] < p.count && ItemPos(cols, p.queue[p.slot[i]]) == i)
    && (forall j :: k <= j < p.count ==> ItemPos(cols, p.queue[j]) < |p.slot|
                                         && (p.slot[ItemPos(cols, p.queue[j])] == j || p.slot[ItemPos(cols, p.queue[j])] == NULL))
    && View(p) == v
  }

  /** Committing one cell: into the grid, out of the map. */
  function Commit(p: Pending, i: nat, c: Cell): Pending
    requires i < |p.grid| && i < |p.slot|
  {
    p.(grid := p.grid[i := c], slot := p.slot[i := NULL])
  }

  lemma StartFlushing(p: Pending, cols: nat, rows: nat)
    requires Ok(p, cols, rows)
    ensures Flushing(p, cols, rows, View(p), 0)
  {
  }

  lemma CommitKeepsFlushing(p: Pending, cols: nat, rows: nat, v: seq<Cell>, k: nat, i: nat)
    requires Flushing(p, cols, rows, v, k) && i < |p.slot|
    ensures Flushing(Commit(p, i, v[i]), cols, rows, v, k)
  {
    var r := Commit(p, i, v[i]);
    forall j | 0 <= j < |v|
      ensures View(r)[j] == v[j]
    {
    }
  }

  lemma SkipKeepsFlushing(p: Pending, cols: nat, rows: nat, v: seq<Cell>, k: nat)
    requires Flushing(p, cols, rows, v, k) && k < p.count
    requires ItemPos(cols, p.queue[k]) < |p.slot| && p.slot[ItemPos(cols, p.queue[k])] == NULL
    ensures Flushing(p, cols, rows, v, k + 1)
  {
  }

  lemma Flushed(p: Pending, cols: nat, rows: nat, v: seq<Cell>)
    requires Flushing(p, cols, rows, v, p.count)
    ensures p.grid == v
    ensures Ok(p.(count := 0), cols, rows) && View(p.(count := 0)) == v
  {
  }
}
