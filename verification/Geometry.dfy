/** Where the cells of the terminal lie in the framebuffer, and the pixels of one cell
    (src/drivers/terminal/flanterm/backends/fb.c:440-474, 811-836, 879-890, 1060-1070). */
module Geometry {
  import opened Arithmetic
  import opened PendingCells

  const TRANSPARENT: nat := 0xFFFF_FFFF

  /** `stride` is the pitch in pixels; `fontWidth` includes the spacing column. */
  datatype Layout = Layout(
    cols: nat, rows: nat,
    fontWidth: nat, scaleX: nat, scaleY: nat, glyphWidth: nat, glyphHeight: nat,
    offsetX: nat, offsetY: nat,
    width: nat, height: nat, stride: nat)
  {
    ghost predicate Ok() {
      && 0 < cols && 0 < rows && 0 < scaleX && 0 < scaleY && 0 < glyphHeight
      && 0 < glyphWidth == fontWidth * scaleX
      && offsetX + cols * glyphWidth <= width <= stride
      && offsetY + rows * glyphHeight <= height
    }

    function Left(x: nat): nat { offsetX + x * glyphWidth }

    function Top(y: nat): nat { offsetY + y * glyphHeight }

    /** The pixel lies in the rectangle of cell (x, y). */
    predicate InCell(px: nat, py: nat, x: nat, y: nat) {
      Left(x) <= px < Left(x) + glyphWidth && Top(y) <= py < Top(y) + glyphHeight
    }

    predicate InText(px: nat, py: nat) {
      offsetX <= px < offsetX + cols * glyphWidth && offsetY <= py < offsetY + rows * glyphHeight
    }

    function At(px: nat, py: nat): nat { py * stride + px }
  }

  /** The automatic font scale of flanterm_fb_init. */
  function AutoScale(width: nat, height: nat, scaleX: nat, scaleY: nat): (scale: (nat, nat))
    ensures 0 < scale.0 && 0 < scale.1
  {
    if scaleX != 0 && scaleY != 0 then (scaleX, scaleY)
    else if width >= 3840 + 3840 / 3 && height >= 2160 + 2160 / 3 then (4, 4)
    else if width >= 1920 + 1920 / 3 && height >= 1080 + 1080 / 3 then (2, 2)
    else (1, 1)
  }

  /** The cell geometry of flanterm_fb_init. */
  function LayoutFor(width: nat, height: nat, stride: nat, margin: nat, fontWidth: nat, fontHeight: nat, scaleX: nat, scaleY: nat): Layout
    requires 2 * margin <= width && 2 * margin <= height && 0 < fontWidth && 0 < fontHeight
  {
    var (sx, sy) := AutoScale(width, height, scaleX, scaleY);
    var gw, gh := Product(fontWidth, sx), Product(fontHeight, sy);
    var w, h := width - margin * 2, height - margin * 2;
    Layout(w / gw, h / gh, fontWidth, sx, sy, gw, gh, margin + Half(w, gw), margin + Half(h, gh), width, height, stride)
  }

  /** What centring leaves on one side. */
  function Half(size: nat, glyph: nat): nat
    requires 0 < glyph
  {
    size % glyph / 2
  }

  function Product(a: nat, b: nat): (p: nat)
    ensures 0 < a && 0 < b ==> 0 < p
  {
    if 0 < a && 0 < b then MulLe(1, b, a); a * b else a * b
  }

  /** For all sizes, scales and margins that leave room for one cell, the text area lies inside the
      framebuffer, inside the margins, with as many whole cells as there is room for, and in the middle of it. */
  lemma LayoutIsOk(width: nat, height: nat, stride: nat, margin: nat, fontWidth: nat, fontHeight: nat, scaleX: nat, scaleY: nat)
    requires 2 * margin <= width <= stride && 2 * margin <= height && 0 < fontWidth && 0 < fontHeight
    requires var (sx, sy) := AutoScale(width, height, scaleX, scaleY);
             fontWidth * sx <= width - 2 * margin && fontHeight * sy <= height - 2 * margin
    ensures var l := LayoutFor(width, height, stride, margin, fontWidth, fontHeight, scaleX, scaleY);
            && l.Ok()
            && margin <= l.offsetX && l.offsetX + l.cols * l.glyphWidth <= width - margin
            && margin <= l.offsetY && l.offsetY + l.rows * l.glyphHeight <= height - margin
            && Centred(l.offsetX - margin, width - margin - (l.offsetX + l.cols * l.glyphWidth), l.glyphWidth)
            && Centred(l.offsetY - margin, height - margin - (l.offsetY + l.rows * l.glyphHeight), l.glyphHeight)
  {
    var (sx, sy) := AutoScale(width, height, scaleX, scaleY);
    CentredFits(width - margin * 2, Product(fontWidth, sx));
    CentredFits(height - margin * 2, Product(fontHeight, sy));
  }

  /** What is left on the two sides of the cells. */
  predicate Centred(before: int, after: int, size: int) {
    0 <= before <= after <= before + 1 && before + after < size
  }

  lemma CentredFits(w: nat, g: nat)
    requires 0 < g <= w
    ensures 1 <= w / g && w % g / 2 + w / g * g <= w
    ensures Centred(w % g / 2, w - w % g / 2 - w / g * g, g)
  {
    assert w == w / g * g + w % g;
  }

  // ---------------------------------------------------------------------------------------------
  // Cells are disjoint, in bounds, and cover the text area
  // ---------------------------------------------------------------------------------------------

  lemma PixelInBounds(l: Layout, px: nat, py: nat, x: nat, y: nat)
    requires l.Ok() && x < l.cols && y < l.rows && l.InCell(px, py, x, y)
    ensures px < l.width <= l.stride && py < l.height && l.InText(px, py)
    ensures l.At(px, py) < l.height * l.stride
    ensures l.At(px, py) / l.stride == py && l.At(px, py) % l.stride == px
  {
    RowFits(x, l.cols, l.glyphWidth);
    RowFits(y, l.rows, l.glyphHeight);
    AddressInBounds(l, px, py);
  }

  lemma AddressInBounds(l: Layout, px: nat, py: nat)
    requires px < l.stride && py < l.height
    ensures l.At(px, py) < l.height * l.stride
    ensures l.At(px, py) / l.stride == py && l.At(px, py) % l.stride == px
  {
    MulLe(py + 1, l.height, l.stride);
    assert (py + 1) * l.stride == py * l.stride + l.stride;
    DivModUnique(py, px, l.stride);
  }

  lemma RowFits(i: nat, n: nat, size: nat)
    requires i < n
    ensures 0 <= i * size && i * size + size <= n * size
  {
    MulLe(i + 1, n, size);
    assert (i + 1) * size == i * size + size;
  }

  lemma DisjointBands(i: nat, j: nat, size: nat, p: int)
    requires i * size <= p < i * size + size && j * size <= p < j * size + size
    ensures i == j
  {
    if i < j {
      MulLe(i + 1, j, size);
    } else if j < i {
      MulLe(j + 1, i, size);
    }
  }

  /** No pixel belongs to two cells. */
  lemma CellsAreDisjoint(l: Layout, px: nat, py: nat, x: nat, y: nat, x': nat, y': nat)
    requires l.InCell(px, py, x, y) && l.InCell(px, py, x', y')
    ensures x == x' && y == y'
  {
    DisjointBands(x, x', l.glyphWidth, px - l.offsetX);
    DisjointBands(y, y', l.glyphHeight, py - l.offsetY);
  }

  /** Every pixel of the text area belongs to a cell. */
  lemma CellsCoverText(l: Layout, px: nat, py: nat)
    requires l.Ok() && l.InText(px, py)
    ensures var x, y := (px - l.offsetX) / l.glyphWidth, (py - l.offsetY) / l.glyphHeight;
            x < l.cols && y < l.rows && l.InCell(px, py, x, y)
  {
    InBand(px - l.offsetX, l.cols, l.glyphWidth);
    InBand(py - l.offsetY, l.rows, l.glyphHeight);
  }

  lemma InBand(p: nat, n: nat, size: nat)
    requires 0 < size && p < n * size
    ensures p / size < n && p / size * size <= p < p / size * size + size
  {
    assert p == p / size * size + p % size;
    if p / size >= n {
      MulLe(n, p / size, size);
    }
  }

  // ---------------------------------------------------------------------------------------------
  // Pixels
  // ---------------------------------------------------------------------------------------------

  /** Whether a glyph's font pixel is set: character, font row, font column. */
  type Font = (nat, nat, nat) -> bool

  /** What does not change while the terminal runs. */
  datatype Look = Look(layout: Layout, font: Font, defaultBg: nat)

  /** The colour of pixel (gx, gy) of a cell; the font row is kept in a uint8_t. */
  function PixelOf(k: Look, c: Cell, gx: nat, gy: nat): nat
    requires 0 < k.layout.scaleX && 0 < k.layout.scaleY
  {
    var bg := if c.bg == TRANSPARENT then k.defaultBg else c.bg;
    var fg := if c.fg == TRANSPARENT then k.defaultBg else c.fg;
    if k.font(c.c, gy / k.layout.scaleY % 0x100, gx / k.layout.scaleX) then fg else bg
  }

  /** Column `gx0` of row `gy0` is the next pixel of a cell to be plotted. */
  predicate Before(gx: nat, gy: nat, gx0: nat, gy0: nat) {
    gy < gy0 || (gy == gy0 && gx < gx0)
  }

  /** The framebuffer with the cell plotted up to that pixel. */
  function PlottedTo(f: seq<nat>, k: Look, c: Cell, x: nat, y: nat, gx0: nat, gy0: nat): (g: seq<nat>)
    requires k.layout.Ok()
    ensures |g| == |f|
  {
    seq(|f|, i requires 0 <= i < |f| =>
      var px, py := i % k.layout.stride, i / k.layout.stride;
      if k.layout.InCell(px, py, x, y) && Before(px - k.layout.Left(x), py - k.layout.Top(y), gx0, gy0)
      then PixelOf(k, c, px - k.layout.Left(x), py - k.layout.Top(y)) else f[i])
  }

  function Plotted(f: seq<nat>, k: Look, c: Cell, x: nat, y: nat): (g: seq<nat>)
    requires k.layout.Ok()
    ensures |g| == |f|
  {
    PlottedTo(f, k, c, x, y, 0, k.layout.glyphHeight)
  }

  /** The pixel at (gx, gy) of cell (x, y). */
  function Address(l: Layout, x: nat, y: nat, gx: nat, gy: nat): nat {
    l.At(l.Left(x) + gx, l.Top(y) + gy)
  }

  lemma AddressOfPixel(l: Layout, x: nat, y: nat, gx: nat, gy: nat)
    requires l.Ok() && x < l.cols && y < l.rows && gx < l.glyphWidth && gy < l.glyphHeight
    ensures Address(l, x, y, gx, gy) < l.height * l.stride
    ensures Address(l, x, y, gx, gy) % l.stride == l.Left(x) + gx && Address(l, x, y, gx, gy) / l.stride == l.Top(y) + gy
  {
    PixelInBounds(l, l.Left(x) + gx, l.Top(y) + gy, x, y);
  }

  lemma PlottedNext(f: seq<nat>, k: Look, c: Cell, x: nat, y: nat, gx: nat, gy: nat)
    requires k.layout.Ok() && |f| >= k.layout.height * k.layout.stride
    requires x < k.layout.cols && y < k.layout.rows && gx < k.layout.glyphWidth && gy < k.layout.glyphHeight
    ensures Address(k.layout, x, y, gx, gy) < |f|
    ensures PlottedTo(f, k, c, x, y, gx, gy)[Address(k.layout, x, y, gx, gy) := PixelOf(k, c, gx, gy)]
         == PlottedTo(f, k, c, x, y, gx + 1, gy)
  {
    hide PixelOf;
    var l, a := k.layout, Address(k.layout, x, y, gx, gy);
    AddressOfPixel(l, x, y, gx, gy);
    var g, h := PlottedTo(f, k, c, x, y, gx, gy)[a := PixelOf(k, c, gx, gy)], PlottedTo(f, k, c, x, y, gx + 1, gy);
    forall i | 0 <= i < |f|
      ensures g[i] == h[i]
    {
      if i % l.stride == l.Left(x) + gx && i / l.stride == l.Top(y) + gy {
        assert i == i / l.stride * l.stride + i % l.stride;
      }
    }
  }

  lemma PlottedRow(f: seq<nat>, k: Look, c: Cell, x: nat, y: nat, gy: nat)
    requires k.layout.Ok()
    ensures PlottedTo(f, k, c, x, y, k.layout.glyphWidth, gy) == PlottedTo(f, k, c, x, y, 0, gy + 1)
  {
    hide PixelOf;
  }

  lemma PlottedNothing(f: seq<nat>, k: Look, c: Cell, x: nat, y: nat)
    requires k.layout.Ok()
    ensures PlottedTo(f, k, c, x, y, 0, 0) == f
  {
    hide PixelOf;
  }

  // ---------------------------------------------------------------------------------------------
  // What a framebuffer shows
  // ---------------------------------------------------------------------------------------------

  /** Every pixel of the cell's rectangle is the cell's. */
  ghost predicate Shows(f: seq<nat>, k: Look, x: nat, y: nat, c: Cell)
    requires k.layout.Ok()
  {
    forall px: nat, py: nat :: k.layout.InCell(px, py, x, y) && k.layout.At(px, py) < |f| ==>
      f[k.layout.At(px, py)] == PixelOf(k, c, px - k.layout.Left(x), py - k.layout.Top(y))
  }

  /** Every visible pixel outside the text area has the background colour. */
  ghost predicate MarginShows(f: seq<nat>, k: Look) {
    forall px: nat, py: nat {:trigger k.layout.InText(px, py)} ::
      px < k.layout.width && py < k.layout.height && !k.layout.InText(px, py) && k.layout.At(px, py) < |f| ==>
      f[k.layout.At(px, py)] == k.defaultBg
  }

  lemma PlottedShows(f: seq<nat>, k: Look, c: Cell, x: nat, y: nat)
    requires k.layout.Ok() && x < k.layout.cols && y < k.layout.rows
    ensures Shows(Plotted(f, k, c, x, y), k, x, y, c)
  {
    hide PixelOf;
    var l, g := k.layout, Plotted(f, k, c, x, y);
    forall px: nat, py: nat | l.InCell(px, py, x, y) && l.At(px, py) < |g|
      ensures g[l.At(px, py)] == PixelOf(k, c, px - l.Left(x), py - l.Top(y))
    {
      PixelInBounds(l, px, py, x, y);
    }
  }

  /** Plotting a cell disturbs no other cell and no margin pixel. */
  lemma PlottedKeeps(f: seq<nat>, k: Look, c: Cell, x: nat, y: nat, x': nat, y': nat, c': Cell)
    requires k.layout.Ok() && x < k.layout.cols && y < k.layout.rows
    requires x' < k.layout.cols && y' < k.layout.rows && (x', y') != (x, y)
    requires Shows(f, k, x', y', c')
    ensures Shows(Plotted(f, k, c, x, y), k, x', y', c')
  {
    hide PixelOf;
    var l, g := k.layout, Plotted(f, k, c, x, y);
    forall px: nat, py: nat | l.InCell(px, py, x', y') && l.At(px, py) < |g|
      ensures g[l.At(px, py)] == PixelOf(k, c', px - l.Left(x'), py - l.Top(y'))
    {
      PixelInBounds(l, px, py, x', y');
      if l.InCell(px, py, x, y) {
        CellsAreDisjoint(l, px, py, x, y, x', y');
      }
    }
  }

  lemma PlottedKeepsMargin(f: seq<nat>, k: Look, c: Cell, x: nat, y: nat)
    requires k.layout.Ok() && x < k.layout.cols && y < k.layout.rows && MarginShows(f, k)
    ensures MarginShows(Plotted(f, k, c, x, y), k)
  {
    hide PixelOf;
    var l, g := k.layout, Plotted(f, k, c, x, y);
    forall px: nat, py: nat | px < l.width && py < l.height && !l.InText(px, py) && l.At(px, py) < |g|
      ensures g[l.At(px, py)] == k.defaultBg
    {
      AddressInBounds(l, px, py);
      if l.InCell(px, py, x, y) {
        PixelInBounds(l, px, py, x, y);
      }
    }
  }

  /** Cell number `i` is shown. */
  ghost predicate ShowsCell(f: seq<nat>, k: Look, i: nat, c: Cell)
    requires k.layout.Ok()
  {
    Shows(f, k, i % k.layout.cols, i / k.layout.cols, c)
  }

  /** The framebuffer is, on every visible pixel, a redraw of these cells on a clear background. */
  ghost predicate Displays(f: seq<nat>, k: Look, cells: seq<Cell>)
    requires k.layout.Ok()
  {
    && |f| >= k.layout.height * k.layout.stride
    && |cells| == k.layout.rows * k.layout.cols
    && (forall i :: 0 <= i < |cells| ==> ShowsCell(f, k, i, cells[i]))
    && MarginShows(f, k)
  }

  lemma PlotUpdatesDisplay(f: seq<nat>, k: Look, cells: seq<Cell>, c: Cell, x: nat, y: nat)
    requires k.layout.Ok() && Displays(f, k, cells) && x < k.layout.cols && y < k.layout.rows
    ensures Pos(k.layout.cols, x, y) < |cells|
    ensures Displays(Plotted(f, k, c, x, y), k, cells[Pos(k.layout.cols, x, y) := c])
  {
    hide ShowsCell, MarginShows, Plotted, PixelOf, Pos, Layout.Ok;
    var g := Plotted(f, k, c, x, y);
    PosInRange(k.layout.cols, k.layout.rows, x, y);
    PlottedKeepsMargin(f, k, c, x, y);
    var after := cells[Pos(k.layout.cols, x, y) := c];
    forall i | 0 <= i < |after|
      ensures ShowsCell(g, k, i, after[i])
    {
      PlotUpdatesCell(f, k, cells[i], c, x, y, i);
    }
  }

  lemma PlotUpdatesCell(f: seq<nat>, k: Look, was: Cell, c: Cell, x: nat, y: nat, i: nat)
    requires k.layout.Ok() && x < k.layout.cols && y < k.layout.rows && i < k.layout.rows * k.layout.cols
    requires ShowsCell(f, k, i, was)
    ensures ShowsCell(Plotted(f, k, c, x, y), k, i, if i == Pos(k.layout.cols, x, y) then c else was)
  {
    hide Shows, Plotted, PixelOf, Pos;
    PosInRange(k.layout.cols, k.layout.rows, x, y);
    CellOf(k.layout.cols, k.layout.rows, i);
    if i == Pos(k.layout.cols, x, y) {
      PlottedShows(f, k, c, x, y);
    } else {
      PlottedKeeps(f, k, c, x, y, i % k.layout.cols, i / k.layout.cols, was);
    }
  }

  /** What is displayed determines every visible pixel: two framebuffers that display the same cells
      agree on the whole screen. */
  lemma DisplayDeterminesPixels(f: seq<nat>, g: seq<nat>, k: Look, cells: seq<Cell>, px: nat, py: nat)
    requires k.layout.Ok() && Displays(f, k, cells) && Displays(g, k, cells)
    requires px < k.layout.width && py < k.layout.height
    ensures k.layout.At(px, py) < |f| && k.layout.At(px, py) < |g| && f[k.layout.At(px, py)] == g[k.layout.At(px, py)]
  {
    hide PixelOf, ShowsCell, MarginShows, Pos, Layout.InCell, Layout.InText, Layout.At;
    var l := k.layout;
    AddressInBounds(l, px, py);
    if l.InText(px, py) {
      SameText(f, g, k, cells, px, py);
    } else {
      SameMargin(f, g, k, px, py);
    }
  }

  lemma SameText(f: seq<nat>, g: seq<nat>, k: Look, cells: seq<Cell>, px: nat, py: nat)
    requires k.layout.Ok() && k.layout.InText(px, py) && |cells| == k.layout.rows * k.layout.cols
    requires forall i :: 0 <= i < |cells| ==> ShowsCell(f, k, i, cells[i]) && ShowsCell(g, k, i, cells[i])
    requires k.layout.At(px, py) < |f| && k.layout.At(px, py) < |g|
    ensures f[k.layout.At(px, py)] == g[k.layout.At(px, py)]
  {
    hide PixelOf, ShowsCell, Pos, Layout.Ok, Layout.InCell, Layout.At;
    var l := k.layout;
    CellsCoverText(l, px, py);
    var x, y := (px - l.offsetX) / l.glyphWidth, (py - l.offsetY) / l.glyphHeight;
    PosInRange(l.cols, l.rows, x, y);
    SamePixel(f, g, k, Pos(l.cols, x, y), x, y, cells[Pos(l.cols, x, y)], px, py);
  }

  lemma SameMargin(f: seq<nat>, g: seq<nat>, k: Look, px: nat, py: nat)
    requires MarginShows(f, k) && MarginShows(g, k)
    requires px < k.layout.width && py < k.layout.height && !k.layout.InText(px, py)
    requires k.layout.At(px, py) < |f| && k.layout.At(px, py) < |g|
    ensures f[k.layout.At(px, py)] == g[k.layout.At(px, py)]
  {
    hide Layout.InText, Layout.At;
  }

  lemma SamePixel(f: seq<nat>, g: seq<nat>, k: Look, i: nat, x: nat, y: nat, c: Cell, px: nat, py: nat)
    requires k.layout.Ok() && i % k.layout.cols == x && i / k.layout.cols == y
    requires ShowsCell(f, k, i, c) && ShowsCell(g, k, i, c) && k.layout.InCell(px, py, x, y)
    requires k.layout.At(px, py) < |f| && k.layout.At(px, py) < |g|
    ensures f[k.layout.At(px, py)] == g[k.layout.At(px, py)]
  {
    hide PixelOf;
  }
}
