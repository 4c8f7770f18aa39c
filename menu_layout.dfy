/**
 * What fillWithItems(items, pagesLimit) lays out, in closed form: item i
 * goes to page i / (width * height), at the cell whose row-major index on
 * that page is i % (width * height); items beyond what the page limit holds
 * are dropped; cells no item reaches keep the air filler.
 */
module DefaultLayout {
  import opened Wrappers
  import opened JavaInt
  import opened MenuGrid

  /** The index of a cell on its page, reading the page row by row. */
  function CellIndex(k: Cell, width: int): int
  {
    k.1 * width + k.0
  }

  /** The cell whose row-major index is r. */
  function CellAt(r: int, width: int): Cell
    requires width >= 1
  {
    (r % width, r / width)
  }

  /** The pages fillWithItems may use: pagesLimit, but never fewer than the first page. */
  function MaxPages(pagesLimit: int): (r: int)
    ensures r >= 1 && r >= pagesLimit
  {
    if pagesLimit < 1 then 1 else pagesLimit
  }

  /** How many of n items are placed when each page holds width * height of them. */
  function Placed(n: int, pagesLimit: int, width: int, height: int): (r: int)
    requires 0 <= n && width >= 1 && height >= 1
    ensures 0 <= r <= n
    ensures r == n || r == MaxPages(pagesLimit) * (width * height)
    ensures r <= MaxPages(pagesLimit) * (width * height)
  {
    CapPositive(width, height);
    var cap := width * height;
    MulLe(1, MaxPages(pagesLimit), cap);
    if n <= MaxPages(pagesLimit) * cap then n else MaxPages(pagesLimit) * cap
  }

  /** The page item i goes to. */
  function PageOf(i: int, width: int, height: int): int
    requires width >= 1 && height >= 1
  {
    CapPositive(width, height);
    i / (width * height)
  }

  /** The cell item i goes to, on its page. */
  function CellOf(i: int, width: int, height: int): Cell
    requires width >= 1 && height >= 1
  {
    CapPositive(width, height);
    CellAt(i % (width * height), width)
  }

  /** How many items a page holds. */
  function Capacity(width: int, height: int): (c: int)
    requires width >= 1 && height >= 1
    ensures c == width * height && c >= 1
  {
    CapPositive(width, height);
    width * height
  }

  /** The pages holding n placed items: the first page, and one more for each further `cap` items. */
  function PageCount(n: int, cap: int): (r: int)
    requires cap >= 1
    ensures r >= 1
  {
    if n <= 0 then 1 else (n - 1) / cap + 1
  }

  /** Page p once the first n items are placed row by row. */
  function RowMajorPage(items: seq<MenuItem>, n: int, p: int, width: int, height: int): Items
    requires 0 <= n <= |items|
  {
    map k | k in Cells(width, height, width, 0) ::
      var i := p * (width * height) + CellIndex(k, width);
      if 0 <= i < n then items[i] else AIR_ITEM
  }

  function RowMajorPages(items: seq<MenuItem>, n: int, width: int, height: int): (r: seq<Items>)
    requires 0 <= n <= |items| && width >= 1 && height >= 1
    ensures |r| == PageCount(n, width * height)
    ensures forall p :: 0 <= p < |r| ==> r[p] == RowMajorPage(items, n, p, width, height)
  {
    CapPositive(width, height);
    seq(PageCount(n, width * height), p => RowMajorPage(items, n, p, width, height))
  }

  /** The cursor of fillWithItems(items, pagesLimit) once m items are placed: just right of the last one. */
  function DefaultCursor(m: int, width: int, height: int): Cell
    requires width >= 1 && height >= 1
  {
    CapPositive(width, height);
    if m <= 0 then (0, 0)
    else var r := (m - 1) % (width * height); (r % width + 1, r / width)
  }

  // ---------------------------------------------------------------------
  // Arithmetic

  lemma MulLe(a: int, b: int, d: int)
    requires a <= b && 0 <= d
    ensures a * d <= b * d
  {
    assert b * d - a * d == (b - a) * d;
  }

  lemma MulSucc(a: int, d: int)
    ensures (a + 1) * d == a * d + d
  {
  }

  lemma CapPositive(width: int, height: int)
    requires width >= 1 && height >= 1
    ensures width * height >= width && width * height >= height && width * height >= 1
  {
    MulLe(1, height, width);
    MulLe(1, width, height);
  }

  /** Euclidean division by a positive divisor has one quotient and one remainder. */
  lemma DivModUnique(n: int, d: int, q: int, r: int)
    requires d >= 1 && 0 <= r < d && n == q * d + r
    ensures n / d == q && n % d == r
  {
    var q', r' := n / d, n % d;
    assert n == q' * d + r' && 0 <= r' < d;
    assert (q - q') * d == r' - r;
    if q > q' {
      MulLe(1, q - q', d);
    } else if q < q' {
      MulLe(1, q' - q, d);
    }
  }

  /** A row-major index below width * height names a cell of the box, and back. */
  lemma CellAtInBox(r: int, width: int, height: int)
    requires width >= 1 && height >= 1 && 0 <= r < width * height
    ensures InBox(CellAt(r, width), width, height)
    ensures CellIndex(CellAt(r, width), width) == r
  {
    if r / width >= height {
      MulLe(height, r / width, width);
    }
  }

  lemma CellIndexInBox(k: Cell, width: int, height: int)
    requires InBox(k, width, height)
    ensures 0 <= CellIndex(k, width) < width * height
    ensures CellAt(CellIndex(k, width), width) == k
  {
    MulLe(k.1 + 1, height, width);
    MulLe(0, k.1, width);
    DivModUnique(CellIndex(k, width), width, k.1, k.0);
  }

  lemma BoxCells(k: Cell, width: int, height: int)
    ensures k in Cells(width, height, width, 0) <==> InBox(k, width, height)
  {
    if InBox(k, width, height) {
      var (a, b) := k;
      assert Before((a, b), width, 0);
    }
  }

  // ---------------------------------------------------------------------
  // Pages

  /** A page whose cells are all before item m is settled: placing more items leaves it alone. */
  lemma PageSettled(items: seq<MenuItem>, m: int, m': int, p: int, width: int, height: int)
    requires width >= 1 && height >= 1 && 0 <= p
    requires (p + 1) * (width * height) <= m <= m' <= |items|
    ensures RowMajorPage(items, m, p, width, height) == RowMajorPage(items, m', p, width, height)
  {
    var c := width * height;
    forall k | k in Cells(width, height, width, 0)
      ensures p * c + CellIndex(k, width) < m
    {
      BoxCells(k, width, height);
      CellIndexInBox(k, width, height);
      assert (p + 1) * c == p * c + c;
    }
  }

  /** A page whose cells all come at or after item m is still the air page. */
  lemma PageUntouched(items: seq<MenuItem>, m: int, p: int, width: int, height: int)
    requires width >= 1 && height >= 1 && 0 <= m <= |items| && m <= p * (width * height)
    ensures RowMajorPage(items, m, p, width, height) == AirPage(width, height)
  {
    var page := RowMajorPage(items, m, p, width, height);
    var air := AirPage(width, height);
    FillCovers(map[], width, height, AIR_ITEM);
    forall k
      ensures k in page <==> k in air
      ensures k in page ==> page[k] == air[k]
    {
      BoxCells(k, width, height);
      if InBox(k, width, height) {
        CellIndexInBox(k, width, height);
      }
    }
  }

  /** Placing item m, on the page it belongs to, writes its cell of that page. */
  lemma PagePut(items: seq<MenuItem>, m: int, p: int, width: int, height: int)
    requires width >= 1 && height >= 1 && 0 <= p && 0 <= m < |items|
    requires p * (width * height) <= m < (p + 1) * (width * height)
    ensures InBox(CellAt(m - p * (width * height), width), width, height)
    ensures RowMajorPage(items, m + 1, p, width, height)
         == RowMajorPage(items, m, p, width, height)[CellAt(m - p * (width * height), width) := items[m]]
  {
    var c := width * height;
    var cell := CellAt(m - p * c, width);
    assert (p + 1) * c == p * c + c;
    CellAtInBox(m - p * c, width, height);
    BoxCells(cell, width, height);
    var before := RowMajorPage(items, m, p, width, height);
    var after := RowMajorPage(items, m + 1, p, width, height);
    forall k | k in after
      ensures after[k] == before[cell := items[m]][k]
    {
      BoxCells(k, width, height);
      CellIndexInBox(k, width, height);
      if p * c + CellIndex(k, width) == m {
        assert k == cell;
      }
    }
    assert after.Keys == before[cell := items[m]].Keys;
  }

  // ---------------------------------------------------------------------
  // The layout

  /** fillWithItems(items, pagesLimit) on a box of a menu: the row-major pages of the items it has room for. */
  lemma DefaultLayoutIsRowMajor(items: seq<MenuItem>, pagesLimit: int, width: int, height: int)
    requires 1 <= width <= COLUMNS && 1 <= height <= 6
    ensures FillLayout(items, pagesLimit, 0, 0, 1, 1, width, height)
         == Ok(RowMajorPages(items, Placed(|items|, pagesLimit, width, height), width, height))
  {
    CapPositive(width, height);
    PageUntouched(items, 0, 0, width, height);
    assert RowMajorPages(items, 0, width, height) == [AirPage(width, height)];
    assert items[0..] == items;
    DefaultLayoutFrom(items, pagesLimit, width, height, 0);
  }

  /** Where item i ends up: page i / (width * height), at the cell with row-major index i % (width * height). */
  lemma RowMajorPlacement(items: seq<MenuItem>, n: int, i: int, width: int, height: int)
    requires 1 <= width && 1 <= height && 0 <= i < n <= |items|
    ensures var pages := RowMajorPages(items, n, width, height);
      && 0 <= PageOf(i, width, height) < |pages|
      && CellOf(i, width, height) in pages[PageOf(i, width, height)]
      && pages[PageOf(i, width, height)][CellOf(i, width, height)] == items[i]
  {
    CapPositive(width, height);
    var c := width * height;
    var p := i / c;
    var r := i % c;
    assert i == p * c + r;
    var cell := CellAt(r, width);
    assert PageOf(i, width, height) == p && CellOf(i, width, height) == cell;
    CellAtInBox(r, width, height);
    BoxCells(cell, width, height);
    var q := (n - 1) / c;
    assert n - 1 == q * c + (n - 1) % c;
    MulSucc(q, c);
    if p > q {
      MulLe(q + 1, p, c);
    }
    var pages := RowMajorPages(items, n, width, height);
    assert |pages| == q + 1;
    assert pages[p] == RowMajorPage(items, n, p, width, height);
    assert p * c + CellIndex(cell, width) == i;
  }

  /** Items stop at the page limit: the last page is then full. */
  lemma LimitReached(m: int, last: int, width: int, height: int)
    requires 1 <= width && 1 <= height && last >= 1 && m == last * Capacity(width, height)
    ensures m >= 1 && (m - 1) % Capacity(width, height) == Capacity(width, height) - 1
    ensures m / Capacity(width, height) == last
  {
    var c := width * height;
    MulLe(1, last, c);
    assert m - 1 == (last - 1) * c + (c - 1);
    DivModUnique(m - 1, c, last - 1, c - 1);
    DivModUnique(m, c, last, 0);
  }

  /** Fewer items than the limit holds end on a page before the last allowed one. */
  lemma BelowLimit(m: int, last: int, width: int, height: int)
    requires 1 <= width && 1 <= height && 0 <= m < last * Capacity(width, height)
    requires m % Capacity(width, height) == 0
    ensures m / Capacity(width, height) < last
  {
    var c := width * height;
    var q := m / c;
    assert m == q * c;
    if q >= last {
      MulLe(last, q, c);
    }
  }

  /** Once item m - 1 filled the last cell of its page, the cursor is past the end of the bottom row. */
  lemma FullPageCursor(m: int, width: int, height: int)
    requires 1 <= width && 1 <= height && m >= 1
    requires (m - 1) % Capacity(width, height) == Capacity(width, height) - 1
    ensures DefaultCursor(m, width, height) == (width, height - 1)
    ensures DefaultCursor(m + 1, width, height) == (1, 0)
    ensures m % Capacity(width, height) == 0 && PageCount(m, Capacity(width, height)) == m / Capacity(width, height)
  {
    CapPositive(width, height);
    var c := width * height;
    var q0 := (m - 1) / c;
    assert m - 1 == q0 * c + (c - 1);
    assert c - 1 == (height - 1) * width + (width - 1);
    DivModUnique(c - 1, width, height - 1, width - 1);
    assert m == (q0 + 1) * c + 0;
    DivModUnique(m, c, q0 + 1, 0);
  }

  /** Moving right from row-major index r0, wrapping to the next row past its end, reaches index r0 + 1. */
  lemma StepInRow(r0: int, width: int)
    requires width >= 1 && r0 >= 0
    ensures (if r0 % width + 1 >= width then (0, r0 / width + 1) else (r0 % width + 1, r0 / width))
         == CellAt(r0 + 1, width)
  {
    assert r0 == (r0 / width) * width + r0 % width;
    if r0 % width + 1 >= width {
      DivModUnique(r0 + 1, width, r0 / width + 1, 0);
    } else {
      DivModUnique(r0 + 1, width, r0 / width, r0 % width + 1);
    }
  }

  /** Otherwise, after wrapping to the next row, the cursor is at the cell of item m, on the last page. */
  lemma NextCellCursor(m: int, width: int, height: int)
    requires 1 <= width && 1 <= height && m >= 0
    requires m == 0 || (m - 1) % Capacity(width, height) != Capacity(width, height) - 1
    ensures var (x, y) := DefaultCursor(m, width, height);
      && 0 <= y < height
      && (if x >= width then (0, y + 1) else (x, y)) == CellAt(m % Capacity(width, height), width)
      && PageCount(m, Capacity(width, height)) == m / Capacity(width, height) + 1
      && 0 <= m % Capacity(width, height) < Capacity(width, height)
  {
    var c := Capacity(width, height);
    if m >= 1 {
      var r0 := (m - 1) % c;
      var q0 := (m - 1) / c;
      assert m - 1 == q0 * c + r0;
      DivModUnique(m, c, q0, r0 + 1);
      CellAtInBox(r0, width, height);
      StepInRow(r0, width);
    }
  }

  /** The cursor after item m is just right of its cell. */
  lemma CursorAfter(m: int, width: int, height: int)
    requires 1 <= width && 1 <= height && m >= 0
    ensures DefaultCursor(m + 1, width, height)
         == (CellAt(m % Capacity(width, height), width).0 + 1, CellAt(m % Capacity(width, height), width).1)
  {
  }

  /** Item m opens a new page when its predecessor filled the last one. */
  lemma NextPagesNew(items: seq<MenuItem>, m: int, width: int, height: int)
    requires 1 <= width && 1 <= height && 1 <= m < |items|
    requires m % Capacity(width, height) == 0
    ensures |RowMajorPages(items, m, width, height)| == m / Capacity(width, height)
    ensures RowMajorPages(items, m + 1, width, height)
         == RowMajorPages(items, m, width, height) + [AirPage(width, height)[(0, 0) := items[m]]]
  {
    CapPositive(width, height);
    var c := width * height;
    var q := m / c;
    FullPages(m, c);
    var pages := RowMajorPages(items, m, width, height);
    var next := RowMajorPages(items, m + 1, width, height);
    assert |pages| == q && |next| == q + 1;
    forall p | 0 <= p < q
      ensures next[p] == pages[p]
    {
      MulLe(p + 1, q, c);
      PageSettled(items, m, m + 1, p, width, height);
    }
    PageUntouched(items, m, q, width, height);
    PagePut(items, m, q, width, height);
    assert CellAt(m - q * c, width) == CellAt(0, width) == (0, 0);
  }

  /** m items filling whole pages of c cells: m / c pages, and the next item opens one more. */
  lemma FullPages(m: int, c: int)
    requires c >= 1 && m >= 1 && m % c == 0
    ensures m / c >= 1 && m == m / c * c && m < (m / c + 1) * c
    ensures PageCount(m, c) == m / c && PageCount(m + 1, c) == m / c + 1
  {
    var q := m / c;
    assert m == q * c + 0;
    assert (q + 1) * c == q * c + c;
    assert m - 1 == (q - 1) * c + (c - 1);
    DivModUnique(m - 1, c, q - 1, c - 1);
    DivModUnique(m, c, q, 0);
  }

  /** Otherwise item m goes to its cell of the last page. */
  lemma NextPagesSame(items: seq<MenuItem>, m: int, width: int, height: int)
    requires 1 <= width && 1 <= height && 0 <= m < |items|
    requires PageCount(m, Capacity(width, height)) == m / Capacity(width, height) + 1
    ensures var pages := RowMajorPages(items, m, width, height);
      var q := m / Capacity(width, height);
      RowMajorPages(items, m + 1, width, height)
        == pages[..q] + [pages[q][CellAt(m % Capacity(width, height), width) := items[m]]]
  {
    CapPositive(width, height);
    var c := width * height;
    var q := m / c;
    assert m == q * c + m % c;
    var pages := RowMajorPages(items, m, width, height);
    var next := RowMajorPages(items, m + 1, width, height);
    assert |next| == q + 1;
    forall p | 0 <= p < q
      ensures next[p] == pages[p]
    {
      MulLe(p + 1, q, c);
      PageSettled(items, m, m + 1, p, width, height);
    }
    assert (q + 1) * c == q * c + c;
    PagePut(items, m, q, width, height);
  }

  /** A turn of fillWithItems past the bottom row at the page limit ends the loop. */
  lemma LayoutStops(rest: seq<MenuItem>, pagesLimit: int, width: int, height: int, pages: seq<Items>, x: int, y: int)
    requires rest != [] && |pages| >= 1 && x >= width && Wrap(y + 1) >= height && pagesLimit <= |pages|
    ensures Layout(rest, pagesLimit, 0, 0, 1, 1, width, height, pages, x, y) == Ok(pages)
  {
  }

  /** A turn of fillWithItems past the bottom row under the page limit opens a page and fills its corner. */
  lemma LayoutOpensPage(rest: seq<MenuItem>, pagesLimit: int, width: int, height: int, pages: seq<Items>,
                        x: int, y: int)
    requires 1 <= width && 1 <= height
    requires rest != [] && |pages| >= 1 && x >= width && Wrap(y + 1) >= height && pagesLimit > |pages|
    ensures Layout(rest, pagesLimit, 0, 0, 1, 1, width, height, pages, x, y)
         == Layout(rest[1..], pagesLimit, 0, 0, 1, 1, width, height, pages + [AirPage(width, height)[(0, 0) := rest[0]]], 1, 0)
  {
    var ps := pages + [AirPage(width, height)];
    assert PutLast(ps, (0, 0), rest[0], width, height) == Ok(pages + [AirPage(width, height)[(0, 0) := rest[0]]]) by {
      assert ps[..|ps| - 1] == pages;
    }
  }

  /** Any other turn of fillWithItems writes the cell at the cursor, wrapped to the next row when past its end. */
  lemma LayoutNextCell(rest: seq<MenuItem>, tail: seq<MenuItem>, pagesLimit: int, width: int, height: int,
                       pages: seq<Items>, next: seq<Items>, x: int, y: int, cell: Cell, after: Cell)
    requires rest != [] && tail == rest[1..] && |pages| >= 1 && InBox(cell, width, height) && cell.0 < INT_MAX
    requires (if x >= width then (0, Wrap(y + 1)) else (x, y)) == cell
    requires next == pages[..|pages| - 1] + [pages[|pages| - 1][cell := rest[0]]] && after == (cell.0 + 1, cell.1)
    ensures Layout(rest, pagesLimit, 0, 0, 1, 1, width, height, pages, x, y)
         == Layout(tail, pagesLimit, 0, 0, 1, 1, width, height, next, after.0, after.1)
  {
    var later := Layout(rest[1..], pagesLimit, 0, 0, 1, 1, width, height, next, cell.0 + 1, cell.1);
    assert PutLast(pages, cell, rest[0], width, height) == Ok(next);
    assert Wrap(cell.0 + 1) == cell.0 + 1;
    if x >= width {
      assert Layout(rest, pagesLimit, 0, 0, 1, 1, width, height, pages, x, y) == later by {
        assert cell == (0, Wrap(y + 1)) && cell.1 < height;
      }
    } else {
      assert Layout(rest, pagesLimit, 0, 0, 1, 1, width, height, pages, x, y) == later by {
        assert cell == (x, y) && y < height;
      }
    }
  }

  /** What the loop of fillWithItems(items, pagesLimit) still returns once m items are placed row by row. */
  function Remaining(items: seq<MenuItem>, pagesLimit: int, width: int, height: int, m: int): Result<seq<Items>>
    requires 1 <= width && 1 <= height && 0 <= m <= |items|
  {
    var (x, y) := DefaultCursor(m, width, height);
    Layout(items[m..], pagesLimit, 0, 0, 1, 1, width, height, RowMajorPages(items, m, width, height), x, y)
  }

  /** The turn for item m once the last page is full, under the page limit. */
  lemma StepNewPage(items: seq<MenuItem>, pagesLimit: int, width: int, height: int, m: int)
    requires 1 <= width <= COLUMNS && 1 <= height <= 6
    requires 1 <= m < Placed(|items|, pagesLimit, width, height)
    requires (m - 1) % Capacity(width, height) == Capacity(width, height) - 1
    ensures Remaining(items, pagesLimit, width, height, m) == Remaining(items, pagesLimit, width, height, m + 1)
  {
    var rest := items[m..];
    assert rest[0] == items[m] && rest[1..] == items[m + 1..];
    FullPageCursor(m, width, height);
    BelowLimit(m, MaxPages(pagesLimit), width, height);
    NextPagesNew(items, m, width, height);
    LayoutOpensPage(rest, pagesLimit, width, height, RowMajorPages(items, m, width, height), width, height - 1);
  }

  /** The turn for item m when it goes to the next cell of the last page. */
  lemma StepSamePage(items: seq<MenuItem>, pagesLimit: int, width: int, height: int, m: int)
    requires 1 <= width <= COLUMNS && 1 <= height <= 6
    requires 0 <= m < |items|
    requires m == 0 || (m - 1) % Capacity(width, height) != Capacity(width, height) - 1
    ensures Remaining(items, pagesLimit, width, height, m) == Remaining(items, pagesLimit, width, height, m + 1)
  {
    var c := Capacity(width, height);
    var rest, tail := items[m..], items[m + 1..];
    var (x, y) := DefaultCursor(m, width, height);
    var after := DefaultCursor(m + 1, width, height);
    var cell := CellAt(m % c, width);
    var pages, next := RowMajorPages(items, m, width, height), RowMajorPages(items, m + 1, width, height);
    NextCellFacts(m, width, height);
    NextCellPages(items, m, width, height);
    assert rest != [] && rest[0] == items[m] && tail == rest[1..];
    LayoutNextCell(rest, tail, pagesLimit, width, height, pages, next, x, y, cell, after);
    assert Remaining(items, pagesLimit, width, height, m) == Layout(rest, pagesLimit, 0, 0, 1, 1, width, height, pages, x, y);
    assert Remaining(items, pagesLimit, width, height, m + 1) == Layout(tail, pagesLimit, 0, 0, 1, 1, width, height, next, after.0, after.1);
  }

  /** Where item m goes when its predecessor left room on the last page, and where the cursor then stands. */
  lemma NextCellFacts(m: int, width: int, height: int)
    requires 1 <= width <= COLUMNS && 1 <= height <= 6 && m >= 0
    requires m == 0 || (m - 1) % Capacity(width, height) != Capacity(width, height) - 1
    ensures var (x, y) := DefaultCursor(m, width, height);
      var cell := CellAt(m % Capacity(width, height), width);
      && InBox(cell, width, height) && cell.0 < INT_MAX
      && (if x >= width then (0, Wrap(y + 1)) else (x, y)) == cell
      && DefaultCursor(m + 1, width, height) == (cell.0 + 1, cell.1)
      && PageCount(m, Capacity(width, height)) == m / Capacity(width, height) + 1
  {
    var c := Capacity(width, height);
    var (x, y) := DefaultCursor(m, width, height);
    NextCellCursor(m, width, height);
    CellAtInBox(m % c, width, height);
    assert 0 <= y < height <= 6 && Wrap(y + 1) == y + 1;
    CursorAfter(m, width, height);
  }

  /** Item m written to its cell of the last page, as the page sequence sees it. */
  lemma NextCellPages(items: seq<MenuItem>, m: int, width: int, height: int)
    requires 1 <= width && 1 <= height && 0 <= m < |items|
    requires PageCount(m, Capacity(width, height)) == m / Capacity(width, height) + 1
    ensures var pages := RowMajorPages(items, m, width, height);
      RowMajorPages(items, m + 1, width, height)
        == pages[..|pages| - 1] + [pages[|pages| - 1][CellAt(m % Capacity(width, height), width) := items[m]]]
  {
    NextPagesSame(items, m, width, height);
    assert |RowMajorPages(items, m, width, height)| - 1 == m / Capacity(width, height);
  }

  /** The loop ends: no items are left, or the page limit is reached with the last page full. */
  lemma StepDone(items: seq<MenuItem>, pagesLimit: int, width: int, height: int, m: int)
    requires 1 <= width <= COLUMNS && 1 <= height <= 6
    requires m == Placed(|items|, pagesLimit, width, height)
    ensures Remaining(items, pagesLimit, width, height, m) == Ok(RowMajorPages(items, m, width, height))
  {
    var pages := RowMajorPages(items, m, width, height);
    if m < |items| {
      var last := MaxPages(pagesLimit);
      assert DefaultCursor(m, width, height) == (width, height - 1) && |pages| == last by {
        assert m == last * Capacity(width, height);
        LimitReached(m, last, width, height);
        FullPageCursor(m, width, height);
      }
      assert Wrap(height - 1 + 1) == height;
      LayoutStops(items[m..], pagesLimit, width, height, pages, width, height - 1);
      assert Remaining(items, pagesLimit, width, height, m)
          == Layout(items[m..], pagesLimit, 0, 0, 1, 1, width, height, pages, width, height - 1);
    } else {
      assert items[m..] == [];
    }
  }

  /** The induction behind DefaultLayoutIsRowMajor: from any number m of items placed so far. */
  lemma {:induction false} DefaultLayoutFrom(items: seq<MenuItem>, pagesLimit: int, width: int, height: int, m: int)
    requires 1 <= width <= COLUMNS && 1 <= height <= 6
    requires 0 <= m <= Placed(|items|, pagesLimit, width, height)
    ensures Remaining(items, pagesLimit, width, height, m)
         == Ok(RowMajorPages(items, Placed(|items|, pagesLimit, width, height), width, height))
    decreases |items| - m
  {
    var c := Capacity(width, height);
    if m == Placed(|items|, pagesLimit, width, height) {
      StepDone(items, pagesLimit, width, height, m);
    } else {
      if m >= 1 && (m - 1) % c == c - 1 {
        StepNewPage(items, pagesLimit, width, height, m);
      } else {
        StepSamePage(items, pagesLimit, width, height, m);
      }
      DefaultLayoutFrom(items, pagesLimit, width, height, m + 1);
    }
  }
}
