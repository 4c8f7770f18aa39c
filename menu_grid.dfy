/**
 * Geometry of the 9-column menu grid, and the item layouts that containers
 * build, as values: what MenuContainer, PagedMenuContainer and EnhancedMenu
 * compute, without their objects.
 */
module MenuGrid {
  import opened Wrappers
  import opened JavaInt

  /** A menu item: `id` stands for its item stack and click action; `air` says whether the stack is air. */
  datatype MenuItem = MenuItem(id: nat, air: bool)

  /** The air item a new container is filled with. */
  const AIR_ITEM := MenuItem(0, true)

  /** Every chest inventory is 9 columns wide. */
  const COLUMNS: int := 9

  /** A location inside a container: (column, row), both counted from 0. */
  type Cell = (int, int)

  /** The items of one container, by location. */
  type Items = map<Cell, MenuItem>

  predicate InBox(k: Cell, width: int, height: int)
  {
    0 <= k.0 < width && 0 <= k.1 < height
  }

  // ---------------------------------------------------------------------
  // The constructor checks of a container that is part of a menu

  /** What the checks are meant to accept: a box inside the 9-column grid of a menu with `rows` rows. */
  predicate BoxFits(x: int, y: int, width: int, height: int, rows: int)
  {
    0 <= x && 0 <= y && 1 <= width && 0 <= height && x + width <= COLUMNS && y + height <= rows
  }

  /** The three checks as written, with `(x - 1) + width` and `(y - 1) + height` computed in 32-bit int. */
  predicate BoxAcceptedAsWritten(x: int, y: int, width: int, height: int, rows: int)
  {
    && !(Wrap((x - 1) + width) >= COLUMNS)
    && !(x < 0 || y < 0 || width < 1 || height < 0)
    && !(Wrap((y - 1) + height) >= rows)
  }

  /** The sum wraps to a negative int, so a box of width 2^31 - 1 at column 2 passes the width check. */
  lemma AsWrittenAcceptsOverflowingWidth()
    ensures BoxAcceptedAsWritten(2, 0, INT_MAX, 1, 1)
    ensures !BoxFits(2, 0, INT_MAX, 1, 1)
  {
    assert Wrap((2 - 1) + INT_MAX) == INT_MIN;
  }

  /** Without overflow the checks as written are exactly the intended ones. */
  lemma AsWrittenWithoutOverflow(x: int, y: int, width: int, height: int, rows: int)
    requires IsInt((x - 1) + width) && IsInt((y - 1) + height)
    ensures BoxAcceptedAsWritten(x, y, width, height, rows) <==> BoxFits(x, y, width, height, rows)
  {
  }

  // ---------------------------------------------------------------------
  // Slot and cell conversions

  /** getMenuLocFromContainerLoc for a container whose top-left corner is (x0, y0). */
  function MenuSlot(x0: int, y0: int, k: Cell): int
  {
    (y0 + k.1) * COLUMNS + (x0 + k.0)
  }

  /** getContainerLocFromMenuLoc: Math.floorMod and Math.floorDiv by 9, which are Dafny's % and / for a positive divisor. */
  function ContainerLoc(x0: int, y0: int, slot: int): Cell
  {
    (slot % COLUMNS - x0, slot / COLUMNS - y0)
  }

  /** Every slot is the menu slot of the location computed for it. */
  lemma SlotOfLoc(x0: int, y0: int, slot: int)
    ensures MenuSlot(x0, y0, ContainerLoc(x0, y0, slot)) == slot
  {
  }

  lemma DivModOf(q: int, r: int)
    requires 0 <= r < COLUMNS
    ensures (q * COLUMNS + r) / COLUMNS == q && (q * COLUMNS + r) % COLUMNS == r
  {
    var s := q * COLUMNS + r;
    var q' := s / COLUMNS;
    var r' := s % COLUMNS;
    assert s == q' * COLUMNS + r' && 0 <= r' < COLUMNS;
    assert (q - q') * COLUMNS == r' - r;
  }

  /** A location inside a box that lies within the 9 columns survives the trip to a slot and back. */
  lemma LocOfSlot(x0: int, y0: int, width: int, k: Cell)
    requires 0 <= x0 && x0 + width <= COLUMNS && 0 <= k.0 < width
    ensures ContainerLoc(x0, y0, MenuSlot(x0, y0, k)) == k
  {
    DivModOf(y0 + k.1, x0 + k.0);
  }

  /** The cells of an accepted box map to distinct slots of the menu, and back. */
  lemma FittingBoxSlots(x: int, y: int, width: int, height: int, rows: int, k: Cell)
    requires BoxFits(x, y, width, height, rows) && InBox(k, width, height)
    ensures 0 <= MenuSlot(x, y, k) < rows * COLUMNS
    ensures ContainerLoc(x, y, MenuSlot(x, y, k)) == k
  {
    LocOfSlot(x, y, width, k);
    assert y + k.1 <= rows - 1;
    assert (y + k.1) * COLUMNS <= (rows - 1) * COLUMNS;
  }

  // ---------------------------------------------------------------------
  // fill and fillEmptySlots

  /** The loops of fill run column by column: (a, b) is visited before (i, j). */
  predicate Before(k: Cell, i: int, j: int)
  {
    k.0 < i || (k.0 == i && k.1 < j)
  }

  /** The cells of the box visited before (i, j). */
  function Cells(width: int, height: int, i: int, j: int): set<Cell>
  {
    set a, b | 0 <= a < width && 0 <= b < height && Before((a, b), i, j) :: (a, b)
  }

  /** Whether a visit overwrites cell `k`: always for fill; for fillEmptySlots only when it is empty or air. */
  predicate Replaceable(m: Items, k: Cell, onlyEmpty: bool)
  {
    !onlyEmpty || k !in m || m[k].air
  }

  /** The items after the loops have visited every cell before (i, j), starting from `m`. */
  function Painted(m: Items, width: int, height: int, item: MenuItem, onlyEmpty: bool, i: int, j: int): Items
  {
    var visited := Cells(width, height, i, j);
    map k | k in m.Keys + visited :: if k in visited && Replaceable(m, k, onlyEmpty) then item else m[k]
  }

  /** The items after fill (`onlyEmpty` false) or fillEmptySlots (`onlyEmpty` true). */
  function Filled(m: Items, width: int, height: int, item: MenuItem, onlyEmpty: bool): Items
  {
    Painted(m, width, height, item, onlyEmpty, width, 0)
  }

  lemma PaintStart(m: Items, width: int, height: int, item: MenuItem, onlyEmpty: bool)
    ensures Painted(m, width, height, item, onlyEmpty, 0, 0) == m
  {
    assert Cells(width, height, 0, 0) == {};
  }

  /** Visiting (a, b): before the visit it holds what `m` held; the visit overwrites it when replaceable. */
  lemma PaintStep(m: Items, width: int, height: int, item: MenuItem, onlyEmpty: bool, a: int, b: int)
    requires 0 <= a < width && 0 <= b < height
    ensures var before := Painted(m, width, height, item, onlyEmpty, a, b);
      && ((a, b) in before <==> (a, b) in m)
      && ((a, b) in m ==> before[(a, b)] == m[(a, b)])
      && Painted(m, width, height, item, onlyEmpty, a, b + 1)
         == if Replaceable(m, (a, b), onlyEmpty) then before[(a, b) := item] else before
  {
    assert Cells(width, height, a, b + 1) == Cells(width, height, a, b) + {(a, b)};
  }

  lemma PaintColumnDone(m: Items, width: int, height: int, item: MenuItem, onlyEmpty: bool, a: int, b: int)
    requires b >= height
    ensures Painted(m, width, height, item, onlyEmpty, a, b) == Painted(m, width, height, item, onlyEmpty, a + 1, 0)
  {
    assert Cells(width, height, a, b) == Cells(width, height, a + 1, 0);
  }

  lemma PaintDone(m: Items, width: int, height: int, item: MenuItem, onlyEmpty: bool, a: int)
    requires a >= width
    ensures Painted(m, width, height, item, onlyEmpty, a, 0) == Filled(m, width, height, item, onlyEmpty)
  {
    assert Cells(width, height, a, 0) == Cells(width, height, width, 0);
  }

  /** fill: every cell of the box holds the item; keys outside the box are kept as they were. */
  lemma FillCovers(m: Items, width: int, height: int, item: MenuItem)
    ensures var r := Filled(m, width, height, item, false);
      && (forall k :: InBox(k, width, height) ==> k in r && r[k] == item)
      && (forall k :: !InBox(k, width, height) ==> (k in r <==> k in m) && (k in m ==> r[k] == m[k]))
  {
    var r := Filled(m, width, height, item, false);
    forall k | InBox(k, width, height) ensures k in r && r[k] == item {
      assert k in Cells(width, height, width, 0);
    }
  }

  /**
   * fillEmptySlots: a cell holding a non-air item keeps it; an empty or air
   * cell of the box gets the item; keys outside the box are kept.
   */
  lemma FillEmptyKeeps(m: Items, width: int, height: int, item: MenuItem)
    ensures var r := Filled(m, width, height, item, true);
      && (forall k :: k in m && !m[k].air ==> k in r && r[k] == m[k])
      && (forall k :: InBox(k, width, height) && (k !in m || m[k].air) ==> k in r && r[k] == item)
      && (forall k :: !InBox(k, width, height) ==> (k in r <==> k in m) && (k in m ==> r[k] == m[k]))
  {
    var r := Filled(m, width, height, item, true);
    forall k | InBox(k, width, height) && (k !in m || m[k].air) ensures k in r && r[k] == item {
      assert k in Cells(width, height, width, 0);
    }
  }

  /** A fresh page: the page constructor fills every cell of the box with air. */
  function AirPage(width: int, height: int): Items
  {
    Filled(map[], width, height, AIR_ITEM, false)
  }

  // ---------------------------------------------------------------------
  // fillWithItems

  /** setItem on the last page, or the IllegalArgumentException it throws outside the box. */
  function PutLast(pages: seq<Items>, k: Cell, item: MenuItem, width: int, height: int): (r: Result<seq<Items>>)
    requires |pages| >= 1
    ensures r.Err? <==> !InBox(k, width, height)
    ensures r.Err? ==> r.error == IllegalArgument
    ensures r.Ok? ==> (|r.value| == |pages| && r.value[..|pages| - 1] == pages[..|pages| - 1]
                       && r.value[|pages| - 1] == pages[|pages| - 1][k := item])
  {
    if !InBox(k, width, height) then Err(IllegalArgument)
    else Ok(pages[..|pages| - 1] + [pages[|pages| - 1][k := item]])
  }

  /**
   * The page contents the loop of fillWithItems builds from cursor (x, y)
   * on, having built `pages` so far. A full last page under the limit opens
   * a new page; a full page at the limit ends the loop, dropping the rest.
   */
  function Layout(items: seq<MenuItem>, pagesLimit: int, startX: int, startY: int, offsetX: int, offsetY: int,
                  width: int, height: int, pages: seq<Items>, x: int, y: int): Result<seq<Items>>
    requires |pages| >= 1
    decreases |items|
  {
    if items == [] then Ok(pages)
    else
      var x1 := if x >= width then startX else x;
      var y1 := if x >= width then Wrap(y + offsetY) else y;
      if y1 >= height && pagesLimit <= |pages| then Ok(pages)
      else
        var ps := if y1 >= height then pages + [AirPage(width, height)] else pages;
        var x2 := if y1 >= height then startX else x1;
        var y2 := if y1 >= height then startY else y1;
        match PutLast(ps, (x2, y2), items[0], width, height)
        case Err(e) => Err(e)
        case Ok(ps') => Layout(items[1..], pagesLimit, startX, startY, offsetX, offsetY, width, height,
                               ps', Wrap(x2 + offsetX), y2)
  }

  /** The page contents of fillWithItems(items, pagesLimit, startX, startY, offsetX, offsetY). */
  function FillLayout(items: seq<MenuItem>, pagesLimit: int, startX: int, startY: int, offsetX: int, offsetY: int,
                      width: int, height: int): Result<seq<Items>>
  {
    Layout(items, pagesLimit, startX, startY, offsetX, offsetY, width, height, [AirPage(width, height)], startX, startY)
  }

  // ---------------------------------------------------------------------
  // fillPatternWithItems

  /**
   * One pass of the do-while body of fillPatternWithItems from cursor (x, y)
   * with `count` pages: the cell it settles on and the page count then, or the
   * index exception that reading `pattern` throws. Running off the last
   * usable row opens a new page while under the limit; at the limit the loop
   * breaks at (0, 0) whatever the pattern holds there.
   */
  function Advance(pattern: seq<string>, width: int, height: int, pagesLimit: int, count: int, x: int, y: int)
    : (r: Result<(Cell, int)>)
    requires 0 <= y
    ensures r.Ok? ==> count <= r.value.1 && (r.value.1 == count || r.value.1 <= pagesLimit)
    ensures r.Ok? ==> var (k, _) := r.value;
      k == (0, 0)
      || (0 <= k.1 < height && k.1 < |pattern| && 0 <= k.0 < |pattern[k.1]| && pattern[k.1][k.0] != ' '
          && (k.0 < width || k.0 == 0))
    decreases pagesLimit - count, height - y, width - x, 0
  {
    var x1 := x + 1;
    if x1 < width && y >= |pattern| then Err(IndexOutOfBounds)
    else
      var wrapRow := x1 >= width || x1 >= |pattern[y]|;
      var x2 := if wrapRow then 0 else x1;
      var y2 := if wrapRow then y + 1 else y;
      if y2 >= height || y2 >= |pattern| then
        if pagesLimit > count then Probe(pattern, width, height, pagesLimit, count + 1, 0, 0)
        else Ok(((0, 0), count))
      else Probe(pattern, width, height, pagesLimit, count, x2, y2)
  }

  /** The do-while condition: a space continues the scan; reading outside the pattern throws. */
  function Probe(pattern: seq<string>, width: int, height: int, pagesLimit: int, count: int, x: int, y: int)
    : (r: Result<(Cell, int)>)
    requires 0 <= y
    requires (x, y) == (0, 0) || (y < height && (x < width || x == 0))
    ensures r.Ok? ==> count <= r.value.1 && (r.value.1 == count || r.value.1 <= pagesLimit)
    ensures r.Ok? ==> var (k, _) := r.value;
      k == (0, 0)
      || (0 <= k.1 < height && k.1 < |pattern| && 0 <= k.0 < |pattern[k.1]| && pattern[k.1][k.0] != ' '
          && (k.0 < width || k.0 == 0))
    decreases pagesLimit - count, height - y, width - x, 1
  {
    if y >= |pattern| || !(0 <= x < |pattern[y]|) then Err(IndexOutOfBounds)
    else if pattern[y][x] == ' ' then Advance(pattern, width, height, pagesLimit, count, x, y)
    else Ok(((x, y), count))
  }

  /** The page contents the item loop of fillPatternWithItems builds from cursor (x, y), having built `pages`. */
  function PatternLayout(items: seq<MenuItem>, pattern: seq<string>, pagesLimit: int, width: int, height: int,
                         pages: seq<Items>, x: int, y: int): Result<seq<Items>>
    requires |pages| >= 1 && 0 <= y
    decreases |items|
  {
    if items == [] then Ok(pages)
    else
      match Advance(pattern, width, height, pagesLimit, |pages|, x, y)
      case Err(e) => Err(e)
      case Ok(((x1, y1), count)) =>
        var ps := pages + seq(count - |pages|, _ => AirPage(width, height));
        match PutLast(ps, (x1, y1), items[0], width, height)
        case Err(e) => Err(e)
        case Ok(ps') => PatternLayout(items[1..], pattern, pagesLimit, width, height, ps', x1, y1)
  }

  /** The page contents of fillPatternWithItems(items, pagesLimit, pattern). */
  function FillPatternLayout(items: seq<MenuItem>, pattern: seq<string>, pagesLimit: int, width: int, height: int)
    : Result<seq<Items>>
  {
    PatternLayout(items, pattern, pagesLimit, width, height, [AirPage(width, height)], -1, 0)
  }

  /**
   * At the page limit the pattern fill does not stop: the scan breaks at
   * (0, 0) and the next item overwrites that cell of the last page. On a
   * one-cell box with a one-page limit, the second item replaces the first.
   */
  lemma PatternLimitOverwrites(a: MenuItem, b: MenuItem)
    ensures FillPatternLayout([a, b], ["#"], 1, 1, 1) == Ok([AirPage(1, 1)[(0, 0) := b]])
    ensures FillLayout([a, b], 1, 0, 0, 1, 1, 1, 1) == Ok([AirPage(1, 1)[(0, 0) := a]])
  {
    var air := AirPage(1, 1);
    assert ["#"][0][0] == '#';
    assert Advance(["#"], 1, 1, 1, 1, -1, 0) == Ok(((0, 0), 1));
    assert Advance(["#"], 1, 1, 1, 1, 0, 0) == Ok(((0, 0), 1));
    assert [air] + seq(0, _ => air) == [air];
    assert [air[(0, 0) := a]] + seq(0, _ => air) == [air[(0, 0) := a]];
    assert PutLast([air], (0, 0), a, 1, 1) == Ok([air[(0, 0) := a]]);
    assert PutLast([air[(0, 0) := a]], (0, 0), b, 1, 1) == Ok([air[(0, 0) := a][(0, 0) := b]]);
    assert air[(0, 0) := a][(0, 0) := b] == air[(0, 0) := b];
    assert [a, b][1..] == [b] && [b][1..] == [];
    var one := [air[(0, 0) := a]];
    assert PatternLayout([b], ["#"], 1, 1, 1, one, 0, 0) == PatternLayout([], ["#"], 1, 1, 1, [air[(0, 0) := b]], 0, 0);
    assert PatternLayout([a, b], ["#"], 1, 1, 1, [air], -1, 0) == PatternLayout([b], ["#"], 1, 1, 1, one, 0, 0);
    assert Wrap(0 + 1) == 1;
    assert Layout([b], 1, 0, 0, 1, 1, 1, 1, one, 1, 0) == Ok(one);
    assert Layout([a, b], 1, 0, 0, 1, 1, 1, 1, [air], 0, 0) == Layout([b], 1, 0, 0, 1, 1, 1, 1, one, 1, 0);
  }
}
