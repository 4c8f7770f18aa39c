/**
 * MenuContainer, PagedMenuContainer and EnhancedMenu: the boxes of items a
 * chest menu is made of, and the inventory slots they are drawn into.
 *
 * PagedMenuContainer extends MenuContainer in the library; here it holds the
 * MenuContainer it is (`base`: the box, and the items of the page on show) and
 * adds the page list and the page index.
 */
module Menus {
  import opened Wrappers
  import opened MenuGrid
  import opened JavaInt
  import Collections

  class MenuContainer {
    /** The menu this box is part of; null for a page of a paged container. */
    const menu: EnhancedMenu?
    /** The paged container this is a page of; null for a part of a menu. */
    const owner: PagedMenuContainer?
    const x: int
    const y: int
    const width: int
    const height: int
    var items: Items

    /**
     * The keys of `items` stay inside the box, and a part of a menu fits the
     * menu's grid (the constructor checks it; `setItem` checks the keys).
     */
    ghost predicate Valid()
      reads this
    {
      && (forall k | k in items :: InBox(k, width, height))
      && (menu != null ==> BoxFits(x, y, width, height, menu.rows))
    }

    /** The constructor for a part of a menu, once its checks have passed (see NewMenuContainer). */
    constructor InMenu(menu: EnhancedMenu, x: int, y: int, width: int, height: int)
      requires BoxFits(x, y, width, height, menu.rows)
      ensures this.menu == menu && owner == null
      ensures this.x == x && this.y == y && this.width == width && this.height == height
      ensures items == AirPage(width, height)
      ensures Valid()
    {
      this.menu := menu;
      owner := null;
      this.x := x;
      this.y := y;
      this.width := width;
      this.height := height;
      items := map[];
      new;
      Fill(AIR_ITEM);
    }

    /** The constructor for a page of a paged container: its box, filled with air. */
    constructor PageOf(owner: PagedMenuContainer)
      ensures menu == null && this.owner == owner
      ensures x == owner.base.x && y == owner.base.y && width == owner.base.width && height == owner.base.height
      ensures items == AirPage(width, height)
      ensures Valid()
    {
      menu := null;
      this.owner := owner;
      x := owner.base.x;
      y := owner.base.y;
      width := owner.base.width;
      height := owner.base.height;
      items := map[];
      new;
      Fill(AIR_ITEM);
    }

    /** setItem: IllegalArgumentException outside the box; otherwise only that cell changes. */
    method SetItem(col: int, row: int, item: MenuItem) returns (status: Status)
      requires Valid()
      modifies this
      ensures Valid()
      ensures InBox((col, row), width, height) ==> status == Completed && items == old(items)[(col, row) := item]
      ensures !InBox((col, row), width, height) ==> status == Raised(IllegalArgument) && items == old(items)
    {
      if col < 0 || col >= width {
        return Raised(IllegalArgument);
      }
      if row < 0 || row >= height {
        return Raised(IllegalArgument);
      }
      items := items[(col, row) := item];
      status := Completed;
    }

    /** removeItem: no bounds check; deletes that key alone. */
    method RemoveItem(col: int, row: int)
      requires Valid()
      modifies this
      ensures Valid()
      ensures items == old(items) - {(col, row)}
    {
      items := items - {(col, row)};
    }

    /** getItem: the item at a location, or None (null). */
    function GetItem(k: Cell): (r: Option<MenuItem>)
      reads this
      ensures r.Some? <==> k in items
      ensures r.Some? ==> r.value == items[k]
    {
      if k in items then Some(items[k]) else None
    }

    /** fill: the loops over columns and rows set every cell of the box. */
    method Fill(item: MenuItem)
      requires Valid()
      modifies this
      ensures Valid()
      ensures items == Filled(old(items), width, height, item, false)
    {
      FillCells(item, false);
    }

    /** fillEmptySlots: the same loops, skipping cells that hold a non-air item. */
    method FillEmptySlots(item: MenuItem)
      requires Valid()
      modifies this
      ensures Valid()
      ensures items == Filled(old(items), width, height, item, true)
    {
      FillCells(item, true);
    }

    /** The loops of fill (`onlyEmpty` false) and of fillEmptySlots (`onlyEmpty` true). */
    method FillCells(item: MenuItem, onlyEmpty: bool)
      requires Valid()
      modifies this
      ensures Valid()
      ensures items == Filled(old(items), width, height, item, onlyEmpty)
    {
      ghost var m := items;
      PaintStart(m, width, height, item, onlyEmpty);
      var a := 0;
      while a < width
        invariant 0 <= a && (a <= width || a == 0)
        invariant Valid()
        invariant items == Painted(m, width, height, item, onlyEmpty, a, 0)
      {
        FillColumn(m, item, onlyEmpty, a);
        a := a + 1;
      }
      PaintDone(m, width, height, item, onlyEmpty, a);
    }

    /** The inner loop of fill and fillEmptySlots: every row of column `a`, from the state the columns before it left. */
    method FillColumn(ghost m: Items, item: MenuItem, onlyEmpty: bool, a: int)
      requires Valid() && 0 <= a < width
      requires items == Painted(m, width, height, item, onlyEmpty, a, 0)
      modifies this
      ensures Valid()
      ensures items == Painted(m, width, height, item, onlyEmpty, a + 1, 0)
    {
      var b := 0;
      while b < height
        invariant 0 <= b && (b <= height || b == 0)
        invariant Valid()
        invariant items == Painted(m, width, height, item, onlyEmpty, a, b)
      {
        PaintStep(m, width, height, item, onlyEmpty, a, b);
        assert Replaceable(items, (a, b), onlyEmpty) == Replaceable(m, (a, b), onlyEmpty);
        FillCell(item, onlyEmpty, a, b);
        b := b + 1;
      }
      PaintColumnDone(m, width, height, item, onlyEmpty, a, b);
    }

    /** The body of the fill loops for one cell: the item is set unless only empty cells are wanted and the cell holds a non-air item. */
    method FillCell(item: MenuItem, onlyEmpty: bool, a: int, b: int)
      requires Valid() && 0 <= a < width && 0 <= b < height
      modifies this
      ensures Valid()
      ensures items == if Replaceable(old(items), (a, b), onlyEmpty) then old(items)[(a, b) := item] else old(items)
    {
      var current := GetItem((a, b));
      if !onlyEmpty || current.None? || current.value.air {
        var _ := SetItem(a, b, item);
      }
    }

    /** getMenuLocFromContainerLoc. */
    function MenuLoc(k: Cell): int
    {
      MenuSlot(x, y, k)
    }

    /** getContainerLocFromMenuLoc. */
    function ContainerLocOf(slot: int): Cell
    {
      ContainerLoc(x, y, slot)
    }
  }

  /** new MenuContainer(menu, x, y, width, height): IllegalArgumentException unless the box fits the menu. */
  method NewMenuContainer(menu: EnhancedMenu, x: int, y: int, width: int, height: int) returns (r: Result<MenuContainer>)
    ensures r.Err? <==> !BoxFits(x, y, width, height, menu.rows)
    ensures r.Err? ==> r.error == IllegalArgument
    ensures r.Ok? ==> (fresh(r.value) && r.value.Valid() && r.value.menu == menu && r.value.owner == null
      && r.value.x == x && r.value.y == y && r.value.width == width && r.value.height == height
      && r.value.items == AirPage(width, height))
  {
    if !BoxFits(x, y, width, height, menu.rows) {
      return Err(IllegalArgument);
    }
    var c := new MenuContainer.InMenu(menu, x, y, width, height);
    r := Ok(c);
  }

  /** A prefix of a prefix is a prefix. */
  lemma PrefixOfPrefix<T>(a: seq<T>, b: seq<T>, c: seq<T>)
    requires |a| <= |b| <= |c| && b[..|a|] == a && c[..|b|] == b
    ensures c[..|a|] == a
  {
    assert c[..|a|] == c[..|b|][..|a|];
  }

  /** One more copy of `page` after `n` copies of it. */
  lemma AppendPage(contents: seq<Items>, before: seq<Items>, n: nat, page: Items)
    requires before == contents + seq(n, _ => page)
    ensures before + [page] == contents + seq(n + 1, _ => page)
  {
    assert seq(n + 1, _ => page) == seq(n, _ => page) + [page];
  }

  /** The inventory after drawing container `c`: each slot whose location `c` holds shows that item. */
  function Draw(inv: seq<Option<MenuItem>>, c: MenuContainer): (r: seq<Option<MenuItem>>)
    reads c
    ensures |r| == |inv|
  {
    var m := c.items;
    seq(|inv|, s requires 0 <= s < |inv| =>
      var k := ContainerLoc(c.x, c.y, s); if k in m then Some(m[k]) else inv[s])
  }

  /** The inventory after EnhancedMenu.update draws `cs`, first to last. */
  function Render(inv: seq<Option<MenuItem>>, cs: seq<MenuContainer>): (r: seq<Option<MenuItem>>)
    reads set c | c in cs
    ensures |r| == |inv|
    decreases |cs|
  {
    if cs == [] then inv else Draw(Render(inv, cs[..|cs| - 1]), cs[|cs| - 1])
  }

  /** The rectangle test of getContainerAt, on the column and row of a slot. */
  predicate Covers(c: MenuContainer, col: int, row: int)
  {
    col >= c.x && col <= (c.x - 1) + c.width && row >= c.y && row <= (c.y - 1) + c.height
  }

  /** The index of the first container covering (col, row), or |cs| when none does. */
  function FirstCover(cs: seq<MenuContainer>, col: int, row: int): (k: nat)
    ensures k <= |cs|
    ensures forall i :: 0 <= i < k ==> !Covers(cs[i], col, row)
    ensures k < |cs| ==> Covers(cs[k], col, row)
  {
    if cs == [] then 0 else if Covers(cs[0], col, row) then 0 else 1 + FirstCover(cs[1..], col, row)
  }

  lemma FirstCoverAt(cs: seq<MenuContainer>, col: int, row: int, i: nat)
    requires i <= |cs|
    requires forall j :: 0 <= j < i ==> !Covers(cs[j], col, row)
    requires i < |cs| ==> Covers(cs[i], col, row)
    ensures FirstCover(cs, col, row) == i
  {
  }

  /** Whether container `c` holds an item at the location of menu slot s. */
  predicate Holds(c: MenuContainer, s: int)
    reads c
  {
    ContainerLoc(c.x, c.y, s) in c.items
  }

  /** The index of the last container holding slot s, or -1 when none does. */
  function LastHolder(cs: seq<MenuContainer>, s: int): (j: int)
    reads set c | c in cs
    ensures -1 <= j < |cs|
    ensures j >= 0 ==> Holds(cs[j], s)
    ensures forall i :: j < i < |cs| ==> !Holds(cs[i], s)
    decreases |cs|
  {
    if cs == [] then -1
    else if Holds(cs[|cs| - 1], s) then |cs| - 1
    else LastHolder(cs[..|cs| - 1], s)
  }

  /**
   * Containers drawn later paint over earlier ones: a slot shows the item
   * of the last container holding it, and keeps its old content when none does.
   */
  lemma {:induction false} RenderLastWins(inv: seq<Option<MenuItem>>, cs: seq<MenuContainer>, s: int)
    requires 0 <= s < |inv|
    ensures var j := LastHolder(cs, s);
      Render(inv, cs)[s] == if j < 0 then inv[s] else Some(cs[j].items[ContainerLoc(cs[j].x, cs[j].y, s)])
    decreases |cs|
  {
    if cs != [] {
      var init := cs[..|cs| - 1];
      RenderLastWins(inv, init, s);
      if !Holds(cs[|cs| - 1], s) {
        assert LastHolder(cs, s) == LastHolder(init, s);
        forall j | 0 <= j < |init| ensures init[j] == cs[j] { }
      }
    }
  }

  class EnhancedMenu {
    const rows: int
    /** The slots of the menu's inventory, row by row. */
    const slots: array<Option<MenuItem>>
    var containers: seq<MenuContainer>

    ghost predicate Valid()
      reads this, set c | c in containers
    {
      && 1 <= rows <= 6 && slots.Length == rows * COLUMNS
      && forall c | c in containers :: c.menu == this && c.Valid()
    }

    /** The constructor, once its rows check has passed (see NewMenu): an empty inventory of rows * 9 slots. */
    constructor(rows: int)
      requires 1 <= rows <= 6
      ensures this.rows == rows && containers == [] && fresh(slots)
      ensures slots.Length == rows * COLUMNS && forall s :: 0 <= s < slots.Length ==> slots[s] == None
      ensures Valid()
    {
      this.rows := rows;
      slots := new Option<MenuItem>[rows * COLUMNS](_ => None);
      containers := [];
    }

    /** addContainer: IllegalArgumentException for a container of another menu; otherwise append and update. */
    method AddContainer(c: MenuContainer) returns (status: Status)
      requires Valid() && c.Valid()
      modifies this, slots
      ensures Valid()
      ensures c.menu != this ==> (status == Raised(IllegalArgument) && containers == old(containers)
        && slots[..] == old(slots[..]))
      ensures c.menu == this ==> (status == Completed && containers == old(containers) + [c]
        && slots[..] == Render(old(slots[..]), containers))
    {
      if c.menu != this {
        return Raised(IllegalArgument);
      }
      containers := containers + [c];
      Update();
      status := Completed;
    }

    /** removeContainer: drops the first occurrence, then update. */
    method RemoveContainer(c: MenuContainer)
      requires Valid()
      modifies this, slots
      ensures Valid()
      ensures containers == Collections.RemoveFirst(old(containers), c)
      ensures slots[..] == Render(old(slots[..]), containers)
    {
      containers := Collections.RemoveFirst(containers, c);
      Update();
    }

    /** resetContainers: no containers are left, and update draws nothing. */
    method ResetContainers()
      requires Valid()
      modifies this, slots
      ensures Valid()
      ensures containers == [] && slots[..] == old(slots[..])
    {
      containers := [];
      Update();
    }

    /** update: each container in turn writes each of its items to that item's slot. */
    method Update()
      requires Valid()
      modifies slots
      ensures slots[..] == Render(old(slots[..]), containers)
    {
      var i := 0;
      while i < |containers|
        invariant 0 <= i <= |containers|
        invariant slots[..] == Render(old(slots[..]), containers[..i])
      {
        var c := containers[i];
        assert c.menu == this && c.Valid();
        DrawContainer(c);
        assert containers[..i + 1][..i] == containers[..i];
        i := i + 1;
      }
      assert containers[..i] == containers;
    }

    /** The inner loop of update: every item of `c` is written to its slot. */
    method DrawContainer(c: MenuContainer)
      requires c.menu == this && c.Valid() && 1 <= rows && slots.Length == rows * COLUMNS
      modifies slots
      ensures slots[..] == Draw(old(slots[..]), c)
    {
      ghost var before := slots[..];
      var todo := c.items.Keys;
      ghost var done: set<Cell> := {};
      while todo != {}
        invariant todo + done == c.items.Keys && todo !! done
        invariant forall s :: 0 <= s < slots.Length ==>
          slots[s] == (if ContainerLoc(c.x, c.y, s) in done then Some(c.items[ContainerLoc(c.x, c.y, s)]) else before[s])
        decreases |todo|
      {
        var k :| k in todo;
        FittingBoxSlots(c.x, c.y, c.width, c.height, rows, k);
        ghost var prev := slots[..];
        var slot := c.MenuLoc(k);
        slots[slot] := Some(c.items[k]);
        forall s | 0 <= s < slots.Length
          ensures slots[s] == (if ContainerLoc(c.x, c.y, s) in done + {k} then Some(c.items[ContainerLoc(c.x, c.y, s)]) else before[s])
        {
          if s != slot {
            SlotOfLoc(c.x, c.y, s);
            assert slots[s] == prev[s] && ContainerLoc(c.x, c.y, s) != k;
          }
        }
        todo := todo - {k};
        done := done + {k};
      }
      assert slots[..] == Draw(before, c);
    }

    /** getContainerAt: the first container whose rectangle holds the slot's column and row, or None (null). */
    method GetContainerAt(slot: int) returns (r: Option<MenuContainer>)
      ensures var k := FirstCover(containers, slot % COLUMNS, slot / COLUMNS);
        (r.None? <==> k == |containers|) && (r.Some? ==> r.value == containers[k])
    {
      var row := slot / COLUMNS;
      var col := slot % COLUMNS;
      var i := 0;
      while i < |containers|
        invariant 0 <= i <= |containers|
        invariant forall j :: 0 <= j < i ==> !Covers(containers[j], col, row)
      {
        var c := containers[i];
        if col >= c.x && col <= (c.x - 1) + c.width {
          if row >= c.y && row <= (c.y - 1) + c.height {
            FirstCoverAt(containers, col, row, i);
            return Some(c);
          }
        }
        i := i + 1;
      }
      FirstCoverAt(containers, col, row, i);
      r := None;
    }

    /** The item onClick hands the click to: the item at the slot's location in getContainerAt(slot), if any. */
    method ClickedItem(slot: int) returns (r: Option<MenuItem>)
      ensures var k := FirstCover(containers, slot % COLUMNS, slot / COLUMNS);
        r == if k < |containers| && ContainerLoc(containers[k].x, containers[k].y, slot) in containers[k].items
             then Some(containers[k].items[ContainerLoc(containers[k].x, containers[k].y, slot)])
             else None
    {
      var container := GetContainerAt(slot);
      if container.None? {
        return None;
      }
      var c := container.value;
      r := c.GetItem(c.ContainerLocOf(slot));
    }
  }

  /** new EnhancedMenu(title, rows, plugin): IllegalArgumentException unless 1 <= rows <= 6. */
  method NewMenu(rows: int) returns (r: Result<EnhancedMenu>)
    ensures r.Err? <==> !(1 <= rows <= 6)
    ensures r.Err? ==> r.error == IllegalArgument
    ensures r.Ok? ==> (fresh(r.value) && fresh(r.value.slots) && r.value.Valid() && r.value.rows == rows
      && r.value.containers == [] && forall s :: 0 <= s < r.value.slots.Length ==> r.value.slots[s] == None)
  {
    if rows > 6 || rows < 1 {
      return Err(IllegalArgument);
    }
    var m := new EnhancedMenu(rows);
    r := Ok(m);
  }

  /** PagedMenuContainer.UNLIMITED_PAGES. */
  const UNLIMITED_PAGES: int := INT_MAX

  class PagedMenuContainer {
    /** The container this is: its box in the menu, and the items of the page on show. */
    const base: MenuContainer
    const menu: EnhancedMenu
    var pages: seq<MenuContainer>
    var page: int

    /** A page of this container: made by PageOf(this), so it has this box and valid keys. */
    ghost predicate IsPage(p: MenuContainer)
      reads p
    {
      p.owner == this && p.menu == null && p.Valid()
      && p.x == base.x && p.y == base.y && p.width == base.width && p.height == base.height
    }

    ghost predicate Valid()
      reads this, base, set p | p in pages
    {
      && base.menu == menu && base.owner == null && base.Valid()
      && forall p | p in pages :: IsPage(p)
    }

    /** The constructor, once the checks of the MenuContainer constructor have passed (see NewPaged). */
    constructor(menu: EnhancedMenu, x: int, y: int, width: int, height: int)
      requires BoxFits(x, y, width, height, menu.rows)
      ensures this.menu == menu && fresh(base)
      ensures base.x == x && base.y == y && base.width == width && base.height == height
      ensures base.items == AirPage(width, height)
      ensures pages == [] && page == 0
      ensures Valid()
    {
      this.menu := menu;
      base := new MenuContainer.InMenu(menu, x, y, width, height);
      pages := [];
      page := 0;
    }

    /** update: clear the items, copy the current page's items, then update the menu. */
    method Update() returns (status: Status)
      requires Valid() && menu.Valid()
      modifies base, menu.slots
      ensures Valid() && menu.Valid()
      ensures 0 <= page < |pages| ==> (status == Completed && base.items == pages[page].items
        && menu.slots[..] == Render(old(menu.slots[..]), menu.containers))
      ensures !(0 <= page < |pages|) ==> (status == Raised(IndexOutOfBounds) && base.items == map[]
        && menu.slots[..] == old(menu.slots[..]))
    {
      assert forall q | q in pages :: IsPage(q) && q != base;
      base.items := map[];
      if page < 0 || page >= |pages| {
        return Raised(IndexOutOfBounds);
      }
      var p := pages[page];
      assert p in pages;
      assert IsPage(p) && p != base;
      base.items := p.items;
      assert base.Valid();
      assert menu.Valid() by {
        forall c | c in menu.containers
          ensures c.menu == menu && c.Valid()
        {
          if c != base {
            assert old(c.Valid()) && c.items == old(c.items);
          }
        }
      }
      menu.Update();
      status := Completed;
    }

    /** addPage: IllegalStateException for a page of another container; the first page is shown at once. */
    method AddPage(c: MenuContainer) returns (status: Status)
      requires Valid() && menu.Valid() && (c.owner == this ==> IsPage(c))
      modifies this, base, menu.slots
      ensures Valid() && menu.Valid() && page == old(page)
      ensures c.owner != this ==> (status == Raised(IllegalState) && pages == old(pages)
        && unchanged(base) && menu.slots[..] == old(menu.slots[..]))
      ensures c.owner == this ==> pages == old(pages) + [c]
      ensures c.owner == this && |old(pages)| == 0 ==> (
        if page == 0 then status == Completed && base.items == c.items
          && menu.slots[..] == Render(old(menu.slots[..]), menu.containers)
        else status == Raised(IndexOutOfBounds) && base.items == map[] && menu.slots[..] == old(menu.slots[..]))
      ensures c.owner == this && |old(pages)| != 0 ==> (status == Completed
        && unchanged(base) && menu.slots[..] == old(menu.slots[..]))
    {
      if c.owner != this {
        return Raised(IllegalState);
      }
      pages := pages + [c];
      status := Completed;
      if |pages| == 1 {
        status := Update();
      }
    }

    /** removePage: drops the first occurrence; an index past the end moves to the last page, or 0. */
    method RemovePage(c: MenuContainer)
      requires Valid()
      modifies this
      ensures Valid()
      ensures pages == Collections.RemoveFirst(old(pages), c)
      ensures page == if old(page) >= |pages| then (if |pages| - 1 < 0 then 0 else |pages| - 1) else old(page)
    {
      pages := Collections.RemoveFirst(pages, c);
      if page >= |pages| {
        page := |pages| - 1;
        if page < 0 {
          page := 0;
        }
      }
    }

    /** clearPages. */
    method ClearPages()
      requires Valid()
      modifies this
      ensures Valid()
      ensures pages == [] && page == 0
    {
      pages := [];
      page := 0;
    }

    /** setPage: no bounds check; update then throws for an index outside the pages. */
    method SetPage(p: int) returns (status: Status)
      requires Valid() && menu.Valid()
      modifies this, base, menu.slots
      ensures Valid() && menu.Valid()
      ensures page == p && pages == old(pages)
      ensures 0 <= p < |pages| ==> (status == Completed && base.items == pages[p].items
        && menu.slots[..] == Render(old(menu.slots[..]), menu.containers))
      ensures !(0 <= p < |pages|) ==> (status == Raised(IndexOutOfBounds) && base.items == map[]
        && menu.slots[..] == old(menu.slots[..]))
    {
      page := p;
      status := Update();
    }

    /** previousPage: one page back, only from a page after the first. */
    method PreviousPage() returns (status: Status)
      requires Valid() && menu.Valid()
      modifies this, base, menu.slots
      ensures Valid() && menu.Valid() && pages == old(pages)
      ensures old(page) > 0 ==> page == old(page) - 1
      ensures old(page) <= 0 ==> (page == old(page) && status == Completed && base.items == old(base.items)
        && menu.slots[..] == old(menu.slots[..]))
      ensures 0 < old(page) <= |pages| ==> (status == Completed && base.items == pages[page].items
        && menu.slots[..] == Render(old(menu.slots[..]), menu.containers))
      ensures old(page) > |pages| ==> (status == Raised(IndexOutOfBounds) && base.items == map[]
        && menu.slots[..] == old(menu.slots[..]))
    {
      status := Completed;
      if page > 0 {
        status := SetPage(page - 1);
      }
    }

    /** nextPage: one page on, only from a page before the last. */
    method NextPage() returns (status: Status)
      requires Valid() && menu.Valid()
      modifies this, base, menu.slots
      ensures Valid() && menu.Valid() && pages == old(pages)
      ensures |pages| - 1 > old(page) ==> page == old(page) + 1
      ensures |pages| - 1 <= old(page) ==> (page == old(page) && status == Completed && base.items == old(base.items)
        && menu.slots[..] == old(menu.slots[..]))
      ensures -1 <= old(page) < |pages| - 1 ==> (status == Completed && base.items == pages[page].items
        && menu.slots[..] == Render(old(menu.slots[..]), menu.containers))
      ensures old(page) < -1 ==> (status == Raised(IndexOutOfBounds) && base.items == map[]
        && menu.slots[..] == old(menu.slots[..]))
    {
      status := Completed;
      if |pages| - 1 > page {
        status := SetPage(page + 1);
      }
    }

    /** The pages `ps` hold the given contents, in order: fresh pages of this container, no two the same. */
    ghost predicate HoldsPages(ps: seq<MenuContainer>, contents: seq<Items>)
      reads set p | p in ps
    {
      && |ps| == |contents|
      && (forall j :: 0 <= j < |ps| ==> IsPage(ps[j]) && ps[j].items == contents[j])
      && forall j, t :: 0 <= j < t < |ps| ==> ps[j] != ps[t]
    }

    /**
     * fillWithItems: clear the pages, lay the items out on new pages, then add
     * those pages (the first one is shown). An item placed outside the box
     * ends it with the exception of setItem, leaving no pages.
     */
    method FillWithItems(items: seq<MenuItem>, pagesLimit: int, startX: int, startY: int, offsetX: int, offsetY: int)
      returns (status: Status)
      requires Valid() && menu.Valid()
      modifies this, base, menu.slots
      ensures Valid() && menu.Valid() && page == 0
      ensures var r := FillLayout(items, pagesLimit, startX, startY, offsetX, offsetY, base.width, base.height);
        r.Err? ==> (status == Raised(r.error) && pages == [] && base.items == old(base.items)
          && menu.slots[..] == old(menu.slots[..]))
      ensures var r := FillLayout(items, pagesLimit, startX, startY, offsetX, offsetY, base.width, base.height);
        r.Ok? ==> (status == Completed && |r.value| >= 1 && HoldsPages(pages, r.value) && base.items == r.value[0]
          && menu.slots[..] == Render(old(menu.slots[..]), menu.containers))
    {
      ClearPages();
      var built, contents := BuildPages(items, pagesLimit, startX, startY, offsetX, offsetY);
      if built.Err? {
        return Raised(built.error);
      }
      status := AddPages(built.value, contents);
    }

    /** fillWithItems(items, pagesLimit): from the corner, one cell at a time. */
    method FillWithItemsCorner(items: seq<MenuItem>, pagesLimit: int) returns (status: Status)
      requires Valid() && menu.Valid()
      modifies this, base, menu.slots
      ensures Valid() && menu.Valid() && page == 0
      ensures var r := FillLayout(items, pagesLimit, 0, 0, 1, 1, base.width, base.height);
        r.Err? ==> (status == Raised(r.error) && pages == [] && base.items == old(base.items)
          && menu.slots[..] == old(menu.slots[..]))
      ensures var r := FillLayout(items, pagesLimit, 0, 0, 1, 1, base.width, base.height);
        r.Ok? ==> (status == Completed && |r.value| >= 1 && HoldsPages(pages, r.value) && base.items == r.value[0]
          && menu.slots[..] == Render(old(menu.slots[..]), menu.containers))
    {
      status := FillWithItems(items, pagesLimit, 0, 0, 1, 1);
    }

    /** fillWithItems(items): every page the items need, up to Integer.MAX_VALUE of them. */
    method FillWithItemsAll(items: seq<MenuItem>) returns (status: Status)
      requires Valid() && menu.Valid()
      modifies this, base, menu.slots
      ensures Valid() && menu.Valid() && page == 0
      ensures var r := FillLayout(items, UNLIMITED_PAGES, 0, 0, 1, 1, base.width, base.height);
        r.Err? ==> (status == Raised(r.error) && pages == [] && base.items == old(base.items)
          && menu.slots[..] == old(menu.slots[..]))
      ensures var r := FillLayout(items, UNLIMITED_PAGES, 0, 0, 1, 1, base.width, base.height);
        r.Ok? ==> (status == Completed && |r.value| >= 1 && HoldsPages(pages, r.value) && base.items == r.value[0]
          && menu.slots[..] == Render(old(menu.slots[..]), menu.containers))
    {
      status := FillWithItems(items, UNLIMITED_PAGES, 0, 0, 1, 1);
    }

    /**
     * fillPatternWithItems(items, pagesLimit, pattern): clear the pages, put
     * each item in the next cell the pattern enables, then add the new pages.
     * Reading `pattern` outside its rows or a row outside its length ends it
     * with the index exception, leaving no pages.
     */
    method FillPatternWithItems(items: seq<MenuItem>, pagesLimit: int, pattern: seq<string>) returns (status: Status)
      requires Valid() && menu.Valid()
      modifies this, base, menu.slots
      ensures Valid() && menu.Valid() && page == 0
      ensures var r := FillPatternLayout(items, pattern, pagesLimit, base.width, base.height);
        r.Err? ==> (status == Raised(r.error) && pages == [] && base.items == old(base.items)
          && menu.slots[..] == old(menu.slots[..]))
      ensures var r := FillPatternLayout(items, pattern, pagesLimit, base.width, base.height);
        r.Ok? ==> (status == Completed && |r.value| >= 1 && HoldsPages(pages, r.value) && base.items == r.value[0]
          && menu.slots[..] == Render(old(menu.slots[..]), menu.containers))
    {
      ClearPages();
      var built, contents := BuildPatternPages(items, pagesLimit, pattern);
      if built.Err? {
        return Raised(built.error);
      }
      status := AddPages(built.value, contents);
    }

    /** fillPatternWithItems(items, pattern): no limit but Integer.MAX_VALUE pages. */
    method FillPatternWithItemsAll(items: seq<MenuItem>, pattern: seq<string>) returns (status: Status)
      requires Valid() && menu.Valid()
      modifies this, base, menu.slots
      ensures Valid() && menu.Valid() && page == 0
      ensures var r := FillPatternLayout(items, pattern, UNLIMITED_PAGES, base.width, base.height);
        r.Err? ==> (status == Raised(r.error) && pages == [] && base.items == old(base.items)
          && menu.slots[..] == old(menu.slots[..]))
      ensures var r := FillPatternLayout(items, pattern, UNLIMITED_PAGES, base.width, base.height);
        r.Ok? ==> (status == Completed && |r.value| >= 1 && HoldsPages(pages, r.value) && base.items == r.value[0]
          && menu.slots[..] == Render(old(menu.slots[..]), menu.containers))
    {
      status := FillPatternWithItems(items, UNLIMITED_PAGES, pattern);
    }

    /** The item loop of fillPatternWithItems, building the new pages (not yet added). */
    method BuildPatternPages(items: seq<MenuItem>, pagesLimit: int, pattern: seq<string>)
      returns (r: Result<seq<MenuContainer>>, ghost contents: seq<Items>)
      ensures var layout := FillPatternLayout(items, pattern, pagesLimit, base.width, base.height);
        (r.Err? <==> layout.Err?) && (r.Err? ==> r.error == layout.error)
        && (r.Ok? ==> layout.value == contents && |contents| >= 1 && HoldsPages(r.value, contents))
    {
      ghost var target := FillPatternLayout(items, pattern, pagesLimit, base.width, base.height);
      var first := new MenuContainer.PageOf(this);
      var newPages := [first];
      contents := [first.items];
      var col := -1;
      var row := 0;
      var i := 0;
      while i < |items|
        invariant 0 <= i <= |items| && 0 <= row
        invariant |contents| >= 1 && HoldsPages(newPages, contents)
        invariant fresh(newPages[|newPages| - 1])
        invariant PatternLayout(items[i..], pattern, pagesLimit, base.width, base.height, contents, col, row) == target
      {
        var st;
        ghost var prev := newPages;
        st, newPages, contents, col, row := PlacePatternItem(items[i..], pagesLimit, pattern, newPages, contents, col, row);
        assert fresh(newPages[|newPages| - 1]) by {
          if |newPages| == |prev| {
            assert newPages[|newPages| - 1] == prev[|prev| - 1];
          }
        }
        if st.Raised? {
          return Err(st.error), contents;
        }
        assert items[i..][1..] == items[i + 1..];
        i := i + 1;
      }
      r := Ok(newPages);
    }

    /** One turn of the item loop of fillPatternWithItems: the do-while scan, then setItem on the last page. */
    method PlacePatternItem(items: seq<MenuItem>, pagesLimit: int, pattern: seq<string>,
                            ps: seq<MenuContainer>, ghost contents: seq<Items>, col: int, row: int)
      returns (st: Status, ps': seq<MenuContainer>, ghost contents': seq<Items>, col': int, row': int)
      requires items != [] && 0 <= row && |contents| >= 1 && HoldsPages(ps, contents)
      modifies ps[|ps| - 1]
      ensures var layout := PatternLayout(items, pattern, pagesLimit, base.width, base.height, contents, col, row);
        && (st.Raised? ==> layout == Err(st.error))
        && (!st.Raised? ==>
              0 <= row' && |contents'| >= 1 && HoldsPages(ps', contents')
              && layout == PatternLayout(items[1..], pattern, pagesLimit, base.width, base.height, contents', col', row'))
      ensures |ps| <= |ps'| && ps'[..|ps|] == ps && (|ps'| == |ps| || fresh(ps'[|ps'| - 1]))
    {
      ghost var rest := PatternLayout(items, pattern, pagesLimit, base.width, base.height, contents, col, row);
      st, ps', contents', col', row' := Seek(pattern, pagesLimit, ps, contents, col, row);
      if st.Raised? {
        return;
      }
      assert rest == match PutLast(contents', (col', row'), items[0], base.width, base.height)
        case Err(e) => Err(e)
        case Ok(next) => PatternLayout(items[1..], pattern, pagesLimit, base.width, base.height, next, col', row');
      st, contents' := PutOnLast(ps', contents', col', row', items[0]);
    }

    /**
     * The do-while loop of fillPatternWithItems: step to the next cell,
     * wrapping rows and opening pages, until a cell that is not a space, or
     * (0, 0) once the page limit is reached.
     */
    method Seek(pattern: seq<string>, pagesLimit: int, ps: seq<MenuContainer>, ghost contents: seq<Items>, col: int, row: int)
      returns (st: Status, ps': seq<MenuContainer>, ghost contents': seq<Items>, col': int, row': int)
      requires 0 <= row && HoldsPages(ps, contents)
      ensures var adv := Advance(pattern, base.width, base.height, pagesLimit, |ps|, col, row);
        && (st.Raised? <==> adv.Err?) && (adv.Err? ==> st.error == adv.error)
        && (adv.Ok? ==> (adv.value == ((col', row'), |ps'|) && 0 <= row' && HoldsPages(ps', contents')
                         && contents' == contents + seq(|ps'| - |ps|, _ => AirPage(base.width, base.height))))
      ensures |ps| <= |ps'| && ps'[..|ps|] == ps && (|ps'| == |ps| || fresh(ps'[|ps'| - 1]))
    {
      ghost var target := Advance(pattern, base.width, base.height, pagesLimit, |ps|, col, row);
      st := Completed;
      ps', contents', col', row' := ps, contents, col, row;
      assert contents' == contents + seq(0, _ => AirPage(base.width, base.height));
      var done := false;
      while !done
        invariant 0 <= row' && HoldsPages(ps', contents')
        invariant |ps| <= |ps'| && ps'[..|ps|] == ps && (|ps'| == |ps| || fresh(ps'[|ps'| - 1]))
        invariant contents' == contents + seq(|ps'| - |ps|, _ => AirPage(base.width, base.height))
        invariant !done ==> Advance(pattern, base.width, base.height, pagesLimit, |ps'|, col', row') == target
        invariant done ==> ((st.Raised? <==> target.Err?) && (target.Err? ==> st.error == target.error)
                            && (target.Ok? ==> target.value == ((col', row'), |ps'|)))
        decreases if done then 0 else 1, pagesLimit - |ps'|, base.height - row', base.width - col'
      {
        ghost var before, prev := contents', ps';
        done, st, ps', contents', col', row' := SeekStep(pattern, pagesLimit, ps', contents', col', row');
        if contents' != before {
          AppendPage(contents, before, |ps'| - 1 - |ps|, AirPage(base.width, base.height));
          assert |ps'| - 1 == |prev| && fresh(ps'[|prev|]);
        }
        PrefixOfPrefix(ps, prev, ps');
      }
    }

    /**
     * One turn of the do-while loop of fillPatternWithItems: move one cell
     * right, wrap to the next row, or open a new page; `done` when the scan stops.
     */
    method SeekStep(pattern: seq<string>, pagesLimit: int, ps: seq<MenuContainer>, ghost contents: seq<Items>, col: int, row: int)
      returns (done: bool, st: Status, ps': seq<MenuContainer>, ghost contents': seq<Items>, col': int, row': int)
      requires 0 <= row && HoldsPages(ps, contents)
      ensures 0 <= row' && HoldsPages(ps', contents')
      ensures (ps' == ps && contents' == contents)
        || (|ps'| == |ps| + 1 && ps'[..|ps|] == ps && fresh(ps'[|ps|]) && contents' == contents + [AirPage(base.width, base.height)])
      ensures var adv := Advance(pattern, base.width, base.height, pagesLimit, |ps|, col, row);
        if done then (st.Raised? <==> adv.Err?) && (adv.Err? ==> st.error == adv.error) && (adv.Ok? ==> adv.value == ((col', row'), |ps'|))
        else adv == Advance(pattern, base.width, base.height, pagesLimit, |ps'|, col', row')
      ensures !done ==>
        || (|ps'| == |ps| + 1 && pagesLimit > |ps|)
        || (|ps'| == |ps| && row' == row + 1 && row' < base.height)
        || (|ps'| == |ps| && row' == row && col' == col + 1 && col' < base.width)
    {
      done, st := true, Completed;
      ps', contents', col', row' := ps, contents, col + 1, row;
      if col' < base.width && row' >= |pattern| {
        st := Raised(IndexOutOfBounds);
        return;
      }
      if col' >= base.width || col' >= |pattern[row']| {
        col' := 0;
        row' := row' + 1;
      }
      if row' >= base.height || row' >= |pattern| {
        col' := 0;
        row' := 0;
        if pagesLimit > |ps'| {
          ps', contents' := OpenPage(ps', contents');
        } else {
          return;
        }
      }
      if row' >= |pattern| || !(0 <= col' < |pattern[row']|) {
        st := Raised(IndexOutOfBounds);
        return;
      }
      done := pattern[row'][col'] != ' ';
    }

    /** The loop of fillWithItems, building the new pages (not yet added). */
    method BuildPages(items: seq<MenuItem>, pagesLimit: int, startX: int, startY: int, offsetX: int, offsetY: int)
      returns (r: Result<seq<MenuContainer>>, ghost contents: seq<Items>)
      ensures var layout := FillLayout(items, pagesLimit, startX, startY, offsetX, offsetY, base.width, base.height);
        (r.Err? <==> layout.Err?) && (r.Err? ==> r.error == layout.error)
        && (r.Ok? ==> layout.value == contents && |contents| >= 1 && HoldsPages(r.value, contents))
    {
      ghost var target := FillLayout(items, pagesLimit, startX, startY, offsetX, offsetY, base.width, base.height);
      var first := new MenuContainer.PageOf(this);
      var newPages := [first];
      contents := [first.items];
      var col := startX;
      var row := startY;
      var i := 0;
      while i < |items|
        invariant 0 <= i <= |items|
        invariant |contents| >= 1 && HoldsPages(newPages, contents)
        invariant fresh(newPages[|newPages| - 1])
        invariant Layout(items[i..], pagesLimit, startX, startY, offsetX, offsetY, base.width, base.height, contents, col, row)
          == target
      {
        var stop, st;
        ghost var prev := newPages;
        stop, st, newPages, contents, col, row :=
          PlaceItem(items[i..], pagesLimit, startX, startY, offsetX, offsetY, newPages, contents, col, row);
        assert fresh(newPages[|newPages| - 1]) by {
          if newPages != prev {
            assert newPages[|newPages| - 1] == newPages[|prev|];
          }
        }
        if stop {
          return Ok(newPages), contents;
        }
        if st.Raised? {
          return Err(st.error), contents;
        }
        assert items[i..][1..] == items[i + 1..];
        i := i + 1;
      }
      assert items[i..] == [];
      r := Ok(newPages);
    }

    /**
     * One turn of the loop of fillWithItems, for the first of `items`: wrap
     * the cursor, open a page or stop at the limit, then setItem on the last page.
     */
    method PlaceItem(items: seq<MenuItem>, pagesLimit: int, startX: int, startY: int, offsetX: int, offsetY: int,
                     ps: seq<MenuContainer>, ghost contents: seq<Items>, col: int, row: int)
      returns (stop: bool, st: Status, ps': seq<MenuContainer>, ghost contents': seq<Items>, col': int, row': int)
      requires items != [] && |contents| >= 1 && HoldsPages(ps, contents)
      modifies ps[|ps| - 1]
      ensures var layout := Layout(items, pagesLimit, startX, startY, offsetX, offsetY, base.width, base.height,
                                  contents, col, row);
        && (stop ==> layout == Ok(contents) && ps' == ps && contents' == contents && HoldsPages(ps, contents))
        && (!stop && st.Raised? ==> layout == Err(st.error))
        && (!stop && !st.Raised? ==>
              |contents'| >= 1 && HoldsPages(ps', contents')
              && layout == Layout(items[1..], pagesLimit, startX, startY, offsetX, offsetY, base.width, base.height,
                                  contents', col', row'))
      ensures ps' == ps || (|ps'| == |ps| + 1 && ps'[..|ps|] == ps && fresh(ps'[|ps|]))
    {
      stop, st := false, Completed;
      ps', contents' := ps, contents;
      col', row' := col, row;
      if col' >= base.width {
        col' := startX;
        row' := Wrap(row' + offsetY);
      }
      ghost var layout := Layout(items, pagesLimit, startX, startY, offsetX, offsetY, base.width, base.height,
                                 contents, col, row);
      if row' >= base.height {
        col' := startX;
        row' := startY;
        if pagesLimit > |ps'| {
          ps', contents' := OpenPage(ps', contents');
        } else {
          stop := true;
          return;
        }
      }
      assert layout == match PutLast(contents', (col', row'), items[0], base.width, base.height)
        case Err(e) => Err(e)
        case Ok(next) => Layout(items[1..], pagesLimit, startX, startY, offsetX, offsetY, base.width, base.height,
                                next, Wrap(col' + offsetX), row');
      st, contents' := PutOnLast(ps', contents', col', row', items[0]);
      col' := Wrap(col' + offsetX);
    }

    /** new MenuContainer(this), appended to the new pages. */
    method OpenPage(ps: seq<MenuContainer>, ghost contents: seq<Items>)
      returns (ps': seq<MenuContainer>, ghost contents': seq<Items>)
      requires HoldsPages(ps, contents)
      ensures |ps'| == |ps| + 1 && ps'[..|ps|] == ps && fresh(ps'[|ps|])
      ensures contents' == contents + [AirPage(base.width, base.height)] && HoldsPages(ps', contents')
    {
      var p := new MenuContainer.PageOf(this);
      ps' := ps + [p];
      contents' := contents + [p.items];
    }

    /** lastPage.setItem(x, y, item) on the new pages. */
    method PutOnLast(ps: seq<MenuContainer>, ghost contents: seq<Items>, col: int, row: int, item: MenuItem)
      returns (st: Status, ghost contents': seq<Items>)
      requires |ps| >= 1 && HoldsPages(ps, contents)
      modifies ps[|ps| - 1]
      ensures var put := PutLast(contents, (col, row), item, base.width, base.height);
        (st.Raised? <==> put.Err?) && (put.Err? ==> st.error == put.error)
        && (put.Ok? ==> contents' == put.value && HoldsPages(ps, contents'))
    {
      var last := ps[|ps| - 1];
      st := last.SetItem(col, row, item);
      contents' := contents[..|contents| - 1] + [last.items];
      assert forall j :: 0 <= j < |ps| - 1 ==> ps[j] != last;
    }

    /** newPages.forEach(this::addPage), onto no pages: all are added and the first is shown. */
    method AddPages(ps: seq<MenuContainer>, ghost contents: seq<Items>) returns (status: Status)
      requires Valid() && menu.Valid() && pages == [] && page == 0
      requires |ps| >= 1 && HoldsPages(ps, contents)
      modifies this, base, menu.slots
      ensures Valid() && menu.Valid() && page == 0 && pages == ps && HoldsPages(pages, contents)
      ensures status == Completed && base.items == contents[0]
      ensures menu.slots[..] == Render(old(menu.slots[..]), menu.containers)
    {
      status := AddPage(ps[0]);
      assert pages == ps[..1];
      var j := 1;
      while j < |ps|
        invariant 1 <= j <= |ps|
        invariant Valid() && menu.Valid() && page == 0 && pages == ps[..j] && HoldsPages(ps, contents)
        invariant status == Completed && base.items == contents[0]
        invariant menu.slots[..] == Render(old(menu.slots[..]), menu.containers)
      {
        status := AddPage(ps[j]);
        assert ps[..j + 1] == ps[..j] + [ps[j]];
        j := j + 1;
      }
      assert ps[..j] == ps;
    }

  }

  /** new PagedMenuContainer(menu, x, y, width, height): the MenuContainer checks, then no pages. */
  method NewPaged(menu: EnhancedMenu, x: int, y: int, width: int, height: int) returns (r: Result<PagedMenuContainer>)
    ensures r.Err? <==> !BoxFits(x, y, width, height, menu.rows)
    ensures r.Err? ==> r.error == IllegalArgument
    ensures r.Ok? ==> (fresh(r.value) && fresh(r.value.base) && r.value.Valid() && r.value.menu == menu
      && r.value.pages == [] && r.value.page == 0 && r.value.base.items == AirPage(width, height))
  {
    if !BoxFits(x, y, width, height, menu.rows) {
      return Err(IllegalArgument);
    }
    var p := new PagedMenuContainer(menu, x, y, width, height);
    r := Ok(p);
  }
}
