/**
 * The fixed-capacity proximity grid: a flat array of WIDTH * HEIGHT cells,
 * each a fixed array of SLOT_COUNT optional entity slots.
 *
 * The pure part (slot search, occupant count, linear index, the 3x3
 * neighbourhood and the occupants around a cell) is stated as functions over
 * sequences; `Cell` and `Grid` are classes over arrays whose methods update
 * the slots in place and are proved against those functions.
 */
module ProximityGrid {
  import opened Wrappers
  import opened EngineTypes
  import opened Arithmetic

  /** The cell's default slot count, the one the grid's cells use. */
  const SLOT_COUNT: nat := 10

  /** The contents of one cell's slot array. */
  type Slots = seq<Option<Entity>>

  // ---------------------------------------------------------------------
  // One cell, as a value
  // ---------------------------------------------------------------------

  /** The lowest-index empty slot, if any. */
  function FirstFree(s: Slots): (r: Option<nat>)
    ensures r.Some? ==> r.value < |s| && s[r.value].None?
    ensures r.Some? ==> forall j :: 0 <= j < r.value ==> s[j].Some?
    ensures r.None? <==> forall j :: 0 <= j < |s| ==> s[j].Some?
  {
    if s == [] then None
    else if s[0].None? then Some(0)
    else match FirstFree(s[1..])
      case None => None
      case Some(k) => Some(k + 1)
  }

  /** The lowest-index slot holding `item`, if any. */
  function FirstHolding(s: Slots, item: Entity): (r: Option<nat>)
    ensures r.Some? ==> r.value < |s| && s[r.value] == Some(item)
    ensures r.Some? ==> forall j :: 0 <= j < r.value ==> s[j] != Some(item)
    ensures r.None? <==> Some(item) !in s
  {
    if s == [] then None
    else if s[0] == Some(item) then Some(0)
    else match FirstHolding(s[1..], item)
      case None => None
      case Some(k) => Some(k + 1)
  }

  /** The entities held by the slots, in slot order (the slots flattened). */
  function Occupants(s: Slots): (r: seq<Entity>)
    ensures |r| <= |s|
    ensures forall e :: e in r <==> Some(e) in s
  {
    if s == [] then []
    else (if s[0].Some? then [s[0].value] else []) + Occupants(s[1..])
  }

  /** The number of occupied slots: the fold of `count`. */
  function OccupiedCount(s: Slots): (n: nat)
    ensures n <= |s|
  {
    if s == [] then 0
    else (if s[0].Some? then 1 else 0) + OccupiedCount(s[1..])
  }

  /** The slots after `try_insert`: the first free slot filled, or unchanged when full. */
  function Inserted(s: Slots, item: Entity): (r: Slots)
    ensures |r| == |s|
    ensures forall k :: 0 <= k < |s| && r[k] != s[k] ==> FirstFree(s) == Some(k) && r[k] == Some(item)
    ensures FirstFree(s).Some? ==> r[FirstFree(s).value] == Some(item)
  {
    match FirstFree(s)
    case None => s
    case Some(k) => s[k := Some(item)]
  }

  /** The slots after `try_remove`: the first slot holding `item` cleared, or unchanged. */
  function Removed(s: Slots, item: Entity): (r: Slots)
    ensures |r| == |s|
    ensures forall k :: 0 <= k < |s| && r[k] != s[k] ==> FirstHolding(s, item) == Some(k) && r[k] == None
    ensures FirstHolding(s, item).Some? ==> r[FirstHolding(s, item).value] == None
  {
    match FirstHolding(s, item)
    case None => s
    case Some(k) => s[k := None]
  }

  /** `count` is the number of occupants. */
  lemma {:induction false} CountIsOccupants(s: Slots)
    ensures OccupiedCount(s) == |Occupants(s)|
  {
    if s != [] {
      CountIsOccupants(s[1..]);
    }
  }

  /** A cell has no free slot exactly when every slot is counted. */
  lemma {:induction false} FullIffCountIsCapacity(s: Slots)
    ensures FirstFree(s).None? <==> OccupiedCount(s) == |s|
  {
    if s != [] {
      FullIffCountIsCapacity(s[1..]);
    }
  }

  /** Filling an empty slot adds one occupant. */
  lemma {:induction false} FillAddsOccupant(s: Slots, k: nat, item: Entity)
    requires k < |s| && s[k].None?
    ensures OccupiedCount(s[k := Some(item)]) == OccupiedCount(s) + 1
    ensures multiset(Occupants(s[k := Some(item)])) == multiset(Occupants(s)) + multiset{item}
  {
    var t := s[k := Some(item)];
    if k == 0 {
      assert t[1..] == s[1..];
    } else {
      assert t[1..] == s[1..][k - 1 := Some(item)];
      FillAddsOccupant(s[1..], k - 1, item);
    }
  }

  /** Clearing an occupied slot removes that one occupant. */
  lemma {:induction false} ClearRemovesOccupant(s: Slots, k: nat)
    requires k < |s| && s[k].Some?
    ensures OccupiedCount(s[k := None]) == OccupiedCount(s) - 1
    ensures multiset(Occupants(s[k := None])) == multiset(Occupants(s)) - multiset{s[k].value}
  {
    var t := s[k := None];
    if k == 0 {
      assert t[1..] == s[1..];
    } else {
      assert t[1..] == s[1..][k - 1 := None];
      ClearRemovesOccupant(s[1..], k - 1);
    }
  }

  /** A successful insert raises the count by one and adds the item; a failed one changes nothing. */
  lemma InsertedCount(s: Slots, item: Entity)
    ensures FirstFree(s).Some? ==>
      OccupiedCount(Inserted(s, item)) == OccupiedCount(s) + 1 &&
      multiset(Occupants(Inserted(s, item))) == multiset(Occupants(s)) + multiset{item}
    ensures FirstFree(s).None? ==> Inserted(s, item) == s && OccupiedCount(s) == |s|
  {
    FullIffCountIsCapacity(s);
    if FirstFree(s).Some? {
      FillAddsOccupant(s, FirstFree(s).value, item);
    }
  }

  /** A successful remove lowers the count by one and takes the item out; a failed one changes nothing. */
  lemma RemovedCount(s: Slots, item: Entity)
    ensures FirstHolding(s, item).Some? ==>
      OccupiedCount(Removed(s, item)) == OccupiedCount(s) - 1 &&
      multiset(Occupants(Removed(s, item))) == multiset(Occupants(s)) - multiset{item}
    ensures FirstHolding(s, item).None? ==> Removed(s, item) == s && item !in Occupants(s)
  {
    if FirstHolding(s, item).Some? {
      ClearRemovesOccupant(s, FirstHolding(s, item).value);
    }
  }

  /**
   * Inserting into a cell with a free slot and then removing the same item
   * succeeds and gives back the cell's multiset of occupants (the slot that is
   * cleared may be an earlier one if the item was already present).
   */
  lemma InsertThenRemoveRestores(s: Slots, item: Entity)
    requires FirstFree(s).Some?
    ensures FirstHolding(Inserted(s, item), item).Some?
    ensures multiset(Occupants(Removed(Inserted(s, item), item))) == multiset(Occupants(s))
  {
    var k := FirstFree(s).value;
    assert Inserted(s, item)[k] == Some(item);
    InsertedCount(s, item);
    RemovedCount(Inserted(s, item), item);
  }

  // ---------------------------------------------------------------------
  // Cell: `ProximityGridCell`, a fixed array of slots updated in place
  // ---------------------------------------------------------------------

  class Cell {
    const slots: array<Option<Entity>>

    /** `default`: every slot empty. */
    constructor (slotCount: nat)
      ensures fresh(slots) && slots[..] == EmptySlots(slotCount)
    {
      slots := new Option<Entity>[slotCount](_ => None);
    }

    /** `try_insert`: store the item in the lowest-index empty slot and return that index. */
    method TryInsert(item: Entity) returns (r: Option<nat>)
      modifies slots
      ensures r == FirstFree(old(slots[..]))
      ensures slots[..] == Inserted(old(slots[..]), item)
    {
      var index := 0;
      while index < slots.Length
        invariant 0 <= index <= slots.Length
        invariant forall j :: 0 <= j < index ==> slots[j].Some?
        invariant slots[..] == old(slots[..])
      {
        if slots[index].None? {
          slots[index] := Some(item);
          return Some(index);
        }
        index := index + 1;
      }
      return None;
    }

    /** `try_remove`: clear the lowest-index slot holding the item; false when absent. */
    method TryRemove(item: Entity) returns (removed: bool)
      modifies slots
      ensures removed == FirstHolding(old(slots[..]), item).Some?
      ensures removed <==> item in Occupants(old(slots[..]))
      ensures slots[..] == Removed(old(slots[..]), item)
    {
      var index := 0;
      while index < slots.Length
        invariant 0 <= index <= slots.Length
        invariant forall j :: 0 <= j < index ==> slots[j] != Some(item)
        invariant slots[..] == old(slots[..])
      {
        if slots[index] == Some(item) {
          slots[index] := None;
          return true;
        }
        index := index + 1;
      }
      return false;
    }

    /** `count`: the number of occupied slots, never more than the capacity. */
    function Count(): (n: nat)
      reads slots
      ensures n <= slots.Length
      ensures n == |Occupants(slots[..])|
    {
      CountIsOccupants(slots[..]);
      OccupiedCount(slots[..])
    }
  }

  /** A cell with every slot empty. */
  function EmptySlots(n: nat): Slots
  {
    seq(n, _ => None)
  }

  /** An empty cell holds nothing and has room unless it has no slots at all. */
  lemma {:induction false} EmptySlotsHoldNothing(n: nat)
    ensures OccupiedCount(EmptySlots(n)) == 0 && Occupants(EmptySlots(n)) == []
    ensures n > 0 ==> FirstFree(EmptySlots(n)) == Some(0)
  {
    if n > 0 {
      assert EmptySlots(n)[1..] == EmptySlots(n - 1);
      EmptySlotsHoldNothing(n - 1);
    }
  }

  // ---------------------------------------------------------------------
  // Linear index of a cell
  // ---------------------------------------------------------------------

  /**
   * `get_index_from_cell_coordinates`: `x + y * width` when that is below
   * `width * height`. Like the source it does not check `x < width`.
   */
  function CellIndex(width: nat, height: nat, x: nat, y: nat): (r: Option<nat>)
    ensures r.None? <==> x + y * width >= width * height
    ensures r.Some? ==> r.value == x + y * width < width * height
  {
    var index := x + y * width;
    if index < width * height then Some(index) else None
  }

  /** An in-range cell has an index, and the index decodes back to its coordinates. */
  lemma CellIndexInRange(width: nat, height: nat, x: nat, y: nat)
    requires x < width && y < height
    ensures CellIndex(width, height, x, y).Some?
    ensures CellIndex(width, height, x, y).value % width == x
    ensures CellIndex(width, height, x, y).value / width == y
  {
    assert x + y * width < width + y * width == (y + 1) * width <= height * width by {
      MulMonotone(y + 1, height, width);
    }
    DivModOf(x, y, width);
  }

  /** Distinct in-range cells have distinct indices. */
  lemma CellIndexInjective(width: nat, height: nat, x1: nat, y1: nat, x2: nat, y2: nat)
    requires x1 < width && y1 < height && x2 < width && y2 < height
    requires (x1, y1) != (x2, y2)
    ensures CellIndex(width, height, x1, y1) != CellIndex(width, height, x2, y2)
  {
    CellIndexInRange(width, height, x1, y1);
    CellIndexInRange(width, height, x2, y2);
  }

  /**
   * The column is not checked: on a grid at least two rows high the coordinate
   * just past the right edge of row 0 names the first cell of row 1.
   */
  lemma CellIndexAliasesNextRow(width: nat, height: nat)
    requires width > 0 && height > 1
    ensures CellIndex(width, height, width, 0) == CellIndex(width, height, 0, 1) == Some(width)
  {
    MulMonotone(2, height, width);
  }

  /**
   * Every coordinate pair that has an index names the same cell as the
   * in-range pair that index decodes to, so an out-of-range column spills
   * into a later row.
   */
  lemma CellIndexAliases(width: nat, height: nat, x: nat, y: nat)
    requires width > 0 && CellIndex(width, height, x, y).Some?
    ensures var i := CellIndex(width, height, x, y).value;
      i % width < width && i / width < height &&
      CellIndex(width, height, i % width, i / width) == CellIndex(width, height, x, y)
  {
    var i := x + y * width;
    assert i == i % width + (i / width) * width;
    if i / width >= height {
      MulMonotone(height, i / width, width);
      assert false;
    }
  }

  lemma DivModOf(x: nat, y: nat, width: nat)
    requires x < width
    ensures (x + y * width) % width == x && (x + y * width) / width == y
  {
    var n := x + y * width;
    var q, r := n / width, n % width;
    assert (q - y) * width == x - r;
    SmallMultipleIsZero(q - y, width);
  }

  /** A multiple of `w` strictly between `-w` and `w` is zero. */
  lemma SmallMultipleIsZero(d: int, w: int)
    requires w > 0 && -w < d * w < w
    ensures d == 0
  {
    MultipleAtLeast(d, w);
    MultipleAtLeast(-d, w);
  }

  lemma MultipleAtLeast(d: int, w: int)
    requires w >= 0
    ensures d >= 1 ==> d * w >= w
  {
    if d >= 1 {
      MulMonotone(1, d, w);
    }
  }

  // ---------------------------------------------------------------------
  // The 3x3 neighbourhood of a cell
  // ---------------------------------------------------------------------

  /** The offset `(dx, dy)` is dropped when it would step off the grid edge. */
  predicate Clipped(width: nat, height: nat, x: nat, y: nat, dx: int, dy: int)
  {
    (dx < 0 && x == 0) || (dy < 0 && y == 0) || (dx > 0 && x == width - 1) || (dy > 0 && y == height - 1)
  }

  /** The cell at offset `(dx, dy)`, unless it is clipped. */
  function Step(width: nat, height: nat, x: nat, y: nat, dx: int, dy: int): seq<(nat, nat)>
    requires -1 <= dx <= 1 && -1 <= dy <= 1
  {
    if Clipped(width, height, x, y, dx, dy) then [] else [(x + dx, y + dy)]
  }

  /** The offsets with horizontal offset `dx`, by increasing `dy`. */
  function Column(width: nat, height: nat, x: nat, y: nat, dx: int): seq<(nat, nat)>
    requires -1 <= dx <= 1
  {
    Step(width, height, x, y, dx, -1) + Step(width, height, x, y, dx, 0) + Step(width, height, x, y, dx, 1)
  }

  /**
   * `get_neighboring_cell_coordinates`: the offsets in {-1, 0, 1} squared,
   * x outer and y inner, with those that step off an edge removed; the cell
   * itself is included. The source computes `WIDTH - 1` and `HEIGHT - 1`, so
   * both dimensions must be positive.
   */
  function NeighboringCells(width: nat, height: nat, x: nat, y: nat): (r: seq<(nat, nat)>)
    requires width > 0 && height > 0
    ensures |r| <= 9
    ensures forall k :: 0 <= k < |r| ==> Near(r[k].0, x) && Near(r[k].1, y)
  {
    Column(width, height, x, y, -1) + Column(width, height, x, y, 0) + Column(width, height, x, y, 1)
  }

  /** `a` is within one step of `b`. */
  predicate Near(a: nat, b: nat)
  {
    b <= a + 1 && a <= b + 1
  }

  /** The number of coordinates the neighbourhood covers along one axis. */
  function Span(c: nat, size: nat): nat
  {
    (if c > 0 then 1 else 0) + 1 + (if c + 1 < size then 1 else 0)
  }

  /** Strict lexicographic order on cell coordinates (x first, then y). */
  predicate LexBefore(p: (nat, nat), q: (nat, nat))
  {
    p.0 < q.0 || (p.0 == q.0 && p.1 < q.1)
  }

  lemma ColumnMembers(width: nat, height: nat, x: nat, y: nat, dx: int, c: (nat, nat))
    requires x < width && y < height && -1 <= dx <= 1
    ensures c in Column(width, height, x, y, dx) <==>
      c.0 == x + dx && !Clipped(width, height, x, y, dx, 0) && Near(c.1, y) && c.1 < height
  {
  }

  /**
   * For a cell inside the grid, the neighbourhood holds exactly the in-range
   * cells within one step on each axis: the cell itself, never a cell on the
   * opposite edge.
   */
  lemma NeighboringCellsMembers(width: nat, height: nat, x: nat, y: nat, c: (nat, nat))
    requires x < width && y < height
    ensures c in NeighboringCells(width, height, x, y) <==> Near(c.0, x) && Near(c.1, y) && c.0 < width && c.1 < height
  {
    ColumnMembers(width, height, x, y, -1, c);
    ColumnMembers(width, height, x, y, 0, c);
    ColumnMembers(width, height, x, y, 1, c);
  }

  /** The neighbourhood's size is the product of the spans on the two axes. */
  lemma NeighboringCellsCount(width: nat, height: nat, x: nat, y: nat)
    requires x < width && y < height
    ensures |NeighboringCells(width, height, x, y)| == Span(x, width) * Span(y, height)
  {
    var cols := |Column(width, height, x, y, -1)| + |Column(width, height, x, y, 0)| + |Column(width, height, x, y, 1)|;
    assert |Column(width, height, x, y, 0)| == Span(y, height);
    assert |Column(width, height, x, y, -1)| == if x > 0 then Span(y, height) else 0;
    assert |Column(width, height, x, y, 1)| == if x + 1 < width then Span(y, height) else 0;
  }

  /** Interior cells have nine neighbourhood cells, edge cells six and corner cells four. */
  lemma NeighboringCellsNineSixFour(width: nat, height: nat, x: nat, y: nat)
    requires x < width && y < height && width >= 2 && height >= 2
    ensures 0 < x < width - 1 && 0 < y < height - 1 ==> |NeighboringCells(width, height, x, y)| == 9
    ensures (x == 0 || x == width - 1) && 0 < y < height - 1 ==> |NeighboringCells(width, height, x, y)| == 6
    ensures 0 < x < width - 1 && (y == 0 || y == height - 1) ==> |NeighboringCells(width, height, x, y)| == 6
    ensures (x == 0 || x == width - 1) && (y == 0 || y == height - 1) ==> |NeighboringCells(width, height, x, y)| == 4
  {
    NeighboringCellsCount(width, height, x, y);
  }

  /** The neighbourhood comes out in strictly increasing x-major order, so no cell repeats. */
  lemma NeighboringCellsOrdered(width: nat, height: nat, x: nat, y: nat)
    requires x < width && y < height
    ensures forall i, j :: 0 <= i < j < |NeighboringCells(width, height, x, y)| ==>
      LexBefore(NeighboringCells(width, height, x, y)[i], NeighboringCells(width, height, x, y)[j])
  {
    var a, b, c := Column(width, height, x, y, -1), Column(width, height, x, y, 0), Column(width, height, x, y, 1);
    ColumnOrdered(width, height, x, y, -1);
    ColumnOrdered(width, height, x, y, 0);
    ColumnOrdered(width, height, x, y, 1);
    forall p | p in a ensures p.0 == x - 1 { ColumnMembers(width, height, x, y, -1, p); }
    forall p | p in b ensures p.0 == x { ColumnMembers(width, height, x, y, 0, p); }
    forall p | p in c ensures p.0 == x + 1 { ColumnMembers(width, height, x, y, 1, p); }
    ConcatOrdered(a, b);
    ConcatOrdered(a + b, c);
  }

  ghost predicate Ordered(s: seq<(nat, nat)>)
  {
    forall i, j :: 0 <= i < j < |s| ==> LexBefore(s[i], s[j])
  }

  lemma ColumnOrdered(width: nat, height: nat, x: nat, y: nat, dx: int)
    requires x < width && y < height && -1 <= dx <= 1
    ensures Ordered(Column(width, height, x, y, dx))
  {
  }

  lemma ConcatOrdered(a: seq<(nat, nat)>, b: seq<(nat, nat)>)
    requires Ordered(a) && Ordered(b)
    requires forall p, q :: p in a && q in b ==> p.0 < q.0
    ensures Ordered(a + b)
  {
    forall i, j | 0 <= i < j < |a + b| ensures LexBefore((a + b)[i], (a + b)[j]) {
      if j >= |a| && i < |a| {
        assert (a + b)[i] in a && (a + b)[j] in b;
      }
    }
  }

  // ---------------------------------------------------------------------
  // Occupants of the neighbourhood
  // ---------------------------------------------------------------------

  /** `item` occupies a slot of the cell at `(a, b)`, found through the linear index. */
  predicate Occupies(width: nat, height: nat, grid: seq<Slots>, a: nat, b: nat, item: Entity)
    requires |grid| == width * height
  {
    CellIndex(width, height, a, b).Some? && Some(item) in grid[CellIndex(width, height, a, b).value]
  }

  /** The occupants of the listed cells, in order; coordinates with no index contribute nothing. */
  function Gather(width: nat, height: nat, grid: seq<Slots>, coords: seq<(nat, nat)>): seq<Entity>
    requires |grid| == width * height
  {
    if coords == [] then []
    else
      (match CellIndex(width, height, coords[0].0, coords[0].1)
       case None => []
       case Some(i) => Occupants(grid[i]))
      + Gather(width, height, grid, coords[1..])
  }

  /** `get_neighbors_from_cell_coordinates`: every occupant of the neighbourhood, with no distance filter. */
  function Neighbors(width: nat, height: nat, grid: seq<Slots>, x: nat, y: nat): seq<Entity>
    requires width > 0 && height > 0 && |grid| == width * height
  {
    Gather(width, height, grid, NeighboringCells(width, height, x, y))
  }

  lemma {:induction false} GatherMembers(width: nat, height: nat, grid: seq<Slots>, coords: seq<(nat, nat)>, item: Entity)
    requires |grid| == width * height
    ensures item in Gather(width, height, grid, coords) <==>
      exists k :: 0 <= k < |coords| && Occupies(width, height, grid, coords[k].0, coords[k].1, item)
  {
    if coords != [] {
      GatherMembers(width, height, grid, coords[1..], item);
      if item in Gather(width, height, grid, coords[1..]) {
        var k :| 0 <= k < |coords[1..]| && Occupies(width, height, grid, coords[1..][k].0, coords[1..][k].1, item);
        assert coords[k + 1] == coords[1..][k];
      }
      if exists k :: 0 <= k < |coords| && Occupies(width, height, grid, coords[k].0, coords[k].1, item) {
        var k :| 0 <= k < |coords| && Occupies(width, height, grid, coords[k].0, coords[k].1, item);
        if k > 0 {
          assert coords[1..][k - 1] == coords[k];
        }
      }
    }
  }

  /**
   * For a cell inside the grid, the neighbours are exactly the entities
   * occupying some in-range cell within one step on each axis.
   */
  lemma NeighborsMembers(width: nat, height: nat, grid: seq<Slots>, x: nat, y: nat, item: Entity)
    requires x < width && y < height && |grid| == width * height
    ensures item in Neighbors(width, height, grid, x, y) <==>
      exists a: nat, b: nat :: Near(a, x) && Near(b, y) && a < width && b < height && Occupies(width, height, grid, a, b, item)
  {
    var cells := NeighboringCells(width, height, x, y);
    GatherMembers(width, height, grid, cells, item);
    if item in Neighbors(width, height, grid, x, y) {
      var k :| 0 <= k < |cells| && Occupies(width, height, grid, cells[k].0, cells[k].1, item);
      NeighboringCellsMembers(width, height, x, y, cells[k]);
    }
    if exists a: nat, b: nat :: Near(a, x) && Near(b, y) && a < width && b < height && Occupies(width, height, grid, a, b, item) {
      var a: nat, b: nat :| Near(a, x) && Near(b, y) && a < width && b < height && Occupies(width, height, grid, a, b, item);
      NeighboringCellsMembers(width, height, x, y, (a, b));
      var k :| 0 <= k < |cells| && cells[k] == (a, b);
    }
  }

  /** No grid slot is held by `item` more than once. */
  ghost predicate HeldAtMostOnce(grid: seq<Slots>, item: Entity)
  {
    forall i, j, i', j' ::
      (0 <= i < |grid| && 0 <= j < |grid[i]| && 0 <= i' < |grid| && 0 <= j' < |grid[i']| &&
       grid[i][j] == Some(item) && grid[i'][j'] == Some(item)) ==> i == i' && j == j'
  }

  lemma {:induction false} OccupantsOnce(s: Slots, item: Entity)
    requires forall j, j' :: 0 <= j < |s| && 0 <= j' < |s| && s[j] == Some(item) && s[j'] == Some(item) ==> j == j'
    ensures multiset(Occupants(s))[item] <= 1
    ensures Some(item) in s ==> multiset(Occupants(s))[item] == 1
  {
    if s != [] {
      forall j, j' | 0 <= j < |s[1..]| && 0 <= j' < |s[1..]| && s[1..][j] == Some(item) && s[1..][j'] == Some(item)
        ensures j == j'
      {
        assert s[j + 1] == s[1..][j] && s[j' + 1] == s[1..][j'];
      }
      OccupantsOnce(s[1..], item);
      if s[0] == Some(item) {
        assert Some(item) !in s[1..] by {
          forall j | 0 <= j < |s[1..]| ensures s[1..][j] != Some(item) {
            assert s[j + 1] == s[1..][j];
          }
        }
      }
      if Some(item) in s && s[0] != Some(item) {
        var j :| 0 <= j < |s| && s[j] == Some(item);
        assert s[1..][j - 1] == s[j];
      }
    }
  }

  /** The linear indices of the listed cells exist and are pairwise distinct. */
  ghost predicate DistinctCells(width: nat, height: nat, coords: seq<(nat, nat)>)
  {
    (forall k :: 0 <= k < |coords| ==> CellIndex(width, height, coords[k].0, coords[k].1).Some?) &&
    (forall k, k' :: 0 <= k < k' < |coords| ==>
      CellIndex(width, height, coords[k].0, coords[k].1) != CellIndex(width, height, coords[k'].0, coords[k'].1))
  }

  lemma {:induction false} GatherOnce(width: nat, height: nat, grid: seq<Slots>, coords: seq<(nat, nat)>, item: Entity)
    requires |grid| == width * height
    requires DistinctCells(width, height, coords)
    requires HeldAtMostOnce(grid, item)
    ensures multiset(Gather(width, height, grid, coords))[item] <= 1
  {
    if coords != [] {
      var rest := coords[1..];
      assert DistinctCells(width, height, rest) by {
        forall k | 0 <= k < |rest| ensures CellIndex(width, height, rest[k].0, rest[k].1).Some? {
          assert rest[k] == coords[k + 1];
        }
        forall k, k' | 0 <= k < k' < |rest|
          ensures CellIndex(width, height, rest[k].0, rest[k].1) != CellIndex(width, height, rest[k'].0, rest[k'].1)
        {
          assert rest[k] == coords[k + 1] && rest[k'] == coords[k' + 1];
        }
      }
      GatherOnce(width, height, grid, rest, item);
      var i := CellIndex(width, height, coords[0].0, coords[0].1).value;
      OccupantsOnce(grid[i], item);
      if Some(item) in grid[i] {
        var j :| 0 <= j < |grid[i]| && grid[i][j] == Some(item);
        forall k | 0 <= k < |rest| ensures !Occupies(width, height, grid, rest[k].0, rest[k].1, item) {
          assert rest[k] == coords[k + 1];
          var i' := CellIndex(width, height, rest[k].0, rest[k].1).value;
          assert i' != i;
        }
        GatherMembers(width, height, grid, rest, item);
      }
    }
  }

  /**
   * Each occupant around a cell inside the grid is reported once: if the
   * entity holds at most one slot of the grid, it appears at most once among
   * the neighbours, and exactly once when it is among them at all.
   */
  lemma NeighborsReportEachOnce(width: nat, height: nat, grid: seq<Slots>, x: nat, y: nat, item: Entity)
    requires x < width && y < height && |grid| == width * height
    requires HeldAtMostOnce(grid, item)
    ensures multiset(Neighbors(width, height, grid, x, y))[item] <= 1
    ensures item in Neighbors(width, height, grid, x, y) ==> multiset(Neighbors(width, height, grid, x, y))[item] == 1
  {
    var cells := NeighboringCells(width, height, x, y);
    forall k | 0 <= k < |cells| ensures cells[k].0 < width && cells[k].1 < height {
      NeighboringCellsMembers(width, height, x, y, cells[k]);
    }
    NeighboringCellsOrdered(width, height, x, y);
    forall k | 0 <= k < |cells| ensures CellIndex(width, height, cells[k].0, cells[k].1).Some? {
      CellIndexInRange(width, height, cells[k].0, cells[k].1);
    }
    forall k, k' | 0 <= k < k' < |cells|
      ensures CellIndex(width, height, cells[k].0, cells[k].1) != CellIndex(width, height, cells[k'].0, cells[k'].1)
    {
      assert LexBefore(cells[k], cells[k']);
      CellIndexInjective(width, height, cells[k].0, cells[k].1, cells[k'].0, cells[k'].1);
    }
    GatherOnce(width, height, grid, cells, item);
  }

  // ---------------------------------------------------------------------
  // The grid, as a value
  // ---------------------------------------------------------------------

  /** The result of `ProximityGrid::try_insert`: the coordinates when the index is valid and the cell had room. */
  function InsertOutcome(width: nat, height: nat, grid: seq<Slots>, x: nat, y: nat): (r: Option<(nat, nat)>)
    requires |grid| == width * height
    ensures r.Some? ==> r.value == (x, y)
    ensures r.Some? <==> (CellIndex(width, height, x, y).Some? &&
      OccupiedCount(grid[CellIndex(width, height, x, y).value]) < |grid[CellIndex(width, height, x, y).value]|)
  {
    match CellIndex(width, height, x, y)
    case None => None
    case Some(i) =>
      FullIffCountIsCapacity(grid[i]);
      if FirstFree(grid[i]).Some? then Some((x, y)) else None
  }

  /** The grid after `ProximityGrid::try_insert`: only the addressed cell can change. */
  function GridInserted(width: nat, height: nat, grid: seq<Slots>, item: Entity, x: nat, y: nat): (r: seq<Slots>)
    requires |grid| == width * height
    ensures |r| == |grid|
    ensures InsertOutcome(width, height, grid, x, y).None? ==> r == grid
    ensures forall j :: 0 <= j < |grid| && CellIndex(width, height, x, y) != Some(j) ==> r[j] == grid[j]
  {
    match CellIndex(width, height, x, y)
    case None => grid
    case Some(i) => grid[i := Inserted(grid[i], item)]
  }

  /** The result of `ProximityGrid::try_remove`: true iff the index is valid and the item was in that cell. */
  function RemoveOutcome(width: nat, height: nat, grid: seq<Slots>, item: Entity, x: nat, y: nat): (r: bool)
    requires |grid| == width * height
    ensures r <==> Occupies(width, height, grid, x, y, item)
  {
    match CellIndex(width, height, x, y)
    case None => false
    case Some(i) => FirstHolding(grid[i], item).Some?
  }

  /** The grid after `ProximityGrid::try_remove`: out-of-range coordinates or a failed remove change nothing. */
  function GridRemoved(width: nat, height: nat, grid: seq<Slots>, item: Entity, x: nat, y: nat): (r: seq<Slots>)
    requires |grid| == width * height
    ensures |r| == |grid|
    ensures !RemoveOutcome(width, height, grid, item, x, y) ==> r == grid
    ensures forall j :: 0 <= j < |grid| && CellIndex(width, height, x, y) != Some(j) ==> r[j] == grid[j]
  {
    match CellIndex(width, height, x, y)
    case None => grid
    case Some(i) => grid[i := Removed(grid[i], item)]
  }

  /**
   * A successful grid insert at `(x, y)` followed by a remove of the same item
   * at `(x, y)` reports success and gives back that cell's multiset of
   * occupants; no other cell changes.
   */
  lemma GridInsertThenRemove(width: nat, height: nat, grid: seq<Slots>, item: Entity, x: nat, y: nat)
    requires |grid| == width * height
    requires InsertOutcome(width, height, grid, x, y).Some?
    ensures RemoveOutcome(width, height, GridInserted(width, height, grid, item, x, y), item, x, y)
    ensures var after := GridRemoved(width, height, GridInserted(width, height, grid, item, x, y), item, x, y);
      var i := CellIndex(width, height, x, y).value;
      multiset(Occupants(after[i])) == multiset(Occupants(grid[i])) &&
      forall j :: 0 <= j < |grid| && j != i ==> after[j] == grid[j]
  {
    var i := CellIndex(width, height, x, y).value;
    InsertThenRemoveRestores(grid[i], item);
  }

  /** A successful grid insert raises the addressed cell's count by one. */
  lemma GridInsertCounts(width: nat, height: nat, grid: seq<Slots>, item: Entity, x: nat, y: nat)
    requires |grid| == width * height
    requires InsertOutcome(width, height, grid, x, y).Some?
    ensures var i := CellIndex(width, height, x, y).value;
      OccupiedCount(GridInserted(width, height, grid, item, x, y)[i]) == OccupiedCount(grid[i]) + 1
  {
    InsertedCount(grid[CellIndex(width, height, x, y).value], item);
  }

  /** `n` fresh default cells, each with its own slot array. */
  method NewCells(n: nat) returns (made: seq<Cell>)
    ensures |made| == n
    ensures forall i :: 0 <= i < n ==> fresh(made[i].slots)
    ensures forall i :: 0 <= i < n ==> made[i].slots[..] == EmptySlots(SLOT_COUNT)
    ensures forall i, j :: 0 <= i < j < n ==> made[i].slots != made[j].slots
  {
    made := [];
    while |made| < n
      invariant |made| <= n
      invariant forall i :: 0 <= i < |made| ==> fresh(made[i].slots)
      invariant forall i :: 0 <= i < |made| ==> made[i].slots[..] == EmptySlots(SLOT_COUNT)
      invariant forall i, j :: 0 <= i < j < |made| ==> made[i].slots != made[j].slots
    {
      var cell := new Cell(SLOT_COUNT);
      made := made + [cell];
    }
  }

  // ---------------------------------------------------------------------
  // Grid: `ProximityGrid`, an array of cells updated in place
  // ---------------------------------------------------------------------

  class Grid {
    const width: nat
    const height: nat
    const cells: array<Cell>
    /** The slots of each cell, by linear index. */
    ghost var Contents: seq<Slots>
    ghost const Repr: set<object>

    ghost predicate Valid()
      reads this, Repr
    {
      this in Repr && cells in Repr &&
      cells.Length == width * height &&
      |Contents| == cells.Length &&
      (forall i :: 0 <= i < cells.Length ==> cells[i].slots in Repr) &&
      (forall i, j :: 0 <= i < j < cells.Length ==> cells[i].slots != cells[j].slots) &&
      (forall i :: 0 <= i < cells.Length ==> cells[i].slots[..] == Contents[i]) &&
      (forall i :: 0 <= i < cells.Length ==> |Contents[i]| == SLOT_COUNT)
    }

    /** `new`: `width * height` cells, all empty. */
    constructor (width: nat, height: nat)
      ensures Valid() && fresh(Repr)
      ensures this.width == width && this.height == height
      ensures Contents == seq(width * height, _ => EmptySlots(SLOT_COUNT))
    {
      var made := NewCells(width * height);
      this.width := width;
      this.height := height;
      cells := new Cell[width * height](i requires 0 <= i < |made| => made[i]);
      Contents := seq(width * height, _ => EmptySlots(SLOT_COUNT));
      Repr := {this, cells} + set i | 0 <= i < |made| :: made[i].slots;
    }

    /** `try_insert`: `Some((x, y))` when the index is valid and the cell had a free slot. */
    method TryInsert(item: Entity, x: nat, y: nat) returns (r: Option<(nat, nat)>)
      requires Valid()
      modifies Repr
      ensures Valid()
      ensures r == InsertOutcome(width, height, old(Contents), x, y)
      ensures Contents == GridInserted(width, height, old(Contents), item, x, y)
    {
      match CellIndex(width, height, x, y)
      case None =>
        r := None;
      case Some(index) =>
        var slot := cells[index].TryInsert(item);
        Contents := Contents[index := cells[index].slots[..]];
        r := if slot.Some? then Some((x, y)) else None;
    }

    /** `try_remove`: false for out-of-range coordinates or when the item is not in that cell. */
    method TryRemove(item: Entity, x: nat, y: nat) returns (removed: bool)
      requires Valid()
      modifies Repr
      ensures Valid()
      ensures removed == RemoveOutcome(width, height, old(Contents), item, x, y)
      ensures Contents == GridRemoved(width, height, old(Contents), item, x, y)
    {
      match CellIndex(width, height, x, y)
      case None =>
        removed := false;
      case Some(index) =>
        removed := cells[index].TryRemove(item);
        Contents := Contents[index := cells[index].slots[..]];
    }
  }

  /** The component recording where an entity was inserted, if anywhere. */
  datatype ProximityGridStatus = ProximityGridStatus(insertedAt: Option<(nat, nat)>)
}
