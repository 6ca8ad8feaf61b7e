/**
 The viewer's bookkeeping: the pinch-zoom clamp, and the layout pass that
 reconciles the cells displayed so far with the window of grid positions that
 must now be on screen, reusing cells that scrolled out of the window before
 allocating new ones.

 Cells are abstract ids handed out by a counter. Adding a cell to the view and
 removing it from the view change the set `subviews`; each `reload` of a cell is
 appended to `reloadLog` together with the position the cell was just bound to.
 */
module ImageViewer {
  import opened Positions

  // ---------------------------------------------------------------------------
  // Zoom
  // ---------------------------------------------------------------------------

  const MinScale: real := 0.5
  const MaxScale: real := 4.0

  function Min(a: real, b: real): real { if a <= b then a else b }
  function Max(a: real, b: real): real { if a >= b then a else b }

  /** `min(hi, max(lo, x))`: `x` brought into `[lo, hi]` by moving it to the
      nearer bound when it lies outside. */
  function Clamp(lo: real, hi: real, x: real): (r: real)
    ensures lo <= hi ==> lo <= r <= hi
    ensures lo <= x <= hi ==> r == x
    ensures lo <= hi && x < lo ==> r == lo
    ensures lo <= hi && hi < x ==> r == hi
  {
    Min(hi, Max(lo, x))
  }

  /** The states a gesture recognizer reports to its action. */
  datatype GestureState = Possible | Began | Changed | Ended | Cancelled | Failed {
    predicate IsFinished() { Ended? || Cancelled? || Failed? }
  }

  // ---------------------------------------------------------------------------
  // Windows of grid positions
  // ---------------------------------------------------------------------------

  /** Swift's half-open `lo..<hi`. */
  datatype IntRange = IntRange(lo: int, hi: int) {
    /** The pattern match `range ~= x`. */
    predicate Contains(x: int) { lo <= x < hi }
  }

  predicate InWindow(position: GridPosition, columnsRange: IntRange, rowsRange: IntRange) {
    columnsRange.Contains(position.column) && rowsRange.Contains(position.row)
  }

  /** The positions `columnsRange` x `rowsRange`. */
  ghost function Window(columnsRange: IntRange, rowsRange: IntRange): set<GridPosition> {
    set c, r | columnsRange.lo <= c < columnsRange.hi && rowsRange.lo <= r < rowsRange.hi :: GridPosition(c, r)
  }

  /** The positions of one column of a window. */
  ghost function WindowColumn(column: int, rowsRange: IntRange): set<GridPosition> {
    set r | rowsRange.lo <= r < rowsRange.hi :: GridPosition(column, r)
  }

  lemma WindowMembership(position: GridPosition, columnsRange: IntRange, rowsRange: IntRange)
    ensures position in Window(columnsRange, rowsRange) <==> InWindow(position, columnsRange, rowsRange)
  {
    if InWindow(position, columnsRange, rowsRange) {
      var c, r := position.column, position.row;
      assert GridPosition(c, r) in Window(columnsRange, rowsRange);
    }
  }

  lemma {:induction false} WindowColumnSize(column: int, rowsRange: IntRange)
    requires rowsRange.lo <= rowsRange.hi
    ensures |WindowColumn(column, rowsRange)| == rowsRange.hi - rowsRange.lo
    decreases rowsRange.hi - rowsRange.lo
  {
    if rowsRange.lo < rowsRange.hi {
      var shorter := IntRange(rowsRange.lo, rowsRange.hi - 1);
      WindowColumnSize(column, shorter);
      assert WindowColumn(column, rowsRange) ==
        WindowColumn(column, shorter) + {GridPosition(column, rowsRange.hi - 1)};
    } else {
      assert WindowColumn(column, rowsRange) == {};
    }
  }

  /** A window is its last column added to the window without it. */
  lemma WindowSplit(columnsRange: IntRange, rowsRange: IntRange)
    requires columnsRange.lo < columnsRange.hi
    ensures Window(columnsRange, rowsRange) ==
      Window(IntRange(columnsRange.lo, columnsRange.hi - 1), rowsRange) + WindowColumn(columnsRange.hi - 1, rowsRange)
    ensures Window(IntRange(columnsRange.lo, columnsRange.hi - 1), rowsRange) !! WindowColumn(columnsRange.hi - 1, rowsRange)
  {
    var narrower := IntRange(columnsRange.lo, columnsRange.hi - 1);
    forall p | p in Window(columnsRange, rowsRange)
      ensures p in Window(narrower, rowsRange) || p in WindowColumn(columnsRange.hi - 1, rowsRange)
    {
      if p.column < columnsRange.hi - 1 {
        assert GridPosition(p.column, p.row) in Window(narrower, rowsRange);
      } else {
        assert GridPosition(columnsRange.hi - 1, p.row) in WindowColumn(columnsRange.hi - 1, rowsRange);
      }
    }
    forall p | p in Window(narrower, rowsRange) + WindowColumn(columnsRange.hi - 1, rowsRange)
      ensures p in Window(columnsRange, rowsRange)
    {
      assert GridPosition(p.column, p.row) in Window(columnsRange, rowsRange);
    }
  }

  /** A window holds exactly (number of columns) x (number of rows) positions. */
  lemma {:induction false} WindowSize(columnsRange: IntRange, rowsRange: IntRange)
    requires columnsRange.lo <= columnsRange.hi && rowsRange.lo <= rowsRange.hi
    ensures |Window(columnsRange, rowsRange)| ==
      (columnsRange.hi - columnsRange.lo) * (rowsRange.hi - rowsRange.lo)
    decreases columnsRange.hi - columnsRange.lo
  {
    var width, height := columnsRange.hi - columnsRange.lo, rowsRange.hi - rowsRange.lo;
    if width > 0 {
      var narrower := IntRange(columnsRange.lo, columnsRange.hi - 1);
      WindowSize(narrower, rowsRange);
      WindowColumnSize(columnsRange.hi - 1, rowsRange);
      WindowSplit(columnsRange, rowsRange);
      MulStep(width, height);
    } else {
      assert Window(columnsRange, rowsRange) == {};
    }
  }

  lemma MulStep(width: int, height: int)
    ensures (width - 1) * height + height == width * height
  {
  }

  // ---------------------------------------------------------------------------
  // Cells and their bindings
  // ---------------------------------------------------------------------------

  /** A cell, identified by the number of cells allocated before it. */
  type CellId = int

  /** One `cell.reload()`, with the position the cell was just bound to. */
  datatype Reload = Reload(cell: CellId, position: GridPosition)

  /** No cell is bound to two positions. */
  ghost predicate Injective(m: map<GridPosition, CellId>) {
    forall p, q :: p in m && q in m && p != q ==> m[p] != m[q]
  }

  /** The entries of `m` whose position lies outside the window: the pool. */
  ghost function Outside(m: map<GridPosition, CellId>, columnsRange: IntRange, rowsRange: IntRange)
    : map<GridPosition, CellId>
  {
    map p | p in m && !InWindow(p, columnsRange, rowsRange) :: m[p]
  }

  /** The entries of `m` whose position lies inside the window. */
  ghost function Inside(m: map<GridPosition, CellId>, columnsRange: IntRange, rowsRange: IntRange)
    : map<GridPosition, CellId>
  {
    map p | p in m && InWindow(p, columnsRange, rowsRange) :: m[p]
  }

  /** The window positions that had no cell. */
  ghost function NewPositions(m: map<GridPosition, CellId>, columnsRange: IntRange, rowsRange: IntRange)
    : set<GridPosition>
  {
    Window(columnsRange, rowsRange) - m.Keys
  }

  /** `pass` reloads every position of `positions` exactly once, and nothing else,
      each time with the cell `cells` binds to that position. */
  ghost predicate ReloadsExactly(pass: seq<Reload>, positions: set<GridPosition>, cells: map<GridPosition, CellId>) {
    && (forall i :: 0 <= i < |pass| ==>
          pass[i].position in positions && pass[i].position in cells && cells[pass[i].position] == pass[i].cell)
    && (forall i, j :: 0 <= i < j < |pass| ==> pass[i].position != pass[j].position)
    && (forall p :: p in positions ==> exists i :: 0 <= i < |pass| && pass[i].position == p)
  }

  /** `max(0, a - b)`. */
  function PositiveDifference(a: int, b: int): int {
    if a > b then a - b else 0
  }

  lemma ValuesOfInsert(m: map<GridPosition, CellId>, p: GridPosition, v: CellId)
    requires p !in m
    ensures m[p := v].Values == m.Values + {v}
  {
    assert m[p := v][p] == v;
    forall w | w in m.Values ensures w in m[p := v].Values {
      var q :| q in m && m[q] == w;
      assert m[p := v][q] == w;
    }
  }

  lemma ValuesOfRemove(m: map<GridPosition, CellId>, k: GridPosition)
    requires Injective(m) && k in m
    ensures (m - {k}).Values == m.Values - {m[k]}
  {
    forall w | w in m.Values - {m[k]} ensures w in (m - {k}).Values {
      var q :| q in m && m[q] == w;
      assert (m - {k})[q] == w;
    }
  }

  /** An injective map has as many distinct values as keys. */
  lemma {:induction false} InjectiveValuesCount(m: map<GridPosition, CellId>)
    requires Injective(m)
    ensures |m.Values| == |m|
    decreases |m|
  {
    if m != map[] {
      var k :| k in m;
      var rest := m - {k};
      assert Injective(rest);
      InjectiveValuesCount(rest);
      ValuesOfRemove(m, k);
      assert m.Keys == rest.Keys + {k};
    } else {
      assert m.Values == {};
    }
  }

  // ---------------------------------------------------------------------------
  // What the fill loop of the layout pass keeps
  // ---------------------------------------------------------------------------

  /** The bindings so far: the cells kept from `start`, plus the positions
      `added` in this pass, each reloaded once (`pass`). */
  ghost predicate BindingsSoFar(
    cells: map<GridPosition, CellId>, start: map<GridPosition, CellId>, window: set<GridPosition>,
    added: set<GridPosition>, pass: seq<Reload>)
  {
    && cells.Keys == start.Keys + added
    && added !! start.Keys && added <= window
    && (forall p :: p in start ==> cells[p] == start[p])
    && ReloadsExactly(pass, added, cells)
  }

  lemma BindingsStep(
    cells: map<GridPosition, CellId>, start: map<GridPosition, CellId>, window: set<GridPosition>,
    added: set<GridPosition>, pass: seq<Reload>, position: GridPosition, cell: CellId)
    requires BindingsSoFar(cells, start, window, added, pass)
    requires position !in cells && position in window
    ensures BindingsSoFar(cells[position := cell], start, window, added + {position}, pass + [Reload(cell, position)])
  {
    var cells', pass' := cells[position := cell], pass + [Reload(cell, position)];
    assert pass'[|pass|] == Reload(cell, position);
    forall i | 0 <= i < |pass| ensures pass'[i] == pass[i] && pass[i].position != position {
    }
    forall p | p in added + {position} ensures exists i :: 0 <= i < |pass'| && pass'[i].position == p {
      if p == position {
        assert pass'[|pass|].position == p;
      } else {
        var i :| 0 <= i < |pass| && pass[i].position == p;
        assert pass'[i].position == p;
      }
    }
  }

  /** The counting so far: cells taken from the pool plus cells allocated are
      the positions bound, and cells are allocated only once the pool is empty. */
  ghost predicate PoolSoFar(
    pool0: map<GridPosition, CellId>, pool: map<GridPosition, CellId>,
    firstId: CellId, nextId: CellId, added: set<GridPosition>)
  {
    && (forall k :: k in pool ==> k in pool0 && pool[k] == pool0[k])
    && firstId <= nextId
    && |added| == (|pool0| - |pool|) + (nextId - firstId)
    && (nextId > firstId ==> pool == map[])
  }

  /** Where the cells bound in this pass come from: each newly bound cell came
      from the pool or is new, and every cell taken from the pool is bound. */
  ghost predicate ProvenanceSoFar(
    cells: map<GridPosition, CellId>, pool0: map<GridPosition, CellId>, pool: map<GridPosition, CellId>,
    firstId: CellId, nextId: CellId, added: set<GridPosition>)
  {
    && (forall p :: p in added ==>
          p in cells && (cells[p] in pool0.Values - pool.Values || firstId <= cells[p] < nextId))
    && (forall k :: k in pool0 && k !in pool ==> pool0[k] in cells.Values)
  }

  /** No cell is in two places, the view holds exactly the bound cells and the
      pool's, and every id in use was handed out. */
  ghost predicate PlacementSoFar(
    cells: map<GridPosition, CellId>, pool: map<GridPosition, CellId>, nextId: CellId, subviews: set<CellId>)
  {
    && Injective(cells) && Injective(pool) && cells.Values !! pool.Values
    && subviews == cells.Values + pool.Values
    && (forall p :: p in cells ==> cells[p] < nextId)
    && (forall k :: k in pool ==> pool[k] < nextId)
  }

  lemma TakeCountStep(
    pool0: map<GridPosition, CellId>, pool: map<GridPosition, CellId>,
    firstId: CellId, nextId: CellId, added: set<GridPosition>, position: GridPosition, key: GridPosition)
    requires PoolSoFar(pool0, pool, firstId, nextId, added)
    requires position !in added && key in pool
    ensures PoolSoFar(pool0, pool - {key}, firstId, nextId, added + {position})
  {
    assert (pool - {key}).Keys == pool.Keys - {key};
  }

  lemma TakeProvenanceStep(
    cells: map<GridPosition, CellId>, pool0: map<GridPosition, CellId>, pool: map<GridPosition, CellId>,
    firstId: CellId, nextId: CellId, added: set<GridPosition>, position: GridPosition, key: GridPosition)
    requires ProvenanceSoFar(cells, pool0, pool, firstId, nextId, added)
    requires forall k :: k in pool ==> k in pool0 && pool[k] == pool0[k]
    requires Injective(pool) && position !in cells && key in pool
    ensures ProvenanceSoFar(cells[position := pool[key]], pool0, pool - {key}, firstId, nextId, added + {position})
  {
    var cell := pool[key];
    var cells', pool' := cells[position := cell], pool - {key};
    ValuesOfRemove(pool, key);
    assert cell in pool0.Values - pool'.Values by {
      assert pool0[key] == cell;
    }
    forall k | k in pool0 && k !in pool' ensures pool0[k] in cells'.Values {
      if k == key {
        assert cells'[position] == cell;
      } else {
        var q :| q in cells && cells[q] == pool0[k];
        assert cells'[q] == pool0[k];
      }
    }
  }

  lemma TakePlacementStep(
    cells: map<GridPosition, CellId>, pool: map<GridPosition, CellId>, nextId: CellId, subviews: set<CellId>,
    position: GridPosition, key: GridPosition)
    requires PlacementSoFar(cells, pool, nextId, subviews)
    requires position !in cells && key in pool
    ensures PlacementSoFar(cells[position := pool[key]], pool - {key}, nextId, subviews)
  {
    ValuesOfRemove(pool, key);
    ValuesOfInsert(cells, position, pool[key]);
  }

  lemma AllocateProvenanceStep(
    cells: map<GridPosition, CellId>, pool0: map<GridPosition, CellId>, pool: map<GridPosition, CellId>,
    firstId: CellId, nextId: CellId, added: set<GridPosition>, position: GridPosition)
    requires ProvenanceSoFar(cells, pool0, pool, firstId, nextId, added)
    requires firstId <= nextId && position !in cells
    ensures ProvenanceSoFar(cells[position := nextId], pool0, pool, firstId, nextId + 1, added + {position})
  {
    var cells' := cells[position := nextId];
    forall k | k in pool0 && k !in pool ensures pool0[k] in cells'.Values {
      var q :| q in cells && cells[q] == pool0[k];
      assert cells'[q] == pool0[k];
    }
  }

  lemma AllocatePlacementStep(
    cells: map<GridPosition, CellId>, pool: map<GridPosition, CellId>, nextId: CellId, subviews: set<CellId>,
    position: GridPosition)
    requires PlacementSoFar(cells, pool, nextId, subviews)
    requires position !in cells && pool == map[]
    ensures PlacementSoFar(cells[position := nextId], pool, nextId + 1, subviews + {nextId})
  {
    ValuesOfInsert(cells, position, nextId);
    assert pool.Values == {};
  }

  /** The columns `columnsRange.lo` up to `column` of the window are filled. */
  ghost predicate ColumnsCovered(
    cells: map<GridPosition, CellId>, columnsRange: IntRange, rowsRange: IntRange, column: int)
  {
    forall c, r :: columnsRange.lo <= c < column && rowsRange.lo <= r < rowsRange.hi ==>
      GridPosition(c, r) in cells
  }

  /** The rows `rowsRange.lo` up to `row` of `column` are filled. */
  ghost predicate RowsCovered(cells: map<GridPosition, CellId>, column: int, rowsRange: IntRange, row: int) {
    forall r :: rowsRange.lo <= r < row ==> GridPosition(column, r) in cells
  }

  lemma CoverageGrows(
    cells: map<GridPosition, CellId>, cells': map<GridPosition, CellId>,
    columnsRange: IntRange, rowsRange: IntRange, column: int, row: int)
    requires cells.Keys <= cells'.Keys
    requires ColumnsCovered(cells, columnsRange, rowsRange, column)
    requires RowsCovered(cells, column, rowsRange, row)
    ensures ColumnsCovered(cells', columnsRange, rowsRange, column)
    ensures RowsCovered(cells', column, rowsRange, row)
  {
  }

  lemma RowCovered(cells: map<GridPosition, CellId>, column: int, rowsRange: IntRange, row: int)
    requires RowsCovered(cells, column, rowsRange, row)
    requires GridPosition(column, row) in cells
    ensures RowsCovered(cells, column, rowsRange, row + 1)
  {
  }

  lemma ColumnCovered(cells: map<GridPosition, CellId>, columnsRange: IntRange, rowsRange: IntRange, column: int)
    requires ColumnsCovered(cells, columnsRange, rowsRange, column)
    requires RowsCovered(cells, column, rowsRange, rowsRange.hi)
    ensures ColumnsCovered(cells, columnsRange, rowsRange, column + 1)
  {
  }

  /** Once every column is covered, the bound positions are the window, and
      those added are exactly the window positions that had no cell. */
  lemma WindowFilled(
    cells: map<GridPosition, CellId>, start: map<GridPosition, CellId>,
    columnsRange: IntRange, rowsRange: IntRange, added: set<GridPosition>, pass: seq<Reload>)
    requires ColumnsCovered(cells, columnsRange, rowsRange, columnsRange.hi)
    requires BindingsSoFar(cells, start, Window(columnsRange, rowsRange), added, pass)
    requires forall p :: p in start ==> InWindow(p, columnsRange, rowsRange)
    ensures cells.Keys == Window(columnsRange, rowsRange)
    ensures added == NewPositions(start, columnsRange, rowsRange)
  {
    forall p | p in Window(columnsRange, rowsRange) ensures p in cells {
      WindowMembership(p, columnsRange, rowsRange);
    }
    forall p | p in start ensures p in Window(columnsRange, rowsRange) {
      WindowMembership(p, columnsRange, rowsRange);
    }
  }

  /** Splitting the cells at the window: the two halves are disjoint, together
      they hold every cell, and a position has a cell after the split exactly
      when it had one before. */
  lemma SplitAtWindow(m: map<GridPosition, CellId>, columnsRange: IntRange, rowsRange: IntRange)
    requires Injective(m)
    ensures Injective(Inside(m, columnsRange, rowsRange)) && Injective(Outside(m, columnsRange, rowsRange))
    ensures Inside(m, columnsRange, rowsRange).Values !! Outside(m, columnsRange, rowsRange).Values
    ensures m.Values == Inside(m, columnsRange, rowsRange).Values + Outside(m, columnsRange, rowsRange).Values
    ensures NewPositions(Inside(m, columnsRange, rowsRange), columnsRange, rowsRange) ==
      NewPositions(m, columnsRange, rowsRange)
  {
    var inside, outside := Inside(m, columnsRange, rowsRange), Outside(m, columnsRange, rowsRange);
    forall v | v in m.Values ensures v in inside.Values || v in outside.Values {
      var p :| p in m && m[p] == v;
      if InWindow(p, columnsRange, rowsRange) {
        assert inside[p] == v;
      } else {
        assert outside[p] == v;
      }
    }
    forall p | p in NewPositions(m, columnsRange, rowsRange)
      ensures p in NewPositions(inside, columnsRange, rowsRange)
    {
    }
    forall p | p in NewPositions(inside, columnsRange, rowsRange)
      ensures p in NewPositions(m, columnsRange, rowsRange)
    {
      WindowMembership(p, columnsRange, rowsRange);
    }
  }

  /** After the fill, the cells that are no longer shown are exactly the pool
      cells left over, and each pool cell is still shown exactly when a position
      that had no cell took it. */
  lemma RemovedAreLeftover(
    before: map<GridPosition, CellId>, cells: map<GridPosition, CellId>, leftover: map<GridPosition, CellId>,
    columnsRange: IntRange, rowsRange: IntRange)
    requires Injective(before)
    requires cells.Keys == Window(columnsRange, rowsRange)
    requires forall p :: p in Inside(before, columnsRange, rowsRange) ==> p in cells && cells[p] == before[p]
    requires forall k :: k in leftover ==> k in before && !InWindow(k, columnsRange, rowsRange) && leftover[k] == before[k]
    requires forall k :: k in Outside(before, columnsRange, rowsRange) && k !in leftover ==> before[k] in cells.Values
    requires cells.Values !! leftover.Values
    ensures before.Values - cells.Values == leftover.Values
    ensures forall p :: p in Outside(before, columnsRange, rowsRange) ==>
      (before[p] in cells.Values <==>
        exists q :: q in NewPositions(before, columnsRange, rowsRange) && cells[q] == before[p])
  {
    forall v | v in before.Values - cells.Values ensures v in leftover.Values {
      var k :| k in before && before[k] == v;
      assert k !in Inside(before, columnsRange, rowsRange);
      assert k in Outside(before, columnsRange, rowsRange);
      assert leftover[k] == v;
    }
    forall v | v in leftover.Values ensures v in before.Values {
      var k :| k in leftover && leftover[k] == v;
      assert before[k] == v;
    }
    forall p | p in Outside(before, columnsRange, rowsRange) && before[p] in cells.Values
      ensures exists q :: q in NewPositions(before, columnsRange, rowsRange) && cells[q] == before[p]
    {
      var q :| q in cells && cells[q] == before[p];
      WindowMembership(q, columnsRange, rowsRange);
      assert q !in Inside(before, columnsRange, rowsRange);
      assert q in NewPositions(before, columnsRange, rowsRange);
    }
  }

  /** The counts of `layoutSubviews`: as many cells are allocated as the new
      positions outnumber the pool, and as many are removed as the pool
      outnumbers the new positions. */
  lemma LayoutCounts(newCount: int, poolCount: int, leftCount: int, newIds: int)
    requires 0 <= leftCount && 0 <= newIds
    requires newCount == (poolCount - leftCount) + newIds
    requires newIds > 0 ==> leftCount == 0
    ensures newIds == PositiveDifference(newCount, poolCount)
    ensures leftCount == PositiveDifference(poolCount, newCount)
  {
  }

  /** After the fill, the window positions that had a cell keep it, and every
      other window position has a cell from the pool or a new one. */
  lemma KeptAndNew(
    before: map<GridPosition, CellId>, start: map<GridPosition, CellId>, pool0: map<GridPosition, CellId>,
    cells: map<GridPosition, CellId>, leftover: map<GridPosition, CellId>,
    columnsRange: IntRange, rowsRange: IntRange, firstId: CellId, nextId: CellId)
    requires start == Inside(before, columnsRange, rowsRange) && pool0 == Outside(before, columnsRange, rowsRange)
    requires cells.Keys == Window(columnsRange, rowsRange)
    requires forall p :: p in start ==> p in cells && cells[p] == start[p]
    requires forall p :: p in cells && p !in start ==>
      cells[p] in pool0.Values - leftover.Values || firstId <= cells[p] < nextId
    ensures NewPositions(start, columnsRange, rowsRange) == NewPositions(before, columnsRange, rowsRange)
    ensures forall p :: p in before && InWindow(p, columnsRange, rowsRange) ==> p in cells && cells[p] == before[p]
    ensures forall q :: q in NewPositions(before, columnsRange, rowsRange) ==>
      cells[q] in pool0.Values || firstId <= cells[q] < nextId
  {
    forall p | p in before && InWindow(p, columnsRange, rowsRange)
      ensures p in cells && cells[p] == before[p]
    {
      assert p in start;
    }
    forall p | p in NewPositions(start, columnsRange, rowsRange)
      ensures p in NewPositions(before, columnsRange, rowsRange)
    {
      WindowMembership(p, columnsRange, rowsRange);
    }
  }

  /** What `layoutSubviews` leaves behind, given what the fill of the window
      (from the cells `start` inside it and the pool `pool0` outside it) and the
      discard of the leftover pool cells guarantee. */
  lemma LayoutOutcome(
    before: map<GridPosition, CellId>, start: map<GridPosition, CellId>, pool0: map<GridPosition, CellId>,
    cells: map<GridPosition, CellId>, leftover: map<GridPosition, CellId>,
    columnsRange: IntRange, rowsRange: IntRange, firstId: CellId, nextId: CellId,
    filled: set<CellId>, subviews: set<CellId>)
    requires Injective(before)
    requires start == Inside(before, columnsRange, rowsRange) && pool0 == Outside(before, columnsRange, rowsRange)
    requires columnsRange.lo <= columnsRange.hi && rowsRange.lo <= rowsRange.hi
    requires cells.Keys == Window(columnsRange, rowsRange)
    requires forall p :: p in start ==> p in cells && cells[p] == start[p]
    requires forall k :: k in leftover ==> k in pool0 && leftover[k] == pool0[k]
    requires |NewPositions(start, columnsRange, rowsRange)| == (|pool0| - |leftover|) + (nextId - firstId)
    requires firstId <= nextId
    requires nextId > firstId ==> leftover == map[]
    requires forall k :: k in pool0 && k !in leftover ==> pool0[k] in cells.Values
    requires Injective(cells) && Injective(leftover) && cells.Values !! leftover.Values
    requires filled == cells.Values + leftover.Values
    requires subviews == filled - leftover.Values
    ensures subviews == cells.Values
    ensures |cells| == |subviews| == (columnsRange.hi - columnsRange.lo) * (rowsRange.hi - rowsRange.lo)
    ensures nextId - firstId == PositiveDifference(
      |NewPositions(before, columnsRange, rowsRange)|, |pool0|)
    ensures before.Values - subviews <= pool0.Values
    ensures |before.Values - subviews| == PositiveDifference(|pool0|, |NewPositions(before, columnsRange, rowsRange)|)
    ensures forall p :: p in pool0 ==>
      (before[p] in subviews <==>
        exists q :: q in NewPositions(before, columnsRange, rowsRange) && cells[q] == before[p])
  {
    SplitAtWindow(before, columnsRange, rowsRange);
    assert subviews == cells.Values;
    RemovedAreLeftover(before, cells, leftover, columnsRange, rowsRange);
    LayoutCounts(|NewPositions(before, columnsRange, rowsRange)|, |pool0|, |leftover|, nextId - firstId);
    InjectiveValuesCount(cells);
    InjectiveValuesCount(leftover);
    WindowSize(columnsRange, rowsRange);
  }

  /** Before the fill loops nothing has been added, taken or allocated. */
  lemma FillStart(
    cells: map<GridPosition, CellId>, columnsRange: IntRange, rowsRange: IntRange,
    pool0: map<GridPosition, CellId>, nextId: CellId, subviews: set<CellId>)
    requires forall p :: p in cells ==> InWindow(p, columnsRange, rowsRange)
    requires Injective(cells) && Injective(pool0) && cells.Values !! pool0.Values
    requires subviews == cells.Values + pool0.Values
    requires forall p :: p in cells ==> cells[p] < nextId
    requires forall p :: p in pool0 ==> pool0[p] < nextId
    ensures BindingsSoFar(cells, cells, Window(columnsRange, rowsRange), {}, [])
    ensures PoolSoFar(pool0, pool0, nextId, nextId, {})
    ensures ProvenanceSoFar(cells, pool0, pool0, nextId, nextId, {})
    ensures PlacementSoFar(cells, pool0, nextId, subviews)
  {
  }

  /** What the fill loops leave behind, once every column is covered. */
  lemma FillOutcome(
    cells: map<GridPosition, CellId>, start: map<GridPosition, CellId>,
    columnsRange: IntRange, rowsRange: IntRange,
    pool0: map<GridPosition, CellId>, pool: map<GridPosition, CellId>, firstId: CellId, nextId: CellId,
    subviews: set<CellId>, added: set<GridPosition>, pass: seq<Reload>)
    requires ColumnsCovered(cells, columnsRange, rowsRange, columnsRange.hi)
    requires BindingsSoFar(cells, start, Window(columnsRange, rowsRange), added, pass)
    requires PoolSoFar(pool0, pool, firstId, nextId, added)
    requires ProvenanceSoFar(cells, pool0, pool, firstId, nextId, added)
    requires PlacementSoFar(cells, pool, nextId, subviews)
    requires forall p :: p in start ==> InWindow(p, columnsRange, rowsRange)
    ensures cells.Keys == Window(columnsRange, rowsRange)
    ensures forall p :: p in start ==> p in cells && cells[p] == start[p]
    ensures forall k :: k in pool ==> k in pool0 && pool[k] == pool0[k]
    ensures ReloadsExactly(pass, NewPositions(start, columnsRange, rowsRange), cells)
    ensures firstId <= nextId
    ensures |NewPositions(start, columnsRange, rowsRange)| == (|pool0| - |pool|) + (nextId - firstId)
    ensures nextId > firstId ==> pool == map[]
    ensures forall p :: p in cells && p !in start ==>
      cells[p] in pool0.Values - pool.Values || firstId <= cells[p] < nextId
    ensures forall k :: k in pool0 && k !in pool ==> pool0[k] in cells.Values
    ensures Injective(cells) && Injective(pool) && cells.Values !! pool.Values
    ensures subviews == cells.Values + pool.Values
    ensures forall p :: p in cells ==> cells[p] < nextId
  {
    WindowFilled(cells, start, columnsRange, rowsRange, added, pass);
  }

  lemma AppendSlices(a: seq<Reload>, b: seq<Reload>)
    ensures |a + b| >= |a| && (a + b)[..|a|] == a && (a + b)[|a|..] == b
  {
  }

  /** One position of the fill loop: binding `position` to a pool cell (under
      `key`) or, the pool being empty, to the new cell `nextId` keeps the whole
      invariant of the loop. */
  lemma BindStep(
    cells: map<GridPosition, CellId>, start: map<GridPosition, CellId>, window: set<GridPosition>,
    added: set<GridPosition>, pass: seq<Reload>, pool0: map<GridPosition, CellId>, pool: map<GridPosition, CellId>,
    firstId: CellId, nextId: CellId, views: set<CellId>, position: GridPosition,
    fromPool: bool, key: GridPosition)
    requires BindingsSoFar(cells, start, window, added, pass)
    requires PoolSoFar(pool0, pool, firstId, nextId, added)
    requires ProvenanceSoFar(cells, pool0, pool, firstId, nextId, added)
    requires PlacementSoFar(cells, pool, nextId, views)
    requires position !in cells && position in window
    requires if fromPool then key in pool else pool == map[]
    ensures var cell := if fromPool then pool[key] else nextId;
      var rest := if fromPool then pool - {key} else pool;
      var nextId' := if fromPool then nextId else nextId + 1;
      var views' := if fromPool then views else views + {nextId};
      && BindingsSoFar(cells[position := cell], start, window, added + {position}, pass + [Reload(cell, position)])
      && PoolSoFar(pool0, rest, firstId, nextId', added + {position})
      && ProvenanceSoFar(cells[position := cell], pool0, rest, firstId, nextId', added + {position})
      && PlacementSoFar(cells[position := cell], rest, nextId', views')
  {
    if fromPool {
      TakeCountStep(pool0, pool, firstId, nextId, added, position, key);
      TakeProvenanceStep(cells, pool0, pool, firstId, nextId, added, position, key);
      TakePlacementStep(cells, pool, nextId, views, position, key);
      BindingsStep(cells, start, window, added, pass, position, pool[key]);
    } else {
      AllocateProvenanceStep(cells, pool0, pool, firstId, nextId, added, position);
      AllocatePlacementStep(cells, pool, nextId, views, position);
      BindingsStep(cells, start, window, added, pass, position, nextId);
    }
  }

  // ---------------------------------------------------------------------------
  // The viewer
  // ---------------------------------------------------------------------------

  class InfinitelyScrollableImageViewer {
    var baseScale: real
    var scale: real
    var displayedCells: map<GridPosition, CellId>
    /** The cells currently added to the view. */
    var subviews: set<CellId>
    /** The id the next allocated cell gets. */
    var nextCellId: CellId
    var reloadLog: seq<Reload>

    ghost predicate Valid()
      reads this
    {
      && MinScale <= scale <= MaxScale
      && MinScale <= baseScale <= MaxScale
      && Injective(displayedCells)
      && subviews == displayedCells.Values
      && (forall p :: p in displayedCells ==> displayedCells[p] < nextCellId)
    }

    constructor ()
      ensures Valid()
      ensures scale == 1.0 && baseScale == 1.0
      ensures displayedCells == map[] && subviews == {} && reloadLog == []
    {
      baseScale, scale := 1.0, 1.0;
      displayedCells, subviews := map[], {};
      nextCellId, reloadLog := 0, [];
    }

    /** `onPinch`: while the gesture changes, the scale follows the gesture's
        factor applied to the scale at its start, clamped to the zoom bounds;
        when it finishes, that scale becomes the base of the next gesture. */
    method OnPinch(state: GestureState, pinchScale: real)
      requires Valid()
      modifies this`scale, this`baseScale
      ensures Valid()
      ensures state.Changed? ==>
        scale == Clamp(MinScale, MaxScale, old(baseScale) * pinchScale) && baseScale == old(baseScale)
      ensures state.IsFinished() ==> baseScale == old(scale) && scale == old(scale)
      ensures state.Possible? || state.Began? ==> baseScale == old(baseScale) && scale == old(scale)
    {
      match state
      case Possible | Began =>
      case Changed =>
        scale := Min(MaxScale, Max(MinScale, baseScale * pinchScale));
      case Ended | Cancelled | Failed =>
        baseScale := scale;
    }

    /** The first `forEach` of `layoutSubviews`: the displayed entries whose position
        lies outside the window. */
    method CollectPool(columnsRange: IntRange, rowsRange: IntRange) returns (pool: map<GridPosition, CellId>)
      ensures pool == Outside(displayedCells, columnsRange, rowsRange)
    {
      pool := map[];
      var remaining := displayedCells.Keys;
      while remaining != {}
        invariant remaining <= displayedCells.Keys
        invariant forall p :: p in pool <==>
          p in displayedCells && p !in remaining && !InWindow(p, columnsRange, rowsRange)
        invariant forall p :: p in pool ==> pool[p] == displayedCells[p]
        decreases remaining
      {
        var position :| position in remaining;
        if !columnsRange.Contains(position.column) || !rowsRange.Contains(position.row) {
          pool := pool[position := displayedCells[position]];
        }
        remaining := remaining - {position};
      }
    }

    /** What holds after each visited window position of `FillWindow`. */
    ghost predicate FillProgress(
      start: map<GridPosition, CellId>, pool0: map<GridPosition, CellId>, firstId: CellId,
      log0: seq<Reload>, window: set<GridPosition>,
      added: set<GridPosition>, pass: seq<Reload>, pool: map<GridPosition, CellId>)
      reads this
    {
      && reloadLog == log0 + pass
      && BindingsSoFar(displayedCells, start, window, added, pass)
      && PoolSoFar(pool0, pool, firstId, nextCellId, added)
      && ProvenanceSoFar(displayedCells, pool0, pool, firstId, nextCellId, added)
      && PlacementSoFar(displayedCells, pool, nextCellId, subviews)
    }

    /** The body of the fill loops of `layoutSubviews` for a window position without a
        cell: take one from the pool, or allocate one when the pool is empty,
        bind it to the position and reload it. */
    method BindCell(position: GridPosition, pool: map<GridPosition, CellId>,
      ghost start: map<GridPosition, CellId>, ghost pool0: map<GridPosition, CellId>, ghost firstId: CellId,
      ghost log0: seq<Reload>, ghost window: set<GridPosition>,
      ghost added: set<GridPosition>, ghost pass: seq<Reload>)
      returns (rest: map<GridPosition, CellId>, cell: CellId)
      requires reloadLog == log0 + pass
      requires BindingsSoFar(displayedCells, start, window, added, pass)
      requires PoolSoFar(pool0, pool, firstId, nextCellId, added)
      requires ProvenanceSoFar(displayedCells, pool0, pool, firstId, nextCellId, added)
      requires PlacementSoFar(displayedCells, pool, nextCellId, subviews)
      requires position !in displayedCells && position in window
      modifies this`displayedCells, this`subviews, this`nextCellId, this`reloadLog
      ensures scale == old(scale) && baseScale == old(baseScale)
      ensures displayedCells == old(displayedCells)[position := cell]
      ensures reloadLog == log0 + (pass + [Reload(cell, position)])
      ensures BindingsSoFar(displayedCells, start, window, added + {position}, pass + [Reload(cell, position)])
      ensures PoolSoFar(pool0, rest, firstId, nextCellId, added + {position})
      ensures ProvenanceSoFar(displayedCells, pool0, rest, firstId, nextCellId, added + {position})
      ensures PlacementSoFar(displayedCells, rest, nextCellId, subviews)
    {
      var cells, views, nextId := displayedCells, subviews, nextCellId;
      var fromPool := pool != map[];
      var key := position;
      if fromPool {
        key :| key in pool;
      }
      cell := if fromPool then pool[key] else nextId;
      rest := if fromPool then pool - {key} else pool;
      reloadLog := reloadLog + [Reload(cell, position)];
      assert reloadLog == log0 + (pass + [Reload(cell, position)]);
      BindStep(cells, start, window, added, pass, pool0, pool, firstId, nextId, views, position, fromPool, key);
      // A cell taken from the pool is already a subview; a new one is added.
      displayedCells, subviews, nextCellId :=
        cells[position := cell], (if fromPool then views else views + {cell}),
        (if fromPool then nextId else nextId + 1);
    }

    /** One pass of the outer fill loop of `layoutSubviews`: fills the window column
        `column`, row by row. */
    method FillColumn(columnsRange: IntRange, rowsRange: IntRange, column: int, pool: map<GridPosition, CellId>,
      ghost start: map<GridPosition, CellId>, ghost pool0: map<GridPosition, CellId>, ghost firstId: CellId,
      ghost log0: seq<Reload>, ghost window: set<GridPosition>,
      ghost added: set<GridPosition>, ghost pass: seq<Reload>)
      returns (rest: map<GridPosition, CellId>, ghost added': set<GridPosition>, ghost pass': seq<Reload>)
      requires columnsRange.lo <= column < columnsRange.hi && rowsRange.lo <= rowsRange.hi
      requires window == Window(columnsRange, rowsRange)
      requires ColumnsCovered(displayedCells, columnsRange, rowsRange, column)
      requires FillProgress(start, pool0, firstId, log0, window, added, pass, pool)
      modifies this`displayedCells, this`subviews, this`nextCellId, this`reloadLog
      ensures scale == old(scale) && baseScale == old(baseScale)
      ensures ColumnsCovered(displayedCells, columnsRange, rowsRange, column + 1)
      ensures FillProgress(start, pool0, firstId, log0, window, added', pass', rest)
    {
      rest, added', pass' := pool, added, pass;
      var row := rowsRange.lo;
      while row < rowsRange.hi
        invariant rowsRange.lo <= row <= rowsRange.hi
        invariant ColumnsCovered(displayedCells, columnsRange, rowsRange, column)
        invariant RowsCovered(displayedCells, column, rowsRange, row)
        invariant scale == old(scale) && baseScale == old(baseScale)
        invariant FillProgress(start, pool0, firstId, log0, window, added', pass', rest)
      {
        var position := GridPosition(column, row);
        if position !in displayedCells {
          WindowMembership(position, columnsRange, rowsRange);
          ghost var cells := displayedCells;
          var cell;
          rest, cell := BindCell(position, rest, start, pool0, firstId, log0, window, added', pass');
          CoverageGrows(cells, displayedCells, columnsRange, rowsRange, column, row);
          pass' := pass' + [Reload(cell, position)];
          added' := added' + {position};
        }
        RowCovered(displayedCells, column, rowsRange, row);
        row := row + 1;
      }
      ColumnCovered(displayedCells, columnsRange, rowsRange, column);
    }

    /** The outer fill loop of `layoutSubviews`: fills the window column by column. */
    method FillColumns(columnsRange: IntRange, rowsRange: IntRange, pool0: map<GridPosition, CellId>,
      ghost start: map<GridPosition, CellId>, ghost firstId: CellId,
      ghost log0: seq<Reload>, ghost window: set<GridPosition>)
      returns (pool: map<GridPosition, CellId>, ghost added: set<GridPosition>, ghost pass: seq<Reload>)
      requires columnsRange.lo <= columnsRange.hi && rowsRange.lo <= rowsRange.hi
      requires window == Window(columnsRange, rowsRange)
      requires FillProgress(start, pool0, firstId, log0, window, {}, [], pool0)
      modifies this`displayedCells, this`subviews, this`nextCellId, this`reloadLog
      ensures scale == old(scale) && baseScale == old(baseScale)
      ensures ColumnsCovered(displayedCells, columnsRange, rowsRange, columnsRange.hi)
      ensures FillProgress(start, pool0, firstId, log0, window, added, pass, pool)
    {
      pool, added, pass := pool0, {}, [];
      var column := columnsRange.lo;
      while column < columnsRange.hi
        invariant columnsRange.lo <= column <= columnsRange.hi
        invariant ColumnsCovered(displayedCells, columnsRange, rowsRange, column)
        invariant scale == old(scale) && baseScale == old(baseScale)
        invariant FillProgress(start, pool0, firstId, log0, window, added, pass, pool)
      {
        pool, added, pass := FillColumn(columnsRange, rowsRange, column, pool,
          start, pool0, firstId, log0, window, added, pass);
        column := column + 1;
      }
    }

    /** The nested fill loops of `layoutSubviews`: every window position without a cell
        takes a cell from the pool, or a newly allocated one when the pool is
        empty, and is reloaded. Returns what is left of the pool. */
    method FillWindow(columnsRange: IntRange, rowsRange: IntRange, pool0: map<GridPosition, CellId>)
      returns (pool: map<GridPosition, CellId>)
      requires columnsRange.lo <= columnsRange.hi && rowsRange.lo <= rowsRange.hi
      requires forall p :: p in displayedCells ==> InWindow(p, columnsRange, rowsRange)
      requires forall p :: p in pool0 ==> !InWindow(p, columnsRange, rowsRange)
      requires Injective(displayedCells) && Injective(pool0) && displayedCells.Values !! pool0.Values
      requires subviews == displayedCells.Values + pool0.Values
      requires forall p :: p in displayedCells ==> displayedCells[p] < nextCellId
      requires forall p :: p in pool0 ==> pool0[p] < nextCellId
      modifies this`displayedCells, this`subviews, this`nextCellId, this`reloadLog
      ensures scale == old(scale) && baseScale == old(baseScale)
      ensures displayedCells.Keys == Window(columnsRange, rowsRange)
      ensures forall p :: p in old(displayedCells) ==> p in displayedCells && displayedCells[p] == old(displayedCells)[p]
      ensures forall k :: k in pool ==> k in pool0 && pool[k] == pool0[k]
      ensures |reloadLog| >= |old(reloadLog)| && reloadLog[..|old(reloadLog)|] == old(reloadLog)
      ensures ReloadsExactly(reloadLog[|old(reloadLog)|..],
        NewPositions(old(displayedCells), columnsRange, rowsRange), displayedCells)
      ensures old(nextCellId) <= nextCellId
      ensures |NewPositions(old(displayedCells), columnsRange, rowsRange)| ==
        (|pool0| - |pool|) + (nextCellId - old(nextCellId))
      ensures nextCellId > old(nextCellId) ==> pool == map[]
      ensures forall p :: p in displayedCells && p !in old(displayedCells) ==>
        displayedCells[p] in pool0.Values - pool.Values || old(nextCellId) <= displayedCells[p] < nextCellId
      ensures forall k :: k in pool0 && k !in pool ==> pool0[k] in displayedCells.Values
      ensures Injective(displayedCells) && Injective(pool) && displayedCells.Values !! pool.Values
      ensures subviews == displayedCells.Values + pool.Values
      ensures forall p :: p in displayedCells ==> displayedCells[p] < nextCellId
    {
      ghost var start, firstId, log0 := displayedCells, nextCellId, reloadLog;
      ghost var window := Window(columnsRange, rowsRange);
      FillStart(start, columnsRange, rowsRange, pool0, firstId, subviews);
      AppendSlices(log0, []);
      ghost var added, pass;
      pool, added, pass := FillColumns(columnsRange, rowsRange, pool0, start, firstId, log0, window);
      FillOutcome(displayedCells, start, columnsRange, rowsRange, pool0, pool, firstId, nextCellId,
        subviews, added, pass);
      AppendSlices(log0, pass);
    }

    /** The fill loops and the last `forEach` of `layoutSubviews`, once the cells outside the window
        (`pool`) have left `displayedCells`: fill the window from the pool, then
        remove the pool cells nobody took from the view. `before` is what
        `displayedCells` was before the pool left it. */
    method Refill(columnsRange: IntRange, rowsRange: IntRange, pool: map<GridPosition, CellId>,
      ghost before: map<GridPosition, CellId>)
      requires Injective(before)
      requires columnsRange.lo <= columnsRange.hi && rowsRange.lo <= rowsRange.hi
      requires displayedCells == Inside(before, columnsRange, rowsRange)
      requires pool == Outside(before, columnsRange, rowsRange)
      requires subviews == before.Values
      requires forall p :: p in before ==> before[p] < nextCellId
      modifies this`displayedCells, this`subviews, this`nextCellId, this`reloadLog
      ensures scale == old(scale) && baseScale == old(baseScale)
      ensures Injective(displayedCells) && subviews == displayedCells.Values
      ensures forall p :: p in displayedCells ==> displayedCells[p] < nextCellId
      ensures displayedCells.Keys == Window(columnsRange, rowsRange)
      ensures |displayedCells| == |subviews| ==
        (columnsRange.hi - columnsRange.lo) * (rowsRange.hi - rowsRange.lo)
      ensures forall p :: p in before && InWindow(p, columnsRange, rowsRange) ==> displayedCells[p] == before[p]
      ensures |reloadLog| >= |old(reloadLog)| && reloadLog[..|old(reloadLog)|] == old(reloadLog)
      ensures ReloadsExactly(reloadLog[|old(reloadLog)|..],
        NewPositions(before, columnsRange, rowsRange), displayedCells)
      ensures forall q :: q in NewPositions(before, columnsRange, rowsRange) ==>
        displayedCells[q] in pool.Values || old(nextCellId) <= displayedCells[q] < nextCellId
      ensures nextCellId - old(nextCellId) == PositiveDifference(
        |NewPositions(before, columnsRange, rowsRange)|, |pool|)
      ensures before.Values - subviews <= pool.Values
      ensures |before.Values - subviews| == PositiveDifference(
        |pool|, |NewPositions(before, columnsRange, rowsRange)|)
      ensures forall p :: p in pool ==>
        (before[p] in subviews <==>
          exists q :: q in NewPositions(before, columnsRange, rowsRange) && displayedCells[q] == before[p])
    {
      ghost var start, firstId := displayedCells, nextCellId;
      SplitAtWindow(before, columnsRange, rowsRange);
      var leftover := FillWindow(columnsRange, rowsRange, pool);
      ghost var cells, nextId, log, views := displayedCells, nextCellId, reloadLog, subviews - leftover.Values;
      KeptAndNew(before, start, pool, cells, leftover, columnsRange, rowsRange, firstId, nextId);
      LayoutOutcome(before, start, pool, cells, leftover, columnsRange, rowsRange, firstId, nextId,
        subviews, views);
      DiscardLeftover(leftover);
      assert displayedCells == cells && nextCellId == nextId && reloadLog == log && subviews == views;
    }

    /** `layoutSubviews` for the window `columnsRange` x `rowsRange`: afterwards
        exactly the window's positions have cells; a position that already had
        one keeps it and is not reloaded; every other window position is
        reloaded once, with a cell taken from the pool of cells that left the
        window or, once the pool is empty, a new one; the pool cells left over
        are removed from the view. */
    method LayoutSubviews(columnsRange: IntRange, rowsRange: IntRange)
      requires Valid()
      requires columnsRange.lo <= columnsRange.hi && rowsRange.lo <= rowsRange.hi
      modifies this`displayedCells, this`subviews, this`nextCellId, this`reloadLog
      ensures Valid()
      ensures displayedCells.Keys == Window(columnsRange, rowsRange)
      ensures |displayedCells| == |subviews| ==
        (columnsRange.hi - columnsRange.lo) * (rowsRange.hi - rowsRange.lo)
      ensures forall p :: p in old(displayedCells) && InWindow(p, columnsRange, rowsRange) ==>
        displayedCells[p] == old(displayedCells)[p]
      ensures |reloadLog| >= |old(reloadLog)| && reloadLog[..|old(reloadLog)|] == old(reloadLog)
      ensures ReloadsExactly(reloadLog[|old(reloadLog)|..],
        NewPositions(old(displayedCells), columnsRange, rowsRange), displayedCells)
      ensures forall q :: q in NewPositions(old(displayedCells), columnsRange, rowsRange) ==>
        displayedCells[q] in Outside(old(displayedCells), columnsRange, rowsRange).Values ||
        old(nextCellId) <= displayedCells[q] < nextCellId
      ensures nextCellId - old(nextCellId) == PositiveDifference(
        |NewPositions(old(displayedCells), columnsRange, rowsRange)|,
        |Outside(old(displayedCells), columnsRange, rowsRange)|)
      ensures old(subviews) - subviews <= Outside(old(displayedCells), columnsRange, rowsRange).Values
      ensures |old(subviews) - subviews| == PositiveDifference(
        |Outside(old(displayedCells), columnsRange, rowsRange)|,
        |NewPositions(old(displayedCells), columnsRange, rowsRange)|)
      ensures forall p :: p in Outside(old(displayedCells), columnsRange, rowsRange) ==>
        (old(displayedCells)[p] in subviews <==>
          exists q :: q in NewPositions(old(displayedCells), columnsRange, rowsRange) &&
            displayedCells[q] == old(displayedCells)[p])
    {
      ghost var before := displayedCells;
      var pool := CollectPool(columnsRange, rowsRange);
      DetachPool(pool);
      assert displayedCells == Inside(before, columnsRange, rowsRange);
      Refill(columnsRange, rowsRange, pool, before);
    }

    /** The second `forEach` of `layoutSubviews`: the positions of the pool leave `displayedCells`. */
    method DetachPool(pool: map<GridPosition, CellId>)
      modifies this`displayedCells
      ensures displayedCells == map p | p in old(displayedCells) && p !in pool :: old(displayedCells)[p]
      ensures subviews == old(subviews) && nextCellId == old(nextCellId) && reloadLog == old(reloadLog)
      ensures scale == old(scale) && baseScale == old(baseScale)
    {
      ghost var before := displayedCells;
      var remaining := pool.Keys;
      while remaining != {}
        invariant remaining <= pool.Keys
        invariant displayedCells == map p | p in before && (p !in pool || p in remaining) :: before[p]
        decreases remaining
      {
        var position :| position in remaining;
        displayedCells := displayedCells - {position};
        remaining := remaining - {position};
      }
    }

    /** The last `forEach` of `layoutSubviews`: the pool cells nobody took are removed from the view. */
    method DiscardLeftover(leftover: map<GridPosition, CellId>)
      modifies this`subviews
      ensures subviews == old(subviews) - leftover.Values
      ensures displayedCells == old(displayedCells) && nextCellId == old(nextCellId) && reloadLog == old(reloadLog)
      ensures scale == old(scale) && baseScale == old(baseScale)
    {
      var rest := leftover;
      while rest != map[]
        invariant forall k :: k in rest ==> k in leftover && rest[k] == leftover[k]
        invariant subviews == old(subviews) - (set k | k in leftover && k !in rest :: leftover[k])
        decreases |rest|
      {
        var key :| key in rest;
        subviews := subviews - {rest[key]};
        rest := rest - {key};
      }
    }
  }
}
