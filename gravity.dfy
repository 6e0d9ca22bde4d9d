/**
 * Settling the flying cells: computing each one's landing row
 * (ComputeFlyingCellNewPosition) and lowering them one row per tick
 * (MoveCellToLowerPosition). Lists of cells handed between the two are
 * lists of indices into the board list.
 */
module Gravity {
  import opened Cells

  /** Some cell's target sits right under cell `i`'s target, in the same column. */
  predicate Supported(cells: seq<Cell>, i: int)
    requires 0 <= i < |cells|
  {
    exists j :: 0 <= j < |cells| && cells[j].target == cells[i].target - 1 && cells[j].x == cells[i].x
  }

  /** Ordered by row, lowest first (the OrderBy on y of the board list). */
  predicate SortedByRow(cells: seq<Cell>)
  {
    forall a, b :: 0 <= a < b < |cells| ==> cells[a].y <= cells[b].y
  }

  /** Indices in `cells[..n]` of the cells carrying the flying flag, ascending. */
  function FlyingIndices(cells: seq<Cell>, n: nat): (r: seq<nat>)
    requires n <= |cells|
    ensures forall m :: 0 <= m < |r| ==> r[m] < n
    ensures forall a, b :: 0 <= a < b < |r| ==> r[a] < r[b]
    ensures forall i :: 0 <= i < n ==> (cells[i].flying <==> i in r)
  {
    if n == 0 then []
    else FlyingIndices(cells, n - 1) + (if cells[n - 1].flying then [n - 1] else [])
  }

  /** Every target row starts at the cell's own row. */
  function ResetTargets(cells: seq<Cell>): (r: seq<Cell>)
    ensures |r| == |cells|
    ensures forall i :: 0 <= i < |cells| ==> r[i] == cells[i].(target := cells[i].y)
  {
    seq(|cells|, i requires 0 <= i < |cells| => cells[i].(target := cells[i].y))
  }

  /** The facts about one already settled flying cell `q`. */
  predicate Settled(allCells: seq<Cell>, cells: seq<Cell>, q: int)
    requires |cells| == |allCells| && 0 <= q < |cells|
  {
    && !cells[q].flying
    && cells[q].target <= allCells[q].y
    && (allCells[q].y >= 1 ==> cells[q].target >= 1)
    && (SortedByRow(allCells) ==> cells[q].target <= 1 || Supported(cells, q))
    && (SortedByRow(allCells) ==> FellToFirstSupport(allCells, cells, q))
  }

  /**
   * Cell `i` may fall through row `t`: the row is above row 1 and no other
   * cell's target lies right under it in cell `i`'s column (the loop test).
   */
  predicate FallsThrough(cells: seq<Cell>, i: int, t: int)
    requires 0 <= i < |cells|
  {
    && t > 1
    && forall j :: 0 <= j < |cells| && j != i && cells[j].x == cells[i].x ==> cells[j].target != t - 1
  }

  /**
   * Row `t` is one settled cell `q` passed on its way down: above row 1, and
   * no cell lower than `q` in its column has its target right under it.
   */
  predicate PassedRow(allCells: seq<Cell>, cells: seq<Cell>, q: int, t: int)
    requires |cells| == |allCells| && 0 <= q < |cells|
  {
    && t > 1
    && forall j :: 0 <= j < |cells| && allCells[j].y < allCells[q].y && allCells[j].x == allCells[q].x ==>
      cells[j].target != t - 1
  }

  /**
   * Cell `q` fell through every row from its own down to just above its
   * target. With Settled, the target is the first supported row on the way
   * down, or row 1.
   */
  predicate FellToFirstSupport(allCells: seq<Cell>, cells: seq<Cell>, q: int)
    requires |cells| == |allCells| && 0 <= q < |cells|
  {
    forall t :: cells[q].target < t <= allCells[q].y ==> PassedRow(allCells, cells, q, t)
  }

  /** Only the flying flag and the target of a cell may change. */
  predicate OnlyAnnotations(allCells: seq<Cell>, cells: seq<Cell>)
  {
    && |cells| == |allCells|
    && forall i :: 0 <= i < |cells| ==> cells[i] == allCells[i].(flying := cells[i].flying, target := cells[i].target)
  }

  /**
   * Gives every flying cell the lowest row it can fall to: its target goes
   * down one row at a time while no cell's target lies right under it and it
   * is above row 1; then its flying flag is cleared. Returns the flying cells.
   */
  method ComputeFlyingCellNewPosition(allCells: seq<Cell>) returns (cells: seq<Cell>, flyingCells: seq<nat>)
    ensures OnlyAnnotations(allCells, cells)
    ensures forall m :: 0 <= m < |flyingCells| ==> flyingCells[m] < |allCells|
    ensures forall a, b :: 0 <= a < b < |flyingCells| ==> flyingCells[a] < flyingCells[b]
    ensures forall i :: 0 <= i < |allCells| ==> (allCells[i].flying <==> i in flyingCells)
    ensures flyingCells == [] ==> cells == allCells
    ensures NoFlying(cells)
    ensures flyingCells != [] ==> forall i :: 0 <= i < |allCells| && !allCells[i].flying ==> cells[i].target == allCells[i].y
    ensures forall i :: 0 <= i < |allCells| && allCells[i].flying ==>
      && cells[i].target <= allCells[i].y
      && (allCells[i].y >= 1 ==> cells[i].target >= 1)
      && (SortedByRow(allCells) ==> cells[i].target <= 1 || Supported(cells, i))
      && (SortedByRow(allCells) ==> FellToFirstSupport(allCells, cells, i))
  {
    flyingCells := FlyingIndices(allCells, |allCells|);
    cells := allCells;
    if |flyingCells| > 0 {
      cells := SettleAll(allCells, flyingCells);
    }
  }

  /** Resets every target, then settles the listed flying cells one after the other. */
  method SettleAll(allCells: seq<Cell>, flyingCells: seq<nat>) returns (cells: seq<Cell>)
    requires forall m :: 0 <= m < |flyingCells| ==> flyingCells[m] < |allCells|
    requires forall a, b :: 0 <= a < b < |flyingCells| ==> flyingCells[a] < flyingCells[b]
    requires forall i :: 0 <= i < |allCells| ==> (allCells[i].flying <==> i in flyingCells)
    ensures OnlyAnnotations(allCells, cells)
    ensures forall i :: 0 <= i < |allCells| && !allCells[i].flying ==> !cells[i].flying && cells[i].target == allCells[i].y
    ensures forall m :: 0 <= m < |flyingCells| ==> Settled(allCells, cells, flyingCells[m])
  {
    cells := ResetTargets(allCells);
    for k := 0 to |flyingCells|
      invariant OnlyAnnotations(allCells, cells)
      invariant forall i :: 0 <= i < |cells| && !allCells[i].flying ==> !cells[i].flying && cells[i].target == allCells[i].y
      invariant forall m :: k <= m < |flyingCells| ==>
        cells[flyingCells[m]].flying && cells[flyingCells[m]].target == allCells[flyingCells[m]].y
      invariant forall m :: 0 <= m < k ==> Settled(allCells, cells, flyingCells[m])
    {
      cells := Settle(allCells, cells, flyingCells, k);
    }
  }

  /** Processing the `k`-th flying cell: lower its target, then clear its flag. */
  method Settle(allCells: seq<Cell>, cells: seq<Cell>, flyingCells: seq<nat>, k: nat) returns (cells': seq<Cell>)
    requires forall m :: 0 <= m < |flyingCells| ==> flyingCells[m] < |allCells|
    requires forall a, b :: 0 <= a < b < |flyingCells| ==> flyingCells[a] < flyingCells[b]
    requires k < |flyingCells|
    requires OnlyAnnotations(allCells, cells)
    requires forall m :: k <= m < |flyingCells| ==>
      cells[flyingCells[m]].flying && cells[flyingCells[m]].target == allCells[flyingCells[m]].y
    requires forall m :: 0 <= m < k ==> Settled(allCells, cells, flyingCells[m])
    ensures OnlyAnnotations(allCells, cells')
    ensures forall j :: 0 <= j < |cells| && j != flyingCells[k] ==> cells'[j] == cells[j]
    ensures forall m :: k + 1 <= m < |flyingCells| ==>
      cells'[flyingCells[m]].flying && cells'[flyingCells[m]].target == allCells[flyingCells[m]].y
    ensures forall m :: 0 <= m < k + 1 ==> Settled(allCells, cells', flyingCells[m])
    ensures forall t :: cells'[flyingCells[k]].target < t <= allCells[flyingCells[k]].y ==>
      FallsThrough(cells, flyingCells[k], t)
  {
    var i := flyingCells[k];
    var lowered := LowerTarget(allCells, cells, i);
    cells' := lowered[i := lowered[i].(flying := false)];
    assert cells'[i].target == lowered[i].target;
    SettledNow(allCells, cells, lowered, cells', i);
    forall m | 0 <= m < k
      ensures Settled(allCells, cells', flyingCells[m])
    {
      var q := flyingCells[m];
      assert q < i;
      SettledKept(allCells, cells, cells', q, i);
    }
  }

  /**
   * The while loop of one flying cell: its target goes down one row at a
   * time while no cell's target lies right under it and it is above row 1.
   */
  method LowerTarget(allCells: seq<Cell>, cells: seq<Cell>, i: nat) returns (cells': seq<Cell>)
    requires OnlyAnnotations(allCells, cells)
    requires i < |cells| && cells[i].flying && cells[i].target == allCells[i].y
    ensures OnlyAnnotations(allCells, cells')
    ensures forall j :: 0 <= j < |cells| && j != i ==> cells'[j] == cells[j]
    ensures cells'[i].flying
    ensures cells'[i].target <= allCells[i].y
    ensures allCells[i].y >= 1 ==> cells'[i].target >= 1
    ensures cells'[i].target <= 1 || Supported(cells', i)
    ensures forall t :: cells'[i].target < t <= allCells[i].y ==> FallsThrough(cells, i, t)
  {
    cells' := cells;
    while !Supported(cells', i) && cells'[i].target > 1
      invariant OnlyAnnotations(allCells, cells')
      invariant forall j :: 0 <= j < |cells| && j != i ==> cells'[j] == cells[j]
      invariant cells'[i].flying
      invariant cells'[i].target <= allCells[i].y
      invariant allCells[i].y >= 1 ==> cells'[i].target >= 1
      invariant forall t :: cells'[i].target < t <= allCells[i].y ==> FallsThrough(cells, i, t)
      decreases cells'[i].target
    {
      var prev := cells';
      cells' := cells'[i := cells'[i].(target := cells'[i].target - 1)];
      assert FallsThrough(cells, i, prev[i].target) by {
        forall j | 0 <= j < |cells| && j != i && cells[j].x == cells[i].x
          ensures cells[j].target != prev[i].target - 1
        {
          assert prev[j] == cells[j];
        }
      }
    }
  }

  /** The cell just processed is settled once its flag is cleared. */
  lemma SettledNow(allCells: seq<Cell>, cells: seq<Cell>, lowered: seq<Cell>, cells': seq<Cell>, i: nat)
    requires OnlyAnnotations(allCells, cells) && OnlyAnnotations(allCells, lowered)
    requires i < |cells|
    requires forall j :: 0 <= j < |cells| && j != i ==> lowered[j] == cells[j]
    requires lowered[i].target <= allCells[i].y
    requires allCells[i].y >= 1 ==> lowered[i].target >= 1
    requires lowered[i].target <= 1 || Supported(lowered, i)
    requires forall t :: lowered[i].target < t <= allCells[i].y ==> FallsThrough(cells, i, t)
    requires cells' == lowered[i := lowered[i].(flying := false)]
    ensures OnlyAnnotations(allCells, cells')
    ensures Settled(allCells, cells', i)
  {
    if lowered[i].target > 1 {
      var j :| 0 <= j < |lowered| && lowered[j].target == lowered[i].target - 1 && lowered[j].x == lowered[i].x;
      assert cells'[j].target == lowered[j].target && cells'[j].x == lowered[j].x;
    }
    forall t | cells'[i].target < t <= allCells[i].y
      ensures PassedRow(allCells, cells', i, t)
    {
      assert FallsThrough(cells, i, t);
      forall j | 0 <= j < |cells'| && allCells[j].y < allCells[i].y && allCells[j].x == allCells[i].x
        ensures cells'[j].target != t - 1
      {
        assert cells'[j] == cells[j];
      }
    }
  }

  /**
   * A cell settled earlier stays settled: its supporter is not the cell
   * just processed, and on a board sorted by row it lies no higher than it.
   */
  lemma SettledKept(allCells: seq<Cell>, cells: seq<Cell>, cells': seq<Cell>, q: nat, i: nat)
    requires OnlyAnnotations(allCells, cells) && OnlyAnnotations(allCells, cells')
    requires q < i < |cells|
    requires forall j :: 0 <= j < |cells| && j != i ==> cells'[j] == cells[j]
    requires cells[i].target == allCells[i].y
    requires Settled(allCells, cells, q)
    ensures Settled(allCells, cells', q)
  {
    assert cells'[q] == cells[q];
    if SortedByRow(allCells) {
      assert allCells[q].y <= allCells[i].y;
      if cells[q].target > 1 {
        var j :| 0 <= j < |cells| && cells[j].target == cells[q].target - 1 && cells[j].x == cells[q].x;
        assert j != i;
        assert cells'[j] == cells[j];
      }
      forall t | cells'[q].target < t <= allCells[q].y
        ensures PassedRow(allCells, cells', q, t)
      {
        assert PassedRow(allCells, cells, q, t);
        forall j | 0 <= j < |cells'| && allCells[j].y < allCells[q].y && allCells[j].x == allCells[q].x
          ensures cells'[j].target != t - 1
        {
          assert j != i;
          assert cells'[j] == cells[j];
        }
      }
    }
  }

  /** One tick of the fall: the effect of MoveCellToLowerPosition on one listed cell. */
  function Lowered(c: Cell): (r: Cell)
    ensures r.(y := c.y) == c
    ensures c.target <= c.y ==> 0 <= r.y - r.target == (if c.y == c.target then 0 else c.y - c.target - 1)
  {
    if c.y != c.target then c.(y := c.y - 1) else c
  }

  predicate DistinctIndices(idx: seq<nat>, n: nat)
  {
    && (forall m :: 0 <= m < |idx| ==> idx[m] < n)
    && (forall a, b :: 0 <= a < b < |idx| ==> idx[a] != idx[b])
  }

  /**
   * Moves every listed cell that is not yet on its target one row down, and
   * tells whether some listed cell is still not on its target afterwards.
   */
  method MoveCellToLowerPosition(cells: seq<Cell>, cellsToLower: seq<nat>) returns (moved: seq<Cell>, stillHasToMove: bool)
    requires DistinctIndices(cellsToLower, |cells|)
    ensures |moved| == |cells|
    ensures forall i :: 0 <= i < |cells| ==> moved[i] == (if i in cellsToLower then Lowered(cells[i]) else cells[i])
    ensures stillHasToMove <==> exists i :: i in cellsToLower && moved[i].y != moved[i].target
  {
    moved := cells;
    stillHasToMove := false;
    for m := 0 to |cellsToLower|
      invariant |moved| == |cells|
      invariant forall i :: 0 <= i < |cells| ==> moved[i] == (if i in cellsToLower[..m] then Lowered(cells[i]) else cells[i])
      invariant stillHasToMove <==> exists i :: i in cellsToLower[..m] && moved[i].y != moved[i].target
    {
      var i := cellsToLower[m];
      assert cellsToLower[..m + 1] == cellsToLower[..m] + [i];
      assert i !in cellsToLower[..m];
      if moved[i].y != moved[i].target {
        moved := moved[i := moved[i].(y := moved[i].y - 1)];
        if moved[i].y != moved[i].target {
          stillHasToMove := true;
        }
      }
    }
    assert cellsToLower[..|cellsToLower|] == cellsToLower;
  }

  /** Rows still to fall, summed over the listed cells. */
  function Distance(cells: seq<Cell>, idx: seq<nat>): int
    requires forall m :: 0 <= m < |idx| ==> idx[m] < |cells|
  {
    if idx == [] then 0
    else cells[idx[0]].y - cells[idx[0]].target + Distance(cells, idx[1..])
  }

  predicate NotBelowTarget(cells: seq<Cell>, idx: seq<nat>)
    requires forall m :: 0 <= m < |idx| ==> idx[m] < |cells|
  {
    forall m :: 0 <= m < |idx| ==> cells[idx[m]].target <= cells[idx[m]].y
  }

  /**
   * A tick keeps every listed cell at or above its target, and when it
   * reports more ticks to come it has brought the cells strictly closer: the
   * tick loop of the cycle ends.
   */
  lemma {:induction false} LoweringProgresses(cells: seq<Cell>, moved: seq<Cell>, idx: seq<nat>, sub: seq<nat>)
    requires DistinctIndices(idx, |cells|) && |moved| == |cells|
    requires forall i :: 0 <= i < |cells| ==> moved[i] == (if i in idx then Lowered(cells[i]) else cells[i])
    requires forall m :: 0 <= m < |sub| ==> sub[m] in idx
    requires NotBelowTarget(cells, sub)
    ensures NotBelowTarget(moved, sub)
    ensures 0 <= Distance(moved, sub) <= Distance(cells, sub)
    ensures (exists i :: i in sub && moved[i].y != moved[i].target) ==> Distance(moved, sub) < Distance(cells, sub)
  {
    if sub != [] {
      LoweringProgresses(cells, moved, idx, sub[1..]);
      assert sub[0] in idx;
      if exists i :: i in sub && moved[i].y != moved[i].target {
        var i :| i in sub && moved[i].y != moved[i].target;
        if i != sub[0] {
          assert i in sub[1..];
        }
      }
    }
  }
}
