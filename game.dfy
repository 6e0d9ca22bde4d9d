/**
 * The game controller: one resolution cycle after a piece lands (clear,
 * settle, fall, refill, game-over test), the column refill and the spawn
 * column of a new piece.
 */
module Game {
  import opened Cells
  import opened Rounding
  import opened Grouping
  import opened LineClear
  import opened Gravity
  import opened Sorting

  /** Highest row among the landed pieces' cells; 0 when there are none. */
  function HighestPlayerRow(cells: seq<Cell>): (top: int)
    ensures forall i :: 0 <= i < |cells| && cells[i].tag == Player ==> cells[i].y <= top
    ensures (exists i :: 0 <= i < |cells| && cells[i].tag == Player) ==>
      exists i :: 0 <= i < |cells| && cells[i].tag == Player && cells[i].y == top
    ensures (forall i :: 0 <= i < |cells| ==> cells[i].tag != Player) ==> top == 0
  {
    if cells == [] then 0
    else
      var init := cells[..|cells| - 1];
      var last := cells[|cells| - 1];
      var rest := HighestPlayerRow(init);
      if last.tag != Player then rest
      else if !(exists i :: 0 <= i < |init| && init[i].tag == Player) then last.y
      else if last.y > rest then last.y
      else rest
  }

  /** The game is over once some landed cell reaches the top row of the columns. */
  function IsEndGame(cells: seq<Cell>): (over: bool)
    ensures over <==> exists i :: 0 <= i < |cells| && cells[i].tag == Player && cells[i].y >= ColumnSize
  {
    HighestPlayerRow(cells) >= ColumnSize
  }

  /** Column of a freshly spawned piece: half-way between the side columns, rounded. */
  function SpawnX(): (x: int)
    ensures LeftColumnIndex < x < RightColumnIndex
    ensures x == 3
  {
    RoundAwayFromZero((LeftColumnIndex + RightColumnIndex) as real / 2.0)
  }

  /**
   * Sorts the board, then for each colour, in order of first appearance,
   * groups that colour's cells and clears the spanning groups from the
   * board. When nothing is cleared the result is the sorted board.
   */
  method ComputeConnectingSquares(world: seq<Cell>) returns (allCells: seq<Cell>)
    ensures |allCells| <= |world|
    ensures |allCells| == |world| ==> allCells == SortByPosition(world)
    ensures Ordered(allCells)
    ensures UniqueIds(world) ==> UniqueIds(allCells) && IdsOf(allCells) <= IdsOf(world)
  {
    var sorted := SortByPosition(world);
    var colors := DistinctColors(sorted);
    allCells := sorted;
    if UniqueIds(world) {
      SortUnique(world);
      SameIdsKeep(world, world);
      assert IdsOf(sorted) == IdsOf(world) by {
        forall c ensures c in sorted <==> c in world {
          assert c in multiset(sorted) <==> c in multiset(world);
        }
      }
    }
    for k := 0 to |colors|
      invariant allCells == sorted || |allCells| < |sorted|
      invariant Ordered(allCells)
      invariant UniqueIds(world) ==> UniqueIds(allCells) && IdsOf(allCells) <= IdsOf(world)
    {
      var sameColor := CellsOfColor(sorted, colors[k]);
      var groupsOfCells := GroupConnectedCells(sameColor);
      ghost var before := allCells;
      allCells := SearchConnectedLines(allCells, groupsOfCells);
      if UniqueIds(world) {
        ClearKeepsIds(before, allCells, IdsOf(Destroyed(groupsOfCells)));
      }
      if before == sorted && Destroyed(groupsOfCells) != [] {
        ClearedCellIsOnBoard(sorted, sameColor, groupsOfCells);
      }
    }
  }

  /** Clearing cells from a board with distinct ids keeps them distinct and adds none. */
  lemma ClearKeepsIds(before: seq<Cell>, after: seq<Cell>, ids: set<nat>)
    requires UniqueIds(before)
    requires StripAll(after) == StripAll(Survivors(before, ids))
    ensures UniqueIds(after) && IdsOf(after) <= IdsOf(before)
  {
    var kept := Survivors(before, ids);
    SurvivorsUnique(before, ids);
    assert SameIds(kept, after) by {
      forall i | 0 <= i < |kept|
        ensures kept[i].id == after[i].id
      {
        assert StripAll(kept)[i] == StripAll(after)[i];
      }
    }
    SameIdsKeep(kept, after);
    forall x | x in IdsOf(kept)
      ensures x in IdsOf(before)
    {
      var c :| c in kept && c.id == x;
      SurvivorsMembers(before, ids, c);
    }
  }

  /** Lowering cells changes no id. */
  lemma LoweringKeepsIds(orig: seq<Cell>, before: seq<Cell>, after: seq<Cell>, idx: seq<nat>)
    requires SameIds(orig, before)
    requires |after| == |before|
    requires forall i :: 0 <= i < |before| ==> after[i] == (if i in idx then Lowered(before[i]) else before[i])
    ensures SameIds(orig, after)
  {
    forall i | 0 <= i < |before|
      ensures after[i].id == before[i].id
    {
      if i in idx {
        assert Lowered(before[i]).(y := before[i].y) == before[i];
      }
    }
  }

  /** A cell of a spanning group of one colour class is a cell of the board. */
  lemma ClearedCellIsOnBoard(sorted: seq<Cell>, sameColor: seq<Cell>, groups: seq<seq<Cell>>)
    requires forall c :: c in sameColor ==> c in sorted
    requires multiset(Flatten(groups)) == multiset(sameColor)
    requires Destroyed(groups) != []
    ensures exists d :: d in Destroyed(groups) && d in sorted
  {
    var d := Destroyed(groups)[0];
    DestroyedMembers(groups, d);
    FlattenMembers(groups, d);
    assert d in multiset(Flatten(groups));
  }

  /** Rows still to fall are never negative while no listed cell is below its target. */
  lemma {:induction false} DistanceNonNegative(cells: seq<Cell>, idx: seq<nat>)
    requires forall m :: 0 <= m < |idx| ==> idx[m] < |cells|
    requires NotBelowTarget(cells, idx)
    ensures Distance(cells, idx) >= 0
  {
    if idx != [] {
      DistanceNonNegative(cells, idx[1..]);
    }
  }

  /** A column's cell count after a refill up to `size`: raised to `size`, or kept when already that tall. */
  function Filled(count: int, size: int): int
  {
    if count < size then size else count
  }

  function Min(a: int, b: int): int
  {
    if a < b then a else b
  }

  class GameController {
    /** Every cell on the board: the side columns' children and the landed pieces' cells. */
    var cells: seq<Cell>
    /** Next fresh scene-object identity. */
    var nextId: nat

    /** No cell is flying, the cells' ids are distinct and `nextId` is fresh. */
    ghost predicate Valid()
      reads this
    {
      NoFlying(cells) && UniqueIds(cells) && IdsBelow(cells, nextId)
    }

    /** A board with both side columns filled up to the full height. */
    constructor ()
      ensures Valid()
      ensures CountTag(cells, LeftColumn) == ColumnSize && CountTag(cells, RightColumn) == ColumnSize
      ensures CountTag(cells, Player) == 0
    {
      cells := [];
      nextId := 0;
      new;
      var _ := RecreateColumns();
    }

    /**
     * Adds one cell on top of the column tagged `tag`, at x `worldPosition`,
     * when it holds fewer than `nbCellsPerColumn` cells; tells whether it did.
     */
    method CreateColumn(tag: Tag, worldPosition: int, nbCellsPerColumn: int) returns (created: bool)
      modifies this
      requires Valid()
      ensures Valid()
      ensures created <==> old(CountTag(cells, tag)) < nbCellsPerColumn
      ensures !created ==> cells == old(cells)
      ensures created ==>
        && |cells| == |old(cells)| + 1
        && cells[..|old(cells)|] == old(cells)
        && cells[|old(cells)|].x == worldPosition
        && cells[|old(cells)|].y == old(CountTag(cells, tag)) + 1
        && cells[|old(cells)|].tag == tag
        && 0 <= cells[|old(cells)|].color < PaletteSize
        && cells[|old(cells)|].id == old(nextId)
        && nextId == old(nextId) + 1
      ensures !created ==> nextId == old(nextId)
      ensures forall t :: CountTag(cells, t) == old(CountTag(cells, t)) + (if created && t == tag then 1 else 0)
    {
      var count := CountTag(cells, tag);
      if count < nbCellsPerColumn {
        var color :| 0 <= color < PaletteSize;
        var cell := Cell(nextId, worldPosition, count + 1, color, tag, false, count + 1);
        forall t
          ensures CountTag(cells + [cell], t) == CountTag(cells, t) + (if t == tag then 1 else 0)
        {
          CountTagAppend(cells, cell, t);
        }
        assert (cells + [cell])[..|cells|] == cells;
        UniqueSnoc(cells, cell);
        cells := cells + [cell];
        nextId := nextId + 1;
        created := true;
      } else {
        created := false;
      }
    }

    /**
     * Refills both side columns, one cell per column per round, until
     * neither grows; returns the number of paced rounds after the first.
     */
    method RecreateColumns() returns (rounds: nat)
      modifies this
      requires Valid()
      ensures Valid()
      ensures CountTag(cells, LeftColumn) == Filled(old(CountTag(cells, LeftColumn)), ColumnSize)
      ensures CountTag(cells, RightColumn) == Filled(old(CountTag(cells, RightColumn)), ColumnSize)
      ensures CountTag(cells, Player) == old(CountTag(cells, Player))
      ensures rounds <= ColumnSize
      ensures old(CountTag(cells, LeftColumn)) + rounds >= ColumnSize
      ensures old(CountTag(cells, RightColumn)) + rounds >= ColumnSize
      ensures rounds == 0
        || old(CountTag(cells, LeftColumn)) + rounds == ColumnSize
        || old(CountTag(cells, RightColumn)) + rounds == ColumnSize
      ensures |old(cells)| <= |cells| && cells[..|old(cells)|] == old(cells)
    {
      ghost var left0 := CountTag(cells, LeftColumn);
      ghost var right0 := CountTag(cells, RightColumn);
      ghost var player0 := CountTag(cells, Player);
      ghost var cells0 := cells;
      var leftColumnCreation, rightColumnCreation := CreateBothColumns();
      rounds := 0;
      while leftColumnCreation || rightColumnCreation
        invariant Valid()
        invariant leftColumnCreation <==> left0 + rounds < ColumnSize
        invariant rightColumnCreation <==> right0 + rounds < ColumnSize
        invariant CountTag(cells, LeftColumn) == if left0 >= ColumnSize then left0 else Min(left0 + rounds + 1, ColumnSize)
        invariant CountTag(cells, RightColumn) == if right0 >= ColumnSize then right0 else Min(right0 + rounds + 1, ColumnSize)
        invariant CountTag(cells, Player) == player0
        invariant rounds == 0 || left0 + rounds - 1 < ColumnSize || right0 + rounds - 1 < ColumnSize
        invariant |cells0| <= |cells| && cells[..|cells0|] == cells0
        decreases ColumnSize - rounds
      {
        ghost var prev := cells;
        leftColumnCreation, rightColumnCreation := CreateBothColumns();
        assert cells[..|cells0|] == prev[..|cells0|];
        rounds := rounds + 1;
      }
    }

    /** One round of the refill: one CreateColumn call for each side column. */
    method CreateBothColumns() returns (leftColumnCreation: bool, rightColumnCreation: bool)
      modifies this
      requires Valid()
      ensures Valid()
      ensures leftColumnCreation <==> old(CountTag(cells, LeftColumn)) < ColumnSize
      ensures rightColumnCreation <==> old(CountTag(cells, RightColumn)) < ColumnSize
      ensures CountTag(cells, LeftColumn) == old(CountTag(cells, LeftColumn)) + (if leftColumnCreation then 1 else 0)
      ensures CountTag(cells, RightColumn) == old(CountTag(cells, RightColumn)) + (if rightColumnCreation then 1 else 0)
      ensures CountTag(cells, Player) == old(CountTag(cells, Player))
      ensures |old(cells)| <= |cells| && cells[..|old(cells)|] == old(cells)
    {
      ghost var prev := cells;
      leftColumnCreation := CreateColumn(LeftColumn, LeftColumnIndex, ColumnSize);
      ghost var mid := cells;
      rightColumnCreation := CreateColumn(RightColumn, RightColumnIndex, ColumnSize);
      assert cells[..|prev|] == mid[..|prev|];
    }

    /**
     * One resolution cycle: repeatedly clears spanning groups, computes the
     * landing rows of the cells left hanging and lets them fall one row per
     * tick, until a pass clears nothing; then refills the columns and tells
     * whether a new piece is spawned (the game is not over).
     */
    method StepByStepBlockMovement() returns (spawn: bool)
      modifies this
      requires Valid()
      ensures Valid()
      ensures CountTag(cells, LeftColumn) >= ColumnSize && CountTag(cells, RightColumn) >= ColumnSize
      ensures spawn <==> !IsEndGame(cells)
    {
      var more := true;
      while more
        invariant Valid()
        decreases |cells| + (if more then 1 else 0)
      {
        var allCells := ComputeConnectingSquares(cells);
        FewerIdsBelow(cells, allCells, nextId);
        var settled, flyingCell := ComputeFlyingCellNewPosition(allCells);
        if flyingCell != [] {
          // A flying cell means some cell was cleared: the board shrank.
          SortKeepsNoFlying(cells);
          assert allCells[flyingCell[0]].flying;
          assert |allCells| < |cells|;
        }
        forall m | 0 <= m < |flyingCell|
          ensures settled[flyingCell[m]].target <= settled[flyingCell[m]].y
        {
          assert allCells[flyingCell[m]].flying;
        }
        DistanceNonNegative(settled, flyingCell);
        var stillHasToMove := true;
        while stillHasToMove
          invariant |settled| == |allCells|
          invariant NoFlying(settled)
          invariant NotBelowTarget(settled, flyingCell)
          invariant Distance(settled, flyingCell) >= 0
          invariant SameIds(allCells, settled)
          modifies {}
          decreases Distance(settled, flyingCell) + (if stillHasToMove then 1 else 0)
        {
          var moved;
          moved, stillHasToMove := MoveCellToLowerPosition(settled, flyingCell);
          LoweringProgresses(settled, moved, flyingCell, flyingCell);
          LoweringKeepsIds(allCells, settled, moved, flyingCell);
          settled := moved;
        }
        SameIdsKeep(allCells, settled);
        FewerIdsBelow(allCells, settled, nextId);
        cells := settled;
        more := flyingCell != [];
      }
      var _ := RecreateColumns();
      spawn := !IsEndGame(cells);
    }
  }
}
