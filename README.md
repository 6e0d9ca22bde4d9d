# Connecting Squares — a verified model of the board engine and the falling piece

Connecting Squares is a falling-blocks puzzle game. A two-block piece falls
between two side columns of coloured cells (x = 0 and x = 6, 15 cells high).
When the piece lands, the game controller runs one resolution cycle:

1. it sorts every cell on the board by row, then by column;
2. for each colour it splits that colour's cells into 4-connected groups;
3. it destroys every group that touches both side columns;
4. it marks the cells left hanging above a destroyed cell as flying;
5. it computes where each flying cell lands and lets the flying cells
   fall one row per tick;
6. it repeats steps 1–5 until a pass leaves nothing flying;
7. it refills both side columns to 15 cells and spawns the next piece at
   x = 3, unless a landed cell has reached row 15 (game over).

The piece controller handles the piece's input:
- horizontal moves, edge-triggered and blocked by per-direction lists of
  colliders;
- rotation of the second block around the first;
- the one-shot landing, which snaps the piece to the grid.

This project models both controllers in Dafny and proves their
properties.

Modules:

- `Cells` — the board cell (`Cell`: identity, x, y, colour, origin tag,
  flying flag, target row) and the arena constants. Positions on the board
  are integers.
- `Grouping` — `GroupConnectedCells`, the queue-draining grouping pass, with
  its per-cell scan `AddCell`. Its groups are proved to be exactly the
  4-connected components of the colour class.
- `LineClear` — `SearchConnectedLines` and `MarkFlyingCell`.
- `Gravity` — `ComputeFlyingCellNewPosition` and `MoveCellToLowerPosition`.
  A list of cells passed between them is a list of indices into the board
  list.
- `Sorting` — the OrderBy/ThenBy sort and the GroupBy on colour.
- `Rounding` — rounding to the nearest integer with halves away from zero.
- `Game` — `IsEndGame` and the spawn column, the per-colour pass
  `ComputeConnectingSquares`, and the class `GameController` with
  `CreateColumn`, `RecreateColumns` and the cycle `StepByStepBlockMovement`.
  The cycle is proved to terminate: every pass that leaves a cell flying
  has removed a cell from the board, and every tick brings the flying cells
  closer to their targets.
- `Piece` — the class `PlayerController`, plus the pure functions that
  specify its transitions (rotation targets, the horizontal input step, the
  lock-list removal, the grid snap).

Modelling choices:
- A scene object is a cell value with an `id`. `List.Remove(cell)` removes
  the first cell with that id.
- A column's child count is the number of board cells carrying that
  column's tag.
- Colliders in the lock lists are natural numbers.
- Random colours are chosen nondeterministically among the four palette
  colours.
- The piece's positions are reals; Unity's floats are taken to be exact.

## Model

| member | source | states |
|---|---|---|
| Cells.CountTagAppend | Assets/Scripts/Controller/GameController.cs:153-157 | adding a cell to the board raises its tag's child count by one and leaves the other counts unchanged |
| Cells.CountTag | Assets/Scripts/Controller/GameController.cs:153-154 | a column's child count never exceeds the number of board cells |
| Cells.CountTagExtremes | Assets/Scripts/Controller/GameController.cs:153-154 | the count is 0 iff no cell carries the tag, and equals the board size iff every cell does |
| Cells.UniqueIdsTail | Assets/Scripts/Controller/GameController.cs:311 | dropping the first cell of a board with distinct identities keeps them distinct, and the dropped identity is no longer present |
| Cells.UniqueCons | Assets/Scripts/Controller/GameController.cs:232 | a cell whose identity is new to a list of distinct identities can be put in front of it |
| Cells.UniqueSnoc | Assets/Scripts/Controller/GameController.cs:156-157 | a cell whose identity is new to a list of distinct identities can be appended to it |
| Cells.SameIdsKeep | Assets/Scripts/Controller/GameController.cs:336-344 | changing anything but the identities of a list keeps the same set of identities, still distinct |
| Cells.FewerIdsBelow | Assets/Scripts/Controller/GameController.cs:311 | a bound on the identities of a board bounds those of a board with a subset of its identities |
| Grouping.FindNeighbour | Assets/Scripts/Controller/GameController.cs:254-272 | the scan of one group reports a neighbour exactly when some cell of the group is at distance one along a row or a column |
| Grouping.AddCell | Assets/Scripts/Controller/GameController.cs:249-280 | placing a dequeued cell keeps every input cell in exactly one group (multiset of all cells grows by that cell), keeps groups non-empty, connected and pairwise non-adjacent; when no group touches the cell the result is the old groups followed by the singleton group of the cell, and every group not touching it is kept |
| Grouping.ScanGroup | Assets/Scripts/Controller/GameController.cs:252-273 | scanning one group: a group not touching the cell is appended unchanged; the first touching group is appended with the cell added and becomes the current group; a later touching group is appended onto the current group and dropped; exactly the scanned group's cells (and the cell, once) are added, and the result stays made of non-empty, connected, pairwise non-adjacent groups |
| Grouping.ScanAll | Assets/Scripts/Controller/GameController.cs:252-273 | scanning all groups for one cell: the current group is absent iff no group touches the cell, and then the groups are unchanged; otherwise it holds the cell; all cells scanned are kept, groups stay connected and non-adjacent |
| Grouping.PlaceAlone | Assets/Scripts/Controller/GameController.cs:275-280 | when no group touches the cell, appending its singleton group adds exactly that cell and keeps the groups non-empty, connected and non-adjacent |
| Grouping.PlaceJoined | Assets/Scripts/Controller/GameController.cs:261-274 | when a current group exists, some old group touched the cell and every old group not touching it is still there |
| Grouping.CountStep | Assets/Scripts/Controller/GameController.cs:263-267 | one group's scan adds exactly that group's cells, plus the cell when it joins its first group |
| Grouping.ShapeKeep | Assets/Scripts/Controller/GameController.cs:252-273 | keeping a group that does not touch the cell preserves the scan's shape invariant |
| Grouping.ShapeJoin | Assets/Scripts/Controller/GameController.cs:266-269 | adding the cell to the first touching group gives a connected current group holding the cell |
| Grouping.ShapeMerge | Assets/Scripts/Controller/GameController.cs:261-265 | appending a later touching group onto the current group keeps it connected |
| Grouping.WalkWiden | Assets/Scripts/Controller/GameController.cs:256-259 | a path of adjacent cells inside one group is also a path inside any group containing it |
| Grouping.WalkJoin | Assets/Scripts/Controller/GameController.cs:256-259 | two paths joined by an adjacent pair form one path |
| Grouping.ConnectedUnion | Assets/Scripts/Controller/GameController.cs:263 | two connected groups with an adjacent pair of cells form one connected group |
| Grouping.ConnectedSingle | Assets/Scripts/Controller/GameController.cs:277-279 | a single-cell group is connected |
| Grouping.GroupConnectedCells | Assets/Scripts/Controller/GameController.cs:243-284 | the groups are a partition of the input (same multiset of cells), none is empty, each is 4-connected, no cell of one group is adjacent to a cell of another, there are no more groups than cells, and an empty input gives an empty list |
| Grouping.NeighboursShareGroup | Assets/Scripts/Controller/GameController.cs:256-274 | any two orthogonally adjacent input cells end up in one and the same group |
| Grouping.WalkStaysInGroup | Assets/Scripts/Controller/GameController.cs:243-284 | a path of adjacent input cells starting in one group never leaves that group |
| Grouping.SameGroupIffWalk | Assets/Scripts/Controller/GameController.cs:243-284 | two input cells are in the same group iff a path of orthogonally adjacent input cells joins them: the groups are exactly the 4-connected components |
| Grouping.FlattenMembers | Assets/Scripts/Controller/GameController.cs:246-283 | a cell is among the grouped cells iff some group holds it |
| Grouping.FlattenGrowOne | Assets/Scripts/Controller/GameController.cs:263 | appending cells to one group adds exactly those cells to the grouped cells |
| LineClear.LowestAbove | Assets/Scripts/Controller/GameController.cs:320-321 | finds the lowest cell of the column strictly above the destroyed position: absent iff there is none, otherwise attained and no higher than any of them |
| LineClear.MarkFlyingCell | Assets/Scripts/Controller/GameController.cs:318-325 | marks flying exactly the cells in the same column with a strictly larger row, and only when none of those is on row 1 or lower; every other field and every other cell is unchanged |
| LineClear.MarkFlyingCellAboveFloor | Assets/Scripts/Controller/GameController.cs:318-325 | when the destroyed cell stands on row 1 or above, the row-1 exception never applies: every cell of its column above it is marked |
| LineClear.MarkAbove | Assets/Scripts/Controller/GameController.cs:303-313 | the combined flag effect of a pass: a cell is flying iff it was, or it stands above some destroyed cell of its column |
| LineClear.DestroyGroup | Assets/Scripts/Controller/GameController.cs:303-313 | killing the cells of a destroyed group one by one (remove, then mark above) keeps the pass invariant that relates the board to the original board minus the destroyed cells |
| LineClear.SearchConnectedLines | Assets/Scripts/Controller/GameController.cs:297-316 | the board never grows; it is unchanged when no group spans both columns and strictly smaller when a spanning group's cell is on it; with distinct identities it equals the original board, order kept, minus the cells of spanning groups up to flying flags, and, when every destroyed cell stands on row 1 or above, exactly that board with the cells above destroyed ones marked flying; an ordered board stays ordered |
| LineClear.DestroyedMembers | Assets/Scripts/Controller/GameController.cs:299-301 | a cell is destroyed iff some group holding it contains both a RightColumn cell and a LeftColumn cell |
| LineClear.SpanningIffBothColumns | Assets/Scripts/Controller/GameController.cs:301 | a group is destroyed iff it holds at least one RightColumn cell and at least one LeftColumn cell |
| LineClear.DestroyedIffSpanning | Assets/Scripts/Controller/GameController.cs:299-315 | after the pass a board cell is still present (up to its flag) iff no group holding it spans both columns; surviving cells keep all other fields |
| LineClear.RemoveByIdLength | Assets/Scripts/Controller/GameController.cs:311 | removing by identity drops exactly one cell when the identity is present and none otherwise |
| LineClear.RemoveById | Assets/Scripts/Controller/GameController.cs:311 | removal adds no cell and keeps every cell with another identity |
| LineClear.OrderedRemoveById | Assets/Scripts/Controller/GameController.cs:311 | removal keeps the board ordered by row then column |
| LineClear.MarkColumn | Assets/Scripts/Controller/GameController.cs:320-324 | the cells of the column strictly above the destroyed row get the flying flag set, no other cell or field changes |
| LineClear.OrderedMarkFlyingCell | Assets/Scripts/Controller/GameController.cs:318-325 | marking keeps the board ordered by row then column |
| LineClear.SurvivorsUnique | Assets/Scripts/Controller/GameController.cs:311 | the board left after removing cells keeps distinct identities |
| LineClear.MarkAboveTwice | Assets/Scripts/Controller/GameController.cs:312 | marking above one more destroyed cell composes with the marks already made |
| Gravity.FlyingIndices | Assets/Scripts/Controller/GameController.cs:332 | the listed cells are exactly the flying cells, in board order |
| Gravity.Settle | Assets/Scripts/Controller/GameController.cs:338-348 | one flying cell's target is lowered while no cell's target is right under it and it is above row 1; its flag is cleared; every row it passed had nothing right under it, so it stops at the first support; no other cell changes and cells settled earlier stay settled |
| Gravity.LowerTarget | Assets/Scripts/Controller/GameController.cs:340-345 | the while loop: the target ends at or below the row, not below row 1 when the cell started there, on row 1 or right above some cell's target, and every row passed had no cell's target right under it; no other cell changes |
| Gravity.SettledNow | Assets/Scripts/Controller/GameController.cs:340-346 | the cell just lowered and unflagged is settled: at its first support or row 1 |
| Gravity.SettledKept | Assets/Scripts/Controller/GameController.cs:338-348 | settling a later cell keeps an earlier cell settled |
| Gravity.SettleAll | Assets/Scripts/Controller/GameController.cs:336-348 | after resetting every target to its row and settling the flying cells in list order, only flags and targets have changed, non-flying cells are untouched and every flying cell is settled: flag cleared, target not above its row, at row 1 or above and, on a row-sorted board, on row 1 or on some target, having passed only rows with no lower cell of its column right under them |
| Gravity.ComputeFlyingCellNewPosition | Assets/Scripts/Controller/GameController.cs:330-351 | returns exactly the flying cells (empty list leaves the board untouched); only flags and targets change; afterwards no cell is flying, a flying cell's target never rises above its row and stays at row 1 or above, and on a board sorted by row each flying cell lands on its first support: its target is on row 1 or right above some target, and no lower cell of its column has its target right under any row it passed; other targets are reset to their rows |
| Gravity.MoveCellToLowerPosition | Assets/Scripts/Controller/GameController.cs:353-368 | each listed cell not on its target moves down exactly one row, settled and unlisted cells are untouched, and the result is true iff some listed cell is still off its target |
| Gravity.Lowered | Assets/Scripts/Controller/GameController.cs:358-365 | a tick changes only the row of a cell; a cell on its target stays, any other cell above its target comes one row closer to it |
| Gravity.LoweringProgresses | Assets/Scripts/Controller/GameController.cs:101-104 | a tick keeps listed cells at or above their targets and, when it reports more to do, strictly reduces the rows still to fall, so the tick loop ends |
| Sorting.Insert | Assets/Scripts/Controller/GameController.cs:232 | inserting keeps the cells (multiset grows by the inserted cell) |
| Sorting.InsertOrdered | Assets/Scripts/Controller/GameController.cs:232 | inserting into a board ordered by row then column keeps it ordered |
| Sorting.SortByPosition | Assets/Scripts/Controller/GameController.cs:232 | the result is a permutation of the board, ordered by row and then by column |
| Sorting.OrderedRows | Assets/Scripts/Controller/GameController.cs:232 | a board ordered by row then column is sorted by row, as the landing computation expects |
| Sorting.SortOrderedIsIdentity | Assets/Scripts/Controller/GameController.cs:232 | sorting an already ordered board changes nothing |
| Sorting.SortKeepsNoFlying | Assets/Scripts/Controller/GameController.cs:232 | sorting does not create flying flags |
| Sorting.InsertUnique | Assets/Scripts/Controller/GameController.cs:232 | inserting a cell with a new identity keeps the identities distinct |
| Sorting.SortUnique | Assets/Scripts/Controller/GameController.cs:232 | sorting keeps the identities distinct |
| Sorting.DistinctColors | Assets/Scripts/Controller/GameController.cs:233-234 | each colour present on the board is listed exactly once, and no other |
| Sorting.CellsOfColor | Assets/Scripts/Controller/GameController.cs:233-236 | the colour class holds exactly the board cells of that colour |
| Rounding.RoundAwayFromZero | Assets/Scripts/PlayerController.cs:108-109 | the result is within one half of the input, a half going away from zero |
| Rounding.RoundingIsUnique | Assets/Scripts/PlayerController.cs:108-109 | those bounds determine the rounded value |
| Rounding.MidpointsGoAwayFromZero | Assets/Scripts/PlayerController.cs:108-109 | a value exactly half-way between two integers is rounded to the one farther from zero, for both signs |
| Rounding.RoundingKeepsIntegers | Assets/Scripts/PlayerController.cs:108-110 | an integer position is not moved by rounding |
| Game.HighestPlayerRow | Assets/Scripts/Controller/GameController.cs:189-192 | the highest row among landed piece cells (an upper bound that is attained), 0 when there is none |
| Game.IsEndGame | Assets/Scripts/Controller/GameController.cs:187-195 | the game is over iff some landed piece cell is on row 15 or higher; false when there is none |
| Game.SpawnX | Assets/Scripts/Controller/GameController.cs:197-203 | the new piece spawns at x = 3, strictly between the side columns |
| Game.ComputeConnectingSquares | Assets/Scripts/Controller/GameController.cs:224-241 | the board never grows, and when it keeps its size it is just the sorted board; the result is ordered by row then column; with distinct identities they stay distinct and no identity is added |
| Game.ClearedCellIsOnBoard | Assets/Scripts/Controller/GameController.cs:232-238 | a destroyed cell of a colour class is a cell of the sorted board, so destroying it shrinks the board |
| Game.ClearKeepsIds | Assets/Scripts/Controller/GameController.cs:311 | the board left by a clearing pass has distinct identities, all of them from the board before |
| Game.LoweringKeepsIds | Assets/Scripts/Controller/GameController.cs:358-365 | a tick changes no identity |
| Game.DistanceNonNegative | Assets/Scripts/Controller/GameController.cs:358-364 | while no cell is below its target the rows still to fall are not negative |
| Game.GameController.constructor | Assets/Scripts/Controller/GameController.cs:128-137 | a new game has both side columns at 15 cells and no landed cells |
| Game.GameController.CreateColumn | Assets/Scripts/Controller/GameController.cs:151-163 | returns true iff the column has fewer cells than asked; then exactly one cell is appended, at the column's x, on row count + 1, with the column's tag, a palette colour and a fresh identity; otherwise the board is unchanged; the board invariant (nothing flying, distinct identities below the next fresh one) is kept |
| Game.GameController.CreateBothColumns | Assets/Scripts/Controller/GameController.cs:141-146 | one refill round grows each side column by one cell exactly when it has fewer than 15, keeping the landed cells and the existing board |
| Game.GameController.RecreateColumns | Assets/Scripts/Controller/GameController.cs:139-149 | both columns end with max(count, 15) cells, so exactly 15 when they had at most 15; the number of paced rounds is at most 15 and is the larger shortfall; landed cells and the existing board are kept |
| Game.GameController.StepByStepBlockMovement | Assets/Scripts/Controller/GameController.cs:90-115 | the clear/settle/fall loop and each tick loop terminate; afterwards nothing is flying, identities are still distinct and below the next fresh one, both columns hold at least 15 cells, and a new piece is spawned iff the game is not over |
| Piece.BesideInjective | Assets/Scripts/PlayerController.cs:199-216 | different directions put the second block at different positions |
| Piece.Beside | Assets/Scripts/PlayerController.cs:199-216 | each direction puts the second block orthogonally next to the first, one grid step away |
| Piece.BesideShift | Assets/Scripts/PlayerController.cs:128 | moving the first block moves the position beside it by the same amount |
| Piece.RotateLeftTarget | Assets/Scripts/PlayerController.cs:141-166 | a left turn goes Top→Left→Bottom→Right→Top; a step happens iff the destination is free, except Right→Top, which always happens; otherwise the position stays |
| Piece.RotateRightTarget | Assets/Scripts/PlayerController.cs:170-195 | a right turn goes Top→Right→Bottom→Left→Top; a step happens iff the destination is free, except Left→Top, which always happens; otherwise the position stays |
| Piece.RotationAvoidsBlocked | Assets/Scripts/PlayerController.cs:141-197 | a rotation never moves the second block into a blocked direction other than Top |
| Piece.FourTurnsAreIdentity | Assets/Scripts/PlayerController.cs:141-197 | with nothing blocked, four turns the same way return to the start |
| Piece.OppositeTurnsCancel | Assets/Scripts/PlayerController.cs:141-197 | with nothing blocked, a right turn undoes a left turn and the other way round |
| Piece.RemoveFirst | Assets/Scripts/PlayerController.cs:91 | removing a present collider drops exactly one occurrence of it; removing an absent one changes nothing |
| Piece.AddThenRemoveContents | Assets/Scripts/PlayerController.cs:84-92 | locking then unlocking the same collider restores the lock list's contents |
| Piece.AddThenRemove | Assets/Scripts/PlayerController.cs:84-92 | if the collider was not yet in the list, locking then unlocking restores the list exactly |
| Piece.LockThenUnlockKeepsBlocked | Assets/Scripts/PlayerController.cs:84-92 | locking and then unlocking the same collider leaves its direction blocked iff it was blocked before |
| Piece.HorizontalStep | Assets/Scripts/PlayerController.cs:56-67 | a frame moves the piece left iff the input is negative, the left side is free and the stick was not held left; right likewise when the left case does not apply; otherwise nothing moves; the remembered input becomes -1 after a push left toward a free side, 1 after a push right toward a free side, and 0 otherwise |
| Piece.HeldInputMovesOnce | Assets/Scripts/PlayerController.cs:118-139 | holding the stick the same way for a second frame does not move the piece again |
| Piece.ReleaseRearms | Assets/Scripts/PlayerController.cs:118-139 | after a centred frame, a push toward a free side moves the piece |
| Piece.FallSpeed | Assets/Scripts/PlayerController.cs:78 | a movable piece always falls |
| Piece.Snap | Assets/Scripts/PlayerController.cs:108-110 | the landing position is on the grid and within one half of the piece's position on each axis |
| Piece.SnapKeepsGridPositions | Assets/Scripts/PlayerController.cs:108-110 | a piece already on the grid is not moved by the landing snap |
| Piece.PlayerController.constructor | Assets/Scripts/PlayerController.cs:35-45 | a new piece, built with its second block on top of the first, is movable, with an empty lock list for each of the four directions, the second block on top and the stick centred; the piece invariant (the second block beside the first in the remembered direction) holds |
| Piece.PlayerController.LockDirection | Assets/Scripts/PlayerController.cs:84-87 | the collider is appended to that direction's list, which is then blocked; every other direction's blocked state is unchanged, and nothing else changes |
| Piece.PlayerController.UnlockDirection | Assets/Scripts/PlayerController.cs:89-92 | the first occurrence of the collider is removed from that direction's list; that direction stays blocked iff the shortened list is non-empty, every other direction's blocked state is unchanged, and nothing else changes |
| Piece.PlayerController.Translate | Assets/Scripts/PlayerController.cs:128 | moving the piece moves both its blocks by the same amount, so the second block stays beside the first |
| Piece.PlayerController.JoystickCenter | Assets/Scripts/PlayerController.cs:118-121 | the remembered input is reset to centred; nothing else changes |
| Piece.PlayerController.DoActionLeft | Assets/Scripts/PlayerController.cs:123-130 | moves the piece and its blocks one column left and remembers a left push iff the stick was not already held left; otherwise nothing changes |
| Piece.PlayerController.DoActionRight | Assets/Scripts/PlayerController.cs:132-139 | moves the piece and its blocks one column right and remembers a right push iff the stick was not already held right; otherwise nothing changes |
| Piece.PlayerController.ApplySecondaryBlockPosition | Assets/Scripts/PlayerController.cs:199-216 | the second block is put one grid step from the first in the remembered direction, so the two are orthogonal neighbours; nothing else changes |
| Piece.PlayerController.RotateLeft | Assets/Scripts/PlayerController.cs:141-168 | the remembered direction becomes the left-turn target given the blocked directions, and the second block is placed there |
| Piece.PlayerController.RotateRight | Assets/Scripts/PlayerController.cs:170-197 | the remembered direction becomes the right-turn target given the blocked directions, and the second block is placed there |
| Piece.PlayerController.LockPlayerMovements | Assets/Scripts/PlayerController.cs:94-116 | the first call freezes the piece, snaps it to the grid with halves away from zero (its blocks following, the second still beside the first) and asks for one new cycle; later calls change nothing and ask for none |
| Piece.PlayerController.HandleHorizontal | Assets/Scripts/PlayerController.cs:56-67 | one frame's horizontal input has the effect given by the horizontal step: the move and the remembered input |
| Piece.PlayerController.HandleRotation | Assets/Scripts/PlayerController.cs:69-76 | a left rotation request takes priority over a right one; with neither, the second block stays where it is |
| Piece.PlayerController.Update | Assets/Scripts/PlayerController.cs:47-82 | a frozen piece does not change; a movable one takes the horizontal step, then at most one rotation, then falls by the fall speed, with the lock lists untouched and the second block kept beside the first |

## Left out

- Unity input polling, scene loading (`EndGame`), the camera, the floor and
  ceiling, the debug labels, `DisplayGroupNumber` and layer changes: these
  are I/O or rendering. The floor and ceiling are not board cells in the
  model.
- Coroutine pacing (`WaitForSeconds`, `StartCoroutine`, `DoNewCycle`): each
  loop iteration is one step. `RecreateColumns` returns the number of
  paced rounds instead of waiting.
- `BlockController.Kill` and the detaching of a column cell from its column
  are not part of this model. Killing a cell removes it from the board.
- `CreateNextPlayer`, `ChangeNextPlayerColors` and `GetNextPlayerColors`, and
  the `GlobalController`: these are preview handling and global state.
  Random colours are a nondeterministic choice.
- The link between the two controllers goes through the Unity scene and is
  not modelled. A landed piece becoming board cells is not modelled, and
  `LockPlayerMovements` only returns whether it requests a cycle.
- Collision detection, which calls `LockDirection`, `UnlockDirection` and
  `LockPlayerMovements`, is not part of this model.
- Game.IsEndGame: the model assumes the Player tag is carried by each
  landed block, and tests the blocks' current rows. If the tag sits on the
  landed piece's root object instead, the game reads the root's snapped
  landing row, which gravity never lowers and which stays after the
  piece's blocks are destroyed; that reading is not modelled.
- Game.ComputeConnectingSquares: its contract states that the board
  shrinks or is the sorted board, stays ordered and keeps identities. The effect of each colour's pass is
  stated by `GroupConnectedCells` and `SearchConnectedLines`, not composed
  over all colours.
- LineClear.SearchConnectedLines: the exact flag outcome is stated only
  when every destroyed cell is on row 1 or above, which always holds on a
  board over the floor. Otherwise only the non-flag fields are stated.
- Game.GameController.StepByStepBlockMovement: the column counts afterwards
  are stated as at least 15, not exactly 15. The clearing pass is not
  shown to keep a column at or under 15 cells.
- Piece.PlayerController.constructor: the new piece's second block is
  required to start on top of the first, as in the piece prefab, which is
  not part of this model.
- Piece.PlayerController.Update: the fall uses exact reals for 0.04 and
  0.02, and float rounding is not modelled.
