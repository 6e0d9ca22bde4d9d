/**
 * The falling two-block piece: lock lists per direction, edge-triggered
 * horizontal moves, rotation of the second block around the first, and the
 * one-shot landing that snaps the piece to the grid.
 */
module Piece {
  import opened Rounding

  /** Where the second block sits relative to the first. */
  datatype RelativePosition = Top | Left | Bottom | Right

  /** A world position (Unity floats, taken as reals). */
  datatype Vec = Vec(x: real, y: real)

  /** The position one grid step from `a` in direction `p`. */
  function Beside(a: Vec, p: RelativePosition): (b: Vec)
    ensures GridNeighbours(a, b)
  {
    match p
    case Top => Vec(a.x, a.y + 1.0)
    case Left => Vec(a.x - 1.0, a.y)
    case Bottom => Vec(a.x, a.y - 1.0)
    case Right => Vec(a.x + 1.0, a.y)
  }

  /** Orthogonal neighbours on the unit grid. */
  predicate GridNeighbours(a: Vec, b: Vec)
  {
    || (a.y == b.y && (b.x == a.x + 1.0 || b.x == a.x - 1.0))
    || (a.x == b.x && (b.y == a.y + 1.0 || b.y == a.y - 1.0))
  }

  /** Different directions put the second block in different places. */
  lemma BesideInjective(a: Vec, p: RelativePosition, q: RelativePosition)
    ensures Beside(a, p) == Beside(a, q) ==> p == q
  {
  }

  /** Moving the first block moves the place beside it by the same amount. */
  lemma BesideShift(a: Vec, p: RelativePosition, dx: real, dy: real)
    ensures Beside(Shift(a, dx, dy), p) == Shift(Beside(a, p), dx, dy)
  {
  }

  /** `v` moved by `dx`, `dy`. */
  function Shift(v: Vec, dx: real, dy: real): Vec
  {
    Vec(v.x + dx, v.y + dy)
  }

  /** Next position of the second block on a left (counter-clockwise) turn. */
  function LeftTurn(p: RelativePosition): RelativePosition
  {
    match p
    case Top => Left
    case Left => Bottom
    case Bottom => Right
    case Right => Top
  }

  /** Next position of the second block on a right (clockwise) turn. */
  function RightTurn(p: RelativePosition): RelativePosition
  {
    match p
    case Top => Right
    case Right => Bottom
    case Bottom => Left
    case Left => Top
  }

  /**
   * Where a left rotation leaves the second block: one step round the
   * cycle unless that direction is blocked; the step from Right back to
   * Top is never blocked.
   */
  function RotateLeftTarget(p: RelativePosition, blocked: set<RelativePosition>): (r: RelativePosition)
    ensures r == LeftTurn(p) || r == p
    ensures r == LeftTurn(p) <==> p == Right || LeftTurn(p) !in blocked
  {
    match p
    case Top => if Left in blocked then Top else Left
    case Left => if Bottom in blocked then Left else Bottom
    case Bottom => if Right in blocked then Bottom else Right
    case Right => Top
  }

  /**
   * Where a right rotation leaves the second block: one step round the
   * cycle unless that direction is blocked; the step from Left back to Top
   * is never blocked.
   */
  function RotateRightTarget(p: RelativePosition, blocked: set<RelativePosition>): (r: RelativePosition)
    ensures r == RightTurn(p) || r == p
    ensures r == RightTurn(p) <==> p == Left || RightTurn(p) !in blocked
  {
    match p
    case Top => if Right in blocked then Top else Right
    case Right => if Bottom in blocked then Right else Bottom
    case Bottom => if Left in blocked then Bottom else Left
    case Left => Top
  }

  /** A rotation only ever moves the second block to a free direction, or back to Top. */
  lemma RotationAvoidsBlocked(p: RelativePosition, blocked: set<RelativePosition>)
    ensures RotateLeftTarget(p, blocked) != p ==> RotateLeftTarget(p, blocked) !in blocked || RotateLeftTarget(p, blocked) == Top
    ensures RotateRightTarget(p, blocked) != p ==> RotateRightTarget(p, blocked) !in blocked || RotateRightTarget(p, blocked) == Top
  {
  }

  /** Four unobstructed turns the same way bring the second block back where it was. */
  lemma FourTurnsAreIdentity(p: RelativePosition)
    ensures RotateLeftTarget(RotateLeftTarget(RotateLeftTarget(RotateLeftTarget(p, {}), {}), {}), {}) == p
    ensures RotateRightTarget(RotateRightTarget(RotateRightTarget(RotateRightTarget(p, {}), {}), {}), {}) == p
  {
  }

  /** Unobstructed, a right turn undoes a left turn and the other way round. */
  lemma OppositeTurnsCancel(p: RelativePosition)
    ensures RotateRightTarget(RotateLeftTarget(p, {}), {}) == p
    ensures RotateLeftTarget(RotateRightTarget(p, {}), {}) == p
  {
  }

  /** The list without its first occurrence of `c` (List.Remove). */
  function RemoveFirst(l: seq<nat>, c: nat): (r: seq<nat>)
    ensures c in l ==> |r| == |l| - 1 && multiset(r) == multiset(l) - multiset{c}
    ensures c !in l ==> r == l
  {
    if l == [] then []
    else if l[0] == c then
      assert l == [c] + l[1..];
      l[1..]
    else
      assert l == [l[0]] + l[1..];
      assert c in l ==> c in l[1..];
      [l[0]] + RemoveFirst(l[1..], c)
  }

  /** Removing a collider just added restores the list's contents. */
  lemma AddThenRemoveContents(l: seq<nat>, c: nat)
    ensures multiset(RemoveFirst(l + [c], c)) == multiset(l)
  {
    assert (l + [c])[|l|] == c;
  }

  /** When the collider was not in the list already, removing it restores the list itself. */
  lemma {:induction false} AddThenRemove(l: seq<nat>, c: nat)
    requires c !in l
    ensures RemoveFirst(l + [c], c) == l
  {
    if l == [] {
      assert l + [c] == [c];
    } else {
      var t := l + [c];
      assert t[1..] == l[1..] + [c];
      AddThenRemove(l[1..], c);
      assert l == [l[0]] + l[1..];
    }
  }

  /**
   * A collider locked and then unlocked again leaves its direction's list
   * non-empty exactly when it was non-empty before: the direction is
   * blocked afterwards iff it was blocked before.
   */
  lemma {:induction false} LockThenUnlockKeepsBlocked(l: seq<nat>, c: nat)
    ensures RemoveFirst(l + [c], c) != [] <==> l != []
  {
    AddThenRemoveContents(l, c);
    if l == [] {
      assert multiset(RemoveFirst(l + [c], c)) == multiset{};
    } else {
      assert l[0] in multiset(l);
    }
  }

  /** The outcome of one frame of horizontal input. */
  datatype Horizontal = Horizontal(previous: int, dx: int)

  /**
   * Horizontal input for one frame: a push left (right) moves one column
   * when that side is free and the stick was not already pushed that way;
   * otherwise the stick counts as centred.
   */
  function HorizontalStep(previous: int, axis: real, leftFree: bool, rightFree: bool): (h: Horizontal)
    ensures h.dx == -1 || h.dx == 0 || h.dx == 1
    ensures h.dx == -1 <==> axis < 0.0 && leftFree && previous >= 0
    ensures h.dx == 1 <==> !(axis < 0.0 && leftFree) && axis > 0.0 && rightFree && previous <= 0
    ensures -1 <= previous <= 1 ==>
      h.previous == (if axis < 0.0 && leftFree then -1 else if axis > 0.0 && rightFree then 1 else 0)
  {
    if axis < 0.0 && leftFree then
      if previous >= 0 then Horizontal(-1, -1) else Horizontal(previous, 0)
    else if axis > 0.0 && rightFree then
      if previous <= 0 then Horizontal(1, 1) else Horizontal(previous, 0)
    else Horizontal(0, 0)
  }

  /** Holding the stick the same way for a second frame does not move the piece again. */
  lemma HeldInputMovesOnce(previous: int, axis: real, leftFree: bool, rightFree: bool)
    requires previous == -1 || previous == 0 || previous == 1
    ensures HorizontalStep(HorizontalStep(previous, axis, leftFree, rightFree).previous, axis, leftFree, rightFree).dx == 0
  {
  }

  /** Releasing the stick re-arms it: the next push moves the piece if that side is free. */
  lemma ReleaseRearms(previous: int, axis: real, leftFree: bool, rightFree: bool)
    requires axis != 0.0 && (if axis < 0.0 then leftFree else rightFree)
    ensures HorizontalStep(HorizontalStep(previous, 0.0, leftFree, rightFree).previous, axis, leftFree, rightFree).dx != 0
  {
  }

  /** Downward speed per frame: faster while the stick is pushed down. */
  function FallSpeed(verticalAxis: real): (s: real)
    ensures s > 0.0
  {
    if verticalAxis < 0.0 then 0.04 else 0.02
  }

  /** `v` with both coordinates rounded to the nearest integer, halves away from zero. */
  function Snap(v: Vec): (w: Vec)
    ensures -0.5 <= w.x - v.x <= 0.5 && -0.5 <= w.y - v.y <= 0.5
    ensures w.x == w.x.Floor as real && w.y == w.y.Floor as real
  {
    Vec(RoundAwayFromZero(v.x) as real, RoundAwayFromZero(v.y) as real)
  }

  /** Snapping a grid position changes nothing. */
  lemma SnapKeepsGridPositions(i: int, j: int)
    ensures Snap(Vec(i as real, j as real)) == Vec(i as real, j as real)
  {
    RoundingKeepsIntegers(i);
    RoundingKeepsIntegers(j);
  }

  class PlayerController {
    /** Sign of the horizontal input of the previous frame (-1, 0 or 1). */
    var horizPreviousValue: int
    /** The piece's own position; the two blocks are its children and move with it. */
    var position: Vec
    var blockA: Vec
    var blockB: Vec
    var canPlayerMove: bool
    /** For each direction, the colliders currently blocking it. */
    var lockDirection: map<RelativePosition, seq<nat>>
    var secondBlockPosition: RelativePosition

    ghost predicate Valid()
      reads this
    {
      && Top in lockDirection && Left in lockDirection
      && Bottom in lockDirection && Right in lockDirection
      && -1 <= horizPreviousValue <= 1
      && blockB == Beside(blockA, secondBlockPosition)
    }

    /** Directions with at least one blocking collider. */
    function Blocked(): (b: set<RelativePosition>)
      reads this
      ensures forall p :: p in b <==> p in lockDirection && lockDirection[p] != []
    {
      set p | p in lockDirection && lockDirection[p] != []
    }

    /** A fresh piece: movable, nothing blocked, second block on top of the first (the prefab's layout). */
    constructor (position: Vec, blockA: Vec, blockB: Vec)
      requires blockB == Beside(blockA, Top)
      ensures Valid()
      ensures this.position == position && this.blockA == blockA && this.blockB == blockB
      ensures canPlayerMove && horizPreviousValue == 0 && secondBlockPosition == Top
      ensures Blocked() == {}
    {
      this.position := position;
      this.blockA := blockA;
      this.blockB := blockB;
      horizPreviousValue := 0;
      canPlayerMove := true;
      lockDirection := map[Top := [], Left := [], Bottom := [], Right := []];
      secondBlockPosition := Top;
    }

    /** A collider starts blocking direction `p`. */
    method LockDirection(p: RelativePosition, c: nat)
      modifies this
      requires Valid()
      ensures Valid()
      ensures lockDirection == old(lockDirection)[p := old(lockDirection)[p] + [c]]
      ensures p in Blocked()
      ensures forall q :: q != p ==> (q in Blocked() <==> q in old(Blocked()))
      ensures unchanged(this`position, this`blockA, this`blockB, this`canPlayerMove)
      ensures unchanged(this`horizPreviousValue, this`secondBlockPosition)
    {
      lockDirection := lockDirection[p := lockDirection[p] + [c]];
    }

    /** A collider stops blocking direction `p` (its first occurrence is dropped). */
    method UnlockDirection(p: RelativePosition, c: nat)
      modifies this
      requires Valid()
      ensures Valid()
      ensures lockDirection == old(lockDirection)[p := RemoveFirst(old(lockDirection)[p], c)]
      ensures p in Blocked() <==> RemoveFirst(old(lockDirection)[p], c) != []
      ensures forall q :: q != p ==> (q in Blocked() <==> q in old(Blocked()))
      ensures unchanged(this`position, this`blockA, this`blockB, this`canPlayerMove)
      ensures unchanged(this`horizPreviousValue, this`secondBlockPosition)
    {
      ghost var before := Blocked();
      lockDirection := lockDirection[p := RemoveFirst(lockDirection[p], c)];
      assert forall q :: q != p ==> (q in Blocked() <==> q in before);
    }

    /** Moves the piece with both its blocks. */
    method Translate(dx: real, dy: real)
      modifies this
      requires Valid()
      ensures Valid()
      ensures position == Shift(old(position), dx, dy)
      ensures blockA == Shift(old(blockA), dx, dy) && blockB == Shift(old(blockB), dx, dy)
      ensures unchanged(this`horizPreviousValue, this`canPlayerMove, this`lockDirection, this`secondBlockPosition)
    {
      position := Shift(position, dx, dy);
      BesideShift(blockA, secondBlockPosition, dx, dy);
      blockA := Shift(blockA, dx, dy);
      blockB := Shift(blockB, dx, dy);
    }

    method JoystickCenter()
      modifies this
      requires Valid()
      ensures Valid()
      ensures horizPreviousValue == 0
      ensures unchanged(this`position, this`blockA, this`blockB, this`canPlayerMove)
      ensures unchanged(this`lockDirection, this`secondBlockPosition)
    {
      horizPreviousValue := 0;
    }

    /** One column left, unless the stick was already held left. */
    method DoActionLeft()
      modifies this
      requires Valid()
      ensures Valid()
      ensures horizPreviousValue == if old(horizPreviousValue) >= 0 then -1 else old(horizPreviousValue)
      ensures var dx := if old(horizPreviousValue) >= 0 then -1.0 else 0.0;
        && position == Shift(old(position), dx, 0.0)
        && blockA == Shift(old(blockA), dx, 0.0) && blockB == Shift(old(blockB), dx, 0.0)
      ensures unchanged(this`canPlayerMove, this`lockDirection, this`secondBlockPosition)
    {
      if horizPreviousValue >= 0 {
        horizPreviousValue := -1;
        Translate(-1.0, 0.0);
      }
    }

    /** One column right, unless the stick was already held right. */
    method DoActionRight()
      modifies this
      requires Valid()
      ensures Valid()
      ensures horizPreviousValue == if old(horizPreviousValue) <= 0 then 1 else old(horizPreviousValue)
      ensures var dx := if old(horizPreviousValue) <= 0 then 1.0 else 0.0;
        && position == Shift(old(position), dx, 0.0)
        && blockA == Shift(old(blockA), dx, 0.0) && blockB == Shift(old(blockB), dx, 0.0)
      ensures unchanged(this`canPlayerMove, this`lockDirection, this`secondBlockPosition)
    {
      if horizPreviousValue <= 0 {
        horizPreviousValue := 1;
        Translate(1.0, 0.0);
      }
    }

    /** Puts the second block one grid step from the first, in its current direction. */
    method ApplySecondaryBlockPosition()
      modifies this
      ensures blockB == Beside(blockA, secondBlockPosition)
      ensures GridNeighbours(blockA, blockB)
      ensures unchanged(this`position, this`blockA, this`horizPreviousValue, this`canPlayerMove)
      ensures unchanged(this`lockDirection, this`secondBlockPosition)
    {
      match secondBlockPosition {
        case Top => blockB := Vec(blockA.x, blockA.y + 1.0);
        case Left => blockB := Vec(blockA.x - 1.0, blockA.y);
        case Bottom => blockB := Vec(blockA.x, blockA.y - 1.0);
        case Right => blockB := Vec(blockA.x + 1.0, blockA.y);
      }
    }

    method RotateLeft()
      modifies this
      requires Valid()
      ensures Valid()
      ensures secondBlockPosition == RotateLeftTarget(old(secondBlockPosition), old(Blocked()))
      ensures blockB == Beside(blockA, secondBlockPosition)
      ensures unchanged(this`position, this`blockA, this`horizPreviousValue, this`canPlayerMove, this`lockDirection)
    {
      match secondBlockPosition {
        case Top =>
          if lockDirection[Left] == [] {
            secondBlockPosition := Left;
          }
        case Left =>
          if lockDirection[Bottom] == [] {
            secondBlockPosition := Bottom;
          }
        case Bottom =>
          if lockDirection[Right] == [] {
            secondBlockPosition := Right;
          }
        case Right =>
          secondBlockPosition := Top;
      }
      ApplySecondaryBlockPosition();
    }

    method RotateRight()
      modifies this
      requires Valid()
      ensures Valid()
      ensures secondBlockPosition == RotateRightTarget(old(secondBlockPosition), old(Blocked()))
      ensures blockB == Beside(blockA, secondBlockPosition)
      ensures unchanged(this`position, this`blockA, this`horizPreviousValue, this`canPlayerMove, this`lockDirection)
    {
      match secondBlockPosition {
        case Top =>
          if lockDirection[Right] == [] {
            secondBlockPosition := Right;
          }
        case Right =>
          if lockDirection[Bottom] == [] {
            secondBlockPosition := Bottom;
          }
        case Bottom =>
          if lockDirection[Left] == [] {
            secondBlockPosition := Left;
          }
        case Left =>
          secondBlockPosition := Top;
      }
      ApplySecondaryBlockPosition();
    }

    /**
     * The piece has touched down: the first call freezes it, snaps it to
     * the grid and asks for a new resolution cycle; later calls do nothing.
     */
    method LockPlayerMovements() returns (newCycle: bool)
      modifies this
      requires Valid()
      ensures Valid()
      ensures newCycle == old(canPlayerMove)
      ensures !canPlayerMove
      ensures old(canPlayerMove) ==>
        var dx := Snap(old(position)).x - old(position).x;
        var dy := Snap(old(position)).y - old(position).y;
        && position == Snap(old(position))
        && blockA == Shift(old(blockA), dx, dy) && blockB == Shift(old(blockB), dx, dy)
      ensures !old(canPlayerMove) ==> unchanged(this`position, this`blockA, this`blockB)
      ensures unchanged(this`horizPreviousValue, this`lockDirection, this`secondBlockPosition)
    {
      newCycle := false;
      if canPlayerMove {
        canPlayerMove := false;
        var x := RoundAwayFromZero(position.x);
        var y := RoundAwayFromZero(position.y);
        Translate(x as real - position.x, y as real - position.y);
        newCycle := true;
      }
    }

    /** The horizontal part of a frame: move on a fresh push toward a free side, else centre. */
    method HandleHorizontal(horizontalAxis: real)
      modifies this
      requires Valid()
      ensures Valid()
      ensures var h := HorizontalStep(old(horizPreviousValue), horizontalAxis,
                                      lockDirection[Left] == [], lockDirection[Right] == []);
        && horizPreviousValue == h.previous
        && position == Shift(old(position), h.dx as real, 0.0)
        && blockA == Shift(old(blockA), h.dx as real, 0.0)
        && blockB == Shift(old(blockB), h.dx as real, 0.0)
      ensures unchanged(this`canPlayerMove, this`lockDirection, this`secondBlockPosition)
    {
      if horizontalAxis < 0.0 && lockDirection[Left] == [] {
        DoActionLeft();
      } else if horizontalAxis > 0.0 && lockDirection[Right] == [] {
        DoActionRight();
      } else {
        JoystickCenter();
      }
    }

    /** The rotation part of a frame: a left turn has priority over a right turn. */
    method HandleRotation(leftRotation: bool, rightRotation: bool)
      modifies this
      requires Valid()
      ensures Valid()
      ensures secondBlockPosition ==
        if leftRotation then RotateLeftTarget(old(secondBlockPosition), old(Blocked()))
        else if rightRotation then RotateRightTarget(old(secondBlockPosition), old(Blocked()))
        else old(secondBlockPosition)
      ensures leftRotation || rightRotation ==> blockB == Beside(blockA, secondBlockPosition)
      ensures !leftRotation && !rightRotation ==> blockB == old(blockB)
      ensures unchanged(this`position, this`blockA, this`horizPreviousValue, this`canPlayerMove, this`lockDirection)
    {
      if leftRotation {
        RotateLeft();
      } else if rightRotation {
        RotateRight();
      }
    }

    /**
     * One frame of a movable piece: horizontal input, then at most one
     * rotation, then the fall.
     */
    method Update(horizontalAxis: real, verticalAxis: real, leftRotation: bool, rightRotation: bool)
      modifies this
      requires Valid()
      ensures Valid()
      ensures !old(canPlayerMove) ==> unchanged(this)
      ensures old(canPlayerMove) ==>
        var h := HorizontalStep(old(horizPreviousValue), horizontalAxis,
                                lockDirection[Left] == [], lockDirection[Right] == []);
        var fall := -FallSpeed(verticalAxis);
        && horizPreviousValue == h.previous
        && position == Shift(old(position), h.dx as real, fall)
        && blockA == Shift(old(blockA), h.dx as real, fall)
        && secondBlockPosition ==
          (if leftRotation then RotateLeftTarget(old(secondBlockPosition), old(Blocked()))
           else if rightRotation then RotateRightTarget(old(secondBlockPosition), old(Blocked()))
           else old(secondBlockPosition))
        && (leftRotation || rightRotation ==> blockB == Beside(blockA, secondBlockPosition))
        && (!leftRotation && !rightRotation ==> blockB == Shift(old(blockB), h.dx as real, fall))
      ensures unchanged(this`canPlayerMove, this`lockDirection)
    {
      if canPlayerMove {
        HandleHorizontal(horizontalAxis);
        HandleRotation(leftRotation, rightRotation);
        Translate(0.0, -FallSpeed(verticalAxis));
      }
    }
  }
}
