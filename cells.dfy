/** Board cells of the arena and the constants that shape the arena. */
module Cells {

  /** x of the left column's cells. */
  const LeftColumnIndex: int := 0
  /** x of the right column's cells. */
  const RightColumnIndex: int := 6
  /** Number of cells in a full side column; also the game-over height. */
  const ColumnSize: int := 15
  /** Number of playable colours (the palette of the global controller). */
  const PaletteSize: int := 4

  datatype Option<T> = None | Some(value: T)

  /** Origin tag of a cell: child of the left or right column, or part of a landed piece. */
  datatype Tag = LeftColumn | RightColumn | Player

  /**
   * A cell on the board. `id` stands for the identity of the scene object
   * (lists of cells are lists of references); `flying` and `target` are the
   * block annotation (UpInTheAir and the y of NewPosition; its x is always
   * the cell's own x).
   */
  datatype Cell = Cell(id: nat, x: int, y: int, color: int, tag: Tag, flying: bool, target: int)

  /** Orthogonal neighbours at distance one, as compared in the grouping loop. */
  predicate Adjacent(a: Cell, b: Cell)
  {
    || (a.x - 1 == b.x && a.y == b.y)
    || (a.x + 1 == b.x && a.y == b.y)
    || (a.y - 1 == b.y && a.x == b.x)
    || (a.y + 1 == b.y && a.x == b.x)
  }

  /** The cell with its transient flying flag cleared: everything a pass may not change. */
  function Strip(c: Cell): Cell
  {
    c.(flying := false)
  }

  function StripAll(s: seq<Cell>): (r: seq<Cell>)
    ensures |r| == |s|
    ensures forall i :: 0 <= i < |s| ==> r[i] == Strip(s[i])
  {
    if s == [] then [] else [Strip(s[0])] + StripAll(s[1..])
  }

  predicate NoFlying(s: seq<Cell>)
  {
    forall i :: 0 <= i < |s| ==> !s[i].flying
  }

  /** Every cell stands on row 1 or higher (row 0 is the floor). */
  predicate AboveFloor(s: seq<Cell>)
  {
    forall i :: 0 <= i < |s| ==> s[i].y >= 1
  }

  /** Distinct scene objects have distinct ids, and no object is listed twice. */
  predicate UniqueIds(s: seq<Cell>)
  {
    forall i, j :: 0 <= i < |s| && 0 <= j < |s| && i != j ==> s[i].id != s[j].id
  }

  lemma UniqueIdsTail(s: seq<Cell>)
    requires s != [] && UniqueIds(s)
    ensures UniqueIds(s[1..]) && s[0].id !in IdsOf(s[1..])
  {
    forall k | 0 <= k < |s[1..]|
      ensures s[1..][k].id != s[0].id
    {
      assert s[1..][k] == s[k + 1];
    }
  }

  /** A cell whose id is new to a list of distinct ids can go in front of it. */
  lemma UniqueCons(c: Cell, s: seq<Cell>)
    requires UniqueIds(s)
    requires forall d :: d in s ==> d.id != c.id
    ensures UniqueIds([c] + s)
  {
    var r := [c] + s;
    forall i, j | 0 <= i < |r| && 0 <= j < |r| && i != j
      ensures r[i].id != r[j].id
    {
      if i == 0 {
        assert r[j] == s[j - 1];
      } else if j == 0 {
        assert r[i] == s[i - 1];
      } else {
        assert r[i] == s[i - 1] && r[j] == s[j - 1];
      }
    }
  }

  /** A cell whose id is new to a list of distinct ids can go after it. */
  lemma UniqueSnoc(s: seq<Cell>, c: Cell)
    requires UniqueIds(s)
    requires forall d :: d in s ==> d.id != c.id
    ensures UniqueIds(s + [c])
  {
    var r := s + [c];
    forall i, j | 0 <= i < |r| && 0 <= j < |r| && i != j
      ensures r[i].id != r[j].id
    {
      if i == |s| {
        assert r[j] == s[j];
      } else if j == |s| {
        assert r[i] == s[i];
      } else {
        assert r[i] == s[i] && r[j] == s[j];
      }
    }
  }

  /** Two lists with the same id at every position. */
  predicate SameIds(a: seq<Cell>, b: seq<Cell>)
  {
    |a| == |b| && forall i :: 0 <= i < |a| ==> a[i].id == b[i].id
  }

  /** Every cell of `s` has an id below `n`: `n` is a fresh id. */
  predicate IdsBelow(s: seq<Cell>, n: nat)
  {
    forall c :: c in s ==> c.id < n
  }

  /** Changing anything but the ids keeps the same ids, and keeps them distinct. */
  lemma SameIdsKeep(a: seq<Cell>, b: seq<Cell>)
    requires SameIds(a, b)
    ensures UniqueIds(a) ==> UniqueIds(b)
    ensures IdsOf(a) == IdsOf(b)
  {
    forall x | x in IdsOf(a)
      ensures x in IdsOf(b)
    {
      var c :| c in a && c.id == x;
      var i :| 0 <= i < |a| && a[i] == c;
      assert b[i] in b;
    }
    forall x | x in IdsOf(b)
      ensures x in IdsOf(a)
    {
      var c :| c in b && c.id == x;
      var i :| 0 <= i < |b| && b[i] == c;
      assert a[i] in a;
    }
  }

  /** A bound on the ids of a board bounds the ids of a board with fewer ids. */
  lemma FewerIdsBelow(a: seq<Cell>, b: seq<Cell>, n: nat)
    requires IdsOf(b) <= IdsOf(a)
    requires IdsBelow(a, n)
    ensures IdsBelow(b, n)
  {
    forall c | c in b
      ensures c.id < n
    {
      assert c.id in IdsOf(b);
      var d :| d in a && d.id == c.id;
    }
  }

  /** The ids of the cells of `s`. */
  function IdsOf(s: seq<Cell>): set<nat>
  {
    set c | c in s :: c.id
  }

  /** Number of cells carrying `tag`: the child count of a column. */
  function CountTag(s: seq<Cell>, tag: Tag): (n: nat)
    ensures n <= |s|
  {
    if s == [] then 0 else (if s[0].tag == tag then 1 else 0) + CountTag(s[1..], tag)
  }

  /** No cell carries `tag` exactly when the count is zero, and all do exactly when it is the length. */
  lemma {:induction false} CountTagExtremes(s: seq<Cell>, tag: Tag)
    ensures CountTag(s, tag) == 0 <==> forall i :: 0 <= i < |s| ==> s[i].tag != tag
    ensures CountTag(s, tag) == |s| <==> forall i :: 0 <= i < |s| ==> s[i].tag == tag
  {
    if s != [] {
      CountTagExtremes(s[1..], tag);
      assert forall i :: 1 <= i < |s| ==> s[i] == s[1..][i - 1];
    }
  }

  lemma {:induction false} CountTagAppend(s: seq<Cell>, c: Cell, tag: Tag)
    ensures CountTag(s + [c], tag) == CountTag(s, tag) + (if c.tag == tag then 1 else 0)
  {
    if s == [] {
      assert [c][1..] == [];
    } else {
      assert (s + [c])[1..] == s[1..] + [c];
      CountTagAppend(s[1..], c, tag);
    }
  }
}
