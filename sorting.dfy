/**
 * Ordering the board list by row, then by column (the OrderBy on y followed
 * by ThenBy on x), and splitting it by colour (the GroupBy on colour).
 */
module Sorting {
  import opened Cells
  import opened Gravity

  /** `a` comes no later than `b`: lower row first, then lower column. */
  predicate RowMajor(a: Cell, b: Cell)
  {
    a.y < b.y || (a.y == b.y && a.x <= b.x)
  }

  predicate Ordered(s: seq<Cell>)
  {
    forall i, j :: 0 <= i < j < |s| ==> RowMajor(s[i], s[j])
  }

  /**
   * Puts `c` in front of the first cell that does not come before it; cells
   * with the same position keep their relative order.
   */
  function Insert(c: Cell, s: seq<Cell>): (r: seq<Cell>)
    ensures multiset(r) == multiset(s) + multiset{c}
  {
    if s == [] then [c]
    else if RowMajor(c, s[0]) then [c] + s
    else
      assert s == [s[0]] + s[1..];
      [s[0]] + Insert(c, s[1..])
  }

  /** Inserting into an ordered board keeps it ordered. */
  lemma {:induction false} InsertOrdered(c: Cell, s: seq<Cell>)
    requires Ordered(s)
    ensures Ordered(Insert(c, s))
  {
    if s != [] && !RowMajor(c, s[0]) {
      var tail := s[1..];
      var rest := Insert(c, tail);
      InsertOrdered(c, tail);
      forall j | 0 <= j < |rest|
        ensures RowMajor(s[0], rest[j])
      {
        assert rest[j] in multiset(rest);
        if rest[j] != c {
          assert rest[j] in tail;
          var k :| 0 <= k < |tail| && tail[k] == rest[j];
          assert tail[k] == s[k + 1];
        }
      }
      var r := [s[0]] + rest;
      forall i, j | 0 <= i < j < |r|
        ensures RowMajor(r[i], r[j])
      {
        assert r[j] == rest[j - 1];
        if i > 0 {
          assert r[i] == rest[i - 1];
        }
      }
    }
  }

  /** A stable sort of the board by position, lowest row first. */
  function SortByPosition(s: seq<Cell>): (r: seq<Cell>)
    ensures multiset(r) == multiset(s)
    ensures |r| == |s|
    ensures Ordered(r)
  {
    if s == [] then []
    else
      assert s == [s[0]] + s[1..];
      InsertOrdered(s[0], SortByPosition(s[1..]));
      Insert(s[0], SortByPosition(s[1..]))
  }

  /** Inserting a cell with a new id keeps the ids distinct. */
  lemma {:induction false} InsertUnique(c: Cell, s: seq<Cell>)
    requires UniqueIds(s)
    requires forall d :: d in s ==> d.id != c.id
    ensures UniqueIds(Insert(c, s))
  {
    if s == [] || RowMajor(c, s[0]) {
      UniqueCons(c, s);
    } else {
      UniqueIdsTail(s);
      InsertUnique(c, s[1..]);
      forall d | d in Insert(c, s[1..])
        ensures d.id != s[0].id
      {
        assert d in multiset(Insert(c, s[1..]));
      }
      UniqueCons(s[0], Insert(c, s[1..]));
    }
  }

  /** Sorting keeps the ids distinct. */
  lemma {:induction false} SortUnique(s: seq<Cell>)
    requires UniqueIds(s)
    ensures UniqueIds(SortByPosition(s))
  {
    if s != [] {
      UniqueIdsTail(s);
      SortUnique(s[1..]);
      forall d | d in SortByPosition(s[1..])
        ensures d.id != s[0].id
      {
        assert d in multiset(SortByPosition(s[1..]));
        assert d in s[1..];
      }
      InsertUnique(s[0], SortByPosition(s[1..]));
    }
  }

  /** An ordered board is also sorted by row alone. */
  lemma OrderedRows(s: seq<Cell>)
    requires Ordered(s)
    ensures SortedByRow(s)
  {
  }

  /** Sorting an already ordered board leaves it as it is. */
  lemma {:induction false} SortOrderedIsIdentity(s: seq<Cell>)
    requires Ordered(s)
    ensures SortByPosition(s) == s
  {
    if s != [] {
      assert Ordered(s[1..]);
      SortOrderedIsIdentity(s[1..]);
      if |s| > 1 {
        assert RowMajor(s[0], s[1]);
      }
    }
  }

  /** Sorting neither creates nor clears a flying flag. */
  lemma SortKeepsNoFlying(s: seq<Cell>)
    requires NoFlying(s)
    ensures NoFlying(SortByPosition(s))
  {
    var r := SortByPosition(s);
    forall i | 0 <= i < |r|
      ensures !r[i].flying
    {
      assert r[i] in multiset(s);
    }
  }

  /**
   * The distinct colours of `s`, each listed once, in order of first
   * appearance (the keys of the GroupBy).
   */
  function DistinctColors(s: seq<Cell>): (r: seq<int>)
    ensures forall a, b :: 0 <= a < b < |r| ==> r[a] != r[b]
    ensures forall color :: color in r <==> exists c :: c in s && c.color == color
  {
    if s == [] then []
    else
      var init := s[..|s| - 1];
      var last := s[|s| - 1];
      assert s == init + [last];
      var p := DistinctColors(init);
      if last.color in p then p else p + [last.color]
  }

  /** The cells of `s` with colour `color`, in the order of `s`. */
  function CellsOfColor(s: seq<Cell>, color: int): (r: seq<Cell>)
    ensures forall c :: c in r <==> c in s && c.color == color
    ensures |r| <= |s|
  {
    if s == [] then []
    else
      assert s == [s[0]] + s[1..];
      (if s[0].color == color then [s[0]] else []) + CellsOfColor(s[1..], color)
  }
}
