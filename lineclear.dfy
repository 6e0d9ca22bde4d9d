/**
 * Destroying the groups that join the two side columns (SearchConnectedLines)
 * and marking what stood above them as flying (MarkFlyingCell).
 */
module LineClear {
  import opened Cells
  import opened Grouping
  import opened Sorting

  predicate HasTag(g: seq<Cell>, tag: Tag)
  {
    exists c :: c in g && c.tag == tag
  }

  /** A group is destroyed when it holds a right-column cell and a left-column cell. */
  predicate Spanning(g: seq<Cell>)
  {
    HasTag(g, RightColumn) && HasTag(g, LeftColumn)
  }

  /** A group spans the board exactly when it counts cells of both side columns. */
  lemma SpanningIffBothColumns(g: seq<Cell>)
    ensures Spanning(g) <==> CountTag(g, RightColumn) > 0 && CountTag(g, LeftColumn) > 0
  {
    CountTagExtremes(g, RightColumn);
    CountTagExtremes(g, LeftColumn);
  }

  /** The cells of the destroyed groups, in the order they are destroyed. */
  function Destroyed(gs: seq<seq<Cell>>): seq<Cell>
  {
    if gs == [] then []
    else Destroyed(gs[..|gs| - 1]) + (if Spanning(gs[|gs| - 1]) then gs[|gs| - 1] else [])
  }

  /** `s` without the cells whose id is in `ids`, order kept. */
  function Survivors(s: seq<Cell>, ids: set<nat>): seq<Cell>
  {
    if s == [] then []
    else if s[0].id in ids then Survivors(s[1..], ids)
    else [s[0]] + Survivors(s[1..], ids)
  }

  /** List.Remove: drop the first cell with this identity, if any. */
  function RemoveById(s: seq<Cell>, id: nat): (r: seq<Cell>)
    ensures forall c :: c in r ==> c in s
    ensures forall c :: c in s && c.id != id ==> c in r
  {
    if s == [] then []
    else if s[0].id == id then s[1..]
    else [s[0]] + RemoveById(s[1..], id)
  }

  /** Some destroyed cell lies directly below `c`'s column position. */
  predicate AboveSome(c: Cell, done: seq<Cell>)
  {
    exists d :: d in done && d.x == c.x && d.y < c.y
  }

  /** Every cell of `s` above a cell of `done` in the same column gets the flying flag. */
  function MarkAbove(s: seq<Cell>, done: seq<Cell>): (r: seq<Cell>)
    ensures |r| == |s|
    ensures forall i :: 0 <= i < |s| ==> r[i] == s[i].(flying := s[i].flying || AboveSome(s[i], done))
  {
    if s == [] then []
    else [s[0].(flying := s[0].flying || AboveSome(s[0], done))] + MarkAbove(s[1..], done)
  }

  /** Lowest y among the cells of column `px` strictly above row `py`. */
  function LowestAbove(cells: seq<Cell>, px: int, py: int): (low: Option<int>)
    ensures low.None? <==> forall j :: 0 <= j < |cells| ==> !(cells[j].x == px && py < cells[j].y)
    ensures low.Some? ==> exists j :: 0 <= j < |cells| && cells[j].x == px && py < cells[j].y && cells[j].y == low.value
    ensures low.Some? ==> forall j :: 0 <= j < |cells| && cells[j].x == px && py < cells[j].y ==> low.value <= cells[j].y
  {
    if cells == [] then None
    else
      var rest := LowestAbove(cells[1..], px, py);
      var c := cells[0];
      assert forall j :: 1 <= j < |cells| ==> cells[j] == cells[1..][j - 1];
      if c.x == px && py < c.y then
        (match rest
         case None => Some(c.y)
         case Some(v) => if c.y <= v then Some(c.y) else Some(v))
      else rest
  }

  /** No cell of column `px` above row `py` sits on row 1 or lower. */
  predicate NothingLowAbove(cells: seq<Cell>, px: int, py: int)
  {
    forall j :: 0 <= j < |cells| && cells[j].x == px && py < cells[j].y ==> cells[j].y > 1
  }

  /** Sets the flying flag of the cells of column `px` above row `py`, unless the lowest of them is on row 1 or lower. */
  function MarkColumn(cells: seq<Cell>, px: int, py: int): (r: seq<Cell>)
    ensures |r| == |cells|
    ensures forall i :: 0 <= i < |cells| ==>
      r[i] == cells[i].(flying := cells[i].flying || (cells[i].x == px && py < cells[i].y))
  {
    if cells == [] then []
    else [cells[0].(flying := cells[0].flying || (cells[0].x == px && py < cells[0].y))] + MarkColumn(cells[1..], px, py)
  }

  /**
   * After a cell at (px, py) is destroyed, every remaining cell of its column
   * above it becomes flying, unless the lowest of them is on row 1 or lower.
   */
  function MarkFlyingCell(cells: seq<Cell>, px: int, py: int): (r: seq<Cell>)
    ensures |r| == |cells|
    ensures forall i :: 0 <= i < |cells| ==>
      r[i] == cells[i].(flying := cells[i].flying || (cells[i].x == px && py < cells[i].y && NothingLowAbove(cells, px, py)))
  {
    match LowestAbove(cells, px, py)
    case None => cells
    case Some(low) => if low > 1 then MarkColumn(cells, px, py) else cells
  }

  // ---- helper lemmas ----

  lemma StripAllMarkFlyingCell(cells: seq<Cell>, px: int, py: int)
    ensures StripAll(MarkFlyingCell(cells, px, py)) == StripAll(cells)
  {
    var r := MarkFlyingCell(cells, px, py);
    forall i | 0 <= i < |cells|
      ensures StripAll(r)[i] == StripAll(cells)[i]
    {
      assert Strip(r[i]) == Strip(cells[i]);
    }
  }

  lemma {:induction false} RemoveByIdLength(s: seq<Cell>, id: nat)
    ensures (exists k :: 0 <= k < |s| && s[k].id == id) ==> |RemoveById(s, id)| == |s| - 1
    ensures (forall k :: 0 <= k < |s| ==> s[k].id != id) ==> RemoveById(s, id) == s
  {
    if s != [] {
      RemoveByIdLength(s[1..], id);
      if s[0].id != id && exists k :: 0 <= k < |s| && s[k].id == id {
        var k :| 0 <= k < |s| && s[k].id == id;
        assert s[1..][k - 1].id == id;
      }
    }
  }

  lemma {:induction false} StripAllRemoveById(s: seq<Cell>, id: nat)
    ensures StripAll(RemoveById(s, id)) == RemoveById(StripAll(s), id)
  {
    if s != [] {
      StripAllRemoveById(s[1..], id);
      assert StripAll(s)[1..] == StripAll(s[1..]);
    }
  }

  lemma {:induction false} RemoveByIdMarkAbove(s: seq<Cell>, done: seq<Cell>, id: nat)
    ensures RemoveById(MarkAbove(s, done), id) == MarkAbove(RemoveById(s, id), done)
  {
    if s != [] {
      RemoveByIdMarkAbove(s[1..], done, id);
      assert MarkAbove(s, done)[1..] == MarkAbove(s[1..], done);
    }
  }

  lemma {:induction false} SurvivorsWithoutId(s: seq<Cell>, ids: set<nat>, id: nat)
    requires id !in IdsOf(s)
    ensures Survivors(s, ids + {id}) == Survivors(s, ids)
  {
    if s != [] {
      assert s[0] in s;
      assert IdsOf(s[1..]) <= IdsOf(s);
      SurvivorsWithoutId(s[1..], ids, id);
    }
  }

  /** With unique ids, removing the first cell of an id is the same as filtering that id out. */
  lemma {:induction false} RemoveByIdSurvivors(s: seq<Cell>, ids: set<nat>, id: nat)
    requires UniqueIds(s)
    ensures RemoveById(Survivors(s, ids), id) == Survivors(s, ids + {id})
  {
    if s != [] {
      UniqueIdsTail(s);
      if s[0].id in ids {
        RemoveByIdSurvivors(s[1..], ids, id);
      } else if s[0].id == id {
        SurvivorsWithoutId(s[1..], ids, id);
      } else {
        RemoveByIdSurvivors(s[1..], ids, id);
      }
    }
  }

  lemma {:induction false} StripAllSurvivorsLength(s: seq<Cell>, ids: set<nat>)
    ensures |Survivors(s, ids)| <= |s|
    ensures (exists d :: d in s && d.id in ids) ==> |Survivors(s, ids)| < |s|
  {
    if s != [] {
      StripAllSurvivorsLength(s[1..], ids);
      if exists d :: d in s && d.id in ids {
        var d :| d in s && d.id in ids;
        if d != s[0] {
          assert d in s[1..];
        }
      }
    }
  }

  lemma MarkAboveTwice(s: seq<Cell>, done: seq<Cell>, d: Cell)
    ensures MarkAbove(MarkAbove(s, done), [d]) == MarkAbove(s, done + [d])
  {
    var l := MarkAbove(MarkAbove(s, done), [d]);
    var r := MarkAbove(s, done + [d]);
    forall i | 0 <= i < |s|
      ensures l[i] == r[i]
    {
      assert AboveSome(s[i], done + [d]) <==> AboveSome(s[i], done) || AboveSome(s[i], [d]) by {
        if AboveSome(s[i], done + [d]) {
          var e :| e in done + [d] && e.x == s[i].x && e.y < s[i].y;
          assert e in done || e in [d];
        }
      }
    }
  }

  /** A destroyed cell standing on row 1 or higher always marks its whole column above it. */
  lemma MarkFlyingCellAboveFloor(t: seq<Cell>, d: Cell)
    requires d.y >= 1
    ensures MarkFlyingCell(t, d.x, d.y) == MarkAbove(t, [d])
  {
    var l := MarkFlyingCell(t, d.x, d.y);
    var r := MarkAbove(t, [d]);
    forall i | 0 <= i < |t|
      ensures l[i] == r[i]
    {
      assert AboveSome(t[i], [d]) <==> t[i].x == d.x && d.y < t[i].y by {
        if t[i].x == d.x && d.y < t[i].y {
          assert d in [d];
        }
      }
    }
  }

  lemma DestroyedAppend(gs: seq<seq<Cell>>, i: int)
    requires 0 <= i < |gs|
    ensures Destroyed(gs[..i + 1]) == Destroyed(gs[..i]) + (if Spanning(gs[i]) then gs[i] else [])
  {
    assert gs[..i + 1][..i] == gs[..i];
  }

  /** What holds while the cells of the destroyed groups are removed one by one. */
  ghost predicate ClearInv(all: seq<Cell>, cur: seq<Cell>, done: seq<Cell>)
  {
    && |cur| <= |all|
    && (done == [] ==> cur == all)
    && (|cur| == |all| ==> StripAll(cur) == StripAll(all))
    && ((exists e :: e in done && e in all) ==> |cur| < |all|)
    && (UniqueIds(all) ==> StripAll(cur) == StripAll(Survivors(all, IdsOf(done))))
    && (UniqueIds(all) && AboveFloor(done) ==> cur == MarkAbove(Survivors(all, IdsOf(done)), done))
  }

  /** Killing the next cell of a destroyed group keeps the pass invariant and the board's order. */
  lemma ClearStep(all: seq<Cell>, cur: seq<Cell>, done: seq<Cell>, group: seq<Cell>, j: int)
    requires 0 <= j < |group|
    requires ClearInv(all, cur, done + group[..j])
    ensures ClearInv(all, MarkFlyingCell(RemoveById(cur, group[j].id), group[j].x, group[j].y), done + group[..j + 1])
    ensures Ordered(cur) ==> Ordered(MarkFlyingCell(RemoveById(cur, group[j].id), group[j].x, group[j].y))
  {
    var d := group[j];
    assert done + group[..j + 1] == (done + group[..j]) + [d];
    ClearStepSize(all, cur, done + group[..j], d);
    if UniqueIds(all) {
      ClearStepContents(all, cur, done + group[..j], d);
    }
    OrderedKill(cur, d);
  }

  /** The size clauses of the pass invariant survive killing one more cell. */
  lemma ClearStepSize(all: seq<Cell>, cur: seq<Cell>, done: seq<Cell>, d: Cell)
    requires ClearInv(all, cur, done)
    ensures var cur' := MarkFlyingCell(RemoveById(cur, d.id), d.x, d.y);
      && |cur'| <= |all|
      && (|cur'| == |all| ==> StripAll(cur') == StripAll(all))
      && ((exists e :: e in done + [d] && e in all) ==> |cur'| < |all|)
  {
    var removed := RemoveById(cur, d.id);
    RemoveByIdLength(cur, d.id);
    StripAllMarkFlyingCell(removed, d.x, d.y);
    if |removed| == |all| {
      assert removed == cur;
    }
    if (exists e :: e in done + [d] && e in all) && |cur| == |all| {
      ClearStepShrinks(all, cur, done, d);
    }
  }

  /** Killing a board cell while the board still has its full size removes it. */
  lemma ClearStepShrinks(all: seq<Cell>, cur: seq<Cell>, done: seq<Cell>, d: Cell)
    requires ClearInv(all, cur, done)
    requires |cur| == |all|
    requires exists e :: e in done + [d] && e in all
    ensures |RemoveById(cur, d.id)| < |cur|
  {
    RemoveByIdLength(cur, d.id);
    var e :| e in done + [d] && e in all;
    assert e == d by {
      if e in done {
        assert false;
      }
    }
    var k :| 0 <= k < |all| && all[k] == d;
    assert StripAll(all)[k].id == d.id;
    assert StripAll(cur)[k].id == d.id;
    assert cur[k].id == d.id;
  }

  /** With distinct identities, the contents clauses of the pass invariant survive killing one more cell. */
  lemma ClearStepContents(all: seq<Cell>, cur: seq<Cell>, done: seq<Cell>, d: Cell)
    requires ClearInv(all, cur, done)
    requires UniqueIds(all)
    ensures var cur' := MarkFlyingCell(RemoveById(cur, d.id), d.x, d.y);
      && StripAll(cur') == StripAll(Survivors(all, IdsOf(done + [d])))
      && (AboveFloor(done + [d]) ==> cur' == MarkAbove(Survivors(all, IdsOf(done + [d])), done + [d]))
  {
    var removed := RemoveById(cur, d.id);
    var done' := done + [d];
    var S := IdsOf(done);
    assert IdsOf(done') == S + {d.id} by {
      forall c | c in done' ensures c in done || c == d { }
    }
    StripAllMarkFlyingCell(removed, d.x, d.y);
    StripAllRemoveById(cur, d.id);
    StripAllRemoveById(Survivors(all, S), d.id);
    RemoveByIdSurvivors(all, S, d.id);
    if AboveFloor(done') {
      assert AboveFloor(done) by {
        forall i | 0 <= i < |done| ensures done[i].y >= 1 {
          assert done'[i] == done[i];
        }
      }
      assert d.y >= 1 by {
        assert done'[|done|] == d;
      }
      RemoveByIdMarkAbove(Survivors(all, S), done, d.id);
      MarkFlyingCellAboveFloor(removed, d);
      MarkAboveTwice(Survivors(all, S + {d.id}), done, d);
    }
  }

  /**
   * Destroys every group that joins the two side columns: each of its cells
   * is removed from `allCells` and the cells above it are marked flying.
   */
  method SearchConnectedLines(allCells: seq<Cell>, groupsOfCells: seq<seq<Cell>>) returns (cells: seq<Cell>)
    ensures |cells| <= |allCells|
    ensures Destroyed(groupsOfCells) == [] ==> cells == allCells
    ensures (exists d :: d in Destroyed(groupsOfCells) && d in allCells) ==> |cells| < |allCells|
    ensures UniqueIds(allCells) ==>
      StripAll(cells) == StripAll(Survivors(allCells, IdsOf(Destroyed(groupsOfCells))))
    ensures UniqueIds(allCells) && AboveFloor(Destroyed(groupsOfCells)) ==>
      cells == MarkAbove(Survivors(allCells, IdsOf(Destroyed(groupsOfCells))), Destroyed(groupsOfCells))
    ensures Ordered(allCells) ==> Ordered(cells)
  {
    cells := allCells;
    ClearInit(allCells);
    ghost var done: seq<Cell> := [];
    for i := 0 to |groupsOfCells|
      invariant done == Destroyed(groupsOfCells[..i])
      invariant ClearInv(allCells, cells, done)
      invariant Ordered(allCells) ==> Ordered(cells)
    {
      DestroyedAppend(groupsOfCells, i);
      var cellGroup := groupsOfCells[i];
      if Spanning(cellGroup) {
        cells := DestroyGroup(allCells, cells, done, cellGroup);
        done := done + cellGroup;
      } else {
        assert done + [] == done;
      }
    }
    assert groupsOfCells[..|groupsOfCells|] == groupsOfCells;
    ClearFinal(allCells, cells, Destroyed(groupsOfCells));
  }

  /** Kills every cell of one destroyed group, in the group's order. */
  method DestroyGroup(allCells: seq<Cell>, cells: seq<Cell>, ghost done: seq<Cell>, cellGroup: seq<Cell>)
    returns (cells': seq<Cell>)
    requires ClearInv(allCells, cells, done)
    ensures ClearInv(allCells, cells', done + cellGroup)
    ensures Ordered(cells) ==> Ordered(cells')
  {
    cells' := cells;
    assert done + cellGroup[..0] == done;
    for j := 0 to |cellGroup|
      invariant ClearInv(allCells, cells', done + cellGroup[..j])
      invariant Ordered(cells) ==> Ordered(cells')
    {
      var cell := cellGroup[j];
      // A column cell is first detached from its column; then it is killed.
      ClearStep(allCells, cells', done, cellGroup, j);
      cells' := RemoveById(cells', cell.id);
      cells' := MarkFlyingCell(cells', cell.x, cell.y);
    }
    assert cellGroup[..|cellGroup|] == cellGroup;
  }

  /** Killing one cell keeps the board in row-then-column order. */
  lemma OrderedKill(cells: seq<Cell>, cell: Cell)
    ensures Ordered(cells) ==> Ordered(MarkFlyingCell(RemoveById(cells, cell.id), cell.x, cell.y))
  {
    if Ordered(cells) {
      OrderedRemoveById(cells, cell.id);
      OrderedMarkFlyingCell(RemoveById(cells, cell.id), cell.x, cell.y);
    }
  }

  /** Removing a cell keeps the board in row-then-column order. */
  lemma {:induction false} OrderedRemoveById(s: seq<Cell>, id: nat)
    requires Ordered(s)
    ensures Ordered(RemoveById(s, id))
  {
    if s != [] && s[0].id != id {
      var tail := s[1..];
      var t := RemoveById(tail, id);
      assert Ordered(tail) by {
        forall i, j | 0 <= i < j < |tail|
          ensures RowMajor(tail[i], tail[j])
        {
          assert tail[i] == s[i + 1] && tail[j] == s[j + 1];
        }
      }
      OrderedRemoveById(tail, id);
      var r := [s[0]] + t;
      forall i, j | 0 <= i < j < |r|
        ensures RowMajor(r[i], r[j])
      {
        assert r[j] == t[j - 1];
        if i == 0 {
          assert r[j] in tail;
          var k :| 0 <= k < |tail| && tail[k] == r[j];
          assert tail[k] == s[k + 1];
        } else {
          assert r[i] == t[i - 1];
        }
      }
    }
  }

  /** Marking cells as flying moves nothing, so the order is kept. */
  lemma OrderedMarkFlyingCell(cells: seq<Cell>, px: int, py: int)
    requires Ordered(cells)
    ensures Ordered(MarkFlyingCell(cells, px, py))
  {
    var r := MarkFlyingCell(cells, px, py);
    forall i, j | 0 <= i < j < |r|
      ensures RowMajor(r[i], r[j])
    {
      assert RowMajor(cells[i], cells[j]);
    }
  }

  lemma ClearInit(all: seq<Cell>)
    ensures ClearInv(all, all, [])
  {
    assert IdsOf([]) == {};
    SurvivorsNone(all);
    assert MarkAbove(all, []) == all;
  }

  lemma ClearFinal(all: seq<Cell>, cur: seq<Cell>, done: seq<Cell>)
    requires ClearInv(all, cur, done)
    ensures |cur| <= |all|
    ensures done == [] ==> cur == all
    ensures (exists d :: d in done && d in all) ==> |cur| < |all|
    ensures UniqueIds(all) ==> StripAll(cur) == StripAll(Survivors(all, IdsOf(done)))
    ensures UniqueIds(all) && AboveFloor(done) ==> cur == MarkAbove(Survivors(all, IdsOf(done)), done)
  {
  }

  lemma {:induction false} SurvivorsNone(s: seq<Cell>)
    ensures Survivors(s, {}) == s
  {
    if s != [] {
      SurvivorsNone(s[1..]);
    }
  }

  /** Destroyed cells are exactly the cells of the spanning groups. */
  lemma {:induction false} DestroyedMembers(gs: seq<seq<Cell>>, c: Cell)
    ensures c in Destroyed(gs) <==> exists i :: 0 <= i < |gs| && Spanning(gs[i]) && c in gs[i]
  {
    if gs != [] {
      var n := |gs| - 1;
      var init := gs[..n];
      DestroyedMembers(init, c);
      assert c in Destroyed(gs) <==> c in Destroyed(init) || (Spanning(gs[n]) && c in gs[n]);
      if exists i :: 0 <= i < |gs| && Spanning(gs[i]) && c in gs[i] {
        var i :| 0 <= i < |gs| && Spanning(gs[i]) && c in gs[i];
        if i < n {
          assert init[i] == gs[i];
        }
      }
      if c in Destroyed(init) {
        var i :| 0 <= i < n && Spanning(init[i]) && c in init[i];
        assert init[i] == gs[i];
      }
    }
  }

  lemma {:induction false} SurvivorsMembers(s: seq<Cell>, ids: set<nat>, x: Cell)
    ensures x in Survivors(s, ids) <==> x in s && x.id !in ids
  {
    if s != [] {
      SurvivorsMembers(s[1..], ids, x);
      assert x in s <==> x == s[0] || x in s[1..];
    }
  }

  /** Dropping cells keeps the remaining ids distinct. */
  lemma {:induction false} SurvivorsUnique(s: seq<Cell>, ids: set<nat>)
    requires UniqueIds(s)
    ensures UniqueIds(Survivors(s, ids))
  {
    if s != [] {
      UniqueIdsTail(s);
      SurvivorsUnique(s[1..], ids);
      if s[0].id !in ids {
        forall c | c in Survivors(s[1..], ids)
          ensures c.id != s[0].id
        {
          SurvivorsMembers(s[1..], ids, c);
        }
        UniqueCons(s[0], Survivors(s[1..], ids));
      }
    }
  }

  lemma StripAllMembers(s: seq<Cell>, x: Cell)
    ensures Strip(x) in StripAll(s) <==> exists y :: y in s && Strip(y) == Strip(x)
  {
    if Strip(x) in StripAll(s) {
      var k :| 0 <= k < |s| && StripAll(s)[k] == Strip(x);
      assert s[k] in s;
    }
  }

  /**
   * A cell of the board is destroyed exactly when some group holding it
   * joins the two side columns; every other cell stays, with all its fields
   * but the flying flag unchanged.
   */
  lemma DestroyedIffSpanning(allCells: seq<Cell>, groupsOfCells: seq<seq<Cell>>, cells: seq<Cell>, c: Cell)
    requires UniqueIds(allCells)
    requires forall i, d :: 0 <= i < |groupsOfCells| && d in groupsOfCells[i] ==> d in allCells
    requires StripAll(cells) == StripAll(Survivors(allCells, IdsOf(Destroyed(groupsOfCells))))
    requires c in allCells
    ensures Strip(c) in StripAll(cells) <==> !exists i :: 0 <= i < |groupsOfCells| && Spanning(groupsOfCells[i]) && c in groupsOfCells[i]
  {
    var D := Destroyed(groupsOfCells);
    var surv := Survivors(allCells, IdsOf(D));
    StripAllMembers(surv, c);
    SurvivorsMembers(allCells, IdsOf(D), c);
    DestroyedMembers(groupsOfCells, c);
    if Strip(c) in StripAll(cells) {
      var y :| y in surv && Strip(y) == Strip(c);
      SurvivorsMembers(allCells, IdsOf(D), y);
      SameIdSameCell(allCells, y, c);
      assert c in surv;
    } else {
      assert c.id in IdsOf(D);
      var d :| d in D && d.id == c.id;
      DestroyedMembers(groupsOfCells, d);
      SameIdSameCell(allCells, d, c);
    }
  }

  lemma SameIdSameCell(s: seq<Cell>, a: Cell, b: Cell)
    requires UniqueIds(s) && a in s && b in s && a.id == b.id
    ensures a == b
  {
    var i :| 0 <= i < |s| && s[i] == a;
    var j :| 0 <= j < |s| && s[j] == b;
  }
}
