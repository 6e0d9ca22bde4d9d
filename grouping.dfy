/** Splitting one colour class into 4-connected groups (GroupConnectedCells). */
module Grouping {
  import opened Cells

  /** All cells of all groups, group after group. */
  function Flatten(gs: seq<seq<Cell>>): seq<Cell>
  {
    if gs == [] then [] else Flatten(gs[..|gs| - 1]) + gs[|gs| - 1]
  }

  /** `c` has an orthogonal neighbour in `g`. */
  predicate Touches(c: Cell, g: seq<Cell>)
  {
    exists b :: b in g && Adjacent(c, b)
  }

  /** No cell of `g` is a neighbour of a cell of `h`. */
  predicate Apart(g: seq<Cell>, h: seq<Cell>)
  {
    forall a, b :: a in g && b in h ==> !Adjacent(a, b)
  }

  /** Cells of two different groups are never neighbours. */
  predicate Separated(gs: seq<seq<Cell>>)
  {
    forall i, j :: 0 <= i < |gs| && 0 <= j < |gs| && i != j ==> Apart(gs[i], gs[j])
  }

  predicate NonEmptyGroups(gs: seq<seq<Cell>>)
  {
    forall i :: 0 <= i < |gs| ==> gs[i] != []
  }

  /** `p` walks from `a` to `b` through cells of `g`, one orthogonal step at a time. */
  predicate Walk(p: seq<Cell>, g: seq<Cell>, a: Cell, b: Cell)
  {
    && p != [] && p[0] == a && p[|p| - 1] == b
    && (forall i :: 0 <= i < |p| ==> p[i] in g)
    && (forall i :: 0 <= i < |p| - 1 ==> Adjacent(p[i], p[i + 1]))
  }

  /** Any two cells of `g` are joined by a walk through `g`: the group is 4-connected. */
  ghost predicate Connected(g: seq<Cell>)
  {
    forall a, b :: a in g && b in g ==> exists p :: Walk(p, g, a, b)
  }

  ghost predicate AllConnected(gs: seq<seq<Cell>>)
  {
    forall i :: 0 <= i < |gs| ==> Connected(gs[i])
  }

  lemma WalkWiden(p: seq<Cell>, g: seq<Cell>, h: seq<Cell>, a: Cell, b: Cell)
    requires Walk(p, g, a, b)
    requires forall c :: c in g ==> c in h
    ensures Walk(p, h, a, b)
  {
  }

  /** Two walks joined by one orthogonal step make one walk. */
  lemma WalkJoin(p: seq<Cell>, q: seq<Cell>, g: seq<Cell>, a: Cell, u: Cell, v: Cell, b: Cell)
    requires Walk(p, g, a, u) && Walk(q, g, v, b) && Adjacent(u, v)
    ensures Walk(p + q, g, a, b)
  {
    var r := p + q;
    forall i | 0 <= i < |r| - 1
      ensures Adjacent(r[i], r[i + 1])
    {
      if i < |p| - 1 {
        assert r[i] == p[i] && r[i + 1] == p[i + 1];
      } else if i == |p| - 1 {
        assert r[i] == u && r[i + 1] == q[0];
      } else {
        assert r[i] == q[i - |p|] && r[i + 1] == q[i - |p| + 1];
      }
    }
    forall i | 0 <= i < |r|
      ensures r[i] in g
    {
      if i < |p| {
        assert r[i] == p[i];
      } else {
        assert r[i] == q[i - |p|];
      }
    }
  }

  /** Two connected groups with a pair of neighbouring cells form one connected group. */
  lemma ConnectedUnion(g: seq<Cell>, h: seq<Cell>, u: Cell, v: Cell)
    requires Connected(g) && Connected(h)
    requires u in g && v in h && Adjacent(u, v)
    ensures Connected(g + h)
  {
    forall a, b | a in g + h && b in g + h
      ensures exists p :: Walk(p, g + h, a, b)
    {
      if a in g && b in g {
        var p :| Walk(p, g, a, b);
        WalkWiden(p, g, g + h, a, b);
      } else if a in h && b in h {
        var p :| Walk(p, h, a, b);
        WalkWiden(p, h, g + h, a, b);
      } else if a in g {
        var p :| Walk(p, g, a, u);
        var q :| Walk(q, h, v, b);
        WalkWiden(p, g, g + h, a, u);
        WalkWiden(q, h, g + h, v, b);
        WalkJoin(p, q, g + h, a, u, v, b);
      } else {
        var p :| Walk(p, h, a, v);
        var q :| Walk(q, g, u, b);
        WalkWiden(p, h, g + h, a, v);
        WalkWiden(q, g, g + h, u, b);
        WalkJoin(p, q, g + h, a, v, u, b);
      }
    }
  }

  lemma ConnectedSingle(c: Cell)
    ensures Connected([c])
  {
    forall a, b | a in [c] && b in [c]
      ensures exists p :: Walk(p, [c], a, b)
    {
      assert Walk([c], [c], a, b);
    }
  }

  lemma {:induction false} FlattenMembers(gs: seq<seq<Cell>>, x: Cell)
    ensures x in Flatten(gs) <==> exists i :: 0 <= i < |gs| && x in gs[i]
  {
    if gs != [] {
      var init := gs[..|gs| - 1];
      FlattenMembers(init, x);
      if x in Flatten(gs) && x !in gs[|gs| - 1] {
        var i :| 0 <= i < |init| && x in init[i];
        assert x in gs[i];
      }
      if exists i :: 0 <= i < |gs| && x in gs[i] {
        var i :| 0 <= i < |gs| && x in gs[i];
        if i < |init| {
          assert x in init[i];
        }
      }
    }
  }

  /** Non-empty groups hold at least as many cells as there are groups. */
  lemma {:induction false} FlattenLength(gs: seq<seq<Cell>>)
    requires NonEmptyGroups(gs)
    ensures |Flatten(gs)| >= |gs|
  {
    if gs != [] {
      FlattenLength(gs[..|gs| - 1]);
    }
  }

  lemma FlattenAppend(gs: seq<seq<Cell>>, g: seq<Cell>)
    ensures Flatten(gs + [g]) == Flatten(gs) + g
  {
    assert (gs + [g])[..|gs|] == gs;
  }

  lemma {:induction false} FlattenGrowOne(gs: seq<seq<Cell>>, i: int, g: seq<Cell>)
    requires 0 <= i < |gs|
    ensures multiset(Flatten(gs[i := gs[i] + g])) == multiset(Flatten(gs)) + multiset(g)
  {
    var n := |gs| - 1;
    var hs := gs[i := gs[i] + g];
    assert hs[..n] == if i == n then gs[..n] else gs[..n][i := gs[i] + g];
    if i < n {
      FlattenGrowOne(gs[..n], i, g);
    }
  }

  /**
   * Scans `g` for a neighbour of `c`, stopping at the first one found (the
   * inner foreach with its break).
   */
  method FindNeighbour(c: Cell, g: seq<Cell>) returns (found: bool)
    ensures found <==> Touches(c, g)
  {
    found := false;
    var k := 0;
    while k < |g|
      invariant 0 <= k <= |g|
      invariant !found
      invariant forall m :: 0 <= m < k ==> !Adjacent(c, g[m])
    {
      if Adjacent(c, g[k]) {
        found := true;
        return;
      }
      k := k + 1;
    }
  }

  /**
   * Drains a queue of cells. Each cell joins the first group holding one of
   * its neighbours; every later group holding a neighbour is appended to
   * that group and dropped from the list; a cell with no neighbour starts a
   * new group of its own.
   */
  method GroupConnectedCells(sortedCells: seq<Cell>) returns (groups: seq<seq<Cell>>)
    ensures multiset(Flatten(groups)) == multiset(sortedCells)
    ensures NonEmptyGroups(groups)
    ensures Separated(groups)
    ensures AllConnected(groups)
    ensures |groups| <= |sortedCells|
    ensures groups == [] <==> sortedCells == []
  {
    var queue := sortedCells;
    groups := [];
    while queue != []
      invariant multiset(Flatten(groups)) + multiset(queue) == multiset(sortedCells)
      invariant NonEmptyGroups(groups)
      invariant Separated(groups)
      invariant AllConnected(groups)
    {
      var cell := queue[0];
      assert queue == [cell] + queue[1..];
      queue := queue[1..];
      groups := AddCell(groups, cell);
    }
    FlattenLength(groups);
    assert |Flatten(groups)| == |multiset(Flatten(groups))|;
  }

  /** What holds after the first `k` groups have been scanned for neighbours of `cell`. */
  predicate ScanInv(groups: seq<seq<Cell>>, cell: Cell, k: int, next: seq<seq<Cell>>, current: int)
    requires 0 <= k <= |groups|
  {
    && -1 <= current < |next|
    && NonEmptyGroups(next)
    && Separated(next)
    && (forall m, k' :: 0 <= m < |next| && k <= k' < |groups| && m != current ==> Apart(next[m], groups[k']))
    && (current >= 0 ==> forall k' :: k <= k' < |groups| && !Touches(cell, groups[k']) ==> Apart(next[current], groups[k']))
    && (forall m :: 0 <= m < |next| && m != current ==> !Touches(cell, next[m]))
  }

  /**
   * The shape of the scan after `k` groups: every group built is connected,
   * the group that took `cell` holds it and a neighbour of it, `cell` is
   * still unplaced exactly when no scanned group touches it (and then the
   * scanned groups were copied unchanged), and every scanned group with no
   * neighbour of `cell` is kept as it is.
   */
  ghost predicate ScanShape(groups: seq<seq<Cell>>, cell: Cell, k: int, next: seq<seq<Cell>>, current: int)
    requires 0 <= k <= |groups|
  {
    && -1 <= current < |next|
    && AllConnected(next)
    && (current >= 0 ==> cell in next[current] && Touches(cell, next[current]))
    && (current < 0 <==> forall k' :: 0 <= k' < k ==> !Touches(cell, groups[k']))
    && (current < 0 ==> next == groups[..k])
    && (forall k' :: 0 <= k' < k && !Touches(cell, groups[k']) ==> groups[k'] in next)
  }

  /** A group with no neighbour of `cell` is copied: the scan keeps its shape. */
  lemma ShapeKeep(groups: seq<seq<Cell>>, cell: Cell, k: int, next: seq<seq<Cell>>, current: int)
    requires AllConnected(groups)
    requires 0 <= k < |groups|
    requires ScanShape(groups, cell, k, next, current)
    requires !Touches(cell, groups[k])
    ensures ScanShape(groups, cell, k + 1, next + [groups[k]], current)
  {
    var n' := next + [groups[k]];
    assert groups[..k + 1] == groups[..k] + [groups[k]];
    forall k' | 0 <= k' < k + 1 && !Touches(cell, groups[k'])
      ensures groups[k'] in n'
    {
      if k' < k {
        var m :| 0 <= m < |next| && next[m] == groups[k'];
        assert n'[m] == groups[k'];
      } else {
        assert n'[|next|] == groups[k];
      }
    }
  }

  /** The first group touching `cell` takes it: the grown group stays connected. */
  lemma ShapeJoin(groups: seq<seq<Cell>>, cell: Cell, k: int, next: seq<seq<Cell>>)
    requires AllConnected(groups)
    requires 0 <= k < |groups|
    requires ScanShape(groups, cell, k, next, -1)
    requires Touches(cell, groups[k])
    ensures ScanShape(groups, cell, k + 1, next + [groups[k] + [cell]], |next|)
  {
    var n' := next + [groups[k] + [cell]];
    var b :| b in groups[k] && Adjacent(cell, b);
    ConnectedSingle(cell);
    ConnectedUnion(groups[k], [cell], b, cell);
    assert n'[|next|] == groups[k] + [cell];
    assert Touches(cell, n'[|next|]) by {
      assert b in n'[|next|];
    }
    forall k' | 0 <= k' < k + 1 && !Touches(cell, groups[k'])
      ensures groups[k'] in n'
    {
      var m :| 0 <= m < |next| && next[m] == groups[k'];
      assert n'[m] == groups[k'];
    }
  }

  /** A later group touching `cell` is appended to the one holding it: still connected. */
  lemma ShapeMerge(groups: seq<seq<Cell>>, cell: Cell, k: int, next: seq<seq<Cell>>, current: int)
    requires AllConnected(groups)
    requires 0 <= k < |groups| && current >= 0
    requires ScanShape(groups, cell, k, next, current)
    requires Touches(cell, groups[k])
    ensures ScanShape(groups, cell, k + 1, next[current := next[current] + groups[k]], current)
  {
    var n' := next[current := next[current] + groups[k]];
    var b :| b in groups[k] && Adjacent(cell, b);
    ConnectedUnion(next[current], groups[k], cell, b);
    assert Touches(cell, n'[current]) by {
      assert b in n'[current];
    }
    forall k' | 0 <= k' < k + 1 && !Touches(cell, groups[k'])
      ensures groups[k'] in n'
    {
      var m :| 0 <= m < |next| && next[m] == groups[k'];
      assert m != current;
      assert n'[m] == groups[k'];
    }
  }

  lemma ApartSymmetric(g: seq<Cell>, h: seq<Cell>)
    requires Apart(g, h)
    ensures Apart(h, g)
  {
  }

  /** Scanning a group that holds a neighbour, when an earlier group already took `cell`. */
  lemma ScanMerge(groups: seq<seq<Cell>>, cell: Cell, k: int, next: seq<seq<Cell>>, current: int)
    requires NonEmptyGroups(groups) && Separated(groups)
    requires 0 <= k < |groups| && current >= 0
    requires ScanInv(groups, cell, k, next, current)
    requires Touches(cell, groups[k])
    ensures ScanInv(groups, cell, k + 1, next[current := next[current] + groups[k]], current)
  {
    var n' := next[current := next[current] + groups[k]];
    forall i, j | 0 <= i < |n'| && 0 <= j < |n'| && i != j
      ensures Apart(n'[i], n'[j])
    {
      if i == current {
        assert Apart(next[j], groups[k]);
        assert Apart(next[i], next[j]);
      } else if j == current {
        assert Apart(next[i], groups[k]);
        assert Apart(next[i], next[j]);
      } else {
        assert Apart(next[i], next[j]);
      }
    }
    forall k' | k + 1 <= k' < |groups| && !Touches(cell, groups[k'])
      ensures Apart(n'[current], groups[k'])
    {
      assert Apart(groups[k], groups[k']);
    }
    forall m, k' | 0 <= m < |n'| && k + 1 <= k' < |groups| && m != current
      ensures Apart(n'[m], groups[k'])
    {
    }
  }

  /** Scanning the first group that holds a neighbour: `cell` joins it. */
  lemma ScanJoin(groups: seq<seq<Cell>>, cell: Cell, k: int, next: seq<seq<Cell>>)
    requires NonEmptyGroups(groups) && Separated(groups)
    requires 0 <= k < |groups|
    requires ScanInv(groups, cell, k, next, -1)
    requires Touches(cell, groups[k])
    ensures ScanInv(groups, cell, k + 1, next + [groups[k] + [cell]], |next|)
  {
    var n' := next + [groups[k] + [cell]];
    forall i, j | 0 <= i < |n'| && 0 <= j < |n'| && i != j
      ensures Apart(n'[i], n'[j])
    {
      if i == |next| {
        assert Apart(next[j], groups[k]);
        assert !Touches(cell, next[j]);
      } else if j == |next| {
        assert Apart(next[i], groups[k]);
        assert !Touches(cell, next[i]);
      } else {
        assert Apart(next[i], next[j]);
      }
    }
    forall k' | k + 1 <= k' < |groups| && !Touches(cell, groups[k'])
      ensures Apart(n'[|next|], groups[k'])
    {
      assert Apart(groups[k], groups[k']);
    }
  }

  /** Scanning a group with no neighbour of `cell`: the group is kept as it is. */
  lemma ScanKeep(groups: seq<seq<Cell>>, cell: Cell, k: int, next: seq<seq<Cell>>, current: int)
    requires NonEmptyGroups(groups) && Separated(groups)
    requires 0 <= k < |groups|
    requires ScanInv(groups, cell, k, next, current)
    requires !Touches(cell, groups[k])
    ensures ScanInv(groups, cell, k + 1, next + [groups[k]], current)
  {
    var n' := next + [groups[k]];
    forall i, j | 0 <= i < |n'| && 0 <= j < |n'| && i != j
      ensures Apart(n'[i], n'[j])
    {
      if i == |next| {
        assert Apart(next[j], groups[k]);
      } else if j == |next| {
        assert Apart(next[i], groups[k]);
      } else {
        assert Apart(next[i], next[j]);
      }
    }
    forall m, k' | 0 <= m < |n'| && k + 1 <= k' < |groups| && m != current
      ensures Apart(n'[m], groups[k'])
    {
      if m == |next| {
        assert Apart(groups[k], groups[k']);
      }
    }
  }

  /** A cell with no neighbour in any group becomes a group of its own. */
  lemma ScanAlone(groups: seq<seq<Cell>>, cell: Cell, next: seq<seq<Cell>>)
    requires ScanInv(groups, cell, |groups|, next, -1)
    ensures NonEmptyGroups(next + [[cell]]) && Separated(next + [[cell]])
  {
    var n' := next + [[cell]];
    forall i, j | 0 <= i < |n'| && 0 <= j < |n'| && i != j
      ensures Apart(n'[i], n'[j])
    {
      if i == |next| {
        assert !Touches(cell, next[j]);
      } else if j == |next| {
        assert !Touches(cell, next[i]);
      } else {
        assert Apart(next[i], next[j]);
      }
    }
  }

  /** One round of the queue loop: place `cell` among `groups`, merging as needed. */
  method AddCell(groups: seq<seq<Cell>>, cell: Cell) returns (next: seq<seq<Cell>>)
    requires NonEmptyGroups(groups)
    requires Separated(groups)
    requires AllConnected(groups)
    ensures multiset(Flatten(next)) == multiset(Flatten(groups)) + multiset{cell}
    ensures NonEmptyGroups(next)
    ensures Separated(next)
    ensures AllConnected(next)
    ensures (forall g :: g in groups ==> !Touches(cell, g)) ==> next == groups + [[cell]]
    ensures forall g :: g in groups && !Touches(cell, g) ==> g in next
  {
    var current;
    next, current := ScanAll(groups, cell);
    if current < 0 {
      PlaceAlone(groups, cell, next);
      next := next + [[cell]];
    } else {
      PlaceJoined(groups, cell, next, current);
    }
  }

  /** No group touches `cell`: the groups are copied and `cell` becomes a group of its own. */
  lemma PlaceAlone(groups: seq<seq<Cell>>, cell: Cell, next: seq<seq<Cell>>)
    requires ScanInv(groups, cell, |groups|, next, -1)
    requires ScanShape(groups, cell, |groups|, next, -1)
    requires multiset(Flatten(next)) == multiset(Flatten(groups))
    ensures multiset(Flatten(next + [[cell]])) == multiset(Flatten(groups)) + multiset{cell}
    ensures NonEmptyGroups(next + [[cell]]) && Separated(next + [[cell]]) && AllConnected(next + [[cell]])
    ensures next == groups
  {
    assert groups[..|groups|] == groups;
    ScanAlone(groups, cell, next);
    FlattenAppend(next, [cell]);
    ConnectedSingle(cell);
  }

  /** Some group touched `cell`: it holds `cell` now, and every group with no neighbour of `cell` is kept. */
  lemma PlaceJoined(groups: seq<seq<Cell>>, cell: Cell, next: seq<seq<Cell>>, current: int)
    requires current >= 0
    requires ScanShape(groups, cell, |groups|, next, current)
    ensures !forall g :: g in groups ==> !Touches(cell, g)
    ensures forall g :: g in groups && !Touches(cell, g) ==> g in next
  {
    var k' :| 0 <= k' < |groups| && Touches(cell, groups[k']);
    assert groups[k'] in groups;
    forall g | g in groups && !Touches(cell, g)
      ensures g in next
    {
      var j :| 0 <= j < |groups| && groups[j] == g;
    }
  }

  /** The loop over the groups: every group is scanned for a neighbour of `cell`. */
  method ScanAll(groups: seq<seq<Cell>>, cell: Cell) returns (next: seq<seq<Cell>>, current: int)
    requires NonEmptyGroups(groups)
    requires Separated(groups)
    requires AllConnected(groups)
    ensures ScanInv(groups, cell, |groups|, next, current)
    ensures ScanShape(groups, cell, |groups|, next, current)
    ensures multiset(Flatten(next)) == multiset(Flatten(groups)) + (if current >= 0 then multiset{cell} else multiset{})
  {
    current := -1;
    next := [];
    for k := 0 to |groups|
      invariant ScanInv(groups, cell, k, next, current)
      invariant ScanShape(groups, cell, k, next, current)
      invariant multiset(Flatten(next))
        == multiset(Flatten(groups[..k])) + (if current >= 0 then multiset{cell} else multiset{})
    {
      var next', current' := ScanGroup(groups, cell, k, next, current);
      CountStep(groups, cell, k, next, current, next', current');
      next, current := next', current';
    }
    assert groups[..|groups|] == groups;
  }

  /** The cell count of the scan after one more group. */
  lemma CountStep(groups: seq<seq<Cell>>, cell: Cell, k: int, next: seq<seq<Cell>>, current: int,
                  next': seq<seq<Cell>>, current': int)
    requires 0 <= k < |groups|
    requires current >= 0 ==> current' >= 0
    requires multiset(Flatten(next)) == multiset(Flatten(groups[..k])) + (if current >= 0 then multiset{cell} else multiset{})
    requires multiset(Flatten(next'))
      == multiset(Flatten(next)) + multiset(groups[k]) + (if current < 0 <= current' then multiset{cell} else multiset{})
    ensures multiset(Flatten(next')) == multiset(Flatten(groups[..k + 1])) + (if current' >= 0 then multiset{cell} else multiset{})
  {
    FlattenPrefixStep(groups, k);
    ScanCount(multiset(Flatten(groups[..k])), multiset(groups[k]), multiset(Flatten(next)), multiset(Flatten(next')),
              cell, current >= 0, current' >= 0);
  }

  lemma FlattenPrefixStep(groups: seq<seq<Cell>>, k: int)
    requires 0 <= k < |groups|
    ensures multiset(Flatten(groups[..k + 1])) == multiset(Flatten(groups[..k])) + multiset(groups[k])
  {
    assert groups[..k + 1] == groups[..k] + [groups[k]];
    FlattenAppend(groups[..k], groups[k]);
  }

  /** Bookkeeping of one scan step: the scanned group's cells are added, and `cell` once it is placed. */
  lemma ScanCount(before: multiset<Cell>, scanned: multiset<Cell>, have: multiset<Cell>, have': multiset<Cell>,
                  cell: Cell, placed: bool, placed': bool)
    requires have == before + (if placed then multiset{cell} else multiset{})
    requires placed ==> placed'
    requires have' == have + scanned + (if !placed && placed' then multiset{cell} else multiset{})
    ensures have' == before + scanned + (if placed' then multiset{cell} else multiset{})
  {
  }

  /**
   * Scanning the `k`-th group for a neighbour of `cell`: the first touching
   * group takes `cell`, a later touching group is appended to that one and
   * dropped, a group with no neighbour is kept.
   */
  method ScanGroup(groups: seq<seq<Cell>>, cell: Cell, k: int, next: seq<seq<Cell>>, current: int)
    returns (next': seq<seq<Cell>>, current': int)
    requires NonEmptyGroups(groups) && Separated(groups)
    requires 0 <= k < |groups|
    requires ScanInv(groups, cell, k, next, current)
    requires AllConnected(groups) && ScanShape(groups, cell, k, next, current)
    ensures ScanInv(groups, cell, k + 1, next', current')
    ensures ScanShape(groups, cell, k + 1, next', current')
    ensures !Touches(cell, groups[k]) ==> next' == next + [groups[k]] && current' == current
    ensures Touches(cell, groups[k]) && current < 0 ==> next' == next + [groups[k] + [cell]] && current' == |next|
    ensures Touches(cell, groups[k]) && current >= 0 ==> next' == next[current := next[current] + groups[k]] && current' == current
    ensures current >= 0 ==> current' == current
    ensures multiset(Flatten(next'))
      == multiset(Flatten(next)) + multiset(groups[k]) + (if current < 0 <= current' then multiset{cell} else multiset{})
  {
    var touching := FindNeighbour(cell, groups[k]);
    current' := current;
    if touching {
      if current >= 0 {
        // Merge group: its cells go to the current group, the group itself is dropped.
        ScanMerge(groups, cell, k, next, current);
        ShapeMerge(groups, cell, k, next, current);
        FlattenGrowOne(next, current, groups[k]);
        next' := next[current := next[current] + groups[k]];
      } else {
        // Add to a group.
        ScanJoin(groups, cell, k, next);
        ShapeJoin(groups, cell, k, next);
        FlattenAppend(next, groups[k] + [cell]);
        next' := next + [groups[k] + [cell]];
        current' := |next'| - 1;
      }
    } else {
      ScanKeep(groups, cell, k, next, current);
      ShapeKeep(groups, cell, k, next, current);
      FlattenAppend(next, groups[k]);
      next' := next + [groups[k]];
    }
  }

  /**
   * Two neighbouring cells of the input always end up in the same group,
   * and every input cell is in some group.
   */
  lemma NeighboursShareGroup(cells: seq<Cell>, groups: seq<seq<Cell>>, a: Cell, b: Cell)
    requires multiset(Flatten(groups)) == multiset(cells)
    requires Separated(groups)
    requires a in cells && b in cells && Adjacent(a, b)
    ensures exists i :: 0 <= i < |groups| && a in groups[i] && b in groups[i]
  {
    assert a in multiset(Flatten(groups)) && b in multiset(Flatten(groups));
    FlattenMembers(groups, a);
    FlattenMembers(groups, b);
    var i :| 0 <= i < |groups| && a in groups[i];
    var j :| 0 <= j < |groups| && b in groups[j];
  }

  /** Each step of a walk through the input stays in the group of its first cell. */
  lemma {:induction false} WalkStaysInGroup(p: seq<Cell>, cells: seq<Cell>, groups: seq<seq<Cell>>, a: Cell, b: Cell, i: int, n: int)
    requires multiset(Flatten(groups)) == multiset(cells)
    requires Separated(groups)
    requires 0 <= i < |groups|
    requires Walk(p, cells, a, b)
    requires a in groups[i]
    requires 0 <= n < |p|
    ensures p[n] in groups[i]
  {
    if n > 0 {
      WalkStaysInGroup(p, cells, groups, a, b, i, n - 1);
      assert Adjacent(p[n - 1], p[n]);
      forall j | 0 <= j < |groups| && j != i
        ensures p[n] !in groups[j]
      {
        assert Apart(groups[i], groups[j]);
      }
      assert p[n] in multiset(Flatten(groups));
      FlattenMembers(groups, p[n]);
    }
  }

  /**
   * The groups are the 4-connected components of the input: two input cells
   * share a group exactly when a walk through the input joins them.
   */
  lemma SameGroupIffWalk(cells: seq<Cell>, groups: seq<seq<Cell>>, a: Cell, b: Cell)
    requires multiset(Flatten(groups)) == multiset(cells)
    requires Separated(groups) && AllConnected(groups)
    requires a in cells && b in cells
    ensures (exists i :: 0 <= i < |groups| && a in groups[i] && b in groups[i]) <==> exists p :: Walk(p, cells, a, b)
  {
    if exists i :: 0 <= i < |groups| && a in groups[i] && b in groups[i] {
      var i :| 0 <= i < |groups| && a in groups[i] && b in groups[i];
      var p :| Walk(p, groups[i], a, b);
      forall c | c in groups[i]
        ensures c in cells
      {
        FlattenMembers(groups, c);
        assert c in multiset(Flatten(groups));
      }
      WalkWiden(p, groups[i], cells, a, b);
    }
    if exists p :: Walk(p, cells, a, b) {
      var p :| Walk(p, cells, a, b);
      assert a in multiset(Flatten(groups));
      FlattenMembers(groups, a);
      var i :| 0 <= i < |groups| && a in groups[i];
      WalkStaysInGroup(p, cells, groups, a, b, i, |p| - 1);
    }
  }
}
