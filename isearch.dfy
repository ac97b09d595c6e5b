/**
 * The search engine `ISearch` of isearch.h / isearch.cpp: a row-bucketed
 * open list with a size counter, a closed set keyed by cell whose nodes live
 * in an arena (parents are arena indices), the expansion loop, successor
 * generation and the two-stage path reconstruction.
 */
module ISearch {
  import opened Wrappers
  import opened GridMaps
  import opened Bresenham
  import opened Nodes
  import opened OpenLists
  import Theta

  /** Which `resetParent` the engine runs: the identity of isearch.h (A*) or Theta's re-parenting. */
  datatype ParentPolicy = Baseline | AnyAngle

  /** What `startSearch` reports, without the elapsed time. */
  datatype SearchResult = SearchResult(pathfound: bool, nodescreated: int, numberofsteps: int,
                                       pathlength: real, hppath: seq<Node>, lppath: seq<Node>)

  /**
   * The virtual `resetParent`: the A* baseline returns `current` unchanged;
   * the any-angle engine applies `Theta::resetParent`.
   */
  function ResetParentFor(policy: ParentPolicy, current: Node, parent: Node, arena: seq<Node>,
                          m: GridMap, options: Options,
                          distance: (int, int, int, int) -> real): (r: Node)
    requires m.Shaped()
    requires parent.parent.Some? ==> parent.parent.value < |arena|
    ensures policy == Baseline ==> r == current
    ensures CellOf(r) == CellOf(current) && r.H == current.H && r.F == current.F
    ensures r == current
            || (parent.parent.Some? && var gp := arena[parent.parent.value];
                r == current.(g := gp.g + distance(gp.i, gp.j, current.i, current.j), parent := parent.parent))
  {
    match policy
    case Baseline => current
    case AnyAngle => Theta.ResetParent(current, parent, arena, m, options.cutCorners, distance)
  }

  /**
   * What turns a successor into the node `addOpen` receives: the engine's
   * `resetParent` policy, its heuristic and distance, the weight `hweight`
   * and the current goal.
   */
  datatype Scoring = Scoring(policy: ParentPolicy, heuristic: (int, int, int, int) -> real,
                             distance: (int, int, int, int) -> real, hweight: real, goalI: int, goalJ: int)

  /**
   * The score F = g + hweight * H given to every node put on the open
   * list: g + H for the unweighted search, g alone for weight 0.
   */
  function Score(hweight: real, g: real, h: real): (f: real)
    ensures hweight == 1.0 ==> f == g + h
    ensures hweight == 0.0 ==> f == g
  {
    g + hweight * h
  }

  /**
   * A successor x as the loop hands it to `addOpen`: its parent is the
   * closed node arena[p]; `resetParent` either keeps that parent and x's g
   * or (Theta* only) moves it to that node's own parent with g the
   * grandparent's g plus the straight-line distance; then H is computed
   * for the current goal and F scored.
   */
  function Prepared(s: Scoring, arena: seq<Node>, p: nat, x: Node, m: GridMap, options: Options): (r: Node)
    requires m.Shaped() && p < |arena|
    requires arena[p].parent.Some? ==> arena[p].parent.value < |arena|
    ensures CellOf(r) == CellOf(x)
    ensures (r.parent == Some(p) && r.g == x.g)
            || (arena[p].parent.Some? && var gp := arena[arena[p].parent.value];
                r.parent == arena[p].parent && r.g == gp.g + s.distance(gp.i, gp.j, x.i, x.j))
    ensures s.policy == Baseline ==> r.parent == Some(p) && r.g == x.g
    ensures r.H == s.heuristic(x.i, x.j, s.goalI, s.goalJ)
    ensures r.F == Score(s.hweight, r.g, r.H)
  {
    var u := ResetParentFor(s.policy, x.(parent := Some(p)), arena[p], arena, m, options, s.distance);
    var h := s.heuristic(u.i, u.j, s.goalI, s.goalJ);
    u.(H := h, F := Score(s.hweight, u.g, h))
  }

  /** Prepared applied to each successor in xs, in order. */
  function PrepareAll(s: Scoring, arena: seq<Node>, p: nat, xs: seq<Node>, m: GridMap, options: Options): (r: seq<Node>)
    requires m.Shaped() && p < |arena|
    requires arena[p].parent.Some? ==> arena[p].parent.value < |arena|
    ensures |r| == |xs| && forall k :: 0 <= k < |xs| ==> r[k] == Prepared(s, arena, p, xs[k], m, options)
    decreases |xs|
  {
    if xs == [] then [] else PrepareAll(s, arena, p, xs[..|xs| - 1], m, options) + [Prepared(s, arena, p, xs[|xs| - 1], m, options)]
  }

  /** All cells of an h x w grid. */
  function GridCells(h: int, w: int): set<Cell>
  {
    set r, c | 0 <= r < h && 0 <= c < w :: (r, c)
  }

  /**
   * The neighbour offset (di, dj) tried at position t of the two nested
   * loops over -1..1: the row offset steps every three positions, the
   * column offset runs through -1, 0, 1 within each.
   */
  function Offset(t: nat): (int, int)
  {
    var di := if t < 3 then -1 else if t < 6 then 0 else 1;
    (di, t - 3 * di - 4)
  }

  /**
   * Whether `findSuccessors` keeps the neighbour at offset (di, dj): not the
   * node itself, on the grid, not an obstacle, for a diagonal only when
   * diagonals are allowed and, without corner cutting, both corner cells are
   * free; and not closed.
   */
  predicate Admissible(m: GridMap, cur: Node, di: int, dj: int, options: Options, closedCells: set<Cell>)
    requires m.Shaped() && m.CellOnGrid(cur.i, cur.j)
  {
    !(di == 0 && dj == 0)
    && m.CellOnGrid(cur.i + di, cur.j + dj) && !m.Obstacle(cur.i + di, cur.j + dj)
    && (di != 0 && dj != 0 ==>
          options.allowDiagonal
          && (options.cutCorners || (!m.Obstacle(cur.i, cur.j + dj) && !m.Obstacle(cur.i + di, cur.j))))
    && (cur.i + di, cur.j + dj) !in closedCells
  }

  /** The successor node at offset (di, dj): g grows by 1 for a straight move and by CN_SQRT_TWO for a diagonal one. */
  function SuccessorAt(cur: Node, di: int, dj: int, sqrtTwo: real): Node
  {
    Node(cur.i + di, cur.j + dj, cur.g + (if di != 0 && dj != 0 then sqrtTwo else 1.0), 0.0, 0.0, None)
  }

  lemma SuccessorAtSpec(m: GridMap, cur: Node, di: int, dj: int, options: Options,
                        closedCells: set<Cell>, sqrtTwo: real)
    requires m.Shaped() && m.CellOnGrid(cur.i, cur.j)
    requires -1 <= di <= 1 && -1 <= dj <= 1 && Admissible(m, cur, di, dj, options, closedCells)
    ensures var x := SuccessorAt(cur, di, dj, sqrtTwo);
              Adjacent(CellOf(cur), CellOf(x))
              && m.CellOnGrid(x.i, x.j) && !m.Obstacle(x.i, x.j) && CellOf(x) !in closedCells
              && x.parent.None?
              && (x.i != cur.i && x.j != cur.j ==>
                    options.allowDiagonal && x.g == cur.g + sqrtTwo
                    && (options.cutCorners || (!m.Obstacle(cur.i, x.j) && !m.Obstacle(x.i, cur.j))))
              && ((x.i == cur.i) != (x.j == cur.j) ==> x.g == cur.g + 1.0)
  {
  }

  /** The successors found among the first n offsets, in loop order. */
  function SuccessorsUpTo(m: GridMap, cur: Node, options: Options, closedCells: set<Cell>,
                          sqrtTwo: real, n: nat): seq<Node>
    requires m.Shaped() && m.CellOnGrid(cur.i, cur.j)
    decreases n
  {
    if n == 0 then []
    else
      var d := Offset(n - 1);
      SuccessorsUpTo(m, cur, options, closedCells, sqrtTwo, n - 1)
      + (if Admissible(m, cur, d.0, d.1, options, closedCells) then [SuccessorAt(cur, d.0, d.1, sqrtTwo)] else [])
  }

  function Successors(m: GridMap, cur: Node, options: Options, closedCells: set<Cell>, sqrtTwo: real): seq<Node>
    requires m.Shaped() && m.CellOnGrid(cur.i, cur.j)
  {
    SuccessorsUpTo(m, cur, options, closedCells, sqrtTwo, 9)
  }

  /** Position t of the nested loops tries the offset (t / 3 - 1, t % 3 - 1), and only that one. */
  lemma OffsetIndex(t: nat)
    requires t < 9
    ensures -1 <= Offset(t).0 <= 1 && -1 <= Offset(t).1 <= 1
    ensures 3 * (Offset(t).0 + 1) + (Offset(t).1 + 1) == t
    ensures forall di, dj :: -1 <= di <= 1 && -1 <= dj <= 1 && 3 * (di + 1) + (dj + 1) == t ==> (di, dj) == Offset(t)
  {
  }

  /** Offset (di, dj) is tried at position 3 * (di + 1) + (dj + 1) of the nested loops. */
  lemma SuccessorsStep(m: GridMap, cur: Node, options: Options, closedCells: set<Cell>,
                       sqrtTwo: real, di: int, dj: int)
    requires m.Shaped() && m.CellOnGrid(cur.i, cur.j) && -1 <= di <= 1 && -1 <= dj <= 1
    ensures SuccessorsUpTo(m, cur, options, closedCells, sqrtTwo, 3 * (di + 1) + (dj + 1) + 1)
            == SuccessorsUpTo(m, cur, options, closedCells, sqrtTwo, 3 * (di + 1) + (dj + 1))
               + (if Admissible(m, cur, di, dj, options, closedCells) then [SuccessorAt(cur, di, dj, sqrtTwo)] else [])
  {
    OffsetIndex(3 * (di + 1) + (dj + 1));
  }

  lemma {:induction false} SuccessorsUpToMembers(m: GridMap, cur: Node, options: Options,
                                                 closedCells: set<Cell>, sqrtTwo: real, n: nat)
    requires m.Shaped() && m.CellOnGrid(cur.i, cur.j) && n <= 9
    ensures forall x :: x in SuccessorsUpTo(m, cur, options, closedCells, sqrtTwo, n) <==>
              exists di, dj :: -1 <= di <= 1 && -1 <= dj <= 1 && 3 * (di + 1) + (dj + 1) < n
                               && Admissible(m, cur, di, dj, options, closedCells)
                               && x == SuccessorAt(cur, di, dj, sqrtTwo)
    decreases n
  {
    if n > 0 {
      SuccessorsUpToMembers(m, cur, options, closedCells, sqrtTwo, n - 1);
      OffsetIndex(n - 1);
      var d := Offset(n - 1);
      var prev := SuccessorsUpTo(m, cur, options, closedCells, sqrtTwo, n - 1);
      var last := if Admissible(m, cur, d.0, d.1, options, closedCells) then [SuccessorAt(cur, d.0, d.1, sqrtTwo)] else [];
      assert SuccessorsUpTo(m, cur, options, closedCells, sqrtTwo, n) == prev + last;
      forall x
        ensures x in prev + last <==>
                  exists di, dj :: -1 <= di <= 1 && -1 <= dj <= 1 && 3 * (di + 1) + (dj + 1) < n
                                   && Admissible(m, cur, di, dj, options, closedCells)
                                   && x == SuccessorAt(cur, di, dj, sqrtTwo)
      {
        if x in last {
          assert -1 <= d.0 <= 1 && -1 <= d.1 <= 1 && 3 * (d.0 + 1) + (d.1 + 1) < n;
        }
        if exists di, dj :: -1 <= di <= 1 && -1 <= dj <= 1 && 3 * (di + 1) + (dj + 1) < n
                            && Admissible(m, cur, di, dj, options, closedCells)
                            && x == SuccessorAt(cur, di, dj, sqrtTwo) {
          var di, dj :| -1 <= di <= 1 && -1 <= dj <= 1 && 3 * (di + 1) + (dj + 1) < n
                        && Admissible(m, cur, di, dj, options, closedCells)
                        && x == SuccessorAt(cur, di, dj, sqrtTwo);
          if 3 * (di + 1) + (dj + 1) == n - 1 {
            assert (di, dj) == d;
            assert x in last;
          } else {
            assert x in prev;
          }
        }
      }
    }
  }

  /**
   * `findSuccessors` keeps exactly the admissible neighbours: a node is a
   * successor if and only if it is SuccessorAt some admissible offset.
   */
  lemma SuccessorsExactly(m: GridMap, cur: Node, options: Options, closedCells: set<Cell>, sqrtTwo: real)
    requires m.Shaped() && m.CellOnGrid(cur.i, cur.j)
    ensures forall x :: x in Successors(m, cur, options, closedCells, sqrtTwo) <==>
              exists di, dj :: -1 <= di <= 1 && -1 <= dj <= 1
                               && Admissible(m, cur, di, dj, options, closedCells)
                               && x == SuccessorAt(cur, di, dj, sqrtTwo)
  {
    SuccessorsUpToMembers(m, cur, options, closedCells, sqrtTwo, 9);
  }

  /**
   * Every successor is an 8-adjacent cell on the grid, free and not closed,
   * without a parent yet, reached by a diagonal only under the diagonal and
   * corner policy, with g = parent g + CN_SQRT_TWO for a diagonal and + 1
   * for a straight move.
   */
  lemma SuccessorsSound(m: GridMap, cur: Node, options: Options, closedCells: set<Cell>, sqrtTwo: real)
    requires m.Shaped() && m.CellOnGrid(cur.i, cur.j)
    ensures forall x :: x in Successors(m, cur, options, closedCells, sqrtTwo) ==>
              Adjacent(CellOf(cur), CellOf(x))
              && m.CellOnGrid(x.i, x.j) && !m.Obstacle(x.i, x.j) && CellOf(x) !in closedCells
              && x.parent.None?
              && (x.i != cur.i && x.j != cur.j ==>
                    options.allowDiagonal && x.g == cur.g + sqrtTwo
                    && (options.cutCorners || (!m.Obstacle(cur.i, x.j) && !m.Obstacle(x.i, cur.j))))
              && ((x.i == cur.i) != (x.j == cur.j) ==> x.g == cur.g + 1.0)
  {
    SuccessorsExactly(m, cur, options, closedCells, sqrtTwo);
    forall x | x in Successors(m, cur, options, closedCells, sqrtTwo)
      ensures Adjacent(CellOf(cur), CellOf(x))
              && m.CellOnGrid(x.i, x.j) && !m.Obstacle(x.i, x.j) && CellOf(x) !in closedCells
              && x.parent.None?
              && (x.i != cur.i && x.j != cur.j ==>
                    options.allowDiagonal && x.g == cur.g + sqrtTwo
                    && (options.cutCorners || (!m.Obstacle(cur.i, x.j) && !m.Obstacle(x.i, cur.j))))
              && ((x.i == cur.i) != (x.j == cur.j) ==> x.g == cur.g + 1.0)
    {
      var di, dj :| -1 <= di <= 1 && -1 <= dj <= 1 && Admissible(m, cur, di, dj, options, closedCells)
                    && x == SuccessorAt(cur, di, dj, sqrtTwo);
      SuccessorAtSpec(m, cur, di, dj, options, closedCells, sqrtTwo);
    }
  }

  /** Every successor lies on the grid, stated by position. */
  lemma SuccessorsOnGrid(m: GridMap, cur: Node, options: Options, closedCells: set<Cell>, sqrtTwo: real)
    requires m.Shaped() && m.CellOnGrid(cur.i, cur.j)
    ensures var s := Successors(m, cur, options, closedCells, sqrtTwo);
            forall t :: 0 <= t < |s| ==> 0 <= s[t].i < m.height && 0 <= s[t].j < m.width
  {
    var s := Successors(m, cur, options, closedCells, sqrtTwo);
    SuccessorsSound(m, cur, options, closedCells, sqrtTwo);
    forall t | 0 <= t < |s|
      ensures 0 <= s[t].i < m.height && 0 <= s[t].j < m.width
    {
      assert s[t] in s;
    }
  }

  /** The index of every closed node, keyed by its cell: what `close[(i, j)] = curNode` builds up. */
  function CloseMap(closed: seq<Node>): map<Cell, nat>
    decreases |closed|
  {
    if closed == [] then map[]
    else CloseMap(closed[..|closed| - 1])[CellOf(closed[|closed| - 1]) := |closed| - 1]
  }

  /** No cell is closed twice. */
  predicate DistinctCells(closed: seq<Node>)
  {
    forall k1, k2 :: 0 <= k1 < k2 < |closed| ==> CellOf(closed[k1]) != CellOf(closed[k2])
  }

  /** Every key of the closed map indexes a closed node on that cell. */
  lemma {:induction false} CloseMapKeys(closed: seq<Node>)
    ensures forall c :: c in CloseMap(closed) ==>
              CloseMap(closed)[c] < |closed| && CellOf(closed[CloseMap(closed)[c]]) == c
    decreases |closed|
  {
    if closed != [] {
      var front := closed[..|closed| - 1];
      CloseMapKeys(front);
      forall c | c in CloseMap(closed) && c != CellOf(closed[|closed| - 1])
        ensures CloseMap(closed)[c] < |closed| && CellOf(closed[CloseMap(closed)[c]]) == c
      {
        assert closed[CloseMap(front)[c]] == front[CloseMap(front)[c]];
      }
    }
  }

  /** Every closed node's cell is a key of the closed map. */
  lemma {:induction false} CloseMapCovers(closed: seq<Node>)
    ensures forall k :: 0 <= k < |closed| ==> CellOf(closed[k]) in CloseMap(closed)
    decreases |closed|
  {
    if closed != [] {
      var front := closed[..|closed| - 1];
      CloseMapCovers(front);
      assert forall k :: 0 <= k < |front| ==> front[k] == closed[k];
    }
  }

  /**
   * With no cell closed twice, the key of each closed node indexes that very
   * node, and there are exactly as many keys as closed nodes.
   */
  lemma {:induction false} CloseMapExact(closed: seq<Node>)
    requires DistinctCells(closed)
    ensures forall k :: 0 <= k < |closed| ==>
              CellOf(closed[k]) in CloseMap(closed) && CloseMap(closed)[CellOf(closed[k])] == k
    ensures |CloseMap(closed)| == |closed|
    decreases |closed|
  {
    if closed != [] {
      var front := closed[..|closed| - 1];
      var n := closed[|closed| - 1];
      assert forall k :: 0 <= k < |front| ==> front[k] == closed[k];
      CloseMapExact(front);
      CloseMapKeys(front);
      assert CellOf(n) !in CloseMap(front);
    }
  }

  /**
   * The closed set: `close` is the CloseMap of the arena, no cell is closed
   * twice, parents precede their children, every closed cell is on the
   * grid, and only nodes on the start cell lack a parent.
   */
  ghost predicate ClosedOk(m: GridMap, close: map<Cell, nat>, closed: seq<Node>)
  {
    close == CloseMap(closed) && DistinctCells(closed) && ParentsEarlier(closed)
    && (forall k :: 0 <= k < |closed| ==> 0 <= closed[k].i < m.height && 0 <= closed[k].j < m.width)
    && (forall k :: 0 <= k < |closed| && closed[k].parent.None? ==> CellOf(closed[k]) == (m.startRow, m.startCol))
  }

  /** A node allowed in bucket r: in row r, on the grid, not closed, its parent closed (or it is the start). */
  ghost predicate EntryOk(n: Node, r: int, m: GridMap, close: map<Cell, nat>, closed: seq<Node>)
  {
    n.i == r && 0 <= n.j < m.width && CellOf(n) !in close
    && (n.parent.Some? ==> n.parent.value < |closed|)
    && (n.parent.None? ==> CellOf(n) == (m.startRow, m.startCol))
  }

  /**
   * The open list: one bucket per grid row, each sorted under the
   * tie-break policy with at most one node per cell, no node closed, and
   * `openSize` equal to the total number of nodes.
   */
  ghost predicate OpenOk(m: GridMap, open: seq<seq<Node>>, openSize: int, tb: TieBreak,
                         close: map<Cell, nat>, closed: seq<Node>)
  {
    |open| == m.height
    && (forall r :: 0 <= r < |open| ==> Sorted(open[r], tb) && UniqueColumns(open[r]))
    && (forall r, x :: 0 <= r < |open| && x in open[r] ==> EntryOk(x, r, m, close, closed))
    && openSize == |Flatten(open)|
  }

  /** The match `startSearch` uses to find the chosen node among the open entries: same cell, F and g. */
  predicate SameEntry(x: Node, n: Node)
  {
    x.i == n.i && x.j == n.j && x.F == n.F && x.g == n.g
  }

  /** Empty buckets, one per row, and an empty closed set satisfy both invariants. */
  lemma EmptyListsOk(m: GridMap, open: seq<seq<Node>>, size: int, tb: TieBreak,
                     close: map<Cell, nat>, closed: seq<Node>)
    requires m.Valid() && open == seq(m.height, _ => []) && size == 0 && close == map[] && closed == []
    ensures OpenOk(m, open, size, tb, close, closed) && ClosedOk(m, close, closed)
    ensures forall r :: 0 <= r < |open| ==> open[r] == []
  {
    FlattenAllEmpty(open);
  }

  /** Opening one node on empty buckets leaves exactly that node open, alone in its row's bucket. */
  lemma SeededOpen(rows: seq<seq<Node>>, n: Node)
    requires forall r :: 0 <= r < |rows| ==> rows[r] == []
    requires 0 <= n.i < |rows|
    ensures rows[n.i := [n]] == seq(|rows|, _ => [])[n.i := [n]]
    ensures Flatten(rows[n.i := [n]]) == [n]
  {
    var seeded := rows[n.i := [n]];
    assert rows == seq(|rows|, _ => []);
    FlattenAllEmpty(rows);
    FlattenUpdate(rows, n.i, [n]);
    FlattenMembers(seeded, n);
    assert n in seeded[n.i];
  }

  /**
   * The first node closed has no parent (no earlier node exists to be its
   * parent), so it lies on the start cell, and that cell is closed.
   */
  lemma FirstClosedAtStart(m: GridMap, close: map<Cell, nat>, closed: seq<Node>)
    requires ClosedOk(m, close, closed) && |closed| > 0
    ensures closed[0].parent.None? && CellOf(closed[0]) == (m.startRow, m.startCol)
    ensures (m.startRow, m.startCol) in close
  {
    CloseMapCovers(closed);
  }

  /** No cell is both open and closed. */
  lemma OpenClosedDisjoint(m: GridMap, open: seq<seq<Node>>, openSize: int, tb: TieBreak,
                           close: map<Cell, nat>, closed: seq<Node>)
    requires OpenOk(m, open, openSize, tb, close, closed)
    ensures forall x :: x in Flatten(open) ==> CellOf(x) !in close && 0 <= x.i < m.height
  {
    forall x | x in Flatten(open)
      ensures CellOf(x) !in close && 0 <= x.i < m.height
    {
      FlattenMembers(open, x);
    }
  }

  /** `addOpen` keeps the invariant: the node's bucket becomes AddToRow of the old one. */
  lemma AddOpenKeepsOpenOk(m: GridMap, open0: seq<seq<Node>>, size0: int, tb: TieBreak,
                           close: map<Cell, nat>, closed: seq<Node>, n: Node,
                           open: seq<seq<Node>>, size: int)
    requires OpenOk(m, open0, size0, tb, close, closed)
    requires 0 <= n.i < m.height && 0 <= n.j < m.width && CellOf(n) !in close
    requires n.parent.Some? ==> n.parent.value < |closed|
    requires n.parent.None? ==> CellOf(n) == (m.startRow, m.startCol)
    requires open == open0[n.i := AddToRow(open0[n.i], n, tb)]
    requires size == size0 - |open0[n.i]| + |open[n.i]|
    ensures OpenOk(m, open, size, tb, close, closed)
  {
    var r0 := open0[n.i];
    AddToRowSpec(r0, n, tb);
    FlattenUpdate(open0, n.i, open[n.i]);
    forall r, x | 0 <= r < |open| && x in open[r]
      ensures EntryOk(x, r, m, close, closed)
    {
      if r != n.i {
        assert open[r] == open0[r];
      } else if x != n {
        assert x in r0;
      }
    }
  }

  /**
   * The open list after `addOpen` of n: unchanged for a closed cell,
   * otherwise n's bucket becomes AddToRow. A node off the rows (which
   * `addOpen` is never given) also leaves it unchanged.
   */
  function AddOne(open: seq<seq<Node>>, close: map<Cell, nat>, tb: TieBreak, n: Node): seq<seq<Node>>
  {
    if CellOf(n) in close || !(0 <= n.i < |open|) then open else open[n.i := AddToRow(open[n.i], n, tb)]
  }

  /** Every node of ns lies on a row of the open list. */
  predicate OnRows(ns: seq<Node>, h: int)
  {
    forall t :: 0 <= t < |ns| ==> 0 <= ns[t].i < h
  }

  /** The open list after `addOpen` of each node of ns in turn. */
  function AddAll(open: seq<seq<Node>>, close: map<Cell, nat>, tb: TieBreak, ns: seq<Node>): (r: seq<seq<Node>>)
    ensures |r| == |open|
    decreases |ns|
  {
    if ns == [] then open
    else AddOne(AddAll(open, close, tb, ns[..|ns| - 1]), close, tb, ns[|ns| - 1])
  }

  /** None of ns is on cell c. */
  predicate Avoids(ns: seq<Node>, c: Cell)
  {
    forall t :: 0 <= t < |ns| ==> CellOf(ns[t]) != c
  }

  /** Cell c has an open entry whose g is at most g. */
  predicate Covered(open: seq<seq<Node>>, c: Cell, g: real)
  {
    0 <= c.0 < |open| && exists y :: y in open[c.0] && y.j == c.1 && y.g <= g
  }

  /** Every bucket is sorted under the tie-break policy and holds at most one node per column. */
  predicate Ordered(open: seq<seq<Node>>, tb: TieBreak)
  {
    forall r :: 0 <= r < |open| ==> Sorted(open[r], tb) && UniqueColumns(open[r])
  }

  /**
   * One `addOpen` on ordered buckets keeps them ordered; the node's cell is
   * closed or gets an entry with g no larger than the node's; entries of
   * other cells stay; an entry of the node's cell is replaced only by one
   * with smaller g; and the only new entry is the node itself.
   */
  lemma AddOneSpec(open: seq<seq<Node>>, close: map<Cell, nat>, tb: TieBreak, n: Node)
    requires Ordered(open, tb) && 0 <= n.i < |open|
    ensures Ordered(AddOne(open, close, tb, n), tb)
    ensures CellOf(n) !in close ==> Covered(AddOne(open, close, tb, n), CellOf(n), n.g)
    ensures forall r, y :: 0 <= r < |open| && y in open[r] && (r, y.j) != CellOf(n) ==> y in AddOne(open, close, tb, n)[r]
    ensures forall c, g :: Covered(open, c, g) ==> Covered(AddOne(open, close, tb, n), c, g)
    ensures forall r, y :: 0 <= r < |open| && y in AddOne(open, close, tb, n)[r] ==> y in open[r] || y == n
  {
    var a := AddOne(open, close, tb, n);
    if CellOf(n) !in close {
      var row := open[n.i];
      AddToRowSpec(row, n, tb);
      if exists x :: x in row && x.j == n.j && x.g <= n.g {
        var x :| x in row && x.j == n.j && x.g <= n.g;
        assert x in a[n.i];
      } else {
        assert n in a[n.i];
      }
      forall c, g | Covered(open, c, g)
        ensures Covered(a, c, g)
      {
        var y :| y in open[c.0] && y.j == c.1 && y.g <= g;
        if c.0 == n.i && c.1 == n.j && y !in a[c.0] {
          assert n in a[n.i];
        }
      }
    }
  }

  /** `addOpen` of each node of ns keeps ordered buckets ordered. */
  lemma {:induction false} AddAllOrdered(open: seq<seq<Node>>, close: map<Cell, nat>, tb: TieBreak, ns: seq<Node>)
    requires Ordered(open, tb) && OnRows(ns, |open|)
    ensures Ordered(AddAll(open, close, tb, ns), tb)
    decreases |ns|
  {
    if ns != [] {
      AddAllOrdered(open, close, tb, ns[..|ns| - 1]);
      AddOneSpec(AddAll(open, close, tb, ns[..|ns| - 1]), close, tb, ns[|ns| - 1]);
    }
  }

  /**
   * After `addOpen` of each node of ns, every node whose cell is not closed
   * has an open entry on its cell with g no larger than its own.
   */
  lemma {:induction false} AddAllCovers(open: seq<seq<Node>>, close: map<Cell, nat>, tb: TieBreak, ns: seq<Node>)
    requires Ordered(open, tb) && OnRows(ns, |open|)
    ensures forall t :: 0 <= t < |ns| && CellOf(ns[t]) !in close ==> Covered(AddAll(open, close, tb, ns), CellOf(ns[t]), ns[t].g)
    decreases |ns|
  {
    if ns != [] {
      var front := ns[..|ns| - 1];
      AddAllCovers(open, close, tb, front);
      AddAllOrdered(open, close, tb, front);
      AddOneSpec(AddAll(open, close, tb, front), close, tb, ns[|ns| - 1]);
      forall t | 0 <= t < |ns| - 1 && CellOf(ns[t]) !in close
        ensures Covered(AddAll(open, close, tb, ns), CellOf(ns[t]), ns[t].g)
      {
        assert ns[t] == front[t];
      }
    }
  }

  /** After `addOpen` of each node of ns, every open entry was open before or is one of ns. */
  lemma {:induction false} AddAllOnlyNew(open: seq<seq<Node>>, close: map<Cell, nat>, tb: TieBreak, ns: seq<Node>)
    requires Ordered(open, tb) && OnRows(ns, |open|)
    ensures forall r, y :: 0 <= r < |open| && y in AddAll(open, close, tb, ns)[r] ==> y in open[r] || y in ns
    decreases |ns|
  {
    if ns != [] {
      var front := ns[..|ns| - 1];
      AddAllOnlyNew(open, close, tb, front);
      AddAllOrdered(open, close, tb, front);
      var b := AddAll(open, close, tb, front);
      AddOneSpec(b, close, tb, ns[|ns| - 1]);
      forall r, y | 0 <= r < |open| && y in AddAll(open, close, tb, ns)[r] && y !in open[r]
        ensures y in ns
      {
        if y in b[r] {
          assert y in front;
          var t :| 0 <= t < |front| && front[t] == y;
          assert ns[t] == y;
        }
      }
    }
  }

  /** `addOpen` of each node of ns keeps every open entry on a cell none of ns is on. */
  lemma {:induction false} AddAllKeeps(open: seq<seq<Node>>, close: map<Cell, nat>, tb: TieBreak, ns: seq<Node>)
    requires Ordered(open, tb) && OnRows(ns, |open|)
    ensures forall r, y :: 0 <= r < |open| && y in open[r] && Avoids(ns, (r, y.j)) ==> y in AddAll(open, close, tb, ns)[r]
    decreases |ns|
  {
    if ns != [] {
      var front := ns[..|ns| - 1];
      AddAllKeeps(open, close, tb, front);
      AddAllOrdered(open, close, tb, front);
      AddOneSpec(AddAll(open, close, tb, front), close, tb, ns[|ns| - 1]);
      forall r, y | 0 <= r < |open| && y in open[r] && Avoids(ns, (r, y.j))
        ensures y in AddAll(open, close, tb, ns)[r]
      {
        forall t | 0 <= t < |front|
          ensures CellOf(front[t]) != (r, y.j)
        {
          assert front[t] == ns[t];
        }
        assert CellOf(ns[|ns| - 1]) != (r, y.j);
        assert y in AddAll(open, close, tb, front)[r];
      }
    }
  }

  /**
   * After the successor loop, each successor whose cell is not closed has
   * an open entry on its cell with g no larger than the g it was given
   * (Prepared), and the buckets stay ordered.
   */
  lemma ExpansionCovers(open0: seq<seq<Node>>, close: map<Cell, nat>, tb: TieBreak, s: Scoring, arena: seq<Node>,
                        p: nat, xs: seq<Node>, m: GridMap, options: Options)
    requires Ordered(open0, tb) && OnRows(xs, |open0|)
    requires m.Shaped() && p < |arena| && (arena[p].parent.Some? ==> arena[p].parent.value < |arena|)
    ensures Ordered(AddAll(open0, close, tb, PrepareAll(s, arena, p, xs, m, options)), tb)
    ensures forall k :: 0 <= k < |xs| && CellOf(xs[k]) !in close ==>
              Covered(AddAll(open0, close, tb, PrepareAll(s, arena, p, xs, m, options)), CellOf(xs[k]),
                      Prepared(s, arena, p, xs[k], m, options).g)
  {
    var ns := PrepareAll(s, arena, p, xs, m, options);
    assert OnRows(ns, |open0|) by {
      forall t | 0 <= t < |ns| ensures 0 <= ns[t].i < |open0| {
        assert CellOf(ns[t]) == CellOf(xs[t]);
      }
    }
    AddAllOrdered(open0, close, tb, ns);
    AddAllCovers(open0, close, tb, ns);
    forall k | 0 <= k < |xs| && CellOf(xs[k]) !in close
      ensures Covered(AddAll(open0, close, tb, ns), CellOf(xs[k]), Prepared(s, arena, p, xs[k], m, options).g)
    {
      assert CellOf(ns[k]) == CellOf(xs[k]);
    }
  }

  /**
   * The successor loop keeps every open entry on a cell none of the
   * successors is on, and adds no entry other than a Prepared successor.
   */
  lemma ExpansionKeeps(open0: seq<seq<Node>>, close: map<Cell, nat>, tb: TieBreak, s: Scoring, arena: seq<Node>,
                       p: nat, xs: seq<Node>, m: GridMap, options: Options)
    requires Ordered(open0, tb) && OnRows(xs, |open0|)
    requires m.Shaped() && p < |arena| && (arena[p].parent.Some? ==> arena[p].parent.value < |arena|)
    ensures forall r, y :: 0 <= r < |open0| && y in open0[r] && Avoids(xs, (r, y.j)) ==>
              y in AddAll(open0, close, tb, PrepareAll(s, arena, p, xs, m, options))[r]
    ensures forall r, y :: 0 <= r < |open0| && y in AddAll(open0, close, tb, PrepareAll(s, arena, p, xs, m, options))[r] ==>
              y in open0[r] || exists k :: 0 <= k < |xs| && y == Prepared(s, arena, p, xs[k], m, options)
  {
    var ns := PrepareAll(s, arena, p, xs, m, options);
    assert OnRows(ns, |open0|) by {
      forall t | 0 <= t < |ns| ensures 0 <= ns[t].i < |open0| {
        assert CellOf(ns[t]) == CellOf(xs[t]);
      }
    }
    AddAllKeeps(open0, close, tb, ns);
    AddAllOnlyNew(open0, close, tb, ns);
    forall r, y | 0 <= r < |open0| && y in open0[r] && Avoids(xs, (r, y.j))
      ensures y in AddAll(open0, close, tb, ns)[r]
    {
      assert Avoids(ns, (r, y.j)) by {
        forall t | 0 <= t < |ns| ensures CellOf(ns[t]) != (r, y.j) {
          assert CellOf(ns[t]) == CellOf(xs[t]);
        }
      }
    }
    forall r, y | 0 <= r < |open0| && y in AddAll(open0, close, tb, ns)[r] && y !in open0[r]
      ensures exists k :: 0 <= k < |xs| && y == Prepared(s, arena, p, xs[k], m, options)
    {
      assert y in ns;
      var k :| 0 <= k < |ns| && ns[k] == y;
      assert y == Prepared(s, arena, p, xs[k], m, options);
    }
  }

  /**
   * Moving the node `findMin` chose from its bucket (at position idx) to
   * the closed set keeps both invariants; the closed set gains a cell of
   * the grid that was not closed before.
   */
  lemma CloseKeepsValid(m: GridMap, open0: seq<seq<Node>>, size0: int, tb: TieBreak,
                        close0: map<Cell, nat>, closed0: seq<Node>, cur: Node, idx: nat,
                        open: seq<seq<Node>>, size: int, close: map<Cell, nat>, closed: seq<Node>)
    requires OpenOk(m, open0, size0, tb, close0, closed0) && ClosedOk(m, close0, closed0)
    requires 0 <= cur.i < |open0| && cur in open0[cur.i]
    requires idx < |open0[cur.i]| && open0[cur.i][idx].j == cur.j
    requires open == open0[cur.i := RemoveAt(open0[cur.i], idx)] && size == size0 - 1
    requires close == close0[CellOf(cur) := |closed0|] && closed == closed0 + [cur]
    ensures CellOf(cur) !in close0 && CellOf(cur) in GridCells(m.height, m.width)
    ensures OpenOk(m, open, size, tb, close, closed) && ClosedOk(m, close, closed)
  {
    var row := open0[cur.i];
    assert EntryOk(cur, cur.i, m, close0, closed0);
    RemoveAtKeeps(row, idx, tb);
    FlattenUpdate(open0, cur.i, open[cur.i]);
    forall r, x | 0 <= r < |open| && x in open[r]
      ensures EntryOk(x, r, m, close, closed)
    {
      if r != cur.i {
        assert open[r] == open0[r];
        assert EntryOk(x, r, m, close0, closed0);
      } else {
        assert x in row;
        assert EntryOk(x, r, m, close0, closed0);
      }
    }
    CloseMapCovers(closed0);
    assert closed[..|closed| - 1] == closed0;
  }

  class Search {
    var hweight: real
    var breakingties: TieBreak
    /** Which engine this is: the A* baseline or Theta*. */
    const policy: ParentPolicy
    /** `computeHFromCellToCell` (of the Astar class), with the options' metric folded in. */
    const heuristic: (int, int, int, int) -> real
    /** `Theta::distance`, the Euclidean distance between two cells. */
    const distance: (int, int, int, int) -> real
    /** CN_SQRT_TWO, the cost of a diagonal move. */
    const sqrtTwo: real

    var open: seq<seq<Node>>
    var openSize: int
    /** `close`: cell to the index of its node in the arena `closed`. */
    var close: map<Cell, nat>
    var closed: seq<Node>
    var hppath: seq<Node>
    var lppath: seq<Node>
    var currentGoalI: int
    var currentGoalJ: int
    var currentMapHeight: int
    var currentMapWidth: int

    /** `ISearch()`: weight 1, GMax tie-break, empty open list, goal and map size unset (-1). */
    constructor (policy: ParentPolicy, heuristic: (int, int, int, int) -> real,
                 distance: (int, int, int, int) -> real, sqrtTwo: real)
      ensures hweight == 1.0 && breakingties == GMax
      ensures this.policy == policy && this.heuristic == heuristic
      ensures this.distance == distance && this.sqrtTwo == sqrtTwo
      ensures openSize == 0 && open == [] && close == map[] && closed == []
      ensures hppath == [] && lppath == []
      ensures currentGoalI == -1 && currentGoalJ == -1 && currentMapHeight == -1 && currentMapWidth == -1
    {
      hweight := 1.0;
      breakingties := GMax;
      this.policy := policy;
      this.heuristic := heuristic;
      this.distance := distance;
      this.sqrtTwo := sqrtTwo;
      open := [];
      openSize := 0;
      close := map[];
      closed := [];
      hppath := [];
      lppath := [];
      currentGoalI, currentGoalJ := -1, -1;
      currentMapWidth, currentMapHeight := -1, -1;
    }

    ghost predicate Valid(m: GridMap)
      reads this`open, this`openSize, this`breakingties, this`close, this`closed
    {
      m.Valid() && OpenOk(m, open, openSize, breakingties, close, closed) && ClosedOk(m, close, closed)
    }

    /** `stopCriterion`: the search stops exactly when the open list is empty. */
    function StopCriterion(): (stop: bool)
      reads this
      ensures openSize == |Flatten(open)| ==> (stop <==> Flatten(open) == [])
    {
      openSize == 0
    }

    /**
     * `addOpen`: a closed cell is ignored; otherwise the node's bucket
     * becomes AddToRow of the old bucket (keep the entry with smaller g,
     * insert in order), and the invariant is kept.
     */
    method AddOpen(newNode: Node, ghost m: GridMap)
      requires Valid(m)
      requires 0 <= newNode.i < m.height && 0 <= newNode.j < m.width
      requires newNode.parent.Some? ==> newNode.parent.value < |closed|
      requires newNode.parent.None? ==> CellOf(newNode) == (m.startRow, m.startCol)
      modifies this`open, this`openSize
      ensures Valid(m)
      ensures CellOf(newNode) in close ==> open == old(open) && openSize == old(openSize)
      ensures CellOf(newNode) !in close ==>
                open == old(open)[newNode.i := AddToRow(old(open)[newNode.i], newNode, breakingties)]
      ensures openSize == old(openSize) - |old(open)[newNode.i]| + |open[newNode.i]|
    {
      if (newNode.i, newNode.j) in close {
        return;
      }
      var row, delta := UpdatedBucket(open[newNode.i], newNode);
      open := open[newNode.i := row];
      openSize := openSize + delta;
      AddOpenKeepsOpenOk(m, old(open), old(openSize), breakingties, close, closed, newNode, open, openSize);
    }

    /**
     * The bucket work of `addOpen` for a cell that is not closed: scan for
     * an entry in the node's column; keep the bucket when that entry's g is
     * no larger, otherwise erase it (size - 1), then scan for the first
     * entry the node goes before and insert it there (size + 1). The result
     * is AddToRow, and delta is the change in size.
     */
    method UpdatedBucket(row0: seq<Node>, newNode: Node) returns (row: seq<Node>, delta: int)
      ensures row == AddToRow(row0, newNode, breakingties)
      ensures delta == |row| - |row0|
    {
      row, delta := row0, 0;
      AddToRowAt(row0, newNode, breakingties);
      var k := ColumnIndex(row, newNode.j);
      if k < |row| {
        if row[k].g <= newNode.g {
          return;
        }
        row := RemoveAt(row, k);
        delta := delta - 1;
      }
      var p := InsertIndex(row, newNode, breakingties);
      row := row[..p] + [newNode] + row[p..];
      delta := delta + 1;
    }

    /**
     * `findMin`: the node a row-by-row, front-to-back scan keeps, replacing
     * its running minimum by any node that goes before it; that is the
     * BestIndex entry of the flattened open list.
     */
    method FindMin() returns (minNode: Node)
      requires openSize == |Flatten(open)| && openSize > 0
      ensures minNode == Flatten(open)[BestIndex(Flatten(open), breakingties)]
    {
      minNode := Node(0, 0, 0.0, 0.0, 0.0, None);
      var nodeFound := false;
      for r := 0 to |open|
        invariant nodeFound <==> Flatten(open[..r]) != []
        invariant nodeFound ==> minNode == Flatten(open[..r])[BestIndex(Flatten(open[..r]), breakingties)]
      {
        FlattenSnoc(open, r);
        nodeFound, minNode := ScanBucket(Flatten(open[..r]), open[r], nodeFound, minNode);
      }
      assert open[..|open|] == open;
    }

    /**
     * The inner loop of `findMin` over one bucket: after the nodes `scanned`
     * so far, the running minimum is replaced by each node of the bucket
     * that goes before it.
     */
    method ScanBucket(ghost scanned: seq<Node>, row: seq<Node>, found: bool, min: Node)
      returns (nodeFound: bool, minNode: Node)
      requires found <==> scanned != []
      requires found ==> min == scanned[BestIndex(scanned, breakingties)]
      ensures nodeFound <==> scanned + row != []
      ensures nodeFound ==> minNode == (scanned + row)[BestIndex(scanned + row, breakingties)]
    {
      nodeFound, minNode := found, min;
      ghost var seen := scanned;
      for p := 0 to |row|
        invariant seen == scanned + row[..p]
        invariant nodeFound <==> seen != []
        invariant nodeFound ==> minNode == seen[BestIndex(seen, breakingties)]
      {
        var currentNode := row[p];
        BestIndexSnoc(seen, currentNode, breakingties);
        assert row[..p + 1] == row[..p] + [currentNode];
        seen := seen + [currentNode];
        if !nodeFound || currentNode.F < minNode.F {
          minNode := currentNode;
          nodeFound := true;
        } else if currentNode.F == minNode.F {
          if (breakingties == GMax && currentNode.g >= minNode.g)
             || (breakingties == GMin && currentNode.g < minNode.g) {
            minNode := currentNode;
          }
        }
      }
      assert row[..|row|] == row;
    }

    /**
     * The scan of `startSearch` for the open entry to erase: the first entry
     * of the bucket with the same cell, F and g as the chosen node, or the
     * bucket's length when there is none.
     */
    method EntryIndex(row: seq<Node>, n: Node) returns (k: nat)
      ensures k <= |row|
      ensures k < |row| ==> SameEntry(row[k], n)
      ensures forall t :: 0 <= t < k ==> !SameEntry(row[t], n)
    {
      k := 0;
      while k < |row| && !SameEntry(row[k], n)
        invariant 0 <= k <= |row|
        invariant forall t :: 0 <= t < k ==> !SameEntry(row[t], n)
      {
        k := k + 1;
      }
    }

    /**
     * `startSearch`: seed the open list with the start node, then repeatedly
     * move the `findMin` node from open to closed, stop when it is the goal,
     * and otherwise add its successors (re-parented by `resetParent`, with
     * H and F computed) to the open list; stop too when the open list is
     * empty. The invariant holds throughout; the goal is closed exactly when
     * a path is found, and the path is then the goal's parent chain and its
     * rasterisation.
     */
    method StartSearch(m: GridMap, options: Options) returns (result: SearchResult)
      requires m.Valid()
      modifies this`currentMapWidth, this`currentMapHeight, this`currentGoalI, this`currentGoalJ
      modifies this`open, this`openSize, this`close, this`closed, this`hppath, this`lppath
      ensures Valid(m)
      ensures currentGoalI == m.goalRow && currentGoalJ == m.goalCol
      ensures currentMapHeight == m.height && currentMapWidth == m.width
      ensures result.pathfound <==> (m.goalRow, m.goalCol) in close
      ensures result.numberofsteps == |close| && result.nodescreated == |close| + openSize
      ensures !result.pathfound ==> openSize == 0 && result.pathlength == 0.0 && hppath == [] && lppath == []
      ensures result.pathfound ==> close[(m.goalRow, m.goalCol)] < |closed|
      ensures result.pathfound ==>
                result.pathlength == closed[close[(m.goalRow, m.goalCol)]].g
                && hppath == Chain(closed, close[(m.goalRow, m.goalCol)])
                && lppath == CellPath(hppath)
      ensures result.hppath == hppath && result.lppath == lppath
      ensures |closed| > 0 && closed[0].parent.None? && CellOf(closed[0]) == (m.startRow, m.startCol)
      ensures (m.startRow, m.startCol) in close
      ensures (m.startRow, m.startCol) == (m.goalRow, m.goalCol) ==> result.pathfound
    {
      var startNode := Initialise(m);
      var pathfound := SearchLoop(m, options);
      FirstClosedAtStart(m, close, closed);
      result := ReportResult(pathfound, m);
    }

    /** The engine's scoring parts as one value: policy, heuristic, distance, weight and current goal. */
    function Scorer(): Scoring
      reads this`hweight, this`currentGoalI, this`currentGoalJ
    {
      Scoring(policy, heuristic, distance, hweight, currentGoalI, currentGoalJ)
    }

    /**
     * The start of `startSearch`: record the map size and goal, empty the
     * open list (one bucket per row), the closed set and both paths, and
     * open the start node (g = 0, no parent).
     */
    method Initialise(m: GridMap) returns (startNode: Node)
      requires m.Valid()
      modifies this`currentMapWidth, this`currentMapHeight, this`currentGoalI, this`currentGoalJ
      modifies this`open, this`openSize, this`close, this`closed, this`hppath, this`lppath
      ensures Valid(m) && close == map[] && closed == []
      ensures currentGoalI == m.goalRow && currentGoalJ == m.goalCol
      ensures currentMapHeight == m.height && currentMapWidth == m.width
      ensures hppath == [] && lppath == []
      ensures CellOf(startNode) == (m.startRow, m.startCol) && startNode.g == 0.0 && startNode.parent.None?
      ensures startNode.H == heuristic(m.startRow, m.startCol, m.goalRow, m.goalCol)
      ensures hweight == 1.0 ==> startNode.F == startNode.H
      ensures open == seq(m.height, _ => [])[m.startRow := [startNode]]
      ensures openSize == 1 && Flatten(open) == [startNode]
    {
      ResetState(m);
      var startH := heuristic(m.startRow, m.startCol, currentGoalI, currentGoalJ);
      var startF := Score(hweight, 0.0, startH);
      startNode := Node(m.startRow, m.startCol, 0.0, startH, startF, None);
      OpenStart(startNode, m);
    }

    /** The `addOpen(startNode)` of `startSearch`, on empty buckets: the start node ends up the only open node. */
    method OpenStart(startNode: Node, m: GridMap)
      requires Valid(m) && openSize == 0 && close == map[] && closed == []
      requires forall r :: 0 <= r < |open| ==> open[r] == []
      requires CellOf(startNode) == (m.startRow, m.startCol) && startNode.parent.None?
      modifies this`open, this`openSize
      ensures Valid(m)
      ensures open == seq(m.height, _ => [])[m.startRow := [startNode]]
      ensures openSize == 1 && Flatten(open) == [startNode]
    {
      ghost var open0 := open;
      AddOpen(startNode, m);
      assert open[m.startRow] == [startNode];
      SeededOpen(open0, startNode);
    }

    /** The resets at the start of `startSearch`: map size and goal recorded, one empty bucket per row, nothing closed, no path. */
    method ResetState(m: GridMap)
      requires m.Valid()
      modifies this`currentMapWidth, this`currentMapHeight, this`currentGoalI, this`currentGoalJ
      modifies this`open, this`openSize, this`close, this`closed, this`hppath, this`lppath
      ensures Valid(m) && openSize == 0 && close == map[] && closed == []
      ensures forall r :: 0 <= r < |open| ==> open[r] == []
      ensures currentGoalI == m.goalRow && currentGoalJ == m.goalCol
      ensures currentMapHeight == m.height && currentMapWidth == m.width
      ensures hppath == [] && lppath == []
    {
      currentMapWidth := m.width;
      currentMapHeight := m.height;
      currentGoalI := m.goalRow;
      currentGoalJ := m.goalCol;
      open := seq(m.height, _ => []);
      openSize := 0;
      close := map[];
      closed := [];
      hppath := [];
      lppath := [];
      EmptyListsOk(m, open, openSize, breakingties, close, closed);
    }

    /**
     * The loop of `startSearch`: while the open list is not empty, expand
     * its `findMin` node; stop early when that node is the goal. The
     * invariant holds throughout, the goal is closed exactly when the loop
     * reports a path, and otherwise the open list ends empty.
     */
    method SearchLoop(m: GridMap, options: Options) returns (pathfound: bool)
      requires Valid(m) && close == map[] && closed == [] && openSize > 0 && hppath == [] && lppath == []
      requires currentGoalI == m.goalRow && currentGoalJ == m.goalCol
      requires currentMapHeight == m.height && currentMapWidth == m.width
      modifies this`open, this`openSize, this`close, this`closed
      ensures Valid(m) && currentGoalI == m.goalRow && currentGoalJ == m.goalCol
      ensures currentMapHeight == m.height && currentMapWidth == m.width
      ensures pathfound <==> (m.goalRow, m.goalCol) in close
      ensures !pathfound ==> openSize == 0
      ensures |closed| > 0
    {
      pathfound := false;
      ghost var cells := GridCells(m.height, m.width);
      while !StopCriterion()
        invariant Valid(m) && !pathfound && (m.goalRow, m.goalCol) !in close
        invariant close.Keys <= cells
        invariant |closed| == 0 ==> openSize > 0
        decreases cells - close.Keys
      {
        var curNode := FindMin();
        ghost var keys0 := close.Keys;
        var goalClosed;
        ghost var k;
        goalClosed, k := ExpandMin(curNode, m, options);
        assert close.Keys == keys0 + {CellOf(curNode)};
        assert CellOf(curNode) in (cells - keys0) - (cells - close.Keys);
        if goalClosed {
          pathfound := true;
          break;
        }
      }
    }

    /**
     * The end of `startSearch`: the counters, and for a found path its
     * length (the closed goal node's g) and both paths; length 0 otherwise.
     */
    method ReportResult(pathfound: bool, ghost m: GridMap) returns (result: SearchResult)
      requires Valid(m) && currentGoalI == m.goalRow && currentGoalJ == m.goalCol
      requires currentMapHeight == m.height && currentMapWidth == m.width
      requires pathfound <==> (m.goalRow, m.goalCol) in close
      requires hppath == [] && lppath == []
      modifies this`hppath, this`lppath
      ensures Valid(m) && currentGoalI == m.goalRow && currentGoalJ == m.goalCol
      ensures currentMapHeight == m.height && currentMapWidth == m.width
      ensures result.pathfound == pathfound
      ensures result.numberofsteps == |close| && result.nodescreated == |close| + openSize
      ensures !pathfound ==> result.pathlength == 0.0 && hppath == [] && lppath == []
      ensures pathfound ==> close[(m.goalRow, m.goalCol)] < |closed|
      ensures pathfound ==>
                result.pathlength == closed[close[(m.goalRow, m.goalCol)]].g
                && hppath == Chain(closed, close[(m.goalRow, m.goalCol)])
                && lppath == CellPath(hppath)
      ensures result.hppath == hppath && result.lppath == lppath
    {
      var pathlength := 0.0;
      if pathfound {
        CloseMapKeys(closed);
        var goalIndex := close[(currentGoalI, currentGoalJ)];
        pathlength := closed[goalIndex].g;
        MakePaths(goalIndex);
      }
      result := SearchResult(pathfound, |close| + openSize, |close|, pathlength, hppath, lppath);
    }

    /**
     * One pass of `startSearch`'s loop on the `findMin` node: move it to the
     * closed set; if it is the goal, report so; otherwise add its
     * successors to the open list.
     */
    method ExpandMin(curNode: Node, m: GridMap, options: Options) returns (goalClosed: bool, ghost k: nat)
      requires Valid(m) && curNode in Flatten(open)
      requires currentGoalI == m.goalRow && currentGoalJ == m.goalCol
      modifies this`open, this`openSize, this`close, this`closed
      ensures Valid(m)
      ensures CellOf(curNode) !in old(close) && CellOf(curNode) in GridCells(m.height, m.width)
      ensures close == old(close)[CellOf(curNode) := |old(closed)|] && closed == old(closed) + [curNode]
      ensures goalClosed <==> CellOf(curNode) == (m.goalRow, m.goalCol)
      ensures 0 <= curNode.i < |old(open)| && k < |old(open)[curNode.i]| && old(open)[curNode.i][k] == curNode
      ensures goalClosed ==>
                openSize == old(openSize) - 1 && open == old(open)[curNode.i := RemoveAt(old(open)[curNode.i], k)]
      ensures !goalClosed ==>
                open == AddAll(old(open)[curNode.i := RemoveAt(old(open)[curNode.i], k)], close, breakingties,
                               PrepareAll(Scorer(), closed, |old(closed)|,
                                          Successors(m, curNode, options, close.Keys, sqrtTwo), m, options))
    {
      k := MoveToClosed(curNode, m);
      if curNode.i == currentGoalI && curNode.j == currentGoalJ {
        return true, k;
      }
      var successors := ExpandSuccessors(close[(curNode.i, curNode.j)], curNode, m, options);
      return false, k;
    }

    /**
     * The non-goal end of one loop pass: find the successors of the
     * just-closed node curNode (arena index parentIndex) and `addOpen` each
     * of them, Prepared with curNode as parent.
     */
    method ExpandSuccessors(parentIndex: nat, curNode: Node, m: GridMap, options: Options) returns (successors: seq<Node>)
      requires Valid(m) && parentIndex == |closed| - 1 && closed[parentIndex] == curNode
      modifies this`open, this`openSize
      ensures Valid(m) && m.CellOnGrid(curNode.i, curNode.j)
      ensures successors == Successors(m, curNode, options, close.Keys, sqrtTwo)
      ensures open == AddAll(old(open), close, breakingties, PrepareAll(Scorer(), closed, parentIndex, successors, m, options))
    {
      assert m.CellOnGrid(curNode.i, curNode.j) by {
        assert closed[parentIndex] == curNode;
      }
      successors := FindSuccessors(curNode, m, options);
      SuccessorsOnGrid(m, curNode, options, close.Keys, sqrtTwo);
      AddSuccessors(parentIndex, successors, m, options);
    }

    /**
     * The removal step of `startSearch`'s loop: erase the `findMin` node
     * (matched on cell, F and g) from its bucket, decrement `openSize` and
     * close it under the next arena index. The node is always found, so the
     * source's fallback for a missing entry is never taken.
     */
    method MoveToClosed(curNode: Node, ghost m: GridMap) returns (ghost k: nat)
      requires Valid(m) && curNode in Flatten(open)
      modifies this`open, this`openSize, this`close, this`closed
      ensures Valid(m)
      ensures CellOf(curNode) !in old(close) && CellOf(curNode) in GridCells(m.height, m.width)
      ensures close == old(close)[CellOf(curNode) := |old(closed)|] && closed == old(closed) + [curNode]
      ensures openSize == old(openSize) - 1
      ensures 0 <= curNode.i < |old(open)| && k < |old(open)[curNode.i]| && old(open)[curNode.i][k] == curNode
      ensures open == old(open)[curNode.i := RemoveAt(old(open)[curNode.i], k)]
    {
      FlattenMembers(open, curNode);
      assert curNode in open[curNode.i];
      var rowList := open[curNode.i];
      var it := EntryIndex(rowList, curNode);
      assert it < |rowList| && rowList[it] == curNode by {
        var t :| 0 <= t < |rowList| && rowList[t] == curNode;
        assert SameEntry(rowList[t], curNode);
        assert it <= t;
      }
      ghost var open0, size0, close0, closed0 := open, openSize, close, closed;
      open := open[curNode.i := RemoveAt(rowList, it)];
      openSize := openSize - 1;
      close := close[(curNode.i, curNode.j) := |closed|];
      closed := closed + [curNode];
      CloseKeepsValid(m, open0, size0, breakingties, close0, closed0, curNode, it, open, openSize, close, closed);
      k := it;
    }

    /**
     * The successor step of `startSearch`'s loop: `addOpen` each successor
     * in turn, Prepared (parent set to the just-closed node at parentIndex,
     * `resetParent` applied, H and F computed). The new open list is the
     * fold AddAll of those nodes over the old one.
     */
    method AddSuccessors(parentIndex: nat, successors: seq<Node>, m: GridMap, options: Options)
      requires Valid(m) && parentIndex < |closed|
      requires forall k :: 0 <= k < |successors| ==> 0 <= successors[k].i < m.height && 0 <= successors[k].j < m.width
      modifies this`open, this`openSize
      ensures Valid(m)
      ensures open == AddAll(old(open), close, breakingties, PrepareAll(Scorer(), closed, parentIndex, successors, m, options))
    {
      assert closed[parentIndex].parent.Some? ==> closed[parentIndex].parent.value < |closed|;
      ghost var prepared := PrepareAll(Scorer(), closed, parentIndex, successors, m, options);
      for t := 0 to |successors|
        invariant Valid(m)
        invariant open == AddAll(old(open), close, breakingties, prepared[..t])
      {
        AddSuccessor(parentIndex, successors[t], old(open), prepared, t, m, options);
      }
      assert prepared[..|successors|] == prepared;
    }

    /**
     * One pass of the successor loop: `addOpen` of the successor x,
     * Prepared; the fold over the nodes added so far grows by that node.
     */
    method AddSuccessor(parentIndex: nat, x: Node, ghost open0: seq<seq<Node>>, ghost prepared: seq<Node>, ghost t: nat,
                        m: GridMap, options: Options)
      requires Valid(m) && parentIndex < |closed|
      requires closed[parentIndex].parent.Some? ==> closed[parentIndex].parent.value < |closed|
      requires 0 <= x.i < m.height && 0 <= x.j < m.width
      requires t < |prepared| && prepared[t] == Prepared(Scorer(), closed, parentIndex, x, m, options)
      requires open == AddAll(open0, close, breakingties, prepared[..t])
      modifies this`open, this`openSize
      ensures Valid(m)
      ensures open == AddOne(old(open), close, breakingties, Prepared(Scorer(), closed, parentIndex, x, m, options))
      ensures open == AddAll(open0, close, breakingties, prepared[..t + 1])
    {
      var updated := Prepared(Scorer(), closed, parentIndex, x, m, options);
      AddOpen(updated, m);
      assert prepared[..t + 1][..t] == prepared[..t];
    }

    /** `findSuccessors`: the admissible neighbours of curNode, in the order of the two nested offset loops. */
    method FindSuccessors(curNode: Node, m: GridMap, options: Options) returns (successors: seq<Node>)
      requires m.Shaped() && m.CellOnGrid(curNode.i, curNode.j)
      ensures successors == Successors(m, curNode, options, close.Keys, sqrtTwo)
    {
      successors := [];
      for di := -1 to 2
        invariant successors == SuccessorsUpTo(m, curNode, options, close.Keys, sqrtTwo, 3 * (di + 1))
      {
        for dj := -1 to 2
          invariant successors == SuccessorsUpTo(m, curNode, options, close.Keys, sqrtTwo, 3 * (di + 1) + (dj + 1))
        {
          SuccessorsStep(m, curNode, options, close.Keys, sqrtTwo, di, dj);
          var successor := TryNeighbour(curNode, di, dj, m, options);
          if successor.Some? {
            successors := successors + [successor.value];
          }
        }
      }
    }

    /**
     * The body of `findSuccessors`' inner loop for offset (di, dj): the
     * successor node when the neighbour is admissible, None where the
     * source skips it (`continue` or a failed test).
     */
    method TryNeighbour(curNode: Node, di: int, dj: int, m: GridMap, options: Options) returns (successor: Option<Node>)
      requires m.Shaped() && m.CellOnGrid(curNode.i, curNode.j)
      ensures successor.Some? <==> Admissible(m, curNode, di, dj, options, close.Keys)
      ensures successor.Some? ==> successor.value == SuccessorAt(curNode, di, dj, sqrtTwo)
    {
      if di == 0 && dj == 0 {
        return None;
      }
      var ni, nj := curNode.i + di, curNode.j + dj;
      if m.CellOnGrid(ni, nj) && !m.Obstacle(ni, nj) {
        var isDiagonal := di != 0 && dj != 0;
        if isDiagonal {
          if !options.allowDiagonal {
            return None;
          }
          if !options.cutCorners {
            if m.Obstacle(curNode.i, nj) || m.Obstacle(ni, curNode.j) {
              return None;
            }
          }
        }
        if (ni, nj) !in close {
          return Some(Node(ni, nj, curNode.g + (if isDiagonal then sqrtTwo else 1.0), 0.0, 0.0, None));
        }
      }
      return None;
    }

    /**
     * The path step of `startSearch` once the goal is closed:
     * `makePrimaryPath` on the closed goal node, then `makeSecondaryPath`.
     */
    method MakePaths(goalIndex: nat)
      requires ParentsEarlier(closed) && goalIndex < |closed|
      modifies this`hppath, this`lppath
      ensures hppath == Chain(closed, goalIndex) && lppath == CellPath(hppath)
    {
      MakePrimaryPath(closed[goalIndex]);
      MakeSecondaryPath();
    }

    /**
     * `makePrimaryPath`: follows parent links from curNode back to the root
     * and stores the chain root first, curNode last.
     */
    method MakePrimaryPath(curNode: Node)
      requires ParentsEarlier(closed) && (curNode.parent.Some? ==> curNode.parent.value < |closed|)
      modifies this`hppath
      ensures hppath == ChainFrom(closed, curNode)
    {
      hppath := [];
      var current := curNode;
      while current.parent.Some?
        invariant current.parent.Some? ==> current.parent.value < |closed|
        invariant ChainFrom(closed, current) + hppath == ChainFrom(closed, curNode)
        decreases if current.parent.Some? then current.parent.value + 1 else 0
      {
        hppath := [current] + hppath;
        current := closed[current.parent.value];
      }
      hppath := [current] + hppath;
    }

    /**
     * `makeSecondaryPath`: the first waypoint, then for each later waypoint
     * the cells of the integer walk toward it (none for a repeated waypoint).
     */
    method MakeSecondaryPath()
      modifies this`lppath
      ensures lppath == CellPath(hppath)
    {
      lppath := [];
      var hp := hppath;
      if hp == [] {
        return;
      }
      var prevNode := hp[0];
      lppath := lppath + [prevNode];
      var it := 1;
      while it < |hp|
        invariant 1 <= it <= |hp| && prevNode == hp[it - 1]
        invariant lppath == CellPath(hp[..it])
      {
        var curNode := hp[it];
        CellPathSnoc(hp, it);
        if CellOf(prevNode) != CellOf(curNode) {
          AppendLeg(prevNode, curNode);
        }
        prevNode := curNode;
        it := it + 1;
      }
      assert hp[..it] == hp;
    }

    /**
     * The body of `makeSecondaryPath`'s waypoint loop for two distinct
     * waypoints: append every cell of the leg from prevNode to curNode.
     */
    method AppendLeg(prevNode: Node, curNode: Node)
      requires CellOf(prevNode) != CellOf(curNode)
      modifies this`lppath
      ensures lppath == old(lppath) + Leg(prevNode, curNode)
    {
      var leg := WalkLeg(prevNode, curNode);
      lppath := lppath + leg;
    }

    /**
     * The Bresenham walk of `makeSecondaryPath` from prevNode toward curNode
     * along the axis with the larger delta, collecting every cell reached.
     */
    method WalkLeg(prevNode: Node, curNode: Node) returns (leg: seq<Node>)
      requires CellOf(prevNode) != CellOf(curNode)
      ensures leg == Leg(prevNode, curNode)
    {
      var i1, j1, i2, j2 := prevNode.i, prevNode.j, curNode.i, curNode.j;
      if Abs(i1 - i2) > Abs(j1 - j2) {
        leg := WalkRows(i1, j1, i2, j2);
      } else {
        leg := WalkColumns(i1, j1, i2, j2);
      }
      LegPrefixFull(prevNode, curNode);
    }

    /** The walk when the row delta is the larger: one row step per cell. */
    method WalkRows(i1: int, j1: int, i2: int, j2: int) returns (leg: seq<Node>)
      requires Abs(i1 - i2) > Abs(j1 - j2)
      ensures leg == LegPrefix(i1, j1, i2, j2, Abs(i1 - i2))
    {
      var deltaI: int, deltaJ: int := Abs(i1 - i2), Abs(j1 - j2);
      var stepI, stepJ := Step(i1, i2), Step(j1, j2);
      var currentI, currentJ := i1, j1;
      var error := 2 * deltaJ - deltaI;
      leg := [];
      ghost var k := 0;
      while currentI != i2
        invariant 0 <= k <= deltaI && currentI == Toward(i1, i2, k)
        invariant (currentI, currentJ) == CellAt(i1, j1, i2, j2, k)
        invariant error == WalkAt(deltaI, deltaJ, k).error
        invariant leg == LegPrefix(i1, j1, i2, j2, k)
        decreases deltaI - k
      {
        CellAtStep(i1, j1, i2, j2, k);
        LegPrefixSnoc(i1, j1, i2, j2, k);
        currentI := currentI + stepI;
        if error >= 0 {
          currentJ := currentJ + stepJ;
          error := error - 2 * deltaI;
        }
        error := error + 2 * deltaJ;
        leg := leg + [InPath((currentI, currentJ))];
        k := k + 1;
      }
    }

    /** The walk when the column delta is at least the row delta: one column step per cell. */
    method WalkColumns(i1: int, j1: int, i2: int, j2: int) returns (leg: seq<Node>)
      requires Abs(i1 - i2) <= Abs(j1 - j2)
      ensures leg == LegPrefix(i1, j1, i2, j2, Abs(j1 - j2))
    {
      var deltaI: int, deltaJ: int := Abs(i1 - i2), Abs(j1 - j2);
      var stepI, stepJ := Step(i1, i2), Step(j1, j2);
      var currentI, currentJ := i1, j1;
      var error := 2 * deltaI - deltaJ;
      leg := [];
      ghost var k := 0;
      while currentJ != j2
        invariant 0 <= k <= deltaJ && currentJ == Toward(j1, j2, k)
        invariant (currentI, currentJ) == CellAt(i1, j1, i2, j2, k)
        invariant error == WalkAt(deltaJ, deltaI, k).error
        invariant leg == LegPrefix(i1, j1, i2, j2, k)
        decreases deltaJ - k
      {
        CellAtStep(i1, j1, i2, j2, k);
        LegPrefixSnoc(i1, j1, i2, j2, k);
        currentJ := currentJ + stepJ;
        if error >= 0 {
          currentI := currentI + stepI;
          error := error - 2 * deltaJ;
        }
        error := error + 2 * deltaI;
        leg := leg + [InPath((currentI, currentJ))];
        k := k + 1;
      }
    }
  }
}
