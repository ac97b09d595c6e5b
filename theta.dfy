/**
 * The any-angle extension of theta.cpp: the Bresenham line-of-sight test
 * and the Theta* re-parenting of a successor to its grandparent.
 */
module Theta {
  import opened Wrappers
  import opened GridMaps
  import opened Bresenham
  import opened Nodes

  /** On the grid and not an obstacle. */
  predicate Free(m: GridMap, c: Cell)
    requires m.Shaped()
  {
    m.CellOnGrid(c.0, c.1) && !m.Obstacle(c.0, c.1)
  }

  /** On the grid and an obstacle. */
  predicate Blocked(m: GridMap, c: Cell)
    requires m.Shaped()
  {
    m.CellOnGrid(c.0, c.1) && m.Obstacle(c.0, c.1)
  }

  /**
   * Both cells a step leaving cell k of the walk would squeeze between:
   * one unit along rows and one unit along columns from cell k.
   */
  predicate CornersBlocked(m: GridMap, i1: int, j1: int, i2: int, j2: int, k: nat)
    requires m.Shaped()
  {
    var c := CellAt(i1, j1, i2, j2, k);
    Blocked(m, (c.0 + Step(i1, i2), c.1)) && Blocked(m, (c.0, c.1 + Step(j1, j2)))
  }

  /**
   * Visibility between two cells: both endpoints free, every intermediate
   * cell of the walk free, and, when corners may not be cut, no step that
   * moves both coordinates squeezes between two obstacles.
   */
  predicate Visible(m: GridMap, i1: int, j1: int, i2: int, j2: int, cutCorners: bool)
    requires m.Shaped()
  {
    Free(m, (i1, j1)) && Free(m, (i2, j2))
    && (forall k :: 1 <= k < Major(i1, j1, i2, j2) ==> Free(m, CellAt(i1, j1, i2, j2, k)))
    && (!cutCorners ==>
          forall k :: 0 <= k < Major(i1, j1, i2, j2) && MinorStepAt(i1, j1, i2, j2, k) ==>
            !CornersBlocked(m, i1, j1, i2, j2, k))
  }

  /** Cells of the walk and the cells beside a diagonal step all lie in the endpoints' bounding box, hence on the grid. */
  lemma WalkOnGrid(m: GridMap, i1: int, j1: int, i2: int, j2: int, k: nat)
    requires m.Shaped() && m.CellOnGrid(i1, j1) && m.CellOnGrid(i2, j2)
    requires k <= Major(i1, j1, i2, j2)
    ensures var c := CellAt(i1, j1, i2, j2, k); m.CellOnGrid(c.0, c.1)
    ensures k < Major(i1, j1, i2, j2) && MinorStepAt(i1, j1, i2, j2, k) ==>
              var c := CellAt(i1, j1, i2, j2, k);
              m.CellOnGrid(c.0 + Step(i1, i2), c.1) && m.CellOnGrid(c.0, c.1 + Step(j1, j2))
  {
    CellAtInBox(i1, j1, i2, j2, k);
    if k < Major(i1, j1, i2, j2) && MinorStepAt(i1, j1, i2, j2, k) {
      CellAtInBox(i1, j1, i2, j2, k + 1);
      var di, dj := Abs(i1 - i2), Abs(j1 - j2);
      if di > dj { WalkStep(di, dj, k); } else { WalkStep(dj, di, k); }
    }
  }

  /** A straight segment never moves its minor coordinate, so no corner check applies. */
  lemma StraightNoMinorStep(i1: int, j1: int, i2: int, j2: int, k: nat)
    requires i1 == i2 || j1 == j2
    requires (i1, j1) != (i2, j2)
    ensures !MinorStepAt(i1, j1, i2, j2, k)
    ensures i1 == i2 ==> CellAt(i1, j1, i2, j2, k) == (i1, Toward(j1, j2, k))
    ensures j1 == j2 ==> CellAt(i1, j1, i2, j2, k) == (Toward(i1, i2, k), j1)
  {
    var di, dj := Abs(i1 - i2), Abs(j1 - j2);
    if di > dj {
      WalkBounds(di, dj, k);
      WalkMinorBound0(di, k);
    } else {
      WalkBounds(dj, di, k);
      WalkMinorBound0(dj, k);
    }
  }

  lemma {:induction false} WalkMinorBound0(dM: nat, k: nat)
    requires 0 < dM
    ensures WalkAt(dM, 0, k).minor == 0
  {
    if k > 0 {
      WalkMinorBound0(dM, k - 1);
      WalkBounds(dM, 0, k - 1);
    }
  }

  /**
   * `Theta::lineOfSight`: checks bounds before any obstacle query (so it
   * never throws), then walks the segment as the source does; each walk is
   * one of the helper methods below.
   */
  method LineOfSight(i1: int, j1: int, i2: int, j2: int, m: GridMap, cutCorners: bool)
    returns (visible: bool)
    requires m.Shaped()
    ensures visible == Visible(m, i1, j1, i2, j2, cutCorners)
  {
    if !m.CellOnGrid(i1, j1) { return false; }
    if !m.CellOnGrid(i2, j2) { return false; }
    if m.Obstacle(i1, j1) { return false; }
    if m.Obstacle(i2, j2) { return false; }
    if i1 == i2 && j1 == j2 { return true; }

    if i1 == i2 || j1 == j2 {
      visible := StraightLineOfSight(i1, j1, i2, j2, m, cutCorners);
    } else if cutCorners {
      visible := CuttingLineOfSight(i1, j1, i2, j2, m);
    } else {
      visible := NonCuttingLineOfSight(i1, j1, i2, j2, m);
    }
  }

  /** Endpoints that `lineOfSight` has found on the grid, free and distinct. */
  predicate WalkEnds(m: GridMap, i1: int, j1: int, i2: int, j2: int)
    requires m.Shaped()
  {
    Free(m, (i1, j1)) && Free(m, (i2, j2)) && (i1, j1) != (i2, j2)
  }

  /** The row (delta_i == 0) and column (delta_j == 0) walks of `lineOfSight`: the cells strictly between. */
  method StraightLineOfSight(i1: int, j1: int, i2: int, j2: int, m: GridMap, cutCorners: bool)
    returns (visible: bool)
    requires m.Shaped() && WalkEnds(m, i1, j1, i2, j2) && (i1 == i2 || j1 == j2)
    ensures visible == Visible(m, i1, j1, i2, j2, cutCorners)
  {
    var stepI, stepJ := Step(i1, i2), Step(j1, j2);
    var currentI, currentJ := i1, j1;
    ghost var major := Major(i1, j1, i2, j2);
    forall t | 0 <= t < major ensures !MinorStepAt(i1, j1, i2, j2, t) {
      StraightNoMinorStep(i1, j1, i2, j2, t);
    }
    ghost var k := 0;
    if i1 == i2 {
      while currentJ != j2 - stepJ
        invariant 0 <= k < major && currentJ == Toward(j1, j2, k) && currentI == i1
        invariant forall t :: 1 <= t <= k ==> Free(m, CellAt(i1, j1, i2, j2, t))
        decreases major - k
      {
        currentJ := currentJ + stepJ;
        k := k + 1;
        StraightNoMinorStep(i1, j1, i2, j2, k);
        WalkOnGrid(m, i1, j1, i2, j2, k);
        if m.Obstacle(currentI, currentJ) { return false; }
      }
    } else {
      while currentI != i2 - stepI
        invariant 0 <= k < major && currentI == Toward(i1, i2, k) && currentJ == j1
        invariant forall t :: 1 <= t <= k ==> Free(m, CellAt(i1, j1, i2, j2, t))
        decreases major - k
      {
        currentI := currentI + stepI;
        k := k + 1;
        StraightNoMinorStep(i1, j1, i2, j2, k);
        WalkOnGrid(m, i1, j1, i2, j2, k);
        if m.Obstacle(currentI, currentJ) { return false; }
      }
    }
    return true;
  }

  /** The general walk with corner cutting allowed: the major-delta - 1 intermediate cells. */
  method CuttingLineOfSight(i1: int, j1: int, i2: int, j2: int, m: GridMap)
    returns (visible: bool)
    requires m.Shaped() && WalkEnds(m, i1, j1, i2, j2) && i1 != i2 && j1 != j2
    ensures visible == Visible(m, i1, j1, i2, j2, true)
  {
    if Abs(i1 - i2) > Abs(j1 - j2) {
      visible := CuttingRows(i1, j1, i2, j2, m);
    } else {
      visible := CuttingColumns(i1, j1, i2, j2, m);
    }
  }

  /** The corner-cutting walk when rows are the major axis. */
  method CuttingRows(i1: int, j1: int, i2: int, j2: int, m: GridMap)
    returns (visible: bool)
    requires m.Shaped() && WalkEnds(m, i1, j1, i2, j2) && Abs(i1 - i2) > Abs(j1 - j2)
    ensures visible == Visible(m, i1, j1, i2, j2, true)
  {
    var deltaI: int, deltaJ: int := Abs(i1 - i2), Abs(j1 - j2);
    var stepI, stepJ := Step(i1, i2), Step(j1, j2);
    var currentI, currentJ := i1, j1;
    var error := 2 * deltaJ - deltaI;
    for k := 0 to deltaI - 1
      invariant (currentI, currentJ) == CellAt(i1, j1, i2, j2, k)
      invariant error == WalkAt(deltaI, deltaJ, k).error
      invariant forall t :: 1 <= t <= k ==> Free(m, CellAt(i1, j1, i2, j2, t))
    {
      currentI := currentI + stepI;
      if error >= 0 {
        currentJ := currentJ + stepJ;
        error := error - 2 * deltaI;
      }
      error := error + 2 * deltaJ;
      WalkOnGrid(m, i1, j1, i2, j2, k + 1);
      if m.Obstacle(currentI, currentJ) { return false; }
    }
    return true;
  }

  /** The corner-cutting walk when columns are the major axis (or the deltas tie). */
  method CuttingColumns(i1: int, j1: int, i2: int, j2: int, m: GridMap)
    returns (visible: bool)
    requires m.Shaped() && WalkEnds(m, i1, j1, i2, j2) && Abs(i1 - i2) <= Abs(j1 - j2) && j1 != j2
    ensures visible == Visible(m, i1, j1, i2, j2, true)
  {
    var deltaI: int, deltaJ: int := Abs(i1 - i2), Abs(j1 - j2);
    var stepI, stepJ := Step(i1, i2), Step(j1, j2);
    var currentI, currentJ := i1, j1;
    var error := 2 * deltaI - deltaJ;
    for k := 0 to deltaJ - 1
      invariant (currentI, currentJ) == CellAt(i1, j1, i2, j2, k)
      invariant error == WalkAt(deltaJ, deltaI, k).error
      invariant forall t :: 1 <= t <= k ==> Free(m, CellAt(i1, j1, i2, j2, t))
    {
      currentJ := currentJ + stepJ;
      if error >= 0 {
        currentI := currentI + stepI;
        error := error - 2 * deltaJ;
      }
      error := error + 2 * deltaI;
      WalkOnGrid(m, i1, j1, i2, j2, k + 1);
      if m.Obstacle(currentI, currentJ) { return false; }
    }
    return true;
  }

  /**
   * The general walk without corner cutting: the same intermediate cells,
   * and before each step that moves both coordinates the two cells beside it.
   */
  method NonCuttingLineOfSight(i1: int, j1: int, i2: int, j2: int, m: GridMap)
    returns (visible: bool)
    requires m.Shaped() && WalkEnds(m, i1, j1, i2, j2) && i1 != i2 && j1 != j2
    ensures visible == Visible(m, i1, j1, i2, j2, false)
  {
    var deltaI: int, deltaJ: int := Abs(i1 - i2), Abs(j1 - j2);
    if deltaI > deltaJ {
      visible := NonCuttingRows(i1, j1, i2, j2, m);
    } else {
      visible := NonCuttingColumns(i1, j1, i2, j2, m);
    }
  }

  /** theta.cpp lines 76-93: rows are the major axis. */
  method NonCuttingRows(i1: int, j1: int, i2: int, j2: int, m: GridMap)
    returns (visible: bool)
    requires m.Shaped() && WalkEnds(m, i1, j1, i2, j2) && Abs(i1 - i2) > Abs(j1 - j2)
    ensures visible == Visible(m, i1, j1, i2, j2, false)
  {
    var deltaI: int, deltaJ: int := Abs(i1 - i2), Abs(j1 - j2);
    var stepI, stepJ := Step(i1, i2), Step(j1, j2);
    var currentI, currentJ := i1, j1;
    var error := 2 * deltaJ - deltaI;
    for k := 0 to deltaI
      invariant (currentI, currentJ) == CellAt(i1, j1, i2, j2, k)
      invariant error == WalkAt(deltaI, deltaJ, k).error
      invariant forall t :: 1 <= t < k ==> Free(m, CellAt(i1, j1, i2, j2, t))
      invariant forall t :: 0 <= t < k && MinorStepAt(i1, j1, i2, j2, t) ==>
                  !CornersBlocked(m, i1, j1, i2, j2, t)
    {
      WalkOnGrid(m, i1, j1, i2, j2, k);
      if k > 0 && m.Obstacle(currentI, currentJ) { return false; }
      if error >= 0 {
        if m.Obstacle(currentI + stepI, currentJ) && m.Obstacle(currentI, currentJ + stepJ) {
          assert MinorStepAt(i1, j1, i2, j2, k) && CornersBlocked(m, i1, j1, i2, j2, k);
          return false;
        }
        currentJ := currentJ + stepJ;
        error := error - 2 * deltaI;
      }
      error := error + 2 * deltaJ;
      if k < deltaI { currentI := currentI + stepI; }
    }
    return true;
  }

  /** theta.cpp lines 95-109: columns are the major axis. */
  method NonCuttingColumns(i1: int, j1: int, i2: int, j2: int, m: GridMap)
    returns (visible: bool)
    requires m.Shaped() && WalkEnds(m, i1, j1, i2, j2) && Abs(i1 - i2) <= Abs(j1 - j2)
    ensures visible == Visible(m, i1, j1, i2, j2, false)
  {
    var deltaI: int, deltaJ: int := Abs(i1 - i2), Abs(j1 - j2);
    var stepI, stepJ := Step(i1, i2), Step(j1, j2);
    var currentI, currentJ := i1, j1;
    var error := 2 * deltaI - deltaJ;
    for k := 0 to deltaJ
      invariant (currentI, currentJ) == CellAt(i1, j1, i2, j2, k)
      invariant error == WalkAt(deltaJ, deltaI, k).error
      invariant forall t :: 1 <= t < k ==> Free(m, CellAt(i1, j1, i2, j2, t))
      invariant forall t :: 0 <= t < k && MinorStepAt(i1, j1, i2, j2, t) ==>
                  !CornersBlocked(m, i1, j1, i2, j2, t)
    {
      WalkOnGrid(m, i1, j1, i2, j2, k);
      if k > 0 && m.Obstacle(currentI, currentJ) { return false; }
      if error >= 0 {
        if m.Obstacle(currentI + stepI, currentJ) && m.Obstacle(currentI, currentJ + stepJ) {
          assert MinorStepAt(i1, j1, i2, j2, k) && CornersBlocked(m, i1, j1, i2, j2, k);
          return false;
        }
        currentI := currentI + stepI;
        error := error - 2 * deltaJ;
      }
      error := error + 2 * deltaI;
      if k < deltaJ { currentJ := currentJ + stepJ; }
    }
    return true;
  }

  /** Seeing a cell from itself needs only that cell to be free. */
  lemma SameCellVisible(m: GridMap, i: int, j: int, cutCorners: bool)
    requires m.Shaped()
    ensures Visible(m, i, j, i, j, cutCorners) <==> Free(m, (i, j))
  {
  }

  /** Along a row or a column, visibility is exactly: both ends and every cell strictly between free. */
  lemma StraightVisible(m: GridMap, i1: int, j1: int, i2: int, j2: int, cutCorners: bool)
    requires m.Shaped() && (i1 == i2 || j1 == j2)
    ensures Visible(m, i1, j1, i2, j2, cutCorners) <==>
      Free(m, (i1, j1)) && Free(m, (i2, j2))
      && (i1 == i2 ==> forall t :: 1 <= t < Abs(j1 - j2) ==> Free(m, (i1, Toward(j1, j2, t))))
      && (j1 == j2 ==> forall t :: 1 <= t < Abs(i1 - i2) ==> Free(m, (Toward(i1, i2, t), j1)))
  {
    if (i1, j1) != (i2, j2) {
      forall t: nat ensures !MinorStepAt(i1, j1, i2, j2, t)
        && (i1 == i2 ==> CellAt(i1, j1, i2, j2, t) == (i1, Toward(j1, j2, t)))
        && (j1 == j2 ==> CellAt(i1, j1, i2, j2, t) == (Toward(i1, i2, t), j1))
      {
        StraightNoMinorStep(i1, j1, i2, j2, t);
      }
    }
  }

  /** Forbidding corner cutting only removes visibility, never adds it. */
  lemma NoCutImpliesCut(m: GridMap, i1: int, j1: int, i2: int, j2: int)
    requires m.Shaped()
    ensures Visible(m, i1, j1, i2, j2, false) ==> Visible(m, i1, j1, i2, j2, true)
  {
  }

  /**
   * `Theta::resetParent`: when the node being expanded (`parent`) has a
   * parent of its own and that grandparent sees `current`, `current` is
   * re-parented to the grandparent with g = grandparent.g + distance;
   * otherwise `current` is returned unchanged.
   */
  function ResetParent(current: Node, parent: Node, arena: seq<Node>, m: GridMap,
                       cutCorners: bool, distance: (int, int, int, int) -> real): (r: Node)
    requires m.Shaped()
    requires parent.parent.Some? ==> parent.parent.value < |arena|
    ensures CellOf(r) == CellOf(current) && r.H == current.H && r.F == current.F
    ensures r.parent == current.parent || r.parent == parent.parent
    ensures parent.parent.None? ==> r == current
    ensures parent.parent.Some? ==>
      var gp := arena[parent.parent.value];
      if Visible(m, gp.i, gp.j, current.i, current.j, cutCorners)
      then r.parent == parent.parent && r.g == gp.g + distance(gp.i, gp.j, current.i, current.j)
      else r == current
  {
    if parent.parent.None? then current
    else
      var gp := arena[parent.parent.value];
      if Visible(m, gp.i, gp.j, current.i, current.j, cutCorners)
      then current.(g := gp.g + distance(gp.i, gp.j, current.i, current.j), parent := parent.parent)
      else current
  }
}
