/**
 * The legacy occupancy map `Map` of src/map.cpp: a row-major grid of
 * integers copied in from nested vectors, where only the value
 * CN_GC_NOOBS (0) is traversable and every other value is an obstacle,
 * with start and goal cells given as (x, y) and stored as (row, column).
 */
module LegacyMaps {

  /** CN_GC_NOOBS: the value of a traversable cell. */
  const NoObstacle: int := 0

  /** Every row is at least as long as row 0, so copying width values per row stays inside each row. */
  predicate RowsCoverFirst(rows: seq<seq<int>>)
    requires rows != []
  {
    forall r :: 0 <= r < |rows| ==> |rows[r]| >= |rows[0]|
  }

  /** (x, y) names column x of row y of `rows`. */
  predicate InRows(rows: seq<seq<int>>, x: int, y: int)
    requires rows != []
  {
    0 <= y < |rows| && 0 <= x < |rows[0]|
  }

  class Map {
    var height: int
    var width: int
    var startI: int
    var startJ: int
    var goalI: int
    var goalJ: int
    var cellSize: int
    var grid: array2?<int>

    /** Without a grid the map has no cells; with one, the grid has height rows of width values. */
    ghost predicate Valid()
      reads this
    {
      if grid == null then height == -1 && width == -1
      else grid.Length0 == height && grid.Length1 == width
    }

    /** The default map: no grid, every dimension and coordinate -1, cell size 1. */
    constructor ()
      ensures Valid()
      ensures height == -1 && width == -1 && grid == null && cellSize == 1
      ensures startI == -1 && startJ == -1 && goalI == -1 && goalJ == -1
    {
      height := -1;
      width := -1;
      startI := -1;
      startJ := -1;
      goalI := -1;
      goalJ := -1;
      grid := null;
      cellSize := 1;
    }

    /** `CellOnGrid`: the bounds test; on a valid map a cell on the grid is a cell of the array. */
    predicate CellOnGrid(i: int, j: int)
      reads this
      ensures CellOnGrid(i, j) && Valid() ==>
                grid != null && 0 <= i < grid.Length0 && 0 <= j < grid.Length1
    {
      i < height && i >= 0 && j < width && j >= 0
    }

    /** `CellIsTraversable`: the cell holds CN_GC_NOOBS. */
    predicate CellIsTraversable(i: int, j: int)
      requires grid != null && 0 <= i < grid.Length0 && 0 <= j < grid.Length1
      reads this, grid
      ensures Valid() ==> (CellIsTraversable(i, j) <==> GetValue(i, j) == NoObstacle)
    {
      grid[i, j] == NoObstacle
    }

    /** `CellIsObstacle`: exactly the cells that are not traversable, i.e. any non-zero value. */
    function CellIsObstacle(i: int, j: int): (b: bool)
      requires grid != null && 0 <= i < grid.Length0 && 0 <= j < grid.Length1
      reads this, grid
      ensures b <==> !CellIsTraversable(i, j)
    {
      grid[i, j] != NoObstacle
    }

    /** `getValue`: -1 off the grid, the stored value on it. */
    function GetValue(i: int, j: int): (v: int)
      requires Valid()
      reads this, grid
      ensures !CellOnGrid(i, j) ==> v == -1
      ensures CellOnGrid(i, j) ==> grid != null && v == grid[i, j]
    {
      if i < 0 || i >= height then -1
      else if j < 0 || j >= width then -1
      else grid[i, j]
    }

    /**
     * `getMap`: on an empty map or an empty first row, fail and change
     * nothing. Otherwise record the size, copy every value into a new grid,
     * store the start and goal with x and y swapped into (row, column) and
     * the cell size, then succeed exactly when both the start and the goal
     * cell are traversable. The fields stay set when that check fails.
     */
    method GetMap(rows: seq<seq<int>>, startx: int, starty: int, finishx: int, finishy: int,
                  newCellSize: int) returns (ok: bool)
      requires Valid()
      requires rows != [] && rows[0] != [] ==>
                 RowsCoverFirst(rows) && InRows(rows, startx, starty) && InRows(rows, finishx, finishy)
      modifies this
      ensures Valid()
      ensures rows == [] || rows[0] == [] ==> !ok && unchanged(this)
      ensures rows != [] && rows[0] != [] ==>
                height == |rows| && width == |rows[0]| && grid != null && fresh(grid)
                && (forall i, j :: 0 <= i < height && 0 <= j < width ==> grid[i, j] == rows[i][j])
                && startI == starty && startJ == startx && goalI == finishy && goalJ == finishx
                && cellSize == newCellSize
                && (ok <==> rows[starty][startx] == NoObstacle && rows[finishy][finishx] == NoObstacle)
    ensures rows != [] && rows[0] != [] ==>
              (forall i, j :: GetValue(i, j) == if InRows(rows, j, i) then rows[i][j] else -1)
              && (ok <==> CellIsTraversable(startI, startJ) && CellIsTraversable(goalI, goalJ))
    {
      if rows == [] || rows[0] == [] {
        return false;
      }
      height := |rows|;
      width := |rows[0]|;
      grid := CopyRows(rows, height, width);
      startI := starty;
      startJ := startx;
      goalI := finishy;
      goalJ := finishx;
      cellSize := newCellSize;
      if grid[startI, startJ] != NoObstacle {
        return false;
      }
      if grid[goalI, goalJ] != NoObstacle {
        return false;
      }
      return true;
    }

    /** The copy loops of `getMap`: a new h-by-w grid holding rows[i][j] at (i, j). */
    static method CopyRows(rows: seq<seq<int>>, h: int, w: int) returns (g: array2<int>)
      requires rows != [] && RowsCoverFirst(rows) && h == |rows| && w == |rows[0]|
      ensures fresh(g) && g.Length0 == h && g.Length1 == w
      ensures forall i, j :: 0 <= i < h && 0 <= j < w ==> g[i, j] == rows[i][j]
    {
      g := new int[h, w];
      for i := 0 to h
        invariant forall r, c :: 0 <= r < i && 0 <= c < w ==> g[r, c] == rows[r][c]
      {
        for j := 0 to w
          invariant forall r, c :: 0 <= r < i && 0 <= c < w ==> g[r, c] == rows[r][c]
          invariant forall c :: 0 <= c < j ==> g[i, c] == rows[i][c]
        {
          g[i, j] := rows[i][j];
        }
      }
    }
  }

  /** On the grid, the stored value is CN_GC_NOOBS exactly when the cell is traversable and not an obstacle. */
  lemma ValueMatchesQueries(m: Map, i: int, j: int)
    requires m.Valid() && m.CellOnGrid(i, j)
    ensures m.GetValue(i, j) == NoObstacle <==> m.CellIsTraversable(i, j)
    ensures m.GetValue(i, j) != NoObstacle <==> m.CellIsObstacle(i, j)
  {
  }
}
