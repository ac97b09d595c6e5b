/**
 * The immutable occupancy grid `pure_theta_star::GridMap` of map_types.h:
 * a rectangular grid of integers where exactly the value 100 marks an
 * obstacle, together with a start and a goal cell that construction checks.
 */
module GridMaps {
  import opened Wrappers

  /** The cell value that marks an obstacle; every other value is free. */
  const ObstacleValue: int := 100

  /** Why construction failed: the first two are `std::out_of_range`, the last two `std::runtime_error`. */
  datatype MapError = StartOffGrid | GoalOffGrid | StartOnObstacle | GoalOnObstacle
  {
    predicate IsOutOfRange() { StartOffGrid? || GoalOffGrid? }
  }

  /** The `std::out_of_range` thrown by an obstacle query off the grid. */
  datatype OutOfRange = OutOfRange

  /** Every row has the length of row 0. */
  predicate Rectangular(data: seq<seq<int>>)
  {
    forall r :: 0 <= r < |data| ==> |data[r]| == |data[0]|
  }

  /** Height of a grid: its number of rows. */
  function HeightOf(data: seq<seq<int>>): int { |data| }

  /** Width of a grid: the length of row 0, or 0 for an empty grid. */
  function WidthOf(data: seq<seq<int>>): int { if |data| == 0 then 0 else |data[0]| }

  /**
   * The fields of a GridMap; the C++ getters getHeight() ... getGoalCol()
   * are the datatype's destructors.
   */
  datatype GridMap = GridMap(data: seq<seq<int>>, height: int, width: int,
                             startRow: int, startCol: int, goalRow: int, goalCol: int)
  {
    /** The grid's dimensions agree with its data. */
    predicate Shaped()
    {
      height == |data| && width == WidthOf(data) && Rectangular(data)
    }

    /** `CellOnGrid`: the bounds test; on a shaped map, exactly the cells the data can be indexed at. */
    predicate CellOnGrid(r: int, c: int)
      ensures Shaped() ==> (CellOnGrid(r, c) <==> 0 <= r < |data| && 0 <= c < |data[r]|)
    {
      0 <= r < height && 0 <= c < width
    }

    /** The obstacle test on a cell known to be on the grid. */
    predicate Obstacle(r: int, c: int)
      requires Shaped() && CellOnGrid(r, c)
    {
      data[r][c] == ObstacleValue
    }

    /** `CellIsObstacle`: throws off the grid, otherwise compares with 100. */
    function CellIsObstacle(r: int, c: int): (res: Result<bool, OutOfRange>)
      requires Shaped()
      ensures res.Failure? <==> !(0 <= r < |data| && 0 <= c < WidthOf(data))
      ensures res.Success? ==> (res.value <==> data[r][c] == 100)
    {
      if !CellOnGrid(r, c) then Failure(OutOfRange) else Success(Obstacle(r, c))
    }

    /** What a successfully constructed map guarantees. */
    predicate Valid()
    {
      Shaped()
      && CellOnGrid(startRow, startCol) && CellOnGrid(goalRow, goalCol)
      && !Obstacle(startRow, startCol) && !Obstacle(goalRow, goalCol)
    }
  }

  /** The GridMap constructor: records its arguments, then validates start and goal in a fixed order. */
  function NewGridMap(data: seq<seq<int>>, startRow: int, startCol: int,
                      goalRow: int, goalCol: int): (res: Result<GridMap, MapError>)
    requires Rectangular(data)
    ensures res.Success? ==> res.value.Valid()
    ensures res.Success? ==>
      res.value.data == data && res.value.height == |data| && res.value.width == WidthOf(data)
      && res.value.startRow == startRow && res.value.startCol == startCol
      && res.value.goalRow == goalRow && res.value.goalCol == goalCol
    ensures res == Failure(StartOffGrid) <==>
      !(0 <= startRow < |data| && 0 <= startCol < WidthOf(data))
    ensures res == Failure(GoalOffGrid) <==>
      (0 <= startRow < |data| && 0 <= startCol < WidthOf(data))
      && !(0 <= goalRow < |data| && 0 <= goalCol < WidthOf(data))
    ensures res == Failure(StartOnObstacle) <==>
      (0 <= startRow < |data| && 0 <= startCol < WidthOf(data))
      && (0 <= goalRow < |data| && 0 <= goalCol < WidthOf(data))
      && data[startRow][startCol] == 100
    ensures res == Failure(GoalOnObstacle) <==>
      (0 <= startRow < |data| && 0 <= startCol < WidthOf(data))
      && (0 <= goalRow < |data| && 0 <= goalCol < WidthOf(data))
      && data[startRow][startCol] != 100 && data[goalRow][goalCol] == 100
  {
    var m := GridMap(data, HeightOf(data), WidthOf(data), startRow, startCol, goalRow, goalCol);
    if !m.CellOnGrid(startRow, startCol) then Failure(StartOffGrid)
    else if !m.CellOnGrid(goalRow, goalCol) then Failure(GoalOffGrid)
    else if m.CellIsObstacle(startRow, startCol) == Success(true) then Failure(StartOnObstacle)
    else if m.CellIsObstacle(goalRow, goalCol) == Success(true) then Failure(GoalOnObstacle)
    else Success(m)
  }

  /** An empty grid is 0 x 0, so no start cell can lie on it and construction fails. */
  lemma EmptyGridRejected(startRow: int, startCol: int, goalRow: int, goalCol: int)
    ensures NewGridMap([], startRow, startCol, goalRow, goalCol) == Failure(StartOffGrid)
  {
  }
}
