/**
 * The integer Bresenham stepping used by `makeSecondaryPath` (isearch.cpp,
 * theta.cpp) and by `Theta::lineOfSight`: the segment from (i1,j1) to
 * (i2,j2) is walked one unit at a time along the major axis (rows when
 * |di| > |dj|, columns otherwise), and the error term decides when the
 * minor coordinate also moves.
 */
module Bresenham {

  /** A grid coordinate (row, column). */
  type Cell = (int, int)

  function Abs(x: int): nat { if x < 0 then -x else x }

  /** The coordinate reached from a after n unit steps toward b (step = (a < b ? 1 : -1)). */
  function Toward(a: int, b: int, n: int): int { if a < b then a + n else a - n }

  /** The unit step from a toward b, as `step_i`/`step_j` in the source. */
  function Step(a: int, b: int): int { if a < b then 1 else -1 }

  /** 8-adjacent and distinct. */
  predicate Adjacent(a: Cell, b: Cell)
  {
    a != b && Abs(a.0 - b.0) <= 1 && Abs(a.1 - b.1) <= 1
  }

  /** Minor-axis progress and error term of a walk. */
  datatype Walk = Walk(minor: nat, error: int)

  /**
   * The walk after k major-axis steps, for major delta dM and minor delta dm:
   * the error starts at 2*dm - dM; each step first moves the minor coordinate
   * and subtracts 2*dM when the error is non-negative, then adds 2*dm.
   */
  function WalkAt(dM: nat, dm: nat, k: nat): Walk
    decreases k
  {
    if k == 0 then Walk(0, 2 * dm - dM)
    else
      var w := WalkAt(dM, dm, k - 1);
      if w.error >= 0 then Walk(w.minor + 1, w.error - 2 * dM + 2 * dm)
      else Walk(w.minor, w.error + 2 * dm)
  }

  lemma Distrib(a: int, b: int)
    ensures a * (b + 1) == a * b + a
  {
  }

  lemma MulFacts(a: int, b: int, c: int)
    ensures a * (2 * b + 1) == 2 * (a * b) + a
    ensures a * (b - c) == a * b - a * c
    ensures a * b == b * a
  {
  }

  lemma MulMonotone(a: nat, x: int, y: int)
    requires x <= y
    ensures a * x <= a * y
  {
    assert a * y - a * x == a * (y - x);
  }

  /** The error term in closed form, and the band it stays in. */
  lemma {:induction false} WalkBounds(dM: nat, dm: nat, k: nat)
    requires dm <= dM && 0 < dM
    ensures WalkAt(dM, dm, k).error == 2 * (dm * (k + 1)) - dM * (2 * WalkAt(dM, dm, k).minor + 1)
    ensures 2 * dm - 2 * dM <= WalkAt(dM, dm, k).error < 2 * dm
    ensures WalkAt(dM, dm, k).minor <= k
  {
    if k > 0 {
      WalkBounds(dM, dm, k - 1);
      var w := WalkAt(dM, dm, k - 1);
      Distrib(dm, k);
      Distrib(dM, 2 * w.minor + 1);
      Distrib(dM, 2 * w.minor + 2);
    }
  }

  /** After dM major steps the minor coordinate has advanced exactly dm. */
  lemma WalkEnd(dM: nat, dm: nat)
    requires dm <= dM && 0 < dM
    ensures WalkAt(dM, dm, dM).minor == dm
  {
    WalkBounds(dM, dm, dM);
    var m := WalkAt(dM, dm, dM).minor;
    var d := dm - m;
    Distrib(dm, dM);
    MulFacts(dM, m, 0);
    MulFacts(dM, dm, m);
    MulFacts(dm, dM, 0);
    if d <= -1 {
      MulMonotone(dM, d, -1);
    } else if d >= 1 {
      MulMonotone(dM, 1, d);
    }
  }

  /** The minor coordinate moves by at most one per major step, exactly when the error is non-negative. */
  lemma WalkStep(dM: nat, dm: nat, k: nat)
    ensures WalkAt(dM, dm, k + 1).minor ==
            if WalkAt(dM, dm, k).error >= 0 then WalkAt(dM, dm, k).minor + 1 else WalkAt(dM, dm, k).minor
  {
  }

  lemma {:induction false} WalkMonotone(dM: nat, dm: nat, k1: nat, k2: nat)
    requires k1 <= k2
    ensures WalkAt(dM, dm, k1).minor <= WalkAt(dM, dm, k2).minor
    decreases k2
  {
    if k1 < k2 {
      WalkMonotone(dM, dm, k1, k2 - 1);
    }
  }

  /** The minor coordinate never overshoots dm. */
  lemma WalkMinorBound(dM: nat, dm: nat, k: nat)
    requires dm <= dM && 0 < dM && k <= dM
    ensures WalkAt(dM, dm, k).minor <= dm
  {
    WalkMonotone(dM, dm, k, dM);
    WalkEnd(dM, dm);
  }

  /** Number of major-axis steps between the endpoints, max(|di|, |dj|). */
  function Major(i1: int, j1: int, i2: int, j2: int): nat
  {
    if Abs(i1 - i2) > Abs(j1 - j2) then Abs(i1 - i2) else Abs(j1 - j2)
  }

  /** The cell reached after k steps of the walk from (i1,j1) toward (i2,j2). */
  function CellAt(i1: int, j1: int, i2: int, j2: int, k: nat): Cell
  {
    var di, dj := Abs(i1 - i2), Abs(j1 - j2);
    if di > dj then (Toward(i1, i2, k), Toward(j1, j2, WalkAt(di, dj, k).minor))
    else (Toward(i1, i2, WalkAt(dj, di, k).minor), Toward(j1, j2, k))
  }

  /**
   * One step of the walk: the major coordinate moves one unit toward the
   * end, the minor one moves too exactly when the error is non-negative.
   */
  lemma CellAtStep(i1: int, j1: int, i2: int, j2: int, k: nat)
    ensures Abs(i1 - i2) > Abs(j1 - j2) ==>
              CellAt(i1, j1, i2, j2, k + 1) ==
              (CellAt(i1, j1, i2, j2, k).0 + Step(i1, i2),
               CellAt(i1, j1, i2, j2, k).1
               + (if WalkAt(Abs(i1 - i2), Abs(j1 - j2), k).error >= 0 then Step(j1, j2) else 0))
    ensures Abs(i1 - i2) <= Abs(j1 - j2) ==>
              CellAt(i1, j1, i2, j2, k + 1) ==
              (CellAt(i1, j1, i2, j2, k).0
               + (if WalkAt(Abs(j1 - j2), Abs(i1 - i2), k).error >= 0 then Step(i1, i2) else 0),
               CellAt(i1, j1, i2, j2, k).1 + Step(j1, j2))
  {
    WalkStep(Abs(i1 - i2), Abs(j1 - j2), k);
    WalkStep(Abs(j1 - j2), Abs(i1 - i2), k);
  }

  /** Whether the step leaving cell k also moves the minor coordinate (error >= 0). */
  predicate MinorStepAt(i1: int, j1: int, i2: int, j2: int, k: nat)
  {
    var di, dj := Abs(i1 - i2), Abs(j1 - j2);
    if di > dj then WalkAt(di, dj, k).error >= 0 else WalkAt(dj, di, k).error >= 0
  }

  /** The cells a segment appends to a cell path: every cell after the first endpoint, up to and including the second. */
  function Segment(i1: int, j1: int, i2: int, j2: int): (s: seq<Cell>)
    ensures |s| == Major(i1, j1, i2, j2)
  {
    seq(Major(i1, j1, i2, j2), k requires 0 <= k => CellAt(i1, j1, i2, j2, k + 1))
  }

  /** The walk starts at the first endpoint. */
  lemma CellAtStart(i1: int, j1: int, i2: int, j2: int)
    ensures CellAt(i1, j1, i2, j2, 0) == (i1, j1)
  {
  }

  /** Within the bounding box of the two endpoints. */
  predicate InBox(c: Cell, i1: int, j1: int, i2: int, j2: int)
  {
    (if i1 <= i2 then i1 <= c.0 <= i2 else i2 <= c.0 <= i1)
    && (if j1 <= j2 then j1 <= c.1 <= j2 else j2 <= c.1 <= j1)
  }

  /** Every cell of the walk up to the last step lies in the bounding box of the endpoints. */
  lemma CellAtInBox(i1: int, j1: int, i2: int, j2: int, k: nat)
    requires k <= Major(i1, j1, i2, j2)
    ensures InBox(CellAt(i1, j1, i2, j2, k), i1, j1, i2, j2)
  {
    var di, dj := Abs(i1 - i2), Abs(j1 - j2);
    if di > dj {
      WalkMinorBound(di, dj, k);
    } else if dj > 0 {
      WalkMinorBound(dj, di, k);
    }
  }

  /** The walk reaches the second endpoint after exactly Major steps. */
  lemma CellAtEnd(i1: int, j1: int, i2: int, j2: int)
    ensures CellAt(i1, j1, i2, j2, Major(i1, j1, i2, j2)) == (i2, j2)
  {
    var di, dj := Abs(i1 - i2), Abs(j1 - j2);
    if di > dj {
      WalkEnd(di, dj);
    } else if dj > 0 {
      WalkEnd(dj, di);
    }
  }

  /** Consecutive cells of the walk are 8-adjacent and distinct. */
  lemma CellAtAdjacent(i1: int, j1: int, i2: int, j2: int, k: nat)
    requires k < Major(i1, j1, i2, j2)
    ensures Adjacent(CellAt(i1, j1, i2, j2, k), CellAt(i1, j1, i2, j2, k + 1))
  {
    var di, dj := Abs(i1 - i2), Abs(j1 - j2);
    if di > dj {
      WalkStep(di, dj, k);
    } else {
      WalkStep(dj, di, k);
    }
  }

  /**
   * A non-degenerate segment has max(|di|,|dj|) cells, starts next to the
   * first endpoint, ends exactly at the second, and each cell is 8-adjacent
   * to the one before it.
   */
  lemma SegmentShape(i1: int, j1: int, i2: int, j2: int)
    requires (i1, j1) != (i2, j2)
    ensures |Segment(i1, j1, i2, j2)| == Major(i1, j1, i2, j2) > 0
    ensures Adjacent((i1, j1), Segment(i1, j1, i2, j2)[0])
    ensures Segment(i1, j1, i2, j2)[Major(i1, j1, i2, j2) - 1] == (i2, j2)
    ensures forall t :: 0 <= t < Major(i1, j1, i2, j2) - 1 ==>
              Adjacent(Segment(i1, j1, i2, j2)[t], Segment(i1, j1, i2, j2)[t + 1])
  {
    var s := Segment(i1, j1, i2, j2);
    CellAtStart(i1, j1, i2, j2);
    CellAtAdjacent(i1, j1, i2, j2, 0);
    CellAtEnd(i1, j1, i2, j2);
    forall t | 0 <= t < |s| - 1
      ensures Adjacent(s[t], s[t + 1])
    {
      CellAtAdjacent(i1, j1, i2, j2, t + 1);
    }
  }

  /** A segment between equal endpoints is empty. */
  lemma SegmentDegenerate(i: int, j: int)
    ensures Segment(i, j, i, j) == []
  {
  }
}
