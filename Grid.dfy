/**
 * The grid of valid starting points: every integer point (i, j) with
 * 0 <= i <= gridPointsX and 0 <= j <= gridPointsY, where the bounds are the
 * integer parts of the field's upper-right corner. An initial position is
 * accepted only if it is one of these points.
 */
module Grid {
  import opened Field

  /** The points (x, 0), (x, 1), ..., (x, top), in that order. */
  function Column(x: int, top: int): seq<Point>
    decreases top + 1
  {
    if top < 0 then [] else Column(x, top - 1) + [Point(x, top)]
  }

  /** Column 0, then column 1, ..., then column right, each from y = 0 up to y = top. */
  function GridPoints(right: int, top: int): seq<Point>
    decreases right + 1
  {
    if right < 0 then [] else GridPoints(right - 1, top) + Column(right, top)
  }

  /** The order of the grid list, column by column: by x first, then by y. */
  predicate PointLess(a: Point, b: Point)
  {
    a.x < b.x || (a.x == b.x && a.y < b.y)
  }

  predicate StrictlyOrdered(s: seq<Point>)
  {
    forall a, b :: 0 <= a < b < |s| ==> PointLess(s[a], s[b])
  }

  /**
   * The double loop that fills the list of grid coordinates: x from 0 to
   * gridPointsX, and for each x, y from 0 to gridPointsY.
   */
  method GenerateGridCoordinates(gridPointsX: int, gridPointsY: int) returns (gridCoordinates: seq<Point>)
    ensures gridCoordinates == GridPoints(gridPointsX, gridPointsY)
  {
    gridCoordinates := [];
    var i := 0;
    while i <= gridPointsX
      invariant 0 <= i <= gridPointsX + 1 || i == 0
      invariant gridCoordinates == GridPoints(i - 1, gridPointsY)
    {
      ghost var before := gridCoordinates;
      var j := 0;
      while j <= gridPointsY
        invariant 0 <= j <= gridPointsY + 1 || j == 0
        invariant gridCoordinates == before + Column(i, j - 1)
      {
        gridCoordinates := gridCoordinates + [Point(i, j)];
        j := j + 1;
      }
      assert Column(i, j - 1) == Column(i, gridPointsY);
      i := i + 1;
    }
  }

  lemma {:induction false} ColumnExactly(x: int, top: int)
    ensures forall p :: p in Column(x, top) <==> p.x == x && 0 <= p.y <= top
    ensures StrictlyOrdered(Column(x, top))
    ensures |Column(x, top)| == if top < 0 then 0 else top + 1
    decreases top + 1
  {
    if top >= 0 {
      ColumnExactly(x, top - 1);
    }
  }

  /**
   * The grid list holds exactly the integer points of [0, right] x [0, top],
   * each once, column by column: by x, then by y.
   */
  lemma {:induction false} GridPointsExactly(right: int, top: int)
    ensures forall p :: p in GridPoints(right, top) <==> 0 <= p.x <= right && 0 <= p.y <= top
    ensures StrictlyOrdered(GridPoints(right, top))
    decreases right + 1
  {
    if right >= 0 {
      GridPointsExactly(right - 1, top);
      ColumnExactly(right, top);
      var front, back := GridPoints(right - 1, top), Column(right, top);
      forall a, b | 0 <= a < b < |front + back|
        ensures PointLess((front + back)[a], (front + back)[b])
      {
        if b < |front| {
          assert PointLess(front[a], front[b]);
        } else if a >= |front| {
          assert PointLess(back[a - |front|], back[b - |front|]);
        } else {
          assert front[a] in front && back[b - |front|] in back;
        }
      }
    }
  }

  /** The grid list has (right + 1) * (top + 1) points, or none if either bound is negative. */
  lemma {:induction false} GridPointsLength(right: int, top: int)
    ensures |GridPoints(right, top)| == if right < 0 || top < 0 then 0 else (right + 1) * (top + 1)
    decreases right + 1
  {
    ColumnExactly(right, top);
    if right >= 0 {
      GridPointsLength(right - 1, top);
      if top >= 0 {
        assert (right + 1) * (top + 1) == right * (top + 1) + (top + 1);
      }
    }
  }

  /** The outcome of the initial-position check: the run goes on, or it is aborted. */
  datatype Placement = Placed(position: Point) | OutsideField

  /**
   * The check on a drone's entered initial position: it is accepted exactly
   * when it equals one of the grid coordinates; otherwise the program stops
   * with a message, which is the OutsideField outcome here.
   */
  function CheckInitialPosition(gridCoordinates: seq<Point>, initialX: real, initialY: real): (r: Placement)
    ensures r.Placed? <==> (exists k :: 0 <= k < |gridCoordinates|
                              && gridCoordinates[k].x as real == initialX && gridCoordinates[k].y as real == initialY)
    ensures r.Placed? ==> (r.position in gridCoordinates
                           && r.position.x as real == initialX && r.position.y as real == initialY)
  {
    var p := Point(initialX.Floor, initialY.Floor);
    if p.x as real == initialX && p.y as real == initialY && p in gridCoordinates then Placed(p)
    else
      assert forall k :: (0 <= k < |gridCoordinates| && gridCoordinates[k].x as real == initialX
                          && gridCoordinates[k].y as real == initialY) ==> gridCoordinates[k] == p;
      OutsideField
  }

  /**
   * Against the grid built from the integer parts of the upper-right corner,
   * an initial position is accepted exactly when it has integer coordinates
   * and lies in the field; so every accepted drone starts in the field.
   */
  lemma InitialPositionAccepted(upperRightX: real, upperRightY: real, initialX: real, initialY: real)
    ensures var r := CheckInitialPosition(GridPoints(upperRightX.Floor, upperRightY.Floor), initialX, initialY);
      r.Placed? <==>
        && initialX == initialX.Floor as real && initialY == initialY.Floor as real
        && InField(Point(initialX.Floor, initialY.Floor), upperRightX, upperRightY)
  {
    GridPointsExactly(upperRightX.Floor, upperRightY.Floor);
    InFieldFloor(Point(initialX.Floor, initialY.Floor), upperRightX, upperRightY);
  }
}
