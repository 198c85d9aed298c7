/**
 * Facts that tie the components together the way the program's main
 * routine uses them: accepted starting points, the simulated paths, the
 * detected intersections and the markers of the final grid.
 */
module Plotting {
  import opened Field
  import opened Movement
  import opened Intersections
  import opened Grid
  import opened Display

  /** Drones d and e (0-based, d < e < n) both visit (x, y). */
  predicate PathsMeetAt(paths: seq<seq<Point>>, n: nat, x: int, y: int)
    requires n <= |paths|
  {
    exists i, j, p, q :: 0 <= i < j < n && 0 <= p < |paths[i]| && 0 <= q < |paths[j]|
      && paths[i][p] == Point(x, y) && paths[j][q] == Point(x, y)
  }

  /**
   * With the detector's records, a cell is marked as an intersection exactly
   * when two different drones' paths both pass through it, at any step.
   */
  lemma IntersectionCell(paths: seq<seq<Point>>, n: nat, x: int, y: int)
    requires n <= |paths|
    ensures HasIntersectionAt(Records(paths, n), x, y) <==> PathsMeetAt(paths, n, x, y)
  {
    var records := Records(paths, n);
    if HasIntersectionAt(records, x, y) {
      var k :| 0 <= k < |records| && records[k].x == x && records[k].y == y;
      RecordsSound(paths, n, k);
      var r := records[k];
      var p :| 0 <= p < |paths[r.drone1 - 1]| && paths[r.drone1 - 1][p] == Point(x, y);
      var q :| 0 <= q < |paths[r.drone2 - 1]| && paths[r.drone2 - 1][q] == Point(x, y);
      assert PathsMeetAt(paths, n, x, y);
    }
    if PathsMeetAt(paths, n, x, y) {
      var i, j, p, q :| 0 <= i < j < n && 0 <= p < |paths[i]| && 0 <= q < |paths[j]|
        && paths[i][p] == Point(x, y) && paths[j][q] == Point(x, y);
      RecordsComplete(paths, n, i, j, p, q);
      var k :| 0 <= k < |records| && records[k] == Intersection(i + 1, j + 1, x, y);
      assert records[k].x == x && records[k].y == y;
    }
  }

  /** The paths the simulation produces for the given initial positions and moves. */
  predicate Simulated(paths: seq<seq<Point>>, initialPositions: seq<Point>, movementsList: seq<string>,
                      upperRightX: real, upperRightY: real, n: nat)
  {
    && n <= |initialPositions| && n <= |movementsList| && |paths| == n
    && forall i :: 0 <= i < n ==>
         paths[i] == Path(initialPositions[i], movementsList[i], upperRightX, upperRightY)
  }

  /**
   * When every drone starts on the field, every reported intersection is a
   * cell of the drawn grid: 0 <= x <= floor(upperRightX), 0 <= y <= floor(upperRightY).
   */
  lemma IntersectionsOnGrid(paths: seq<seq<Point>>, initialPositions: seq<Point>, movementsList: seq<string>,
                            upperRightX: real, upperRightY: real, n: nat, k: nat)
    requires Simulated(paths, initialPositions, movementsList, upperRightX, upperRightY, n)
    requires forall i :: 0 <= i < n ==> InField(initialPositions[i], upperRightX, upperRightY)
    requires k < |Records(paths, n)|
    ensures var r := Records(paths, n)[k];
      0 <= r.x <= upperRightX.Floor && 0 <= r.y <= upperRightY.Floor
  {
    var r := Records(paths, n)[k];
    RecordsSound(paths, n, k);
    var d := r.drone1 - 1;
    PathInField(initialPositions[d], movementsList[d], upperRightX, upperRightY);
    var p :| 0 <= p < |paths[d]| && paths[d][p] == Point(r.x, r.y);
    InFieldFloor(Point(r.x, r.y), upperRightX, upperRightY);
  }

  /** Field (3, 3), one drone at (1, 1) with moves NNEE: it visits (1,2), (1,3), (2,3), (3,3). */
  lemma ExampleNorthThenEast()
    ensures Path(Point(1, 1), "NNEE", 3.0, 3.0)
         == [Point(1, 1), Point(1, 2), Point(1, 3), Point(2, 3), Point(3, 3)]
  {
  }

  /** Field (2, 2), a drone at (2, 2) moving N would reach (2, 3) and so stays put. */
  lemma ExampleStoppedAtEdge()
    ensures Path(Point(2, 2), "N", 2.0, 2.0) == [Point(2, 2)]
  {
  }

  /**
   * Field (3, 3): drone 1 at (0, 0) moves EE, drone 2 stays at (2, 0). The
   * paths meet once, at (2, 0), which is reported as one record (1, 2, 2, 0).
   */
  lemma ExampleMeetingAtEnd()
    ensures var paths := [Path(Point(0, 0), "EE", 3.0, 3.0), Path(Point(2, 0), "", 3.0, 3.0)];
      Records(paths, 2) == [Intersection(1, 2, 2, 0)]
  {
    assert "EE"[0] == 'E' && "EE"[1..] == "E";
    assert "E"[0] == 'E' && "E"[1..] == "";
    assert Step(Point(0, 0), 'E') == Point(1, 0) && InField(Point(1, 0), 3.0, 3.0);
    assert Step(Point(1, 0), 'E') == Point(2, 0) && InField(Point(2, 0), 3.0, 3.0);
    assert Path(Point(0, 0), "EE", 3.0, 3.0) == [Point(0, 0), Point(1, 0), Point(2, 0)];
    var paths := [[Point(0, 0), Point(1, 0), Point(2, 0)], [Point(2, 0)]];
    assert RowMatches(paths, 0, 1, 0, 1) == [];
    assert RowMatches(paths, 0, 1, 1, 1) == [];
    assert RowMatches(paths, 0, 1, 2, 1) == [Match(0, 1, 2, 0, Point(2, 0))];
    assert PairMatches(paths, 0, 1, 3) == [Match(0, 1, 2, 0, Point(2, 0))];
    assert DroneMatches(paths, 0, 2) == [Match(0, 1, 2, 0, Point(2, 0))];
    assert DroneMatches(paths, 1, 2) == [];
    assert Matches(paths, 2) == [Match(0, 1, 2, 0, Point(2, 0))];
  }
}
