/**
 * The marker chosen for one cell of the final grid: "I" where some
 * intersection lies, otherwise "D" where some drone ended, otherwise ".".
 */
module Display {
  import opened Field
  import opened Intersections

  /** Some reported intersection lies at (x, y). */
  predicate HasIntersectionAt(intersections: seq<Intersection>, x: int, y: int)
  {
    exists k :: 0 <= k < |intersections| && intersections[k].x == x && intersections[k].y == y
  }

  /** The final position of one of the first n drones is (x, y). */
  predicate HasDroneAt(paths: seq<seq<Point>>, n: nat, x: int, y: int)
    requires n <= |paths|
    requires forall i :: 0 <= i < n ==> paths[i] != []
  {
    exists i :: 0 <= i < n && paths[i][|paths[i]| - 1] == Point(x, y)
  }

  /**
   * The two searches of the grid-drawing loop for the cell (x, y): the
   * intersections first; the drones' final positions only if no
   * intersection is there.
   */
  method CellMarker(x: int, y: int, paths: seq<seq<Point>>, numberOfDrones: nat,
                    intersections: seq<Intersection>) returns (marker: char)
    requires numberOfDrones <= |paths|
    requires forall i :: 0 <= i < numberOfDrones ==> paths[i] != []
    ensures marker == 'I' <==> HasIntersectionAt(intersections, x, y)
    ensures marker == 'D' <==> !HasIntersectionAt(intersections, x, y) && HasDroneAt(paths, numberOfDrones, x, y)
    ensures marker == '.' <==> !HasIntersectionAt(intersections, x, y) && !HasDroneAt(paths, numberOfDrones, x, y)
  {
    var isDronePosition := false;
    var isIntersection := false;
    for k := 0 to |intersections|
      invariant !isIntersection
      invariant forall t :: 0 <= t < k ==> !(intersections[t].x == x && intersections[t].y == y)
    {
      var intersection := intersections[k];
      if intersection.x == x && intersection.y == y {
        isIntersection := true;
        break;
      }
    }
    if !isIntersection {
      for i := 0 to numberOfDrones
        invariant !isDronePosition
        invariant forall d :: 0 <= d < i ==> paths[d][|paths[d]| - 1] != Point(x, y)
      {
        var finalPosition := paths[i][|paths[i]| - 1];
        if finalPosition == Point(x, y) {
          isDronePosition := true;
          break;
        }
      }
    }
    if isIntersection {
      marker := 'I';
    } else if isDronePosition {
      marker := 'D';
    } else {
      marker := '.';
    }
  }
}
