/**
 * The movement simulation: each drone applies its movement string one unit
 * step at a time from its initial position, and stops for good at the first
 * step that would take it out of the field.
 */
module Movement {
  import opened Field

  /**
   * Where a drone would be after each prefix of its moves if the field had
   * no edges: the start, then one point per move.
   */
  function Walk(start: Point, moves: string): (r: seq<Point>)
    ensures |r| == |moves| + 1 && r[0] == start
    decreases |moves|
  {
    if moves == [] then [start] else [start] + Walk(Step(start, moves[0]), moves[1..])
  }

  /**
   * The path the program records for one drone: the start, then each
   * in-field point reached, up to the first move whose target is out of
   * the field. The out-of-field point is never recorded.
   */
  function Path(start: Point, moves: string, upperRightX: real, upperRightY: real): (r: seq<Point>)
    ensures 1 <= |r| <= |moves| + 1 && r[0] == start
    ensures moves == [] ==> r == [start]
    decreases |moves|
  {
    if moves == [] then [start]
    else
      var next := Step(start, moves[0]);
      if InField(next, upperRightX, upperRightY) then [start] + Path(next, moves[1..], upperRightX, upperRightY)
      else [start]
  }

  /**
   * Consecutive points of a path are one move apart, in the direction of the
   * move that produced them: N is y+1, S is y-1, E is x+1, W is x-1.
   */
  lemma {:induction false} PathSteps(start: Point, moves: string, upperRightX: real, upperRightY: real, k: nat)
    requires k + 1 < |Path(start, moves, upperRightX, upperRightY)|
    ensures k < |moves|
    ensures var path := Path(start, moves, upperRightX, upperRightY);
      && (moves[k] == 'N' ==> path[k + 1] == Point(path[k].x, path[k].y + 1))
      && (moves[k] == 'S' ==> path[k + 1] == Point(path[k].x, path[k].y - 1))
      && (moves[k] == 'E' ==> path[k + 1] == Point(path[k].x + 1, path[k].y))
      && (moves[k] == 'W' ==> path[k + 1] == Point(path[k].x - 1, path[k].y))
      && (!IsMove(moves[k]) ==> path[k + 1] == path[k])
    decreases k
  {
    var next := Step(start, moves[0]);
    if k > 0 {
      PathSteps(next, moves[1..], upperRightX, upperRightY, k - 1);
    }
  }

  /** A valid move takes a drone to a point at Manhattan distance 1 from where it was. */
  lemma PathUnitSteps(start: Point, moves: string, upperRightX: real, upperRightY: real, k: nat)
    requires k + 1 < |Path(start, moves, upperRightX, upperRightY)|
    requires k < |moves| && IsMove(moves[k])
    ensures var path := Path(start, moves, upperRightX, upperRightY);
      Distance(path[k], path[k + 1]) == 1
  {
    PathSteps(start, moves, upperRightX, upperRightY, k);
  }

  /** Every point of a path after the first lies in the field. */
  lemma {:induction false} PathAfterStartInField(start: Point, moves: string, upperRightX: real, upperRightY: real, k: nat)
    requires 0 < k < |Path(start, moves, upperRightX, upperRightY)|
    ensures InField(Path(start, moves, upperRightX, upperRightY)[k], upperRightX, upperRightY)
    decreases k
  {
    var next := Step(start, moves[0]);
    if k > 1 {
      PathAfterStartInField(next, moves[1..], upperRightX, upperRightY, k - 1);
    }
  }

  /** A drone that starts in the field never leaves it. */
  lemma PathInField(start: Point, moves: string, upperRightX: real, upperRightY: real)
    requires InField(start, upperRightX, upperRightY)
    ensures forall k :: 0 <= k < |Path(start, moves, upperRightX, upperRightY)| ==>
      InField(Path(start, moves, upperRightX, upperRightY)[k], upperRightX, upperRightY)
  {
    forall k | 0 < k < |Path(start, moves, upperRightX, upperRightY)|
      ensures InField(Path(start, moves, upperRightX, upperRightY)[k], upperRightX, upperRightY)
    {
      PathAfterStartInField(start, moves, upperRightX, upperRightY, k);
    }
  }

  /**
   * The path is the longest prefix of the walk whose points after the first
   * are all in the field: it follows the walk, and if it stops before the
   * moves run out the next point of the walk is out of the field.
   */
  lemma {:induction false} PathIsWalkPrefix(start: Point, moves: string, upperRightX: real, upperRightY: real)
    ensures var path := Path(start, moves, upperRightX, upperRightY);
      && path == Walk(start, moves)[..|path|]
      && (forall k :: 0 < k < |path| ==> InField(Walk(start, moves)[k], upperRightX, upperRightY))
      && (|path| <= |moves| ==> !InField(Walk(start, moves)[|path|], upperRightX, upperRightY))
    decreases |moves|
  {
    if moves != [] {
      var next := Step(start, moves[0]);
      var rest := moves[1..];
      assert Walk(start, moves) == [start] + Walk(next, rest);
      if InField(next, upperRightX, upperRightY) {
        PathIsWalkPrefix(next, rest, upperRightX, upperRightY);
        var tail := Path(next, rest, upperRightX, upperRightY);
        assert Path(start, moves, upperRightX, upperRightY) == [start] + tail;
        assert Walk(start, moves)[..1 + |tail|] == [start] + Walk(next, rest)[..|tail|];
        forall k | 0 < k < 1 + |tail|
          ensures InField(Walk(start, moves)[k], upperRightX, upperRightY)
        {
          assert Walk(start, moves)[k] == Walk(next, rest)[k - 1];
        }
      }
    }
  }

  /**
   * Truncation: if the moves before move k all land in the field and move k
   * would leave it, the path has exactly k + 1 points, the walk up to the
   * last accepted point; nothing after move k is recorded.
   */
  lemma Truncation(start: Point, moves: string, upperRightX: real, upperRightY: real, k: nat)
    requires k < |moves|
    requires forall p :: 0 < p <= k ==> InField(Walk(start, moves)[p], upperRightX, upperRightY)
    requires !InField(Walk(start, moves)[k + 1], upperRightX, upperRightY)
    ensures |Path(start, moves, upperRightX, upperRightY)| == k + 1
    ensures Path(start, moves, upperRightX, upperRightY) == Walk(start, moves)[..k + 1]
  {
    PathIsWalkPrefix(start, moves, upperRightX, upperRightY);
  }

  /** If no move leaves the field, the path is the whole walk: 1 + |moves| points. */
  lemma NoTruncation(start: Point, moves: string, upperRightX: real, upperRightY: real)
    requires forall p :: 0 < p <= |moves| ==> InField(Walk(start, moves)[p], upperRightX, upperRightY)
    ensures Path(start, moves, upperRightX, upperRightY) == Walk(start, moves)
    ensures |Path(start, moves, upperRightX, upperRightY)| == |moves| + 1
  {
    PathIsWalkPrefix(start, moves, upperRightX, upperRightY);
  }

  /**
   * Where the walk ends: the start shifted by the number of E moves less the
   * W moves horizontally and the N moves less the S moves vertically.
   */
  lemma {:induction false} WalkEnd(start: Point, moves: string)
    ensures Walk(start, moves)[|moves|] == Point(
      start.x + multiset(moves)['E'] - multiset(moves)['W'],
      start.y + multiset(moves)['N'] - multiset(moves)['S'])
    decreases |moves|
  {
    if moves != [] {
      var next := Step(start, moves[0]);
      WalkEnd(next, moves[1..]);
      assert moves == [moves[0]] + moves[1..];
      assert multiset(moves) == multiset{moves[0]} + multiset(moves[1..]);
    }
  }

  /**
   * The simulation loop for all drones. Drone i starts at initialPositions[i]
   * and follows movementsList[i]; at the first move whose target is out of
   * the field it stops. The result holds one path per drone.
   */
  method ProcessMovements(initialPositions: seq<Point>, movementsList: seq<string>,
                          upperRightX: real, upperRightY: real, numberOfDrones: nat)
    returns (paths: seq<seq<Point>>)
    requires numberOfDrones <= |initialPositions| && numberOfDrones <= |movementsList|
    ensures |paths| == numberOfDrones
    ensures forall i :: 0 <= i < numberOfDrones ==>
      paths[i] == Path(initialPositions[i], movementsList[i], upperRightX, upperRightY)
  {
    paths := [];
    for i := 0 to numberOfDrones
      invariant |paths| == i
      invariant forall d :: 0 <= d < i ==>
        paths[d] == Path(initialPositions[d], movementsList[d], upperRightX, upperRightY)
    {
      var current := initialPositions[i];
      var movements := movementsList[i];
      ghost var whole := Path(current, movements, upperRightX, upperRightY);
      var path := [current];
      for k := 0 to |movements|
        invariant path != [] && path[|path| - 1] == current
        invariant path + Path(current, movements[k..], upperRightX, upperRightY)[1..] == whole
      {
        ghost var previous := current;
        assert movements[k..][0] == movements[k] && movements[k..][1..] == movements[k + 1..];
        current := Step(current, movements[k]);
        if !InField(current, upperRightX, upperRightY) {
          assert Path(previous, movements[k..], upperRightX, upperRightY) == [previous];
          break;
        }
        ghost var rest := Path(current, movements[k + 1..], upperRightX, upperRightY);
        assert Path(previous, movements[k..], upperRightX, upperRightY)[1..] == rest;
        assert rest == [current] + rest[1..];
        path := path + [current];
      }
      paths := paths + [path];
    }
  }
}
