/**
 * Positions on the field and the unit moves between them.
 *
 * The program keeps coordinates as doubles, but every position it ever
 * holds is a grid point (initial positions are checked against the integer
 * grid, and every move adds or subtracts 1), so integer coordinates are
 * exact here and the 0.01 tolerance of the comparisons becomes equality.
 * The upper-right corner of the field stays a real number, as entered.
 */
module Field {

  /** A position of a drone. */
  datatype Point = Point(x: int, y: int)

  function Abs(n: int): nat
  {
    if n < 0 then -n else n
  }

  /** Manhattan distance between two points. */
  function Distance(a: Point, b: Point): nat
  {
    Abs(a.x - b.x) + Abs(a.y - b.y)
  }

  /** The four characters the movement switch knows. */
  predicate IsMove(c: char)
  {
    c == 'N' || c == 'S' || c == 'E' || c == 'W'
  }

  /**
   * One pass through the movement switch: N and S move one unit up and down,
   * E and W one unit right and left. The switch has no default case, so any
   * other character leaves the position as it was.
   */
  function Step(p: Point, c: char): (r: Point)
    ensures !IsMove(c) ==> r == p
    ensures c == 'N' || c == 'S' ==> r.x == p.x
    ensures c == 'E' || c == 'W' ==> r.y == p.y
  {
    match c
    case 'N' => Point(p.x, p.y + 1)
    case 'S' => Point(p.x, p.y - 1)
    case 'E' => Point(p.x + 1, p.y)
    case 'W' => Point(p.x - 1, p.y)
    case _ => p
  }

  /**
   * The negation of the out-of-field test of the movement loop: a point is in
   * the field [0, upperRightX] x [0, upperRightY], bounds included.
   */
  predicate InField(p: Point, upperRightX: real, upperRightY: real)
  {
    0 <= p.x && p.x as real <= upperRightX && 0 <= p.y && p.y as real <= upperRightY
  }

  /**
   * For integer points the real upper bound can be replaced by its integer
   * part, which is the bound the grid of valid starting points uses.
   */
  lemma InFieldFloor(p: Point, upperRightX: real, upperRightY: real)
    ensures InField(p, upperRightX, upperRightY)
        <==> 0 <= p.x <= upperRightX.Floor && 0 <= p.y <= upperRightY.Floor
  {
    FloorBound(p.x, upperRightX);
    FloorBound(p.y, upperRightY);
  }

  lemma FloorBound(n: int, r: real)
    ensures n as real <= r <==> n <= r.Floor
  {
    if n <= r.Floor {
      assert n as real <= r.Floor as real <= r;
    }
  }
}
