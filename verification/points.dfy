/** Grid cells (point.py): a position (row, col) with rows growing downward and
    columns growing rightward. Coordinates are exact reals so that a piece's
    half-integer pivot is represented without rounding. */
module Points {

  /** A position. Datatype equality is equality of (row, col), which is what
      the Python class's equality compares. */
  datatype Point = Point(row: real, col: real)

  /** The four unit moves a point (and a piece) can make. */
  datatype Dir = Down | Up | Left | Right

  function Abs(x: real): real {
    if x < 0.0 then -x else x
  }

  /** The move that undoes `d`. */
  function Opposite(d: Dir): (e: Dir)
    ensures e != d
  {
    match d
    case Down => Up
    case Up => Down
    case Left => Right
    case Right => Left
  }

  /** Point._move: displace the position by (dRow, dCol). */
  function Shift(p: Point, dRow: real, dCol: real): (q: Point)
    ensures q.row - p.row == dRow && q.col - p.col == dCol
  {
    Point(p.row + dRow, p.col + dCol)
  }

  /** Point.down/up/left/right: one unit step in direction `d`. The step
      lands on an orthogonal neighbour, in the named direction. */
  function Step(p: Point, d: Dir): (q: Point)
    ensures d == Down ==> q.col == p.col && q.row > p.row
    ensures d == Up ==> q.col == p.col && q.row < p.row
    ensures d == Left ==> q.row == p.row && q.col < p.col
    ensures d == Right ==> q.row == p.row && q.col > p.col
  {
    match d
    case Down => Shift(p, 1.0, 0.0)
    case Up => Shift(p, -1.0, 0.0)
    case Left => Shift(p, 0.0, -1.0)
    case Right => Shift(p, 0.0, 1.0)
  }

  /** Point.teleport: the new position is the given one, whatever the old. */
  function Teleport(p: Point, target: Point): (q: Point)
    ensures SamePosition(q, target)
  {
    target
  }

  /** Point.__eq__: equal row and equal column. */
  predicate SamePosition(a: Point, b: Point) {
    a.row == b.row && a.col == b.col
  }

  /** are_adj_points, with the same branch structure: same row and columns one
      apart, or else same column and rows one apart. */
  predicate Adjacent(a: Point, b: Point): (r: bool)
    ensures r ==> (a.row == b.row) != (a.col == b.col)
  {
    if a.row == b.row then Abs(a.col - b.col) == 1.0
    else if a.col == b.col then Abs(a.row - b.row) == 1.0
    else false
  }

  /** Shifting back by the negated displacement restores the position. */
  lemma ShiftRoundTrip(p: Point, dRow: real, dCol: real)
    ensures Shift(Shift(p, dRow, dCol), -dRow, -dCol) == p
  {
  }

  /** A unit step lands on an orthogonal neighbour. */
  lemma StepAdjacent(p: Point, d: Dir)
    ensures Adjacent(p, Step(p, d))
  {
  }

  /** down then up, up then down, left then right, right then left: the
      opposite step restores the position exactly. */
  lemma StepRoundTrip(p: Point, d: Dir)
    ensures Step(Step(p, d), Opposite(d)) == p
  {
  }

  /** Where a teleport lands does not depend on where the point was. */
  lemma TeleportForgetsOrigin(p: Point, q: Point, target: Point)
    ensures Teleport(p, target) == Teleport(q, target)
  {
  }

  lemma SamePositionIsEquality(a: Point, b: Point)
    ensures SamePosition(a, b) <==> a == b
  {
  }

  lemma AdjacentSymmetric(a: Point, b: Point)
    ensures Adjacent(a, b) == Adjacent(b, a)
  {
  }

  lemma AdjacentIrreflexive(a: Point)
    ensures !Adjacent(a, a)
  {
  }

  lemma DiagonalNotAdjacent(a: Point, b: Point)
    requires a.row != b.row && a.col != b.col
    ensures !Adjacent(a, b)
  {
  }

  /** Adjacency holds iff exactly one coordinate differs, by exactly one. */
  lemma AdjacentIffOneUnitApart(a: Point, b: Point)
    ensures Adjacent(a, b) <==>
      || (a.row == b.row && (b.col == a.col + 1.0 || b.col == a.col - 1.0))
      || (a.col == b.col && (b.row == a.row + 1.0 || b.row == a.row - 1.0))
  {
  }

  /** Adjacency is exactly "one unit step apart". */
  lemma AdjacentIffStep(a: Point, b: Point)
    ensures Adjacent(a, b) <==> exists d: Dir :: Step(a, d) == b
  {
    if Adjacent(a, b) {
      if b.row == a.row + 1.0 {
        assert Step(a, Down) == b;
      } else if b.row == a.row - 1.0 {
        assert Step(a, Up) == b;
      } else if b.col == a.col - 1.0 {
        assert Step(a, Left) == b;
      } else {
        assert Step(a, Right) == b;
      }
    }
  }

  /** A unit step never merges two distinct positions. */
  lemma StepInjective(p: Point, q: Point, d: Dir)
    requires Step(p, d) == Step(q, d)
    ensures p == q
  {
    StepRoundTrip(p, d);
    StepRoundTrip(q, d);
  }
}
