/** Tetris pieces (block.py): a color tag, the squares the piece occupies and
    a pivot ("center") that moves with the piece but occupies nothing. */
module Blocks {
  import opened Points
  import opened Seqs
  import opened Groups

  /** The piece colors, as abstract tags: one per standard shape, and the
      color given to fragments left over after a row is cleared. */
  datatype Color = IColor | OColor | TColor | SColor | ZColor | JColor | LColor | BrokenColor

  datatype Block = Block(color: Color, squares: seq<Point>, center: Point)

  /** `_to_move`: the squares followed by the center, the points every
      translation moves together. */
  function Carried(b: Block): (r: seq<Point>)
    ensures |r| == |b.squares| + 1 && r[|b.squares|] == b.center
    ensures r[..|b.squares|] == b.squares
  {
    b.squares + [b.center]
  }

  /** One unit step applied to each point of a sequence. */
  function StepAll(ps: seq<Point>, d: Dir): (r: seq<Point>)
    ensures |r| == |ps|
    ensures forall i :: 0 <= i < |ps| ==> r[i] == Step(ps[i], d)
  {
    seq(|ps|, i requires 0 <= i < |ps| => Step(ps[i], d))
  }

  /** Block._move and its aliases down/up/left/right: step every carried
      point, in order; the squares are the first part of the carried points
      and the center the last. */
  function Move(b: Block, d: Dir): (r: Block)
    ensures r.color == b.color && |r.squares| == |b.squares|
    ensures forall i :: 0 <= i < |b.squares| ==> r.squares[i] == Step(b.squares[i], d)
    ensures r.center == Step(b.center, d)
    ensures NoDup(b.squares) ==> NoDup(r.squares)
  {
    var moved := StepAll(Carried(b), d);
    var r := Block(b.color, moved[..|b.squares|], moved[|b.squares|]);
    assert Carried(r) == moved;
    forall i, j | 0 <= i < j < |r.squares| && NoDup(b.squares)
      ensures r.squares[i] != r.squares[j]
    {
      if r.squares[i] == r.squares[j] {
        StepInjective(b.squares[i], b.squares[j], d);
      }
    }
    r
  }

  /** The squares and the center of a moved piece are its carried points,
      each stepped once. */
  lemma MoveCarried(b: Block, d: Dir)
    ensures Carried(Move(b, d)) == StepAll(Carried(b), d)
  {
  }

  /** The opposite move puts every square and the center back. */
  lemma MoveRoundTrip(b: Block, d: Dir)
    ensures Move(Move(b, d), Opposite(d)) == b
  {
    var r := Move(Move(b, d), Opposite(d));
    forall i | 0 <= i < |b.squares|
      ensures r.squares[i] == b.squares[i]
    {
      StepRoundTrip(b.squares[i], d);
    }
    StepRoundTrip(b.center, d);
  }

  /** The new position of `p` after a quarter turn about `c`, as Block.rotate
      computes it from the row and column distances to the center. */
  function RotateAbout(p: Point, c: Point, clockwise: bool): (q: Point)
    ensures clockwise ==> q.row - c.row == p.col - c.col && q.col - c.col == -(p.row - c.row)
    ensures !clockwise ==> q.row - c.row == -(p.col - c.col) && q.col - c.col == p.row - c.row
  {
    var rowDist := p.row - c.row;
    var colDist := p.col - c.col;
    if clockwise then Teleport(p, Point(c.row + colDist, c.col - rowDist))
    else Teleport(p, Point(c.row - colDist, c.col + rowDist))
  }

  /** A quarter turn one way undone by a quarter turn the other way. */
  lemma RotateAboutRoundTrip(p: Point, c: Point, clockwise: bool)
    ensures RotateAbout(RotateAbout(p, c, clockwise), c, !clockwise) == p
  {
  }

  /** Four quarter turns the same way are the identity. */
  lemma RotateAboutFourTimes(p: Point, c: Point, clockwise: bool)
    ensures RotateAbout(RotateAbout(RotateAbout(RotateAbout(p, c, clockwise), c, clockwise), c, clockwise), c, clockwise) == p
  {
  }

  /** A quarter turn keeps exactly the adjacent pairs adjacent. */
  lemma RotateAboutAdjacency(p: Point, q: Point, c: Point, clockwise: bool)
    ensures Adjacent(RotateAbout(p, c, clockwise), RotateAbout(q, c, clockwise)) <==> Adjacent(p, q)
  {
    AdjacentIffOneUnitApart(p, q);
    AdjacentIffOneUnitApart(RotateAbout(p, c, clockwise), RotateAbout(q, c, clockwise));
  }

  /** Block.rotate: every square is teleported to its quarter-turn image about
      the center; the center itself, the color and the number of squares stay
      as they are. */
  function Rotate(b: Block, clockwise: bool): (r: Block)
    ensures r.center == b.center && r.color == b.color && |r.squares| == |b.squares|
    ensures forall i :: 0 <= i < |b.squares| ==> r.squares[i] == RotateAbout(b.squares[i], b.center, clockwise)
    ensures NoDup(b.squares) ==> NoDup(r.squares)
  {
    var r := Block(b.color, seq(|b.squares|, i requires 0 <= i < |b.squares| => RotateAbout(b.squares[i], b.center, clockwise)), b.center);
    forall i, j | 0 <= i < j < |r.squares| && NoDup(b.squares)
      ensures r.squares[i] != r.squares[j]
    {
      RotateAboutRoundTrip(b.squares[i], b.center, clockwise);
      RotateAboutRoundTrip(b.squares[j], b.center, clockwise);
    }
    r
  }

  /** rotate(True) then rotate(False), or the reverse, restores the piece. */
  lemma RotateRoundTrip(b: Block, clockwise: bool)
    ensures Rotate(Rotate(b, clockwise), !clockwise) == b
  {
    var r := Rotate(Rotate(b, clockwise), !clockwise);
    forall i | 0 <= i < |b.squares|
      ensures r.squares[i] == b.squares[i]
    {
      RotateAboutRoundTrip(b.squares[i], b.center, clockwise);
    }
  }

  /** Rotation is rigid: two squares are adjacent after a rotation iff they
      were adjacent before. */
  lemma RotateKeepsAdjacency(b: Block, clockwise: bool)
    ensures var r := Rotate(b, clockwise);
      forall i, j :: 0 <= i < |b.squares| && 0 <= j < |b.squares| ==>
        (Adjacent(r.squares[i], r.squares[j]) <==> Adjacent(b.squares[i], b.squares[j]))
  {
    forall i, j | 0 <= i < |b.squares| && 0 <= j < |b.squares|
    {
      RotateAboutAdjacency(b.squares[i], b.squares[j], b.center, clockwise);
    }
  }

  /** Block.has_square_at: some square is at `pt`; the center does not count. */
  predicate HasSquareAt(b: Block, pt: Point): (r: bool)
    ensures r <==> exists i :: 0 <= i < |b.squares| && Carried(b)[i] == pt
  {
    assert forall i :: 0 <= i < |b.squares| ==> Carried(b)[i] == b.squares[i];
    pt in b.squares
  }

  /** Occupancy moves with the piece. */
  lemma HasSquareAtMove(b: Block, pt: Point, d: Dir)
    ensures HasSquareAt(Move(b, d), Step(pt, d)) <==> HasSquareAt(b, pt)
  {
    if HasSquareAt(Move(b, d), Step(pt, d)) {
      var i :| 0 <= i < |b.squares| && Move(b, d).squares[i] == Step(pt, d);
      StepInjective(b.squares[i], pt, d);
    }
    if HasSquareAt(b, pt) {
      var i :| 0 <= i < |b.squares| && b.squares[i] == pt;
      assert Move(b, d).squares[i] == Step(pt, d);
    }
  }

  /** Occupancy turns with the piece. */
  lemma HasSquareAtRotate(b: Block, pt: Point, clockwise: bool)
    ensures HasSquareAt(Rotate(b, clockwise), RotateAbout(pt, b.center, clockwise)) <==> HasSquareAt(b, pt)
  {
    var q := RotateAbout(pt, b.center, clockwise);
    if HasSquareAt(Rotate(b, clockwise), q) {
      var i :| 0 <= i < |b.squares| && Rotate(b, clockwise).squares[i] == q;
      RotateAboutRoundTrip(b.squares[i], b.center, clockwise);
      RotateAboutRoundTrip(pt, b.center, clockwise);
    }
  }

  /** The key Block.__eq__ compares besides the color: the set of positions
      of the squares and the center together. */
  function Positions(b: Block): (r: set<Point>)
    ensures forall p :: p in r <==> p in b.squares || p == b.center
  {
    set p | p in Carried(b)
  }

  /** Block.__eq__: same color and same set of positions over squares and
      center, regardless of order or of which position is the center. */
  predicate Equal(a: Block, b: Block): (r: bool)
    ensures r <==> a.color == b.color && forall p :: p in Carried(a) <==> p in Carried(b)
  {
    a.color == b.color && Positions(a) == Positions(b)
  }

  /** Reordering the squares does not change equality. */
  lemma EqualIgnoresOrder(a: Block, b: Block)
    requires a.color == b.color && a.center == b.center
    requires multiset(a.squares) == multiset(b.squares)
    ensures Equal(a, b)
  {
    forall p
      ensures p in a.squares <==> p in b.squares
    {
      assert p in a.squares <==> p in multiset(a.squares);
    }
  }

  /** Equal pieces stay equal when both take the same step. */
  lemma EqualKeptByMove(a: Block, b: Block, d: Dir)
    requires Equal(a, b)
    ensures Equal(Move(a, d), Move(b, d))
  {
    forall x
      ensures x in Positions(Move(a, d)) <==> x in Positions(Move(b, d))
    {
      var y := Step(x, Opposite(d));
      StepRoundTrip(x, Opposite(d));
      assert Opposite(Opposite(d)) == d;
      assert Step(y, d) == x;
      PositionsMove(a, d, y);
      PositionsMove(b, d, y);
    }
  }

  lemma PositionsMove(b: Block, d: Dir, y: Point)
    ensures Step(y, d) in Positions(Move(b, d)) <==> y in Positions(b)
  {
    HasSquareAtMove(b, y, d);
    var m := Move(b, d);
    if Step(y, d) == m.center {
      StepInjective(y, b.center, d);
    }
  }

  /** Equality does not say which position is the center: two pieces of
      two side-by-side squares, pivoting on one or on the other, are equal,
      yet a clockwise rotation tells them apart. */
  lemma EqualIgnoresPivot(row: real, col: real)
    ensures var a := Block(TColor, [Point(row, col), Point(row, col + 1.0)], Point(row, col));
            var b := Block(TColor, [Point(row, col), Point(row, col + 1.0)], Point(row, col + 1.0));
            Equal(a, b) && !Equal(Rotate(a, true), Rotate(b, true))
  {
    var a := Block(TColor, [Point(row, col), Point(row, col + 1.0)], Point(row, col));
    var b := Block(TColor, [Point(row, col), Point(row, col + 1.0)], Point(row, col + 1.0));
    forall p
      ensures p in Positions(a) <==> p in Positions(b)
    {
    }
    assert Positions(a) == Positions(b);
    var ra, rb := Rotate(a, true), Rotate(b, true);
    assert ra.squares[1] == Point(row + 1.0, col);
    assert rb.squares[0] == Point(row - 1.0, col + 1.0) && rb.squares[1] == Point(row, col + 1.0);
    NotInPair(rb.squares, Point(row + 1.0, col));
    assert Point(row + 1.0, col) in Positions(ra);
  }

  /** A two-element sequence holds neither of something both entries differ from. */
  lemma NotInPair(s: seq<Point>, x: Point)
    requires |s| == 2 && s[0] != x && s[1] != x
    ensures x !in s
  {
  }

  /** The squares of every piece of `blocks`, piece by piece. */
  function AllSquares(blocks: seq<Block>): seq<Point> {
    if |blocks| == 0 then [] else blocks[0].squares + AllSquares(blocks[1..])
  }

  lemma {:induction false} AllSquaresAppend(a: seq<Block>, b: seq<Block>)
    ensures AllSquares(a + b) == AllSquares(a) + AllSquares(b)
  {
    if |a| == 0 {
      assert a + b == b;
    } else {
      assert (a + b)[1..] == a[1..] + b;
      AllSquaresAppend(a[1..], b);
    }
  }

  /** `[sq for sq in squares if sq.pos[0] != row]`: the squares outside the
      given row, in order. */
  function OutsideRow(s: seq<Point>, row: int): (r: seq<Point>)
    ensures forall p :: p in r <==> p in s && p.row != row as real
    ensures |r| == |s| - CountInRow(s, row)
  {
    if |s| == 0 then []
    else
      var rest := OutsideRow(s[1..], row);
      assert forall p :: p in s <==> p == s[0] || p in s[1..];
      if s[0].row == row as real then rest else [s[0]] + rest
  }

  /** Each point outside the row is kept as often as it occurs; the points
      in the row are all dropped. */
  lemma {:induction false} OutsideRowCounts(s: seq<Point>, row: int)
    ensures forall p :: multiset(OutsideRow(s, row))[p] == if p.row == row as real then 0 else multiset(s)[p]
  {
    if |s| > 0 {
      OutsideRowCounts(s[1..], row);
      assert s == [s[0]] + s[1..];
      assert multiset(s) == multiset{s[0]} + multiset(s[1..]);
      if s[0].row != row as real {
        assert OutsideRow(s, row) == [s[0]] + OutsideRow(s[1..], row);
        assert multiset(OutsideRow(s, row)) == multiset{s[0]} + multiset(OutsideRow(s[1..], row));
      }
    }
  }

  /** Filtering keeps the points distinct. */
  lemma {:induction false} OutsideRowNoDup(s: seq<Point>, row: int)
    requires NoDup(s)
    ensures NoDup(OutsideRow(s, row))
  {
    if |s| > 0 {
      assert s == [s[0]] + s[1..];
      OutsideRowNoDup(s[1..], row);
      if s[0].row != row as real {
        assert s[0] !in s[1..];
        assert s[0] !in OutsideRow(s[1..], row);
      }
    }
  }

  /** How many of the points lie in the given row. */
  function CountInRow(s: seq<Point>, row: int): (n: nat)
    ensures n <= |s|
    ensures n == 0 <==> forall p :: p in s ==> p.row != row as real
  {
    if |s| == 0 then 0
    else
      assert forall p :: p in s <==> p == s[0] || p in s[1..];
      (if s[0].row == row as real then 1 else 0) + CountInRow(s[1..], row)
  }

  /** One fragment per group: BROKEN_PIECE_COLOR, the group's squares, and
      the group's first square as the center. */
  function Fragments(groups: seq<seq<Point>>): (pieces: seq<Block>)
    requires forall i :: 0 <= i < |groups| ==> |groups[i]| > 0
    ensures |pieces| == |groups|
    ensures forall i :: 0 <= i < |groups| ==> pieces[i] == Block(BrokenColor, groups[i], groups[i][0])
    ensures AllSquares(pieces) == Flatten(groups)
  {
    if |groups| == 0 then []
    else [Block(BrokenColor, groups[0], groups[0][0])] + Fragments(groups[1..])
  }

  /** Block.remove_row: drop the squares in `row`, group what is left with
      find_connected_groups and make a fragment of each group. */
  method RemoveRow(b: Block, row: int) returns (pieces: seq<Block>)
    requires NoDup(b.squares)
    ensures forall i :: 0 <= i < |pieces| ==>
      && pieces[i].color == BrokenColor
      && |pieces[i].squares| > 0
      && pieces[i].center == pieces[i].squares[0]
    ensures forall i :: 0 <= i < |pieces| ==> NoDup(pieces[i].squares) && Connected(pieces[i].squares)
    ensures multiset(AllSquares(pieces)) == multiset(OutsideRow(b.squares, row))
    ensures forall i, p :: 0 <= i < |pieces| && p in pieces[i].squares ==> p in b.squares
    ensures forall i, p :: 0 <= i < |pieces| && p in pieces[i].squares ==> p.row != row as real
    ensures forall i, j, p :: 0 <= i < |pieces| && 0 <= j < |pieces| && p in pieces[i].squares && p in pieces[j].squares ==> i == j
    ensures CountInRow(b.squares, row) == |b.squares| ==> pieces == []
  {
    var rest := OutsideRow(b.squares, row);
    OutsideRowNoDup(b.squares, row);
    var groups := FindConnectedGroups(rest);
    pieces := Fragments(groups);
    forall i, p | 0 <= i < |pieces| && p in pieces[i].squares
      ensures p in rest
    {
      InFlatten(groups, i, p);
      assert p in multiset(Flatten(groups));
    }
  }

  /** Every element after the first is adjacent to some earlier element. */
  ghost predicate Chained(s: seq<Point>) {
    forall k :: 0 < k < |s| ==> AdjacentToEarlier(s, k)
  }

  ghost predicate AdjacentToEarlier(s: seq<Point>, k: nat)
    requires k < |s|
  {
    exists j :: 0 <= j < k && Adjacent(s[j], s[k])
  }

  lemma {:induction false} ChainedConnected(s: seq<Point>)
    requires Chained(s)
    ensures Connected(s)
  {
    if |s| == 0 {
      SingletonConnectedEmpty();
    } else {
      var init := s[..|s| - 1];
      var last := s[|s| - 1];
      ChainedPrefix(s);
      ChainedConnected(init);
      SingletonConnected(last);
      assert s == init + [last];
      if |s| > 1 {
        assert AdjacentToEarlier(s, |s| - 1);
        var j :| 0 <= j < |s| - 1 && Adjacent(s[j], s[|s| - 1]);
        assert s[j] in init;
        MergeConnected(init, [last], s[j], last);
      }
    }
  }

  lemma ChainedPrefix(s: seq<Point>)
    requires Chained(s) && |s| > 0
    ensures Chained(s[..|s| - 1])
  {
    var init := s[..|s| - 1];
    forall k | 0 < k < |init|
      ensures AdjacentToEarlier(init, k)
    {
      assert AdjacentToEarlier(s, k);
      var j :| 0 <= j < k && Adjacent(s[j], s[k]);
      assert init[j] == s[j] && init[k] == s[k];
    }
  }

  /** Connectedness depends only on which cells are present. */
  lemma ConnectedSameCells(a: seq<Point>, b: seq<Point>)
    requires forall x :: x in a <==> x in b
    requires Connected(a)
    ensures Connected(b)
  {
    forall x, y | x in b && y in b
      ensures Linked(x, y, b)
    {
      var p :| IsPath(p, a) && p[0] == x && p[|p| - 1] == y;
      PathWiden(p, a, b);
    }
  }

  /** A standard piece: four distinct cells on whole-number coordinates,
      connected by orthogonal adjacency. */
  ghost predicate Tetromino(b: Block) {
    && |b.squares| == 4
    && NoDup(b.squares)
    && Connected(b.squares)
    && forall p :: p in b.squares ==> p.row == p.row.Floor as real && p.col == p.col.Floor as real
  }

  /** The cell at whole-number coordinates (row, col). */
  function Cell(row: int, col: int): (p: Point)
    ensures p.row.Floor == row && p.col.Floor == col
  {
    Point(row as real, col as real)
  }

  /** _make_I_block: four cells in the anchor row, columns col-2 .. col+1. */
  function MakeI(row: int, col: int): (b: Block)
    ensures b.color == IColor && Tetromino(b)
    ensures b.squares == [Cell(row, col + 1), Cell(row, col), Cell(row, col - 1), Cell(row, col - 2)]
    ensures b.center == Point(row as real + 0.5, col as real - 0.5)
  {
    var b := Block(IColor, seq(4, i requires 0 <= i < 4 => Cell(row, col - i + 1)), Point(row as real + 0.5, col as real - 0.5));
    assert b.squares == [Cell(row, col + 1), Cell(row, col), Cell(row, col - 1), Cell(row, col - 2)];
    assert Adjacent(b.squares[0], b.squares[1]) && Adjacent(b.squares[1], b.squares[2]) && Adjacent(b.squares[2], b.squares[3]);
    ChainedConnected(b.squares);
    b
  }

  /** The I piece covers exactly the whole-number cells of its row from
      col-2 to col+1. */
  lemma MakeICells(row: int, col: int)
    ensures forall p :: p in MakeI(row, col).squares <==>
      p.row == row as real && (col - 2) as real <= p.col <= (col + 1) as real && p.col == p.col.Floor as real
  {
    var b := MakeI(row, col);
    forall p | p in b.squares
      ensures p.row == row as real && (col - 2) as real <= p.col <= (col + 1) as real && p.col == p.col.Floor as real
    {
      var k :| 0 <= k < 4 && b.squares[k] == p;
      assert p == Cell(row, col + 1 - k);
    }
    forall p: Point | p.row == row as real && (col - 2) as real <= p.col <= (col + 1) as real && p.col == p.col.Floor as real
      ensures p in b.squares
    {
      var c := p.col.Floor;
      assert p == Cell(row, c) && col - 2 <= c <= col + 1;
      if c == col + 1 {
        assert p == b.squares[0];
      } else if c == col {
        assert p == b.squares[1];
      } else if c == col - 1 {
        assert p == b.squares[2];
      } else {
        assert p == b.squares[3];
      }
    }
  }


  /** _make_O_block: a 2x2 square with the anchor at its lower right. The
      center is built from the anchor row twice, as in the source. */
  function MakeO(row: int, col: int): (b: Block)
    ensures b.color == OColor && Tetromino(b)
    ensures forall p :: p in b.squares <==> p in [Cell(row, col), Cell(row, col - 1), Cell(row - 1, col), Cell(row - 1, col - 1)]
    ensures b.center == Point(row as real - 0.5, row as real - 0.5)
  {
    var b := Block(OColor, [Cell(row, col), Cell(row, col - 1), Cell(row - 1, col), Cell(row - 1, col - 1)],
                   Point(row as real - 0.5, row as real - 0.5));
    assert Adjacent(b.squares[0], b.squares[1]) && Adjacent(b.squares[0], b.squares[2]) && Adjacent(b.squares[2], b.squares[3]);
    ChainedConnected(b.squares);
    b
  }

  /** The clockwise quarter turn of an O piece about its center maps its
      squares onto themselves exactly when the anchor row and column agree,
      because only then is the center built from the row twice the middle
      of the 2x2 square. */
  lemma MakeOTurnsInPlaceIffDiagonal(row: int, col: int)
    ensures Equal(Rotate(MakeO(row, col), true), MakeO(row, col)) <==> row == col
  {
    var o := MakeO(row, col);
    var t := Rotate(o, true);
    MakeOTurned(row, col);
    if row == col {
      forall p
        ensures p in Positions(t) <==> p in Positions(o)
      {
        assert t.squares == [o.squares[1], o.squares[3], o.squares[0], o.squares[2]];
      }
      assert Positions(t) == Positions(o);
    } else if col != row - 1 {
      assert t.squares[0] in Positions(t);
      assert t.squares[0] !in Positions(o);
    } else {
      assert t.squares[1] in Positions(t);
      assert t.squares[1] !in Positions(o);
    }
  }

  /** Where the clockwise turn of an O piece puts its four squares. */
  lemma MakeOTurned(row: int, col: int)
    ensures var t := Rotate(MakeO(row, col), true);
      && t.center == MakeO(row, col).center
      && t.squares == [Point(col as real, row as real - 1.0), Point(col as real - 1.0, row as real - 1.0),
                       Point(col as real, row as real), Point(col as real - 1.0, row as real)]
  {
    var o := MakeO(row, col);
    var t := Rotate(o, true);
    assert o.squares == [Cell(row, col), Cell(row, col - 1), Cell(row - 1, col), Cell(row - 1, col - 1)];
  }

  /** _make_T_block: three cells in the anchor row, columns col-1 .. col+1,
      with the fourth cell above the anchor, which is also the center. */
  function MakeT(row: int, col: int): (b: Block)
    ensures b.color == TColor && Tetromino(b)
    ensures b.center == Cell(row, col) && b.center in b.squares
    ensures forall p :: p in b.squares && p != b.center ==> Adjacent(p, b.center)
    ensures forall p :: p in b.squares <==> p in [Cell(row, col + 1), Cell(row, col), Cell(row, col - 1), Cell(row - 1, col)]
  {
    var b := Block(TColor, [Cell(row, col + 1), Cell(row, col), Cell(row, col - 1), Cell(row - 1, col)], Cell(row, col));
    assert Adjacent(b.squares[0], b.squares[1]) && Adjacent(b.squares[1], b.squares[2]) && Adjacent(b.squares[1], b.squares[3]);
    ChainedConnected(b.squares);
    b
  }

  /** _make_S_block: two cells in the anchor row at col and col+1, and two in
      the row above, shifted one column left. */
  function MakeS(row: int, col: int): (b: Block)
    ensures b.color == SColor && Tetromino(b)
    ensures b.center == Cell(row, col) && b.center in b.squares
    ensures forall p :: p in b.squares <==> p in [Cell(row, col + 1), Cell(row, col), Cell(row - 1, col), Cell(row - 1, col - 1)]
  {
    var b := Block(SColor, [Cell(row, col + 1), Cell(row, col), Cell(row - 1, col), Cell(row - 1, col - 1)], Cell(row, col));
    assert Adjacent(b.squares[0], b.squares[1]) && Adjacent(b.squares[1], b.squares[2]) && Adjacent(b.squares[2], b.squares[3]);
    ChainedConnected(b.squares);
    b
  }

  /** _make_Z_block: two cells in the anchor row at col-1 and col, and two in
      the row above, shifted one column right. The source lists the upper
      right cell before its neighbour, so the chain is checked in another
      order. */
  function MakeZ(row: int, col: int): (b: Block)
    ensures b.color == ZColor && Tetromino(b)
    ensures b.center == Cell(row, col) && b.center in b.squares
    ensures forall p :: p in b.squares <==> p in [Cell(row, col), Cell(row, col - 1), Cell(row - 1, col), Cell(row - 1, col + 1)]
  {
    var b := Block(ZColor, [Cell(row, col), Cell(row, col - 1), Cell(row - 1, col + 1), Cell(row - 1, col)], Cell(row, col));
    var chain := [Cell(row, col), Cell(row, col - 1), Cell(row - 1, col), Cell(row - 1, col + 1)];
    assert Adjacent(chain[0], chain[1]) && Adjacent(chain[0], chain[2]) && Adjacent(chain[2], chain[3]);
    ChainedConnected(chain);
    ConnectedSameCells(chain, b.squares);
    b
  }

  /** _make_J_block: three cells in the anchor row, columns col-1 .. col+1,
      with the fourth cell above the right end. */
  function MakeJ(row: int, col: int): (b: Block)
    ensures b.color == JColor && Tetromino(b)
    ensures b.center == Cell(row, col) && b.center in b.squares
    ensures forall p :: p in b.squares <==> p in [Cell(row, col + 1), Cell(row, col), Cell(row, col - 1), Cell(row - 1, col + 1)]
  {
    var b := Block(JColor, [Cell(row, col + 1), Cell(row, col), Cell(row, col - 1), Cell(row - 1, col + 1)], Cell(row, col));
    assert Adjacent(b.squares[0], b.squares[1]) && Adjacent(b.squares[1], b.squares[2]) && Adjacent(b.squares[0], b.squares[3]);
    ChainedConnected(b.squares);
    b
  }

  /** _make_L_block: three cells in the anchor row, columns col-1 .. col+1,
      with the fourth cell above the left end. */
  function MakeL(row: int, col: int): (b: Block)
    ensures b.color == LColor && Tetromino(b)
    ensures b.center == Cell(row, col) && b.center in b.squares
    ensures forall p :: p in b.squares <==> p in [Cell(row, col + 1), Cell(row, col), Cell(row, col - 1), Cell(row - 1, col - 1)]
  {
    var b := Block(LColor, [Cell(row, col + 1), Cell(row, col), Cell(row, col - 1), Cell(row - 1, col - 1)], Cell(row, col));
    assert Adjacent(b.squares[0], b.squares[1]) && Adjacent(b.squares[1], b.squares[2]) && Adjacent(b.squares[2], b.squares[3]);
    ChainedConnected(b.squares);
    b
  }
}
