/** The playing field (board.py): the pieces lying on it, the score, whether
    the game is lost, and the piece the player controls. Rows are numbered
    from 1 at the top to `rows` at the bottom, columns from 1 to `cols`; a
    piece may stick out above row 1 but not past the sides or the bottom. */
module Boards {
  import opened Wrappers
  import opened Points
  import opened Seqs
  import opened Blocks
  import Groups

  // The loops below keep their state in one predicate (FallAllState,
  // Falling, CutState, LinesCleared, RemovedInOrder) and state it as
  // `P(..) == true` in invariants and in the contracts of their step
  // members. The comparison changes nothing logically; it keeps the verifier
  // from splitting the predicate into one goal per conjunct, each of which
  // would otherwise be proved against the whole unfolded state.

  /** Board.NORMAL_SPEED, FAST_SPEED and MAX_SPEED: how many rows a piece
      may fall in one update; MAX_SPEED (0) stands for the board's height. */
  const NormalSpeed: int := 1
  const FastSpeed: int := 2
  const MaxSpeed: int := 0

  /** The board's state. The source holds the controlled piece itself, as an
      object that is also an element of `blocks`; here `main` is its
      position in `blocks`, which is how that object identity is expressed. */
  datatype Board = Board(rows: int, cols: int, blocks: seq<Block>, score: nat, dead: bool, main: Option<nat>)

  /** Calling a move on a board without a controlled piece: in the source
      that is an attribute error on None. */
  datatype BoardError = NoMainBlock

  /** The controlled piece, when there is one, is one of the pieces, and no
      piece lists the same cell twice. */
  predicate WellFormed(bd: Board) {
    && (bd.main.Some? ==> bd.main.value < |bd.blocks|)
    && forall i :: 0 <= i < |bd.blocks| ==> NoDup(bd.blocks[i].squares)
  }

  /** Board.__init__: no pieces, no score, not lost, nothing controlled. */
  function NewBoard(rows: int, cols: int): (bd: Board)
    ensures bd.rows == rows && bd.cols == cols
    ensures bd.blocks == [] && bd.score == 0 && !bd.dead && bd.main.None?
    ensures WellFormed(bd) && Legal(bd)
  {
    Board(rows, cols, [], 0, false, None)
  }

  /** Board.is_inbounds for a point: not below the last row and within the
      columns; there is no upper limit. */
  predicate PointInBounds(bd: Board, p: Point): (r: bool)
    ensures r <==> !(p.row > bd.rows as real) && !(p.col < 1.0) && !(p.col > bd.cols as real)
  {
    p.row <= bd.rows as real && 1.0 <= p.col <= bd.cols as real
  }

  /** Only the bottom bounds the rows: a cell inside stays inside when it
      goes up, and one that goes down was inside if it lands inside; left
      and right steps leave the row alone. */
  lemma PointInBoundsUpward(bd: Board, p: Point)
    ensures PointInBounds(bd, p) ==> PointInBounds(bd, Step(p, Up))
    ensures PointInBounds(bd, Step(p, Down)) ==> PointInBounds(bd, p)
    ensures PointInBounds(bd, p) && !PointInBounds(bd, Step(p, Down)) ==> p.row > bd.rows as real - 1.0
  {
  }

  /** Board.is_inbounds for a piece's squares: no square is out of bounds. */
  function InBounds(bd: Board, s: seq<Point>): (r: bool)
    ensures r <==> forall p :: p in s ==> PointInBounds(bd, p)
  {
    if |s| == 0 then true
    else
      assert forall p :: p in s <==> p == s[0] || p in s[1..];
      PointInBounds(bd, s[0]) && InBounds(bd, s[1..])
  }

  /** Board.has_overlap for a point: a piece other than the one at position
      `ignore` has a square there. */
  function PointOverlaps(blocks: seq<Block>, p: Point, ignore: int): (r: bool)
    ensures r <==> exists j :: 0 <= j < |blocks| && j != ignore && HasSquareAt(blocks[j], p)
  {
    if |blocks| == 0 then false
    else
      var n := |blocks| - 1;
      assert forall j :: 0 <= j < n ==> blocks[..n][j] == blocks[j];
      PointOverlaps(blocks[..n], p, ignore) || (n != ignore && HasSquareAt(blocks[n], p))
  }

  /** Board.has_overlap for a piece at position `i` whose squares are `s`:
      some square lies in another piece. */
  function Overlaps(blocks: seq<Block>, i: int, s: seq<Point>): (r: bool)
    ensures r <==> exists p :: p in s && PointOverlaps(blocks, p, i)
  {
    if |s| == 0 then false
    else
      var rest := Overlaps(blocks, i, s[1..]);
      assert forall p :: p in s <==> p == s[0] || p in s[1..];
      assert rest ==> exists p :: p in s && PointOverlaps(blocks, p, i);
      PointOverlaps(blocks, s[0], i) || rest
  }

  /** The test Board.left and Board.right apply to a moved piece: in bounds
      and clear of every other piece. */
  predicate Fits(bd: Board, i: int, b: Block) {
    InBounds(bd, b.squares) && !Overlaps(bd.blocks, i, b.squares)
  }

  /** No two pieces share a cell. */
  ghost predicate Disjoint(blocks: seq<Block>) {
    forall i, j, p :: 0 <= i < |blocks| && 0 <= j < |blocks| && i != j && p in blocks[i].squares ==> p !in blocks[j].squares
  }

  /** A board a player can reach by moving and dropping pieces that fit:
      every piece in bounds and no two pieces overlapping. */
  ghost predicate Legal(bd: Board) {
    && (forall i :: 0 <= i < |bd.blocks| ==> InBounds(bd, bd.blocks[i].squares))
    && Disjoint(bd.blocks)
  }

  /** Putting a piece that fits in place of piece `i` keeps a board legal. */
  lemma PlaceKeepsLegal(bd: Board, i: int, b: Block)
    requires 0 <= i < |bd.blocks|
    ensures Legal(bd) && Fits(bd, i, b) ==> Legal(bd.(blocks := bd.blocks[i := b]))
  {
    if !(Legal(bd) && Fits(bd, i, b)) {
      return;
    }
    var nb := bd.blocks[i := b];
    forall x, y, p | 0 <= x < |nb| && 0 <= y < |nb| && x != y && p in nb[x].squares
      ensures p !in nb[y].squares
    {
      if x == i {
        assert !PointOverlaps(bd.blocks, p, i);
      } else if y == i {
        assert PointOverlaps(bd.blocks, p, i);
      }
    }
  }

  /** Stepping a piece down moves each square and the center one row down
      and leaves the columns alone. */
  lemma MoveDownRows(b: Block)
    ensures forall j :: 0 <= j < |b.squares| ==> Move(b, Down).squares[j] == Point(b.squares[j].row + 1.0, b.squares[j].col)
    ensures Move(b, Down).center == Point(b.center.row + 1.0, b.center.col)
  {
  }

  /** The cell one row below `p`. */
  function Below(p: Point): Point {
    Point(p.row + 1.0, p.col)
  }

  /** Board.can_fall: the piece at position `i`, moved one row down, would
      be in bounds and clear of the others. The source moves the piece down,
      tests and moves it back up, which restores it (Blocks.MoveRoundTrip). */
  predicate CanFall(bd: Board, i: nat): (r: bool)
    requires i < |bd.blocks|
    ensures r <==> forall p :: p in bd.blocks[i].squares ==> PointInBounds(bd, Below(p)) && !PointOverlaps(bd.blocks, Below(p), i)
  {
    FitsBelowIff(bd, i);
    Fits(bd, i, Move(bd.blocks[i], Down))
  }

  /** The piece moved one row down fits exactly when every cell below one of
      its squares is inside the board and free. */
  lemma FitsBelowIff(bd: Board, i: nat)
    requires i < |bd.blocks|
    ensures Fits(bd, i, Move(bd.blocks[i], Down)) <==>
            forall p :: p in bd.blocks[i].squares ==> PointInBounds(bd, Below(p)) && !PointOverlaps(bd.blocks, Below(p), i)
  {
    var b := bd.blocks[i];
    var probe := Move(b, Down);
    MoveDownRows(b);
    if Fits(bd, i, probe) {
      forall p | p in b.squares
        ensures PointInBounds(bd, Below(p)) && !PointOverlaps(bd.blocks, Below(p), i)
      {
        var j :| 0 <= j < |b.squares| && b.squares[j] == p;
        assert probe.squares[j] == Below(p);
        assert Below(p) in probe.squares;
      }
    }
    if forall p :: p in b.squares ==> PointInBounds(bd, Below(p)) && !PointOverlaps(bd.blocks, Below(p), i) {
      forall q | q in probe.squares
        ensures PointInBounds(bd, q) && !PointOverlaps(bd.blocks, q, i)
      {
        var j :| 0 <= j < |probe.squares| && probe.squares[j] == q;
        assert b.squares[j] in b.squares;
        assert q == Below(b.squares[j]);
      }
    }
  }

  /** A piece that can fall may fall one row without making the board
      illegal. */
  lemma CanFallKeepsLegal(bd: Board, i: nat)
    requires Legal(bd) && i < |bd.blocks| && CanFall(bd, i)
    ensures Legal(bd.(blocks := bd.blocks[i := Move(bd.blocks[i], Down)]))
  {
    PlaceKeepsLegal(bd, i, Move(bd.blocks[i], Down));
  }

  /** Board.left (d = Left) and Board.right (d = Right): step the controlled
      piece; if it then overlaps another piece or leaves the board, step it
      back the opposite way. Nothing else changes. */
  function Slide(bd: Board, d: Dir): (r: Result<Board, BoardError>)
    requires WellFormed(bd) && (d == Left || d == Right)
    ensures r.Failure? <==> bd.main.None?
    ensures r.Success? ==>
      var i := bd.main.value;
      var moved := Move(bd.blocks[i], d);
      r.value == bd.(blocks := bd.blocks[i := if Fits(bd, i, moved) then moved else bd.blocks[i]])
    ensures r.Success? ==> WellFormed(r.value) && (Legal(bd) ==> Legal(r.value))
  {
    match bd.main
    case None => Failure(NoMainBlock)
    case Some(i) =>
      var moved := Move(bd.blocks[i], d);
      var settled := if Overlaps(bd.blocks, i, moved.squares) || !InBounds(bd, moved.squares) then Move(moved, Opposite(d)) else moved;
      SlidePlaced(bd, i, d);
      Success(bd.(blocks := bd.blocks[i := settled]))
  }

  /** Board.left and Board.right move piece `i` back when the move does not
      fit, which leaves it where it was; either way the board stays well
      formed, and legal if it was. */
  lemma SlidePlaced(bd: Board, i: nat, d: Dir)
    requires WellFormed(bd) && i < |bd.blocks|
    ensures var moved := Move(bd.blocks[i], d);
      var settled := if Overlaps(bd.blocks, i, moved.squares) || !InBounds(bd, moved.squares) then Move(moved, Opposite(d)) else moved;
      && settled == (if Fits(bd, i, moved) then moved else bd.blocks[i])
      && WellFormed(bd.(blocks := bd.blocks[i := settled]))
      && (Legal(bd) ==> Legal(bd.(blocks := bd.blocks[i := settled])))
  {
    var b := bd.blocks[i];
    var moved := Move(b, d);
    var settled := if Overlaps(bd.blocks, i, moved.squares) || !InBounds(bd, moved.squares) then Move(moved, Opposite(d)) else moved;
    if Fits(bd, i, moved) {
      assert settled == moved;
      PlaceKeepsLegal(bd, i, moved);
      assert WellFormed(bd.(blocks := bd.blocks[i := moved]));
    } else {
      MoveRoundTrip(b, d);
      assert settled == b;
      assert bd.blocks[i := settled] == bd.blocks;
    }
  }


  /** On a legal board, a slide that moved the piece is undone by a slide
      the opposite way. */
  lemma SlideUndo(bd: Board, d: Dir)
    requires WellFormed(bd) && Legal(bd) && bd.main.Some? && (d == Left || d == Right)
    requires Slide(bd, d).value != bd
    ensures Slide(Slide(bd, d).value, Opposite(d)) == Success(bd)
  {
    var i := bd.main.value;
    var b := bd.blocks[i];
    var moved := Move(b, d);
    var after := Slide(bd, d).value;
    assert Fits(bd, i, moved) && after.blocks[i] == moved;
    MoveRoundTrip(b, d);
    assert Move(moved, Opposite(d)) == b;
    forall p | p in b.squares
      ensures !PointOverlaps(after.blocks, p, i)
    {
      forall j | 0 <= j < |after.blocks| && j != i
        ensures !HasSquareAt(after.blocks[j], p)
      {
        assert after.blocks[j] == bd.blocks[j];
      }
    }
    assert Fits(after, i, b);
    assert after.blocks[i := b] == bd.blocks;
  }

  /** Board.rotate as written: turn the controlled piece; turn it back only
      if it left the board. An overlap with another piece is not checked. */
  function RotateMain(bd: Board, clockwise: bool): (r: Result<Board, BoardError>)
    requires WellFormed(bd)
    ensures r.Failure? <==> bd.main.None?
    ensures r.Success? ==>
      var i := bd.main.value;
      var turned := Rotate(bd.blocks[i], clockwise);
      r.value == bd.(blocks := bd.blocks[i := if InBounds(bd, turned.squares) then turned else bd.blocks[i]])
    ensures r.Success? ==> WellFormed(r.value)
  {
    match bd.main
    case None => Failure(NoMainBlock)
    case Some(i) =>
      var turned := Rotate(bd.blocks[i], clockwise);
      var settled := if !InBounds(bd, turned.squares) then Rotate(turned, !clockwise) else turned;
      RotateRoundTrip(bd.blocks[i], clockwise);
      Success(bd.(blocks := bd.blocks[i := settled]))
  }

  /** Board.rotate as written can push the controlled piece into another: a
      T piece anchored at (row, col), turned clockwise, swings its right arm
      into a single square just below its center, on any board where both
      positions are inside. */
  lemma RotateMainOverlaps(rows: int, cols: int, row: int, col: int)
    requires row + 1 <= rows && 2 <= col && col + 1 <= cols
    ensures var bd := Board(rows, cols, [MakeT(row, col), Block(BrokenColor, [Cell(row + 1, col)], Cell(row + 1, col))], 0, false, Some(0));
            WellFormed(bd) && Legal(bd) && RotateMain(bd, true).Success? && !Legal(RotateMain(bd, true).value)
  {
    var t := MakeT(row, col);
    var loose := Block(BrokenColor, [Cell(row + 1, col)], Cell(row + 1, col));
    var bd := Board(rows, cols, [t, loose], 0, false, Some(0));
    TAboveLooseLegal(rows, cols, row, col);
    MakeTTurned(row, col);
    var turned := Rotate(t, true);
    assert InBounds(bd, turned.squares);
    var after := RotateMain(bd, true).value;
    assert after.blocks[0] == turned && after.blocks[1] == loose;
    assert Cell(row + 1, col) in after.blocks[0].squares && Cell(row + 1, col) in after.blocks[1].squares;
  }

  /** The board of RotateMainOverlaps is well formed and legal. */
  lemma TAboveLooseLegal(rows: int, cols: int, row: int, col: int)
    requires row + 1 <= rows && 2 <= col && col + 1 <= cols
    ensures var bd := Board(rows, cols, [MakeT(row, col), Block(BrokenColor, [Cell(row + 1, col)], Cell(row + 1, col))], 0, false, Some(0));
            WellFormed(bd) && Legal(bd)
  {
    var t := MakeT(row, col);
    assert t.squares == [Cell(row, col + 1), Cell(row, col), Cell(row, col - 1), Cell(row - 1, col)];
  }

  /** Where the clockwise turn of a T piece puts its four squares: the arm
      at the right swings below the center. */
  lemma MakeTTurned(row: int, col: int)
    ensures Rotate(MakeT(row, col), true).squares == [Cell(row + 1, col), Cell(row, col), Cell(row - 1, col), Cell(row, col + 1)]
  {
    var t := MakeT(row, col);
    assert t.squares == [Cell(row, col + 1), Cell(row, col), Cell(row, col - 1), Cell(row - 1, col)];
  }

  /** Board.rotate corrected to test what Board.left and Board.right test:
      the turn is undone when the piece leaves the board or overlaps
      another piece, so a legal board stays legal. */
  function RotateMainChecked(bd: Board, clockwise: bool): (r: Result<Board, BoardError>)
    requires WellFormed(bd)
    ensures r.Failure? <==> bd.main.None?
    ensures r.Success? ==>
      var i := bd.main.value;
      var turned := Rotate(bd.blocks[i], clockwise);
      r.value == bd.(blocks := bd.blocks[i := if Fits(bd, i, turned) then turned else bd.blocks[i]])
    ensures r.Success? ==> WellFormed(r.value) && (Legal(bd) ==> Legal(r.value))
  {
    match bd.main
    case None => Failure(NoMainBlock)
    case Some(i) =>
      var turned := Rotate(bd.blocks[i], clockwise);
      var settled := if Overlaps(bd.blocks, i, turned.squares) || !InBounds(bd, turned.squares) then Rotate(turned, !clockwise) else turned;
      RotateRoundTrip(bd.blocks[i], clockwise);
      PlaceKeepsLegal(bd, i, turned);
      Success(bd.(blocks := bd.blocks[i := settled]))
  }

  /** Board.new_falling_block, for a given piece: append it and make it the
      controlled piece. */
  function Spawn(bd: Board, b: Block): (r: Board)
    requires WellFormed(bd) && NoDup(b.squares)
    ensures |r.blocks| == |bd.blocks| + 1 && r.blocks[..|bd.blocks|] == bd.blocks
    ensures r.main == Some(|bd.blocks|) && r.blocks[r.main.value] == b
    ensures r.score == bd.score && r.dead == bd.dead && r.rows == bd.rows && r.cols == bd.cols
    ensures WellFormed(r)
    ensures Legal(bd) && Fits(bd, |bd.blocks|, b) ==> Legal(r)
  {
    SpawnKeepsLegal(bd, b);
    bd.(blocks := bd.blocks + [b], main := Some(|bd.blocks|))
  }

  lemma SpawnKeepsLegal(bd: Board, b: Block)
    ensures Legal(bd) && Fits(bd, |bd.blocks|, b) ==> Legal(bd.(blocks := bd.blocks + [b], main := Some(|bd.blocks|)))
  {
    if !(Legal(bd) && Fits(bd, |bd.blocks|, b)) {
      return;
    }
    var nb := bd.blocks + [b];
    forall x, y, p | 0 <= x < |nb| && 0 <= y < |nb| && x != y && p in nb[x].squares
      ensures p !in nb[y].squares
    {
      if x == |bd.blocks| {
        assert !PointOverlaps(bd.blocks, p, |bd.blocks|);
        assert nb[y] == bd.blocks[y];
      } else if y == |bd.blocks| {
        assert nb[x] == bd.blocks[x];
        assert PointOverlaps(bd.blocks, p, |bd.blocks|);
      } else {
        assert nb[x] == bd.blocks[x] && nb[y] == bd.blocks[y];
      }
    }
    forall x | 0 <= x < |nb|
      ensures InBounds(bd, nb[x].squares)
    {
      if x < |bd.blocks| {
        assert nb[x] == bd.blocks[x];
      }
    }
  }

  /** The smallest row of a nonempty list of squares. */
  function MinRow(s: seq<Point>): (m: real)
    requires |s| > 0
    ensures exists p :: p in s && p.row == m
    ensures forall p :: p in s ==> m <= p.row
  {
    if |s| == 1 then s[0].row
    else
      var rest := MinRow(s[1..]);
      assert forall p :: p in s <==> p == s[0] || p in s[1..];
      if s[0].row < rest then s[0].row else rest
  }

  /** The landing step at the end of Board.update: a controlled piece that
      cannot fall any further is released, and the game is lost exactly when
      one of its squares is at or above the top edge (row 0 or less). */
  function Land(bd: Board): (r: Board)
    requires WellFormed(bd)
    ensures bd.main.Some? && !CanFall(bd, bd.main.value) ==>
      r == bd.(main := None, dead := exists p :: p in bd.blocks[bd.main.value].squares && p.row <= 0.0)
    ensures !(bd.main.Some? && !CanFall(bd, bd.main.value)) ==> r == bd
    ensures WellFormed(r) && (Legal(bd) ==> Legal(r))
  {
    match bd.main
    case Some(i) =>
      if !CanFall(bd, i) then
        var s := bd.blocks[i].squares;
        if |s| == 0 then bd
        else bd.(dead := MinRow(s) <= 0.0, main := None)
      else bd
    case None => bd
  }

  /** A piece taken `k` rows down, one step at a time. */
  function Sink(b: Block, k: nat): (r: Block)
    ensures r.color == b.color && |r.squares| == |b.squares|
    ensures NoDup(b.squares) ==> NoDup(r.squares)
  {
    if k == 0 then b else Move(Sink(b, k - 1), Down)
  }

  /** Taking a piece `k` rows down adds `k` to the row of every square and
      of the center and leaves the columns alone. */
  lemma {:induction false} SinkRows(b: Block, k: nat)
    ensures forall j :: 0 <= j < |b.squares| ==> Sink(b, k).squares[j] == Point(b.squares[j].row + k as real, b.squares[j].col)
    ensures Sink(b, k).center == Point(b.center.row + k as real, b.center.col)
  {
    if k > 0 {
      var up := Sink(b, k - 1);
      SinkRows(b, k - 1);
      forall j | 0 <= j < |b.squares|
        ensures Sink(b, k).squares[j] == Point(b.squares[j].row + k as real, b.squares[j].col)
      {
        assert Sink(b, k).squares[j] == Step(up.squares[j], Down);
      }
      assert Sink(b, k).center == Step(up.center, Down);
    }
  }

  /** A count that Python's range() would iterate: negative counts give an
      empty range. */
  function Max0(n: int): nat {
    if n < 0 then 0 else n
  }

  /** The board with piece `i` taken `k` rows down and the others where
      they are. */
  function Sunk(bd: Board, i: nat, k: nat): (r: Board)
    requires i < |bd.blocks|
    ensures r == bd.(blocks := r.blocks) && |r.blocks| == |bd.blocks|
    ensures r.blocks[i] == Sink(bd.blocks[i], k)
    ensures forall j :: 0 <= j < |bd.blocks| && j != i ==> r.blocks[j] == bd.blocks[j]
  {
    bd.(blocks := bd.blocks[i := Sink(bd.blocks[i], k)])
  }

  /** The fall step of Board.update: each piece in turn, in list order,
      falls one row at a time while it can, at most `falls` times; each test
      sees the pieces as they stand at that moment. `drops` says how far each
      piece went and `stages` the board before each piece's turn. */
  method FallAll(bd: Board, falls: int) returns (r: Board, drops: seq<nat>, ghost stages: seq<Board>)
    requires WellFormed(bd)
    ensures Fell(bd, falls, r, drops, stages)
    ensures r == bd.(blocks := r.blocks)
    ensures |r.blocks| == |bd.blocks| && |drops| == |bd.blocks|
    ensures forall i :: 0 <= i < |bd.blocks| ==> drops[i] <= Max0(falls) && r.blocks[i] == Sink(bd.blocks[i], drops[i])
    ensures WellFormed(r) && (Legal(bd) ==> Legal(r))
  {
    r := bd;
    drops := [];
    stages := [bd];
    var i := 0;
    while i < |bd.blocks|
      invariant i <= |bd.blocks| && FallAllState(bd, falls, i, r, drops, stages) == true
    {
      r, drops, stages := FallTurn(bd, falls, i, r, drops, stages);
      i := i + 1;
    }
  }

  /** The state of FallAll's loop once the first `i` pieces had their turn. */
  ghost predicate FallAllState(bd: Board, falls: int, i: nat, r: Board, drops: seq<nat>, stages: seq<Board>) {
    && i <= |bd.blocks| && |drops| == i
    && r == bd.(blocks := r.blocks) && |r.blocks| == |bd.blocks|
    && (forall j :: 0 <= j < i ==> drops[j] <= Max0(falls) && r.blocks[j] == Sink(bd.blocks[j], drops[j]))
    && (forall j :: i <= j < |bd.blocks| ==> r.blocks[j] == bd.blocks[j])
    && WellFormed(r) && (Legal(bd) ==> Legal(r))
    && FellSoFar(bd, falls, i, r, drops, stages)
  }

  /** Piece `i`'s turn in FallAll's loop. */
  method FallTurn(bd: Board, falls: int, i: nat, r: Board, drops: seq<nat>, ghost stages: seq<Board>)
    returns (r': Board, drops': seq<nat>, ghost stages': seq<Board>)
    requires WellFormed(bd) && i < |bd.blocks| && FallAllState(bd, falls, i, r, drops, stages)
    ensures FallAllState(bd, falls, i + 1, r', drops', stages') == true
  {
    var d;
    r', d := FallPiece(r, i, falls);
    assert FallStage(r, r', i, d, falls);
    FallAllStep(bd, falls, i, r, drops, stages, r', d);
    drops' := drops + [d];
    stages' := stages + [r'];
  }

  /** Piece `i`'s turn extends FallAll's loop state by one stage. */
  lemma FallAllStep(bd: Board, falls: int, i: nat, r: Board, drops: seq<nat>, stages: seq<Board>, r': Board, d: nat)
    requires i < |bd.blocks| && FallAllState(bd, falls, i, r, drops, stages)
    requires FallStage(r, r', i, d, falls) && WellFormed(r') && (Legal(r) ==> Legal(r'))
    ensures FallAllState(bd, falls, i + 1, r', drops + [d], stages + [r']) == true
  {
    FellStep(bd, falls, i, r, drops, stages, r', d);
  }

  /** One piece's turn in the fall step: piece `i` sinks `d` rows, at most
      `falls`, one row at a time while it could fall from where it stood,
      and stops early only when it can fall no further. */
  ghost predicate FallStage(before: Board, after: Board, i: nat, d: nat, falls: int) {
    && i < |before.blocks|
    && after == Sunk(before, i, d)
    && d <= Max0(falls)
    && (forall k :: 0 <= k < d ==> CanFall(Sunk(before, i, k), i))
    && (d < Max0(falls) ==> !CanFall(after, i))
  }

  /** A piece's turn has only one outcome: how far it falls is fixed by
      where it is blocked, so no piece can pass through another. */
  lemma FallStageDetermined(before: Board, i: nat, falls: int, a1: Board, d1: nat, a2: Board, d2: nat)
    requires FallStage(before, a1, i, d1, falls) && FallStage(before, a2, i, d2, falls)
    ensures d1 == d2 && a1 == a2
  {
  }

  /** The first `i` turns of the fall step, from `bd` to `r`. */
  ghost predicate FellSoFar(bd: Board, falls: int, i: nat, r: Board, drops: seq<nat>, stages: seq<Board>) {
    && |drops| == i && |stages| == i + 1
    && stages[0] == bd && stages[i] == r
    && forall j :: 0 <= j < i ==> FallStage(stages[j], stages[j + 1], j, drops[j], falls)
  }

  /** The whole fall step: every piece of `bd` has had its turn. */
  ghost predicate Fell(bd: Board, falls: int, r: Board, drops: seq<nat>, stages: seq<Board>) {
    FellSoFar(bd, falls, |bd.blocks|, r, drops, stages)
  }

  lemma FellStep(bd: Board, falls: int, i: nat, r: Board, drops: seq<nat>, stages: seq<Board>, r': Board, d: nat)
    requires FellSoFar(bd, falls, i, r, drops, stages) && FallStage(r, r', i, d, falls)
    ensures FellSoFar(bd, falls, i + 1, r', drops + [d], stages + [r']) == true
  {
    var stages' := stages + [r'];
    var drops' := drops + [d];
    forall j | 0 <= j < i + 1
      ensures FallStage(stages'[j], stages'[j + 1], j, drops'[j], falls)
    {
      if j < i {
        assert stages'[j] == stages[j] && stages'[j + 1] == stages[j + 1] && drops'[j] == drops[j];
      }
    }
  }

  /** `if self.can_fall(bl): bl.down()` for the piece at position `i`. */
  method FallOnce(bd: Board, i: nat) returns (r: Board, fell: bool)
    requires WellFormed(bd) && i < |bd.blocks|
    ensures fell == CanFall(bd, i)
    ensures r == if fell then bd.(blocks := bd.blocks[i := Move(bd.blocks[i], Down)]) else bd
    ensures WellFormed(r) && (Legal(bd) ==> Legal(r))
  {
    fell := CanFall(bd, i);
    r := bd;
    if fell {
      if Legal(bd) {
        CanFallKeepsLegal(bd, i);
      }
      r := bd.(blocks := bd.blocks[i := Move(bd.blocks[i], Down)]);
    }
  }

  /** One piece's share of the fall step: `for _ in range(falls)`, falling
      one row whenever Board.can_fall allows it. Once it is blocked nothing
      moves, so it falls fewer than `falls` rows only when it ends blocked. */
  method FallPiece(bd: Board, i: nat, falls: int) returns (r: Board, d: nat)
    requires WellFormed(bd) && i < |bd.blocks|
    ensures r == Sunk(bd, i, d)
    ensures d <= Max0(falls)
    ensures forall k :: 0 <= k < d ==> CanFall(Sunk(bd, i, k), i)
    ensures d < Max0(falls) ==> !CanFall(r, i)
    ensures WellFormed(r) && (Legal(bd) ==> Legal(r))
  {
    r := bd;
    d := 0;
    var k := 0;
    while k < falls
      invariant Falling(bd, i, falls, k, r, d) == true
    {
      r, d := FallTick(bd, i, falls, k, r, d);
      k := k + 1;
    }
  }

  /** The state of FallPiece's loop after `k` rounds: the piece has sunk
      `d <= k` rows, each from a place it could fall from, and if it missed a
      round it is now blocked. */
  ghost predicate Falling(bd: Board, i: nat, falls: int, k: nat, r: Board, d: nat) {
    && i < |bd.blocks|
    && d <= k <= Max0(falls)
    && r == Sunk(bd, i, d)
    && (forall k' :: 0 <= k' < d ==> CanFall(Sunk(bd, i, k'), i))
    && (d < k ==> !CanFall(r, i))
    && WellFormed(r) && (Legal(bd) ==> Legal(r))
  }

  /** One round of FallPiece's loop. */
  method FallTick(bd: Board, i: nat, falls: int, k: nat, r: Board, d: nat) returns (r': Board, d': nat)
    requires WellFormed(bd) && k < falls && Falling(bd, i, falls, k, r, d)
    ensures Falling(bd, i, falls, k + 1, r', d') == true
  {
    var fell;
    r', fell := FallOnce(r, i);
    if fell {
      d' := d + 1;
      FallingDown(bd, i, falls, k, r, d, r');
    } else {
      d' := d;
      FallingBlocked(bd, i, falls, k, r, d);
    }
  }

  /** A round in which the piece could fall takes it one row further. */
  lemma FallingDown(bd: Board, i: nat, falls: int, k: nat, r: Board, d: nat, r': Board)
    requires k < falls && Falling(bd, i, falls, k, r, d) && CanFall(r, i)
    requires r' == r.(blocks := r.blocks[i := Move(r.blocks[i], Down)])
    requires WellFormed(r') && (Legal(r) ==> Legal(r'))
    ensures Falling(bd, i, falls, k + 1, r', d + 1) == true
  {
    assert r' == Sunk(bd, i, d + 1);
    forall k' | 0 <= k' < d + 1
      ensures CanFall(Sunk(bd, i, k'), i)
    {
      if k' == d {
        assert Sunk(bd, i, k') == r;
      }
    }
  }

  /** A round in which the piece is blocked changes nothing. */
  lemma FallingBlocked(bd: Board, i: nat, falls: int, k: nat, r: Board, d: nat)
    requires k < falls && Falling(bd, i, falls, k, r, d) && !CanFall(r, i)
    ensures Falling(bd, i, falls, k + 1, r, d) == true
  {
  }

  /** The squares of the pieces, piece after piece, are exactly the squares
      some piece has. */
  lemma {:induction false} InAllSquares(blocks: seq<Block>, p: Point)
    ensures p in AllSquares(blocks) <==> exists j :: 0 <= j < |blocks| && p in blocks[j].squares
  {
    if |blocks| > 0 {
      InAllSquares(blocks[1..], p);
      assert AllSquares(blocks) == blocks[0].squares + AllSquares(blocks[1..]);
      if p in AllSquares(blocks[1..]) {
        var j :| 0 <= j < |blocks[1..]| && p in blocks[1..][j].squares;
        assert blocks[j + 1] == blocks[1..][j];
      }
      if j :| 0 < j < |blocks| && p in blocks[j].squares {
        assert blocks[1..][j - 1] == blocks[j];
      }
    }
  }

  lemma AllSquaresPrefix(blocks: seq<Block>, i: nat)
    requires i < |blocks|
    ensures AllSquares(blocks[..i + 1]) == AllSquares(blocks[..i]) + blocks[i].squares
  {
    assert blocks[..i + 1] == blocks[..i] + [blocks[i]];
    AllSquaresAppend(blocks[..i], [blocks[i]]);
    assert AllSquares([blocks[i]]) == blocks[i].squares + AllSquares([]);
  }

  /** `after` holds every point of `before` as often as `before` does, except
      that points in a row of `gone` are not there at all. */
  ghost predicate Cleared(before: seq<Point>, after: seq<Point>, gone: set<real>) {
    forall p :: multiset(after)[p] == if p.row in gone then 0 else multiset(before)[p]
  }

  lemma ClearedAppend(b0: seq<Point>, a0: seq<Point>, b1: seq<Point>, a1: seq<Point>, gone: set<real>)
    requires Cleared(b0, a0, gone) && Cleared(b1, a1, gone)
    ensures Cleared(b0 + b1, a0 + a1, gone)
  {
    assert multiset(b0 + b1) == multiset(b0) + multiset(b1);
    assert multiset(a0 + a1) == multiset(a0) + multiset(a1);
  }

  /** On a legal board, a piece shares no cell with the pieces before it. */
  lemma LaterNotEarlier(bd: Board, i: nat)
    requires Disjoint(bd.blocks) && i < |bd.blocks|
    ensures forall p :: p in bd.blocks[i].squares ==> p !in AllSquares(bd.blocks[..i])
  {
    forall p | p in bd.blocks[i].squares
      ensures p !in AllSquares(bd.blocks[..i])
    {
      InAllSquares(bd.blocks[..i], p);
      forall j | 0 <= j < i
        ensures p !in bd.blocks[..i][j].squares
      {
        assert bd.blocks[..i][j] == bd.blocks[j];
      }
    }
  }

  /** Appending pieces that share no cell with what is already there, and
      none with each other, keeps a list of pieces disjoint. */
  lemma ExtendDisjoint(earlier: seq<Point>, kept: seq<Block>, added: seq<Block>)
    requires Disjoint(kept) && Disjoint(added)
    requires forall a, p :: 0 <= a < |kept| && p in kept[a].squares ==> p in earlier
    requires forall a, p :: 0 <= a < |added| && p in added[a].squares ==> p !in earlier
    ensures Disjoint(kept + added)
  {
    var all := kept + added;
    forall x, y, p | 0 <= x < |all| && 0 <= y < |all| && x != y && p in all[x].squares
      ensures p !in all[y].squares
    {
      if x < |kept| && y < |kept| {
        assert all[x] == kept[x] && all[y] == kept[y];
      } else if x >= |kept| && y >= |kept| {
        assert all[x] == added[x - |kept|] && all[y] == added[y - |kept|];
        assert p in added[x - |kept|].squares;
      } else if x < |kept| {
        assert all[x] == kept[x] && all[y] == added[y - |kept|];
        assert p in earlier;
      } else {
        assert all[x] == added[x - |kept|] && all[y] == kept[y];
        assert p !in earlier;
      }
    }
  }

  /** What the pieces `added` in place of `b` when `row` is removed must
      satisfy: together they hold the squares of `b` outside the row, each
      lists its cells once, and no two share a cell. */
  ghost predicate CutOf(b: Block, row: int, added: seq<Block>) {
    && Cleared(b.squares, AllSquares(added), {row as real})
    && (forall a :: 0 <= a < |added| ==> NoDup(added[a].squares))
    && (forall a, p :: 0 <= a < |added| && p in added[a].squares ==> p in b.squares)
    && Disjoint(added)
  }

  /** Block.remove_row kept a piece whole (its first fragment has all its
      squares) only when the piece had no square in the row. */
  lemma KeptWhole(b: Block, row: int, pieces: seq<Block>)
    requires NoDup(b.squares)
    requires |pieces| > 0 && |pieces[0].squares| == |b.squares|
    requires multiset(AllSquares(pieces)) == multiset(OutsideRow(b.squares, row))
    ensures CountInRow(b.squares, row) == 0
    ensures CutOf(b, row, [b])
  {
    assert AllSquares(pieces) == pieces[0].squares + AllSquares(pieces[1..]);
    assert |multiset(AllSquares(pieces))| == |AllSquares(pieces)|;
    assert AllSquares([b]) == b.squares + AllSquares([]);
    forall p
      ensures multiset(b.squares)[p] == if p.row in {row as real} then 0 else multiset(b.squares)[p]
    {
      if p.row == row as real {
        assert p !in b.squares;
      }
    }
  }

  /** The fragments Block.remove_row returns are a cut of the piece. */
  lemma CutOfParts(b: Block, row: int, pieces: seq<Block>)
    requires Cleared(b.squares, AllSquares(pieces), {row as real})
    requires forall i :: 0 <= i < |pieces| ==> NoDup(pieces[i].squares)
    requires forall a, p :: 0 <= a < |pieces| && p in pieces[a].squares ==> p in b.squares
    requires Disjoint(pieces)
    ensures CutOf(b, row, pieces)
  {
  }

  lemma OutsideRowCleared(s: seq<Point>, t: seq<Point>, row: int)
    requires multiset(t) == multiset(OutsideRow(s, row))
    ensures Cleared(s, t, {row as real})
  {
    OutsideRowCounts(s, row);
    forall p
      ensures multiset(t)[p] == if p.row in {row as real} then 0 else multiset(s)[p]
    {
      assert multiset(t)[p] == multiset(OutsideRow(s, row))[p];
    }
  }

  lemma DisjointByIndex(pieces: seq<Block>)
    requires forall i, j, p :: 0 <= i < |pieces| && 0 <= j < |pieces| && p in pieces[i].squares && p in pieces[j].squares ==> i == j
    ensures Disjoint(pieces)
  {
  }

  /** What Board.remove_line puts in place of piece `b`: the piece itself
      (only possible when it has no square in the row), or else the broken,
      non-empty fragments Block.remove_row made of it; the piece is replaced
      only when it met the row or did not come back as exactly one
      fragment. Either way the row's squares are gone and the others kept,
      and every fragment is a connected piece turning about its first
      square. */
  ghost predicate PieceCut(b: Block, row: int, added: seq<Block>) {
    && CutOf(b, row, added)
    && (added == [b] ==> CountInRow(b.squares, row) == 0)
    && (added != [b] ==> Broken(added))
    && (added != [b] ==> CountInRow(b.squares, row) > 0 || |added| != 1)
  }

  /** Fragments as Block.remove_row makes them: broken colour, not empty,
      connected, and turning about their first square. */
  ghost predicate Broken(pieces: seq<Block>) {
    forall a :: 0 <= a < |pieces| ==>
      && pieces[a].color == BrokenColor
      && |pieces[a].squares| > 0
      && pieces[a].center == pieces[a].squares[0]
      && Groups.Connected(pieces[a].squares)
  }

  /** The body of Board.remove_line's loop for one piece: cut it with
      Block.remove_row and keep it `whole` when the first fragment has all
      its squares, otherwise hand back the fragments. */
  method CutPiece(b: Block, row: int) returns (added: seq<Block>, whole: bool)
    requires NoDup(b.squares)
    ensures PieceCut(b, row, added)
    ensures whole <==> added == [b]
  {
    var pieces := RemoveRow(b, row);
    whole := |pieces| > 0 && |pieces[0].squares| == |b.squares|;
    if whole {
      KeptWhole(b, row, pieces);
      added := [b];
    } else {
      OutsideRowCleared(b.squares, AllSquares(pieces), row);
      DisjointByIndex(pieces);
      CutOfParts(b, row, pieces);
      added := pieces;
      if |pieces| == 1 {
        assert AllSquares(pieces) == pieces[0].squares + AllSquares(pieces[1..]);
        assert |multiset(AllSquares(pieces))| == |pieces[0].squares|;
        assert CountInRow(b.squares, row) > 0;
      }
    }
  }

  /** The loop state of Board.remove_line after the first `i` pieces: `kept`
      holds their squares outside the row, each piece listing its cells
      once. */
  ghost predicate Gathered(bd: Board, i: nat, kept: seq<Block>, row: int)
    requires i <= |bd.blocks|
  {
    && Cleared(AllSquares(bd.blocks[..i]), AllSquares(kept), {row as real})
    && (forall a :: 0 <= a < |kept| ==> NoDup(kept[a].squares))
    && (forall a, p :: 0 <= a < |kept| && p in kept[a].squares ==> p in AllSquares(bd.blocks[..i]))
  }

  lemma GatherStep(bd: Board, i: nat, kept: seq<Block>, added: seq<Block>, row: int)
    requires i < |bd.blocks| && Gathered(bd, i, kept, row) && CutOf(bd.blocks[i], row, added)
    ensures Gathered(bd, i + 1, kept + added, row)
  {
    var bl := bd.blocks[i];
    AllSquaresPrefix(bd.blocks, i);
    ClearedAppend(AllSquares(bd.blocks[..i]), AllSquares(kept), bl.squares, AllSquares(added), {row as real});
    AllSquaresAppend(kept, added);
    var all := kept + added;
    forall a | 0 <= a < |all|
      ensures NoDup(all[a].squares)
    {
      if a < |kept| {
        assert all[a] == kept[a];
      } else {
        assert all[a] == added[a - |kept|];
      }
    }
    forall a, p | 0 <= a < |all| && p in all[a].squares
      ensures p in AllSquares(bd.blocks[..i + 1])
    {
      if a < |kept| {
        assert all[a] == kept[a];
      } else {
        assert all[a] == added[a - |kept|];
      }
    }
  }

  /** Board.remove_line: every piece is cut by Block.remove_row; a piece
      whose first fragment still has all its squares is kept as it is, any
      other is replaced by its fragments (none if it lay wholly in the row).
      The score goes up by one. The controlled piece keeps its identity
      exactly when it is kept as it is. `parts` says what replaced each
      piece. */
  method RemoveLine(bd: Board, row: int) returns (r: Board, parts: seq<seq<Block>>)
    requires WellFormed(bd)
    ensures LineRemoved(bd, row, parts, r)
    ensures WellFormed(r)
    ensures Cleared(AllSquares(bd.blocks), AllSquares(r.blocks), {row as real})
    ensures bd.main.Some? && CountInRow(bd.blocks[bd.main.value].squares, row) > 0 ==> r.main.None?
    ensures Legal(bd) ==> Legal(r)
  {
    var kept, main;
    kept, main, parts := CutAll(bd, row);
    r := bd.(blocks := kept, score := bd.score + 1, main := main);
    KeptInBounds(bd, kept, row);
  }

  /** The effect of Board.remove_line on `bd`: piece `j` is replaced by
      `parts[j]`, in order, the score goes up by one, and the controlled
      piece is kept, as the same piece, exactly when it was kept whole. */
  ghost predicate LineRemoved(bd: Board, row: int, parts: seq<seq<Block>>, r: Board)
    requires WellFormed(bd)
  {
    && |parts| == |bd.blocks|
    && (forall j :: 0 <= j < |parts| ==> PieceCut(bd.blocks[j], row, parts[j]))
    && r == bd.(blocks := Flatten(parts), score := bd.score + 1, main := r.main)
    && (r.main.Some? ==> bd.main.Some? && r.main.value < |r.blocks| && r.blocks[r.main.value] == bd.blocks[bd.main.value])
    && (bd.main.Some? ==> (r.main.Some? <==> parts[bd.main.value] == [bd.blocks[bd.main.value]]))
  }

  /** Board.remove_line's loop: the pieces that replace those of `bd`, what
      replaced each one, and where the controlled piece ended up among them,
      if it was kept. */
  method CutAll(bd: Board, row: int) returns (kept: seq<Block>, main: Option<nat>, parts: seq<seq<Block>>)
    requires WellFormed(bd)
    ensures Gathered(bd, |bd.blocks|, kept, row)
    ensures |parts| == |bd.blocks| && kept == Flatten(parts)
    ensures main.Some? ==> main.value < |kept| && bd.main.Some? && kept[main.value] == bd.blocks[bd.main.value]
    ensures bd.main.Some? ==> (main.Some? <==> parts[bd.main.value] == [bd.blocks[bd.main.value]])
    ensures forall j :: 0 <= j < |parts| ==> PieceCut(bd.blocks[j], row, parts[j])
    ensures Disjoint(bd.blocks) ==> Disjoint(kept)
  {
    kept := [];
    main := None;
    parts := [];
    CutStart(bd, row);
    var i := 0;
    while i != |bd.blocks|
      invariant i <= |bd.blocks| && CutState(bd, row, i, kept, main, parts) == true
      decreases |bd.blocks| - i
    {
      kept, main, parts := CutTurn(bd, i, kept, main, parts, row);
      i := i + 1;
    }
    CutDone(bd, row, kept, main, parts);
    if Disjoint(bd.blocks) {
      CutApart(bd, row, kept, main, parts);
    }
  }

  /** Pieces cut from pieces that share no cell share none either. */
  lemma CutApart(bd: Board, row: int, kept: seq<Block>, main: Option<nat>, parts: seq<seq<Block>>)
    requires Disjoint(bd.blocks) && CutState(bd, row, |bd.blocks|, kept, main, parts) == true
    ensures Disjoint(kept)
  {
    assert parts[..|parts|] == parts;
    PartsDisjoint(bd, row, parts, |parts|);
  }

  /** The pieces that replace the first `k` pieces of a board whose pieces
      share no cell share no cell, and lie within those `k` pieces. */
  lemma {:induction false} PartsDisjoint(bd: Board, row: int, parts: seq<seq<Block>>, k: nat)
    requires k <= |bd.blocks| && k <= |parts| && Disjoint(bd.blocks)
    requires forall j :: 0 <= j < k ==> CutOf(bd.blocks[j], row, parts[j])
    ensures Disjoint(Flatten(parts[..k]))
    ensures forall a, p :: 0 <= a < |Flatten(parts[..k])| && p in Flatten(parts[..k])[a].squares ==> p in AllSquares(bd.blocks[..k])
  {
    if k == 0 {
      assert parts[..0] == [];
    } else {
      PartsDisjoint(bd, row, parts, k - 1);
      var kept := Flatten(parts[..k - 1]);
      var added := parts[k - 1];
      FlattenPrefix(parts, k);
      LaterNotEarlier(bd, k - 1);
      AllSquaresPrefix(bd.blocks, k - 1);
      ExtendDisjoint(AllSquares(bd.blocks[..k - 1]), kept, added);
      WithinAppend(kept, added, AllSquares(bd.blocks[..k - 1]), bd.blocks[k - 1].squares);
    }
  }

  /** Pieces within `earlier` followed by pieces within `later` lie within
      the two together. */
  lemma WithinAppend(kept: seq<Block>, added: seq<Block>, earlier: seq<Point>, later: seq<Point>)
    requires forall a, p :: 0 <= a < |kept| && p in kept[a].squares ==> p in earlier
    requires forall a, p :: 0 <= a < |added| && p in added[a].squares ==> p in later
    ensures forall a, p :: 0 <= a < |kept + added| && p in (kept + added)[a].squares ==> p in earlier + later
  {
    var all := kept + added;
    forall a, p | 0 <= a < |all| && p in all[a].squares
      ensures p in earlier + later
    {
      if a < |kept| {
        assert all[a] == kept[a];
      } else {
        assert all[a] == added[a - |kept|];
      }
    }
  }


  lemma CutStart(bd: Board, row: int)
    ensures CutState(bd, row, 0, [], None, []) == true
  {
    assert bd.blocks[..0] == [];
  }

  /** What the loop state says once every piece has been cut. */
  lemma CutDone(bd: Board, row: int, kept: seq<Block>, main: Option<nat>, parts: seq<seq<Block>>)
    requires WellFormed(bd) && CutState(bd, row, |bd.blocks|, kept, main, parts) == true
    ensures Gathered(bd, |bd.blocks|, kept, row)
    ensures |parts| == |bd.blocks| && kept == Flatten(parts)
    ensures main.Some? ==> main.value < |kept| && bd.main.Some? && kept[main.value] == bd.blocks[bd.main.value]
    ensures bd.main.Some? ==> (main.Some? <==> parts[bd.main.value] == [bd.blocks[bd.main.value]])
    ensures forall j :: 0 <= j < |parts| ==> PieceCut(bd.blocks[j], row, parts[j])
  {
  }

  /** The state of Board.remove_line's loop after the first `i` pieces:
      what they gathered, what replaced each, and where the controlled piece
      stands among the gathered pieces. */
  ghost predicate CutState(bd: Board, row: int, i: nat, kept: seq<Block>, main: Option<nat>, parts: seq<seq<Block>>) {
    && i <= |bd.blocks|
    && Gathered(bd, i, kept, row)
    && |parts| == i && kept == Flatten(parts)
    && (forall j :: 0 <= j < i ==> PieceCut(bd.blocks[j], row, parts[j]))
    && (main.Some? ==> main.value < |kept| && bd.main.Some? && bd.main.value < i && kept[main.value] == bd.blocks[bd.main.value])
    && (bd.main.Some? && bd.main.value < i ==> (main.Some? <==> parts[bd.main.value] == [bd.blocks[bd.main.value]]))
  }

  /** Piece `i`'s turn in CutAll's loop. */
  method CutTurn(bd: Board, i: nat, kept: seq<Block>, main: Option<nat>, parts: seq<seq<Block>>, row: int)
    returns (kept': seq<Block>, main': Option<nat>, parts': seq<seq<Block>>)
    requires WellFormed(bd) && i < |bd.blocks|
    requires CutState(bd, row, i, kept, main, parts) == true
    ensures CutState(bd, row, i + 1, kept', main', parts') == true
  {
    var added;
    kept', main', parts', added := CutNext(bd, i, kept, main, parts, row);
  }

  /** One pass of Board.remove_line's loop: piece `i` is cut, and kept as it
      is or replaced by its fragments `added`. */
  method CutNext(bd: Board, i: nat, kept: seq<Block>, main: Option<nat>, parts: seq<seq<Block>>, row: int)
    returns (kept': seq<Block>, main': Option<nat>, parts': seq<seq<Block>>, added: seq<Block>)
    requires WellFormed(bd) && i < |bd.blocks|
    requires CutState(bd, row, i, kept, main, parts) == true
    ensures PieceCut(bd.blocks[i], row, added)
    ensures kept' == kept + added && parts' == parts + [added]
    ensures main' == (if added == [bd.blocks[i]] && bd.main == Some(i) then Some(|kept|) else main)
    ensures CutState(bd, row, i + 1, kept', main', parts') == true
  {
    var whole;
    added, whole := CutPiece(bd.blocks[i], row);
    kept' := kept + added;
    parts' := parts + [added];
    main' := if whole && bd.main == Some(i) then Some(|kept|) else main;
    CutStateStep(bd, row, i, kept, main, parts, added, main');
  }

  lemma CutStateStep(bd: Board, row: int, i: nat, kept: seq<Block>, main: Option<nat>, parts: seq<seq<Block>>,
                     added: seq<Block>, main': Option<nat>)
    requires i < |bd.blocks| && CutState(bd, row, i, kept, main, parts)
    requires PieceCut(bd.blocks[i], row, added)
    requires main' == (if added == [bd.blocks[i]] && bd.main == Some(i) then Some(|kept|) else main)
    ensures CutState(bd, row, i + 1, kept + added, main', parts + [added]) == true
  {
    GatherStep(bd, i, kept, added, row);
    PartsStep(bd, row, i, kept, parts, added);
    TrackStep(bd, row, i, kept, main, parts, added, main');
  }

  lemma PartsStep(bd: Board, row: int, i: nat, kept: seq<Block>, parts: seq<seq<Block>>, added: seq<Block>)
    requires i < |bd.blocks| && |parts| == i && kept == Flatten(parts)
    requires forall j :: 0 <= j < i ==> PieceCut(bd.blocks[j], row, parts[j])
    requires PieceCut(bd.blocks[i], row, added)
    ensures kept + added == Flatten(parts + [added])
    ensures forall j :: 0 <= j < i + 1 ==> PieceCut(bd.blocks[j], row, (parts + [added])[j])
  {
    FlattenAppend(parts, [added]);
    assert Flatten([added]) == added + Flatten([]);
    forall j | 0 <= j < i + 1
      ensures PieceCut(bd.blocks[j], row, (parts + [added])[j]) == true
    {
      if j < i {
        assert (parts + [added])[j] == parts[j];
      } else {
        assert (parts + [added])[j] == added;
      }
    }
  }

  lemma TrackStep(bd: Board, row: int, i: nat, kept: seq<Block>, main: Option<nat>, parts: seq<seq<Block>>,
                  added: seq<Block>, main': Option<nat>)
    requires i < |bd.blocks| && |parts| == i
    requires main.Some? ==> main.value < |kept| && bd.main.Some? && bd.main.value < i && kept[main.value] == bd.blocks[bd.main.value]
    requires bd.main.Some? && bd.main.value < i ==> (main.Some? <==> parts[bd.main.value] == [bd.blocks[bd.main.value]])
    requires main' == (if added == [bd.blocks[i]] && bd.main == Some(i) then Some(|kept|) else main)
    ensures main'.Some? ==> main'.value < |kept + added| && bd.main.Some? && bd.main.value < i + 1 && (kept + added)[main'.value] == bd.blocks[bd.main.value]
    ensures bd.main.Some? && bd.main.value < i + 1 ==> (main'.Some? <==> (parts + [added])[bd.main.value] == [bd.blocks[bd.main.value]])
  {
    if main.Some? {
      assert (kept + added)[main.value] == kept[main.value];
    }
    if added == [bd.blocks[i]] && bd.main == Some(i) {
      assert (kept + added)[|kept|] == bd.blocks[i];
    }
    if bd.main.Some? && bd.main.value < i {
      assert (parts + [added])[bd.main.value] == parts[bd.main.value];
    }
  }

  /** Pieces cut from those of a legal board stay inside it, and between
      them hold the board's squares outside the row. */
  lemma KeptInBounds(bd: Board, kept: seq<Block>, row: int)
    requires Gathered(bd, |bd.blocks|, kept, row) && (Disjoint(bd.blocks) ==> Disjoint(kept))
    ensures Cleared(AllSquares(bd.blocks), AllSquares(kept), {row as real})
    ensures Legal(bd) ==> Legal(bd.(blocks := kept))
  {
    assert bd.blocks[..|bd.blocks|] == bd.blocks;
    if Legal(bd) {
      forall a | 0 <= a < |kept|
        ensures InBounds(bd, kept[a].squares)
      {
        forall p | p in kept[a].squares
          ensures PointInBounds(bd, p)
        {
          InAllSquares(bd.blocks, p);
        }
      }
    }
  }

  /** A completed line in Board.remove_lines: every column 1 .. cols of row
      `x` holds a square of some piece. The source tests this against the
      set of occupied (row - 1, col - 1) pairs, which whole-number cells
      match and other positions never do. */
  predicate IsFull(bd: Board, x: int): (r: bool)
    ensures r <==> forall c :: 1 <= c <= bd.cols ==> exists j :: 0 <= j < |bd.blocks| && Cell(x, c) in bd.blocks[j].squares
  {
    var full := forall c :: 1 <= c <= bd.cols ==> Cell(x, c) in AllSquares(bd.blocks);
    RowOccupied(bd, x);
    assert full <==> (forall c :: 1 <= c <= bd.cols ==> exists j :: 0 <= j < |bd.blocks| && Cell(x, c) in bd.blocks[j].squares);
    full
  }

  /** A cell is among all the squares exactly when some piece has it, row
      by row. */
  lemma RowOccupied(bd: Board, x: int)
    ensures (forall c :: 1 <= c <= bd.cols ==> Cell(x, c) in AllSquares(bd.blocks)) <==>
            (forall c :: 1 <= c <= bd.cols ==> exists j :: 0 <= j < |bd.blocks| && Cell(x, c) in bd.blocks[j].squares)
  {
    if c :| 1 <= c <= bd.cols && Cell(x, c) !in AllSquares(bd.blocks) {
      InAllSquares(bd.blocks, Cell(x, c));
    } else {
      forall c | 1 <= c <= bd.cols
        ensures exists j :: 0 <= j < |bd.blocks| && Cell(x, c) in bd.blocks[j].squares
      {
        InAllSquares(bd.blocks, Cell(x, c));
      }
      assert forall c :: 1 <= c <= bd.cols ==> Cell(x, c) in AllSquares(bd.blocks);
      assert forall c :: 1 <= c <= bd.cols ==> exists j :: 0 <= j < |bd.blocks| && Cell(x, c) in bd.blocks[j].squares;
    }
  }



  /** The rows 1 .. n that are complete, in increasing order: the rows
      Board.remove_lines hands to Board.remove_line, all found before the
      first is removed. */
  function FullRows(bd: Board, n: int): (r: seq<int>)
    ensures forall x :: x in r <==> 1 <= x <= n && IsFull(bd, x)
    ensures forall a, b :: 0 <= a < b < |r| ==> r[a] < r[b]
    ensures forall a :: 0 <= a < |r| ==> 1 <= r[a] <= n
    ensures |r| <= Max0(n)
    decreases Max0(n)
  {
    if n <= 0 then []
    else FullRows(bd, n - 1) + (if IsFull(bd, n) then [n] else [])
  }

  /** The rows of `xs`, as positions. */
  function RowSet(xs: seq<int>): (g: set<real>)
    ensures forall x :: x in xs ==> x as real in g
    ensures forall y :: y in g ==> exists x :: x in xs && y == x as real
  {
    set x | x in xs :: x as real
  }

  /** After the lines `gone` were cleared, no row that was complete in
      `bd` is complete any more, and no row that was not complete has
      become so: so, when the board has columns, no row 1 .. rows is. */
  lemma NoFullRowLeft(bd: Board, r: Board)
    requires r.rows == bd.rows && r.cols == bd.cols && bd.cols >= 1
    requires Cleared(AllSquares(bd.blocks), AllSquares(r.blocks), RowSet(FullRows(bd, bd.rows)))
    ensures forall x :: 1 <= x <= bd.rows ==> !IsFull(r, x)
  {
    var full := FullRows(bd, bd.rows);
    forall x | 1 <= x <= bd.rows
      ensures !IsFull(r, x)
    {
      if x in full {
        assert Cell(x, 1).row in RowSet(full);
        assert multiset(AllSquares(r.blocks))[Cell(x, 1)] == 0;
      } else {
        assert !IsFull(bd, x);
        var c :| 1 <= c <= bd.cols && Cell(x, c) !in AllSquares(bd.blocks);
        assert Cell(x, c).row !in RowSet(full);
        assert multiset(AllSquares(r.blocks))[Cell(x, c)] == 0;
      }
    }
  }

  /** A piece meets one of the rows in `gone`. */
  ghost predicate Meets(s: seq<Point>, gone: set<real>) {
    exists p :: p in s && p.row in gone
  }

  /** Board.remove_lines: find the complete rows, then remove each, from the
      top down, with Board.remove_line. The score goes up by the number of
      such rows, their squares are gone and nothing else is; a controlled
      piece with a square in one of them is given up. `stages` are the
      boards between the removals and `cuts` what each removal put in place
      of each piece. */
  method RemoveLines(bd: Board) returns (r: Board, ghost stages: seq<Board>, ghost cuts: seq<seq<seq<Block>>>)
    requires WellFormed(bd)
    ensures RemovedInOrder(bd, FullRows(bd, bd.rows), stages, cuts, r)
    ensures r == bd.(blocks := r.blocks, score := r.score, main := r.main)
    ensures r.score == bd.score + |FullRows(bd, bd.rows)|
    ensures Cleared(AllSquares(bd.blocks), AllSquares(r.blocks), RowSet(FullRows(bd, bd.rows)))
    ensures bd.cols >= 1 ==> forall x :: 1 <= x <= bd.rows ==> !IsFull(r, x)
    ensures WellFormed(r) && (Legal(bd) ==> Legal(r))
    ensures r.main.Some? ==> bd.main.Some? && r.blocks[r.main.value] == bd.blocks[bd.main.value]
    ensures bd.main.Some? && Meets(bd.blocks[bd.main.value].squares, RowSet(FullRows(bd, bd.rows))) ==> r.main.None?
  {
    r, stages, cuts := RemoveEach(bd, FullRows(bd, bd.rows));
    if bd.cols >= 1 {
      NoFullRowLeft(bd, r);
    }
  }

  /** Board.remove_line applied to `bd` for each row of `rows` in turn:
      `stages[k]` is the board before row `rows[k]` is removed and `cuts[k]`
      what that removal put in place of each piece; the last stage is `r`. */
  ghost predicate RemovedInOrder(bd: Board, rows: seq<int>, stages: seq<Board>, cuts: seq<seq<seq<Block>>>, r: Board) {
    && |stages| == |rows| + 1 && |cuts| == |rows|
    && stages[0] == bd && stages[|rows|] == r
    && forall k :: 0 <= k < |rows| ==> RemovalStage(stages[k], rows[k], cuts[k], stages[k + 1])
  }

  ghost predicate RemovalStage(before: Board, row: int, parts: seq<seq<Block>>, after: Board) {
    WellFormed(before) && LineRemoved(before, row, parts, after)
  }

  /** Board.remove_lines' loop: Board.remove_line on each row of `rows`, in
      order. */
  method RemoveEach(bd: Board, rows: seq<int>) returns (r: Board, ghost stages: seq<Board>, ghost cuts: seq<seq<seq<Block>>>)
    requires WellFormed(bd)
    ensures LinesCleared(bd, r, rows)
    ensures RemovedInOrder(bd, rows, stages, cuts, r)
  {
    r := bd;
    stages := [bd];
    cuts := [];
    var k := 0;
    while k < |rows|
      invariant 0 <= k <= |rows|
      invariant LinesCleared(bd, r, rows[..k]) == true
      invariant RemovedInOrder(bd, rows[..k], stages, cuts, r) == true
    {
      assert rows[..k + 1] == rows[..k] + [rows[k]];
      r, stages, cuts := RemoveLinesStep(bd, r, rows[..k], rows[k], rows[..k + 1], stages, cuts);
      k := k + 1;
    }
    assert rows[..k] == rows;
    LinesClearedSame(bd, r, rows[..k], rows, stages, cuts);
  }

  lemma LinesClearedSame(bd: Board, r: Board, xs: seq<int>, ys: seq<int>, stages: seq<Board>, cuts: seq<seq<seq<Block>>>)
    requires WellFormed(bd) && xs == ys && LinesCleared(bd, r, xs) && RemovedInOrder(bd, xs, stages, cuts, r)
    ensures LinesCleared(bd, r, ys) && RemovedInOrder(bd, ys, stages, cuts, r)
  {
  }

  /** What Board.remove_lines has done to `bd` once the rows `xs` are
      removed: the score has gone up by one per row, those rows' squares
      are gone and nothing else is, the controlled piece is either the
      same piece or given up, and given up if it met one of the rows. */
  ghost predicate LinesCleared(bd: Board, r: Board, xs: seq<int>)
    requires WellFormed(bd)
  {
    && r == bd.(blocks := r.blocks, score := bd.score + |xs|, main := r.main)
    && Cleared(AllSquares(bd.blocks), AllSquares(r.blocks), RowSet(xs))
    && WellFormed(r) && (Legal(bd) ==> Legal(r))
    && (r.main.Some? ==> bd.main.Some? && r.blocks[r.main.value] == bd.blocks[bd.main.value])
    && (bd.main.Some? && Meets(bd.blocks[bd.main.value].squares, RowSet(xs)) ==> r.main.None?)
  }

  /** One round of Board.remove_lines' loop: remove row `x` after the rows
      `xs`. */
  method RemoveLinesStep(bd: Board, before: Board, xs: seq<int>, x: int, ys: seq<int>,
                         ghost stages: seq<Board>, ghost cuts: seq<seq<seq<Block>>>)
    returns (r: Board, ghost stages': seq<Board>, ghost cuts': seq<seq<seq<Block>>>)
    requires WellFormed(bd) && LinesCleared(bd, before, xs) && ys == xs + [x]
    requires RemovedInOrder(bd, xs, stages, cuts, before)
    ensures LinesCleared(bd, r, ys) == true
    ensures RemovedInOrder(bd, ys, stages', cuts', r) == true
  {
    var parts;
    r, parts := RemoveLine(before, x);
    ClearedTwice(AllSquares(bd.blocks), AllSquares(before.blocks), AllSquares(r.blocks), xs, x);
    MeetsNext(bd, before, xs, x);
    stages' := stages + [r];
    cuts' := cuts + [parts];
    RemovedStep(bd, xs, stages, cuts, before, x, parts, r, ys);
  }

  lemma RemovedStep(bd: Board, xs: seq<int>, stages: seq<Board>, cuts: seq<seq<seq<Block>>>, before: Board,
                    x: int, parts: seq<seq<Block>>, r: Board, ys: seq<int>)
    requires RemovedInOrder(bd, xs, stages, cuts, before) && RemovalStage(before, x, parts, r) && ys == xs + [x]
    ensures RemovedInOrder(bd, ys, stages + [r], cuts + [parts], r)
  {
    var stages', cuts' := stages + [r], cuts + [parts];
    forall k | 0 <= k < |ys|
      ensures RemovalStage(stages'[k], ys[k], cuts'[k], stages'[k + 1])
    {
      if k < |xs| {
        assert stages'[k] == stages[k] && stages'[k + 1] == stages[k + 1] && ys[k] == xs[k] && cuts'[k] == cuts[k];
      }
    }
  }

  /** Clearing the rows `xs` and then row `x` clears the rows `xs + [x]`. */
  lemma ClearedTwice(a: seq<Point>, b: seq<Point>, c: seq<Point>, xs: seq<int>, x: int)
    requires Cleared(a, b, RowSet(xs)) && Cleared(b, c, {x as real})
    ensures Cleared(a, c, RowSet(xs + [x]))
  {
    assert x in xs + [x];
    forall p
      ensures multiset(c)[p] == if p.row in RowSet(xs + [x]) then 0 else multiset(a)[p]
    {
      if p.row in RowSet(xs) {
        var z :| z in xs && p.row == z as real;
        assert z in xs + [x];
      } else if p.row in RowSet(xs + [x]) {
        var y :| y in xs + [x] && p.row == y as real;
        assert y !in xs;
        assert p.row == x as real;
      }
    }
  }

  /** The controlled piece meets the rows cleared so far exactly when it
      meets the earlier ones or the one just cleared. */
  lemma MeetsNext(bd: Board, before: Board, xs: seq<int>, x: int)
    requires bd.main.Some? ==> bd.main.value < |bd.blocks|
    requires before.main.Some? ==> bd.main.Some? && before.main.value < |before.blocks| && before.blocks[before.main.value] == bd.blocks[bd.main.value]
    ensures bd.main.Some? && Meets(bd.blocks[bd.main.value].squares, RowSet(xs + [x])) ==>
            Meets(bd.blocks[bd.main.value].squares, RowSet(xs)) || before.main.None? || CountInRow(before.blocks[before.main.value].squares, x) > 0
  {
    if bd.main.Some? && Meets(bd.blocks[bd.main.value].squares, RowSet(xs + [x])) && before.main.Some? {
      var s := bd.blocks[bd.main.value].squares;
      var p :| p in s && p.row in RowSet(xs + [x]);
      var y :| y in xs + [x] && p.row == y as real;
      if y in xs {
        assert p.row in RowSet(xs);
      } else {
        assert p.row == x as real;
      }
    }
  }

  /** How many rows Board.update lets each piece fall: the board's height
      for MAX_SPEED, otherwise the speed itself. */
  function FallCount(bd: Board, speed: int): (n: int)
    ensures speed == MaxSpeed ==> n == bd.rows
    ensures speed != MaxSpeed ==> n == speed
  {
    if speed == MaxSpeed then bd.rows else speed
  }

  /** Board.update: every piece falls as far as `speed` allows, complete
      lines are removed, and a controlled piece that then cannot fall is
      released, which decides whether the game is lost. `fallen` is the
      board after the fall step and `cleared` after the line removal;
      `lines` counts the lines removed and `landed` is the released piece. */
  method Update(bd: Board, speed: int)
    returns (r: Board, lines: nat, landed: Option<Block>, fallen: Board, drops: seq<nat>, cleared: Board,
             ghost fallStages: seq<Board>, ghost lineStages: seq<Board>, ghost cuts: seq<seq<seq<Block>>>)
    requires WellFormed(bd)
    ensures Fell(bd, FallCount(bd, speed), fallen, drops, fallStages)
    ensures RemovedInOrder(fallen, FullRows(fallen, fallen.rows), lineStages, cuts, cleared)
    ensures lines == |FullRows(fallen, fallen.rows)|
    ensures WellFormed(cleared) && r == Land(cleared)
    ensures landed.Some? <==> cleared.main.Some? && !CanFall(cleared, cleared.main.value)
    ensures landed.Some? ==> landed.value == cleared.blocks[cleared.main.value]
    ensures r.rows == bd.rows && r.cols == bd.cols
    ensures r.score == bd.score + lines && lines <= Max0(bd.rows)
    ensures WellFormed(r) && (Legal(bd) ==> Legal(r))
    ensures bd.cols >= 1 ==> forall x :: 1 <= x <= bd.rows ==> !IsFull(r, x)
    ensures r.main.Some? ==> bd.main.Some? && CanFall(r, r.main.value)
    ensures r.main.Some? ==> exists d: nat :: r.blocks[r.main.value] == Sink(bd.blocks[bd.main.value], d)
    ensures landed.Some? ==> bd.main.Some? && r.main.None?
    ensures landed.Some? ==> (r.dead <==> exists p :: p in landed.value.squares && p.row <= 0.0)
    ensures landed.Some? ==> exists d: nat :: landed.value == Sink(bd.blocks[bd.main.value], d)
    ensures landed.None? ==> r.dead == bd.dead
  {
    fallen, drops, fallStages := FallAll(bd, FallCount(bd, speed));
    cleared, lineStages, cuts := RemoveLines(fallen);
    lines := |FullRows(fallen, fallen.rows)|;
    landed := None;
    if cleared.main.Some? && !CanFall(cleared, cleared.main.value) {
      landed := Some(cleared.blocks[cleared.main.value]);
    }
    r := Land(cleared);
    if bd.cols >= 1 {
      forall x | 1 <= x <= bd.rows
        ensures !IsFull(r, x)
      {
        assert r.blocks == cleared.blocks && r.cols == cleared.cols;
        assert !IsFull(cleared, x);
      }
    }
    if cleared.main.Some? {
      var m := bd.main.value;
      assert cleared.blocks[cleared.main.value] == Sink(bd.blocks[m], drops[m]);
    }
  }
}
