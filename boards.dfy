/** The 8x8 board of the flanking game as a value: cells, coordinates,
    single-cell updates and piece counts. Rows come first, as in the
    source's `state.board[y][x]`. */
module Boards {

  datatype Option<T> = None | Some(value: T)

  /** The side to move, `'b'` or `'w'` in the source. */
  datatype Color = Black | White

  /** A cell is `null` (empty) or holds a `'b'` or `'w'` piece. */
  datatype Cell = Empty | Piece(color: Color)

  /** Side length of the board. */
  const N: nat := 8

  /** Number of cells, N * N: the 64 of `checkForVictory`. */
  const Cells: nat := 64

  type Board = seq<seq<Cell>>

  predicate WellFormed(g: Board) {
    |g| == N && forall y :: 0 <= y < N ==> |g[y]| == N
  }

  predicate OnBoard(x: int, y: int) {
    0 <= x < N && 0 <= y < N
  }

  /** The other side; `nextTurn` swaps `'b'` and `'w'`. */
  function Opponent(c: Color): (r: Color)
    ensures r != c
  {
    match c
    case Black => White
    case White => Black
  }

  /** A piece that is not t's is the opponent's. */
  lemma OtherPiece(v: Cell, t: Color)
    requires v != Empty && v != Piece(t)
    ensures v == Piece(Opponent(t))
  {
  }

  /** The board with cell (x, y) replaced by v. */
  function Set(g: Board, x: int, y: int, v: Cell): (r: Board)
    requires WellFormed(g) && OnBoard(x, y)
    ensures WellFormed(r)
  {
    g[y := g[y][x := v]]
  }

  function Ind(b: bool): nat {
    if b then 1 else 0
  }

  /** Number of cells of a row equal to v, counted left to right. */
  function CountRow(r: seq<Cell>, v: Cell): nat {
    if r == [] then 0 else CountRow(r[..|r| - 1], v) + Ind(r[|r| - 1] == v)
  }

  /** Number of cells equal to v, counted row by row as `countPieces` does. */
  function Count(g: seq<seq<Cell>>, v: Cell): nat {
    if g == [] then 0 else Count(g[..|g| - 1], v) + CountRow(g[|g| - 1], v)
  }

  lemma {:induction false} CountRowSet(r: seq<Cell>, x: nat, w: Cell, v: Cell)
    requires x < |r|
    ensures CountRow(r[x := w], v) + Ind(r[x] == v) == CountRow(r, v) + Ind(w == v)
    decreases |r|
  {
    var n := |r| - 1;
    if x == n {
      assert r[x := w][..n] == r[..n];
    } else {
      assert r[x := w][..n] == r[..n][x := w];
      CountRowSet(r[..n], x, w, v);
    }
  }

  lemma {:induction false} CountRowsSet(g: seq<seq<Cell>>, y: nat, row: seq<Cell>, v: Cell)
    requires y < |g|
    ensures Count(g[y := row], v) + CountRow(g[y], v) == Count(g, v) + CountRow(row, v)
    decreases |g|
  {
    var n := |g| - 1;
    if y == n {
      assert g[y := row][..n] == g[..n];
    } else {
      assert g[y := row][..n] == g[..n][y := row];
      CountRowsSet(g[..n], y, row, v);
    }
  }

  /** Writing w into one cell changes the count of v by at most one, in
      the expected direction. */
  lemma CountSet(g: Board, x: int, y: int, w: Cell, v: Cell)
    requires WellFormed(g) && OnBoard(x, y)
    ensures Count(Set(g, x, y, w), v) + Ind(g[y][x] == v) == Count(g, v) + Ind(w == v)
  {
    CountRowSet(g[y], x, w, v);
    CountRowsSet(g, y, g[y][x := w], v);
  }

  lemma {:induction false} CountRowPartition(r: seq<Cell>)
    ensures CountRow(r, Empty) + CountRow(r, Piece(Black)) + CountRow(r, Piece(White)) == |r|
    decreases |r|
  {
    if r != [] {
      CountRowPartition(r[..|r| - 1]);
      match r[|r| - 1]
      case Empty =>
      case Piece(c) => assert c == Black || c == White;
    }
  }

  lemma {:induction false} CountRowsPartition(g: seq<seq<Cell>>)
    requires forall y :: 0 <= y < |g| ==> |g[y]| == N
    ensures Count(g, Empty) + Count(g, Piece(Black)) + Count(g, Piece(White)) == N * |g|
    decreases |g|
  {
    if g != [] {
      CountRowsPartition(g[..|g| - 1]);
      CountRowPartition(g[|g| - 1]);
    }
  }

  /** Every cell is empty, black or white, so the black and white counts
      together never exceed the 64 cells of the board. */
  lemma CountPartition(g: Board)
    requires WellFormed(g)
    ensures Count(g, Empty) + Count(g, Piece(Black)) + Count(g, Piece(White)) == Cells
    ensures Count(g, Piece(Black)) + Count(g, Piece(White)) <= Cells
  {
    CountRowsPartition(g);
    assert N * N == Cells;
  }

  lemma {:induction false} CountRowZero(r: seq<Cell>, v: Cell)
    ensures CountRow(r, v) == 0 <==> forall x :: 0 <= x < |r| ==> r[x] != v
    decreases |r|
  {
    if r != [] {
      var n := |r| - 1;
      CountRowZero(r[..n], v);
      assert forall x :: 0 <= x < n ==> r[..n][x] == r[x];
    }
  }

  lemma {:induction false} CountRowsZero(g: seq<seq<Cell>>, v: Cell)
    ensures Count(g, v) == 0 <==> forall y, x :: 0 <= y < |g| && 0 <= x < |g[y]| ==> g[y][x] != v
    decreases |g|
  {
    if g != [] {
      var n := |g| - 1;
      CountRowsZero(g[..n], v);
      CountRowZero(g[n], v);
      assert forall y :: 0 <= y < n ==> g[..n][y] == g[y];
    }
  }

  /** A value is absent from the board exactly when its count is zero. */
  lemma CountZero(g: Board, v: Cell)
    requires WellFormed(g)
    ensures Count(g, v) == 0 <==> forall y, x :: OnBoard(x, y) ==> g[y][x] != v
  {
    CountRowsZero(g, v);
  }
}
