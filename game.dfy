/** The game object of checkers.js: the mutable `state` with its 8x8
    board, and the functions that change it. Each method is proved to
    leave the game in the state the functions of module Rules describe. */
module Checkers {
  import opened Boards
  import opened Rules

  class Game {
    /** `state.board`, rows first: `board[y][x]` as in the source. The
        methods replace it with the updated board. */
    var board: Board
    /** `state.turn`: the side to move. */
    var turn: Color
    /** `state.over`: set once 64 pieces are counted, never read. */
    var over: bool
    /** `state.black` and `state.white`: the counts of the last `countPieces`. */
    var black: nat
    var white: nat

    ghost predicate Valid()
      reads this
    {
      WellFormed(board)
    }

    /** The whole game as a value. */
    ghost function Model(): GameState
      reads this
    {
      GameState(board, turn, over, black, white)
    }

    /** The initial `state`: the four centre pieces, Black to move, both
        counters at 0. */
    constructor()
      ensures Valid() && Model() == Initial()
    {
      board := InitialBoard();
      turn, over, black, white := Black, false, 0, 0;
    }

    /** The board write of `renderPiece`: cell (x, y) receives a piece of
        the given colour and no other cell changes; the drawing is not
        modelled. */
    method RenderPiece(piece: Color, x: int, y: int)
      requires Valid() && OnBoard(x, y)
      modifies this`board
      ensures board == Set(old(board), x, y, Piece(piece))
    {
      board := board[y := board[y][x := Piece(piece)]];
    }

    /** `countPieces`: both counters are recomputed from the board, row by
        row. */
    method CountPieces()
      requires Valid()
      modifies this`black, this`white
      ensures black == Count(board, Piece(Black)) && white == Count(board, Piece(White))
      ensures black + white <= Cells
    {
      black, white := 0, 0;
      for y := 0 to N
        invariant black == Count(board[..y], Piece(Black))
        invariant white == Count(board[..y], Piece(White))
      {
        for x := 0 to N
          invariant black == Count(board[..y], Piece(Black)) + CountRow(board[y][..x], Piece(Black))
          invariant white == Count(board[..y], Piece(White)) + CountRow(board[y][..x], Piece(White))
        {
          assert board[y][..x + 1][..x] == board[y][..x];
          if board[y][x] == Piece(Black) {
            black := black + 1;
          }
          if board[y][x] == Piece(White) {
            white := white + 1;
          }
        }
        assert board[..y + 1][..y] == board[..y];
        assert board[y][..N] == board[y];
      }
      assert board[..N] == board;
      CountPartition(board);
    }

    /** `checkForVictory`: the winner, if the counters add up to 64, in
        which case `over` is set. */
    method CheckForVictory() returns (winner: Option<Color>)
      modifies this`over
      ensures winner == Victory(black, white)
      ensures over == (old(over) || winner.Some?)
    {
      if black + white >= 64 {
        over := true;
        if black > white {
          winner := Some(Black);
        } else {
          winner := Some(White);
        }
      } else {
        winner := None;
      }
    }

    /** `nextTurn`: the other side moves next. */
    method NextTurn()
      modifies this`turn
      ensures turn == Opponent(old(turn))
    {
      if turn == Black {
        turn := White;
      } else {
        turn := Black;
      }
    }

    /** The loop of `RenderReverse`: the mover's piece is rendered on
        each cell from the origin up to, but not including, (x, y). */
    method PaintRun(initialX: int, initialY: int, x: int, y: int, dx: int, dy: int, ghost k: nat)
      requires Valid() && IsDirection(dx, dy) && SpanOnBoard(initialX, initialY, dx, dy, k)
      requires x == Along(initialX, k, dx) && y == Along(initialY, k, dy)
      modifies this`board
      ensures board == Paint(old(board), turn, initialX, initialY, dx, dy, k)
    {
      ghost var g := board;
      var cx, cy := initialX, initialY;
      ghost var j: nat := 0;
      while cx != x || cy != y
        invariant j <= k
        invariant cx == Along(initialX, j, dx) && cy == Along(initialY, j, dy)
        invariant board == Paint(g, turn, initialX, initialY, dx, dy, j)
        decreases k - j
      {
        if turn == Black {
          RenderPiece(Black, cx, cy);
        } else {
          RenderPiece(White, cx, cy);
        }
        cx, cy := cx + dx, cy + dy;
        j := j + 1;
      }
    }

    /** `RenderReverse`: paints the cells from the origin up to the
        bracketing piece k steps away, recounts, checks for victory, clicks
        the bracketing cell (which changes nothing) and passes the turn. */
    method RenderReverse(initialX: int, initialY: int, x: int, y: int, dx: int, dy: int, ghost k: nat)
      requires Valid() && OnBoard(initialX, initialY) && IsDirection(dx, dy)
      requires Bracket(board, turn, initialX, initialY, dx, dy) == Some(k)
      requires x == Along(initialX, k, dx) && y == Along(initialY, k, dy)
      modifies this
      ensures Valid()
      ensures Model() == Flank(old(Model()), initialX, initialY, dx, dy, k)
      decreases Count(board, Empty), 0
    {
      BracketPaint(board, turn, initialX, initialY, dx, dy, k);
      PaintRun(initialX, initialY, x, y, dx, dy, k);
      CountPieces();
      var _ := CheckForVictory();
      SelectedSquare(x, y);
      NextTurn();
    }

    /** `Flip`: from the empty cell (x, y), steps over the opponent's
        pieces in direction (dx, dy) and, when a piece of the mover closes
        the run, has `RenderReverse` flank it. The source's `false` result
        is discarded by every caller and is not modelled. */
    method Flip(x: int, y: int, dx: int, dy: int)
      requires Valid() && OnBoard(x, y) && IsDirection(dx, dy)
      modifies this
      ensures Valid()
      ensures Model() == AfterFlip(old(Model()), x, y, dx, dy)
      decreases Count(board, Empty), 1
    {
      if x + dx > 7 || x + dx < 0 || y + dy > 7 || y + dy < 0 {
        return;
      }
      if board[y][x] == Piece(Black) || board[y][x] == Piece(White) {
        return;
      }
      if board[y + dy][x + dx] == Empty {
        return;
      }
      if turn == Black && board[y + dy][x + dx] != Piece(White) {
        return;
      }
      if turn == White && board[y + dy][x + dx] != Piece(Black) {
        return;
      }
      ghost var g, t := board, turn;
      ghost var w := Walk(g, t, x, y, dx, dy);
      var cx, cy := x, y;
      while 0 <= cx <= 7 && 0 <= cy <= 7
        invariant board == g && turn == t && over == old(over) && black == old(black) && white == old(white)
        invariant OnBoard(cx, cy) && w == Walk(g, t, cx, cy, dx, dy)
        decreases Remaining(cx, cy, dx, dy)
      {
        if cx + dx > 7 || cx + dx < 0 || cy + dy > 7 || cy + dy < 0 {
          break;
        }
        if board[cy + dy][cx + dx] == Empty {
          break;
        }
        // Both branches of the source's test on the current cell advance
        // by the same step.
        cx, cy := cx + dx, cy + dy;
        if board[cy][cx] == Piece(turn) {
          BracketAt(g, t, x, y, dx, dy, cx, cy);
          RenderReverse(x, y, cx, cy, dx, dy, Steps(x, y, dx, dy, cx, cy));
          return;
        }
      }
      BracketNone(g, t, x, y, dx, dy);
    }

    /** `SelectedSquare`: a click on (x, y) tries `Flip` in the eight
        directions, in the source's order. */
    method SelectedSquare(x: int, y: int)
      requires Valid() && OnBoard(x, y)
      modifies this
      ensures Valid()
      ensures Model() == Select(old(Model()), x, y)
      ensures old(board[y][x]) != Empty ==> Model() == old(Model())
      decreases Count(board, Empty), 2
    {
      if board[y][x] != Empty {
        SelectFromOccupied(Model(), x, y, 0);
      }
      SelectUnfold(Model(), x, y);
      Flip(x, y, 0, -1);
      Flip(x, y, 1, -1);
      Flip(x, y, 1, 0);
      Flip(x, y, 1, 1);
      Flip(x, y, 0, 1);
      Flip(x, y, -1, 1);
      Flip(x, y, -1, 0);
      Flip(x, y, -1, -1);
    }
  }
}
