/** The rules of the flanking game as functions on board values: the
    directional walk of `Flip`, the writes of `RenderReverse`, the eight
    tries of `SelectedSquare`, and `checkForVictory`. The class in game.dfy
    is proved to follow these functions. */
module Rules {
  import opened Boards

  /** One of the eight unit steps that `SelectedSquare` passes to `Flip`. */
  predicate IsDirection(dx: int, dy: int) {
    -1 <= dx <= 1 && -1 <= dy <= 1 && (dx != 0 || dy != 0)
  }

  /** The coordinate j steps away from a along the unit step d. */
  function Along(a: int, j: int, d: int): int {
    if d > 0 then a + j else if d < 0 then a - j else a
  }

  /** How many steps from (x, y) along (dx, dy) stay on the board. */
  function Remaining(x: int, y: int, dx: int, dy: int): nat
    requires OnBoard(x, y)
  {
    if dx > 0 then N - 1 - x
    else if dx < 0 then x
    else if dy > 0 then N - 1 - y
    else y
  }

  /** The walk of `Flip`'s loop from the current cell (x, y): it stops with
      None at the board edge or at an empty cell, and with Some(p) at the
      first piece of t, the cell p that `Flip` passes to `RenderReverse`.
      Any other piece is stepped over. */
  function Walk(g: Board, t: Color, x: int, y: int, dx: int, dy: int): Option<(int, int)>
    requires WellFormed(g) && OnBoard(x, y) && IsDirection(dx, dy)
    decreases Remaining(x, y, dx, dy)
  {
    if !OnBoard(x + dx, y + dy) then None
    else if g[y + dy][x + dx] == Empty then None
    else if g[y + dy][x + dx] == Piece(t) then Some((x + dx, y + dy))
    else Walk(g, t, x + dx, y + dy, dx, dy)
  }

  /** The cell j steps from (x, y) along (dx, dy) is on the board and
      holds v. */
  ghost predicate HoldsAt(g: Board, x: int, y: int, dx: int, dy: int, j: int, v: Cell)
    requires WellFormed(g)
  {
    OnBoard(Along(x, j, dx), Along(y, j, dy)) && g[Along(y, j, dy)][Along(x, j, dx)] == v
  }

  /** The cells 1 .. m - 1 steps from (x, y) hold the opponent's pieces and
      the cell m steps away holds a piece of t. */
  ghost predicate RunOf(g: Board, t: Color, x: int, y: int, dx: int, dy: int, m: int)
    requires WellFormed(g)
  {
    && 1 <= m
    && (forall j :: 1 <= j < m ==> HoldsAt(g, x, y, dx, dy, j, Piece(Opponent(t))))
    && HoldsAt(g, x, y, dx, dy, m, Piece(t))
  }

  /** Seen from the next cell, every cell is one step nearer. */
  lemma HoldsAtNext(g: Board, x: int, y: int, dx: int, dy: int, j: int, v: Cell)
    requires WellFormed(g) && IsDirection(dx, dy)
    ensures HoldsAt(g, x + dx, y + dy, dx, dy, j, v) == HoldsAt(g, x, y, dx, dy, j + 1, v)
  {
    assert Along(x + dx, j, dx) == Along(x, j + 1, dx);
    assert Along(y + dy, j, dy) == Along(y, j + 1, dy);
  }

  /** The cell one step away is the next cell. */
  lemma HoldsAtOne(g: Board, x: int, y: int, dx: int, dy: int, v: Cell)
    requires WellFormed(g) && IsDirection(dx, dy)
    ensures HoldsAt(g, x, y, dx, dy, 1, v) == (OnBoard(x + dx, y + dy) && g[y + dy][x + dx] == v)
  {
    assert Along(x, 1, dx) == x + dx && Along(y, 1, dy) == y + dy;
  }

  /** A run seen from the next cell, preceded by an opponent piece, is a
      run one step longer seen from the current cell. */
  lemma RunExtend(g: Board, t: Color, x: int, y: int, dx: int, dy: int, m: int)
    requires WellFormed(g) && IsDirection(dx, dy) && OnBoard(x + dx, y + dy)
    requires g[y + dy][x + dx] == Piece(Opponent(t))
    requires RunOf(g, t, x + dx, y + dy, dx, dy, m)
    ensures RunOf(g, t, x, y, dx, dy, m + 1)
  {
    forall j | 1 <= j < m + 1
      ensures HoldsAt(g, x, y, dx, dy, j, Piece(Opponent(t)))
    {
      if j == 1 {
        HoldsAtOne(g, x, y, dx, dy, Piece(Opponent(t)));
      } else {
        HoldsAtNext(g, x, y, dx, dy, j - 1, Piece(Opponent(t)));
      }
    }
    HoldsAtNext(g, x, y, dx, dy, m, Piece(t));
  }

  /** A run longer than one step, seen from the next cell, is one step
      shorter. */
  lemma RunShrink(g: Board, t: Color, x: int, y: int, dx: int, dy: int, m: int)
    requires WellFormed(g) && IsDirection(dx, dy)
    requires RunOf(g, t, x, y, dx, dy, m) && m > 1
    ensures OnBoard(x + dx, y + dy) && g[y + dy][x + dx] == Piece(Opponent(t))
    ensures RunOf(g, t, x + dx, y + dy, dx, dy, m - 1)
  {
    HoldsAtOne(g, x, y, dx, dy, Piece(Opponent(t)));
    var nx, ny := x + dx, y + dy;
    forall j | 1 <= j < m - 1
      ensures HoldsAt(g, nx, ny, dx, dy, j, Piece(Opponent(t)))
    {
      HoldsAtNext(g, x, y, dx, dy, j, Piece(Opponent(t)));
    }
    HoldsAtNext(g, x, y, dx, dy, m - 1, Piece(t));
  }

  /** Whatever the walk finds lies m steps away, m read off the moving
      coordinate, and closes a run of opponent pieces of length m. */
  lemma {:induction false} WalkSound(g: Board, t: Color, x: int, y: int, dx: int, dy: int)
    requires WellFormed(g) && OnBoard(x, y) && IsDirection(dx, dy)
    ensures var w := Walk(g, t, x, y, dx, dy);
      w.Some? ==>
        var m := Steps(x, y, dx, dy, w.value.0, w.value.1);
        w.value == (Along(x, m, dx), Along(y, m, dy)) && RunOf(g, t, x, y, dx, dy, m)
    decreases Remaining(x, y, dx, dy)
  {
    var nx, ny := x + dx, y + dy;
    if OnBoard(nx, ny) && g[ny][nx] != Empty {
      if g[ny][nx] == Piece(t) {
        HoldsAtOne(g, x, y, dx, dy, Piece(t));
        assert Steps(x, y, dx, dy, nx, ny) == 1;
      } else {
        OtherPiece(g[ny][nx], t);
        WalkSound(g, t, nx, ny, dx, dy);
        var w := Walk(g, t, nx, ny, dx, dy);
        if w.Some? {
          var m := Steps(nx, ny, dx, dy, w.value.0, w.value.1);
          assert Steps(x, y, dx, dy, w.value.0, w.value.1) == m + 1;
          assert Along(nx, m, dx) == Along(x, m + 1, dx) && Along(ny, m, dy) == Along(y, m + 1, dy);
          RunExtend(g, t, x, y, dx, dy, m);
        }
      }
    }
  }

  /** A run of opponent pieces closed by t, m steps away, is what the walk
      finds. */
  lemma {:induction false} WalkComplete(g: Board, t: Color, x: int, y: int, dx: int, dy: int, m: int)
    requires WellFormed(g) && OnBoard(x, y) && IsDirection(dx, dy)
    requires RunOf(g, t, x, y, dx, dy, m)
    ensures Walk(g, t, x, y, dx, dy) == Some((Along(x, m, dx), Along(y, m, dy)))
    decreases Remaining(x, y, dx, dy)
  {
    if m > 1 {
      RunShrink(g, t, x, y, dx, dy, m);
      WalkComplete(g, t, x + dx, y + dy, dx, dy, m - 1);
      assert Along(x + dx, m - 1, dx) == Along(x, m, dx) && Along(y + dy, m - 1, dy) == Along(y, m, dy);
    } else {
      HoldsAtOne(g, x, y, dx, dy, Piece(t));
    }
  }

  /** The walk finds the cell m steps away exactly when the cells before
      it hold the opponent's pieces and it holds t's. */
  lemma WalkIff(g: Board, t: Color, x: int, y: int, dx: int, dy: int, m: int)
    requires WellFormed(g) && OnBoard(x, y) && IsDirection(dx, dy)
    ensures Walk(g, t, x, y, dx, dy) == Some((Along(x, m, dx), Along(y, m, dy))) <==> RunOf(g, t, x, y, dx, dy, m)
  {
    WalkSound(g, t, x, y, dx, dy);
    if RunOf(g, t, x, y, dx, dy, m) {
      WalkComplete(g, t, x, y, dx, dy, m);
    }
  }

  /** A legal flank from the empty cell (x, y): k >= 2 steps away sits a
      piece of t, and every cell strictly between holds the opponent's. */
  ghost predicate IsBracket(g: Board, t: Color, x: int, y: int, dx: int, dy: int, k: int)
    requires WellFormed(g) && OnBoard(x, y)
  {
    g[y][x] == Empty && 2 <= k && RunOf(g, t, x, y, dx, dy, k)
  }

  /** What `Flip` decides before it writes anything: None when it returns
      false, Some(k) when it calls `RenderReverse` on the cell k steps away. */
  function Bracket(g: Board, t: Color, x: int, y: int, dx: int, dy: int): (r: Option<nat>)
    requires WellFormed(g) && OnBoard(x, y) && IsDirection(dx, dy)
    ensures !OnBoard(x + dx, y + dy) ==> r == None
    ensures g[y][x] != Empty ==> r == None
    ensures OnBoard(x + dx, y + dy) && g[y + dy][x + dx] != Piece(Opponent(t)) ==> r == None
  {
    if !OnBoard(x + dx, y + dy) then None
    else if g[y][x].Piece? then None
    else if g[y + dy][x + dx] == Empty then None
    else if t == Black && g[y + dy][x + dx] != Piece(White) then None
    else if t == White && g[y + dy][x + dx] != Piece(Black) then None
    else
      match Walk(g, t, x, y, dx, dy)
      case None => None
      case Some(p) =>
        WalkSound(g, t, x, y, dx, dy);
        Some(Steps(x, y, dx, dy, p.0, p.1))
  }

  /** Once `Flip`'s early returns are passed, a walk that ends on (px, py)
      is a flank up to that cell. */
  lemma BracketAt(g: Board, t: Color, x: int, y: int, dx: int, dy: int, px: int, py: int)
    requires WellFormed(g) && OnBoard(x, y) && IsDirection(dx, dy)
    requires OnBoard(x + dx, y + dy) && g[y][x] == Empty && g[y + dy][x + dx] == Piece(Opponent(t))
    requires Walk(g, t, x, y, dx, dy) == Some((px, py))
    ensures var k := Steps(x, y, dx, dy, px, py);
      k >= 0 && Bracket(g, t, x, y, dx, dy) == Some(k) && px == Along(x, k, dx) && py == Along(y, k, dy)
  {
    WalkSound(g, t, x, y, dx, dy);
  }

  /** Once `Flip`'s early returns are passed, a walk that finds nothing
      means no flank. */
  lemma BracketNone(g: Board, t: Color, x: int, y: int, dx: int, dy: int)
    requires WellFormed(g) && OnBoard(x, y) && IsDirection(dx, dy)
    requires OnBoard(x + dx, y + dy) && g[y][x] == Empty && g[y + dy][x + dx] == Piece(Opponent(t))
    requires Walk(g, t, x, y, dx, dy) == None
    ensures Bracket(g, t, x, y, dx, dy) == None
  {
  }

  /** `Flip` flanks from (x, y) in direction (dx, dy) exactly when the
      bracket definition holds, and then with the unique such distance. */
  lemma BracketIff(g: Board, t: Color, x: int, y: int, dx: int, dy: int, k: int)
    requires WellFormed(g) && OnBoard(x, y) && IsDirection(dx, dy)
    ensures Bracket(g, t, x, y, dx, dy) == Some(k) <==> IsBracket(g, t, x, y, dx, dy, k)
  {
    WalkSound(g, t, x, y, dx, dy);
    assert Along(x, 1, dx) == x + dx && Along(y, 1, dy) == y + dy;
    if IsBracket(g, t, x, y, dx, dy, k) {
      WalkIff(g, t, x, y, dx, dy, k);
      assert g[y + dy][x + dx] == Piece(Opponent(t));
      assert Steps(x, y, dx, dy, Along(x, k, dx), Along(y, k, dy)) == k;
    }
  }

  /** The cells 0 .. k - 1 steps from (x, y) are all on the board. */
  ghost predicate SpanOnBoard(x: int, y: int, dx: int, dy: int, k: int) {
    forall j :: 0 <= j < k ==> OnBoard(Along(x, j, dx), Along(y, j, dy))
  }

  /** How many steps along (dx, dy) lead from (x, y) to (px, py), read off
      the coordinate that moves. */
  function Steps(x: int, y: int, dx: int, dy: int, px: int, py: int): int {
    if dx > 0 then px - x
    else if dx < 0 then x - px
    else if dy > 0 then py - y
    else y - py
  }

  /** (px, py) is one of the cells 0 .. k - 1 steps from (x, y): the origin
      up to, but not including, the cell k steps away. */
  predicate OnSpan(x: int, y: int, dx: int, dy: int, k: int, px: int, py: int) {
    var j := Steps(x, y, dx, dy, px, py);
    0 <= j < k && px == Along(x, j, dx) && py == Along(y, j, dy)
  }

  /** The board after `RenderReverse`'s loop has written c into the first k
      cells from (x, y), one cell after the other. */
  function Paint(g: Board, c: Color, x: int, y: int, dx: int, dy: int, k: nat): (r: Board)
    requires WellFormed(g) && IsDirection(dx, dy) && SpanOnBoard(x, y, dx, dy, k)
    ensures WellFormed(r)
    decreases k
  {
    if k == 0 then g
    else Set(Paint(g, c, x, y, dx, dy, k - 1), Along(x, k - 1, dx), Along(y, k - 1, dy), Piece(c))
  }

  /** After painting, the first k cells from (x, y) hold c and every other
      cell is as before. */
  lemma {:induction false} PaintCells(g: Board, c: Color, x: int, y: int, dx: int, dy: int, k: nat)
    requires WellFormed(g) && IsDirection(dx, dy) && SpanOnBoard(x, y, dx, dy, k)
    ensures forall py, px :: OnBoard(px, py) ==>
              Paint(g, c, x, y, dx, dy, k)[py][px] == if OnSpan(x, y, dx, dy, k, px, py) then Piece(c) else g[py][px]
    decreases k
  {
    if k > 0 {
      PaintCells(g, c, x, y, dx, dy, k - 1);
      var cx, cy := Along(x, k - 1, dx), Along(y, k - 1, dy);
      forall py, px | OnBoard(px, py)
        ensures OnSpan(x, y, dx, dy, k, px, py) == (OnSpan(x, y, dx, dy, k - 1, px, py) || (px == cx && py == cy))
      {
        if px == cx && py == cy {
          assert Steps(x, y, dx, dy, px, py) == k - 1;
        }
      }
    }
  }

  /** Painting the k-th cell changes each count by at most one, according
      to what that cell held on the original board. */
  lemma PaintStep(g: Board, c: Color, x: int, y: int, dx: int, dy: int, k: nat, w: Cell)
    requires WellFormed(g) && IsDirection(dx, dy) && 1 <= k && SpanOnBoard(x, y, dx, dy, k)
    ensures var cx, cy := Along(x, k - 1, dx), Along(y, k - 1, dy);
      && OnBoard(cx, cy)
      && Count(Paint(g, c, x, y, dx, dy, k), w) + Ind(g[cy][cx] == w)
         == Count(Paint(g, c, x, y, dx, dy, k - 1), w) + Ind(Piece(c) == w)
  {
    var cx, cy := Along(x, k - 1, dx), Along(y, k - 1, dy);
    var p := Paint(g, c, x, y, dx, dy, k - 1);
    assert OnBoard(cx, cy);
    assert p[cy][cx] == g[cy][cx] by {
      PaintCells(g, c, x, y, dx, dy, k - 1);
      assert Steps(x, y, dx, dy, cx, cy) == k - 1;
    }
    CountSet(p, cx, cy, Piece(c), w);
  }

  /** Flanking k - 1 opponent pieces from an empty origin puts k pieces of
      the mover on the board, takes k - 1 from the opponent and fills one
      empty cell: the total number of pieces rises by exactly one. */
  lemma {:induction false} PaintCounts(g: Board, c: Color, x: int, y: int, dx: int, dy: int, k: nat)
    requires WellFormed(g) && IsDirection(dx, dy) && 1 <= k && SpanOnBoard(x, y, dx, dy, k)
    requires OnBoard(x, y) && g[y][x] == Empty
    requires forall j :: 1 <= j < k ==> HoldsAt(g, x, y, dx, dy, j, Piece(Opponent(c)))
    ensures Count(Paint(g, c, x, y, dx, dy, k), Piece(c)) == Count(g, Piece(c)) + k
    ensures Count(Paint(g, c, x, y, dx, dy, k), Piece(Opponent(c))) + (k - 1) == Count(g, Piece(Opponent(c)))
    ensures Count(Paint(g, c, x, y, dx, dy, k), Empty) + 1 == Count(g, Empty)
    decreases k
  {
    var cx, cy := Along(x, k - 1, dx), Along(y, k - 1, dy);
    PaintStep(g, c, x, y, dx, dy, k, Piece(c));
    PaintStep(g, c, x, y, dx, dy, k, Piece(Opponent(c)));
    PaintStep(g, c, x, y, dx, dy, k, Empty);
    if k > 1 {
      assert HoldsAt(g, x, y, dx, dy, k - 1, Piece(Opponent(c)));
      PaintCounts(g, c, x, y, dx, dy, k - 1);
    } else {
      assert g[cy][cx] == Empty;
    }
  }

  /** The fields of the source's `state` object that the rules touch. */
  datatype GameState = GameState(board: Board, turn: Color, over: bool, black: nat, white: nat)

  /** `checkForVictory`: no result while fewer than 64 pieces are counted;
      otherwise the side with more pieces, a tie going to White. */
  function Victory(black: nat, white: nat): Option<Color> {
    if black + white >= Cells then Some(if black > white then Black else White) else None
  }

  /** With counts read off a board, a winner is declared exactly when no
      cell is empty; Black wins exactly when it has strictly more pieces,
      and White wins otherwise, ties included. */
  lemma VictoryOnFullBoard(g: Board)
    requires WellFormed(g)
    ensures var r := Victory(Count(g, Piece(Black)), Count(g, Piece(White)));
      && (r.Some? <==> forall y, x :: OnBoard(x, y) ==> g[y][x] != Empty)
      && (r == Some(Black) <==> r.Some? && Count(g, Piece(Black)) > Count(g, Piece(White)))
      && (r == Some(White) <==> r.Some? && Count(g, Piece(White)) >= Count(g, Piece(Black)))
  {
    CountPartition(g);
    CountZero(g, Empty);
  }

  /** What `RenderReverse` does once `Flip` has found a flank of length k:
      the writes, `countPieces`, `checkForVictory`, the re-entrant
      `SelectedSquare` on the bracketing cell (a no-op, see
      SelectFromOccupied) and `nextTurn`. The origin then holds the mover's
      piece and one empty cell fewer remains. */
  function Flank(s: GameState, x: int, y: int, dx: int, dy: int, k: nat): (r: GameState)
    requires WellFormed(s.board) && OnBoard(x, y) && IsDirection(dx, dy)
    requires Bracket(s.board, s.turn, x, y, dx, dy) == Some(k)
    ensures WellFormed(r.board)
    ensures r.board[y][x] == Piece(s.turn)
    ensures Count(r.board, Empty) + 1 == Count(s.board, Empty)
  {
    BracketPaint(s.board, s.turn, x, y, dx, dy, k);
    PaintOrigin(s.board, s.turn, x, y, dx, dy, k);
    var b := Paint(s.board, s.turn, x, y, dx, dy, k);
    var black, white := Count(b, Piece(Black)), Count(b, Piece(White));
    GameState(b, Opponent(s.turn), s.over || Victory(black, white).Some?, black, white)
  }

  /** One call of `Flip(x, y, dx, dy)`: nothing when it returns false, the
      flank of `RenderReverse` otherwise. */
  function AfterFlip(s: GameState, x: int, y: int, dx: int, dy: int): (r: GameState)
    requires WellFormed(s.board) && OnBoard(x, y) && IsDirection(dx, dy)
    ensures WellFormed(r.board)
    ensures Count(r.board, Empty) <= Count(s.board, Empty)
  {
    match Bracket(s.board, s.turn, x, y, dx, dy)
    case None => s
    case Some(k) => Flank(s, x, y, dx, dy, k)
  }

  /** A bracket of length k lies on the board and satisfies what
      PaintCounts needs. */
  lemma BracketSpan(g: Board, t: Color, x: int, y: int, dx: int, dy: int, k: int)
    requires WellFormed(g) && OnBoard(x, y) && IsDirection(dx, dy)
    requires Bracket(g, t, x, y, dx, dy) == Some(k)
    ensures SpanOnBoard(x, y, dx, dy, k) && g[y][x] == Empty
    ensures RunOf(g, t, x, y, dx, dy, k)
  {
    BracketIff(g, t, x, y, dx, dy, k);
    forall j | 0 <= j < k
      ensures OnBoard(Along(x, j, dx), Along(y, j, dy))
    {
      if j > 0 {
        assert HoldsAt(g, x, y, dx, dy, j, Piece(Opponent(t)));
      }
    }
  }

  /** What `RenderReverse` relies on: a flank of length k lies on the
      board, and painting it fills one empty cell and leaves the
      bracketing piece k steps away in place. */
  lemma BracketPaint(g: Board, t: Color, x: int, y: int, dx: int, dy: int, k: nat)
    requires WellFormed(g) && OnBoard(x, y) && IsDirection(dx, dy)
    requires Bracket(g, t, x, y, dx, dy) == Some(k)
    ensures SpanOnBoard(x, y, dx, dy, k) && OnBoard(Along(x, k, dx), Along(y, k, dy))
    ensures var p := Paint(g, t, x, y, dx, dy, k);
      p[Along(y, k, dy)][Along(x, k, dx)] == Piece(t) && Count(p, Empty) + 1 == Count(g, Empty)
  {
    BracketSpan(g, t, x, y, dx, dy, k);
    PaintCounts(g, t, x, y, dx, dy, k);
    PaintCells(g, t, x, y, dx, dy, k);
    assert HoldsAt(g, x, y, dx, dy, k, Piece(t));
    assert Steps(x, y, dx, dy, Along(x, k, dx), Along(y, k, dy)) == k;
  }

  /** The origin of a painted span holds the painted colour. */
  lemma PaintOrigin(g: Board, c: Color, x: int, y: int, dx: int, dy: int, k: nat)
    requires WellFormed(g) && IsDirection(dx, dy) && SpanOnBoard(x, y, dx, dy, k)
    requires OnBoard(x, y) && 1 <= k
    ensures Paint(g, c, x, y, dx, dy, k)[y][x] == Piece(c)
  {
    PaintCells(g, c, x, y, dx, dy, k);
    assert Steps(x, y, dx, dy, x, y) == 0;
    assert OnSpan(x, y, dx, dy, k, x, y);
  }

  /** What one `Flip` does to the game: nothing unless it brackets; after a
      bracket of length k the k cells from the origin hold the mover's
      pieces and every other cell is unchanged, the mover gains k pieces,
      the opponent loses k - 1, the counters match the board, `over` is
      set on a full count and the turn passes. */
  lemma FlipEffect(s: GameState, x: int, y: int, dx: int, dy: int)
    requires WellFormed(s.board) && OnBoard(x, y) && IsDirection(dx, dy)
    ensures var r := AfterFlip(s, x, y, dx, dy);
      match Bracket(s.board, s.turn, x, y, dx, dy)
      case None => r == s
      case Some(k) =>
        && (forall py, px :: OnBoard(px, py) ==>
              r.board[py][px] == if OnSpan(x, y, dx, dy, k, px, py) then Piece(s.turn) else s.board[py][px])
        && r.board[y][x] == Piece(s.turn)
        && Count(r.board, Piece(s.turn)) == Count(s.board, Piece(s.turn)) + k
        && Count(r.board, Piece(Opponent(s.turn))) + (k - 1) == Count(s.board, Piece(Opponent(s.turn)))
        && r.black + r.white == Count(s.board, Piece(Black)) + Count(s.board, Piece(White)) + 1
        && r.black == Count(r.board, Piece(Black)) && r.white == Count(r.board, Piece(White))
        && (r.over <==> s.over || r.black + r.white >= Cells)
        && r.turn == Opponent(s.turn)
  {
    match Bracket(s.board, s.turn, x, y, dx, dy)
    case None =>
    case Some(k) =>
      BracketSpan(s.board, s.turn, x, y, dx, dy, k);
      PaintCounts(s.board, s.turn, x, y, dx, dy, k);
      PaintCells(s.board, s.turn, x, y, dx, dy, k);
      var b := Paint(s.board, s.turn, x, y, dx, dy, k);
      assert Count(b, Piece(Black)) + Count(b, Piece(White))
          == Count(s.board, Piece(Black)) + Count(s.board, Piece(White)) + 1 by {
        if s.turn == Black {
          assert Opponent(s.turn) == White;
        } else {
          assert Opponent(s.turn) == Black;
        }
      }
  }

  /** `SelectedSquare` tries eight directions. */
  const DirectionCount: nat := 8

  /** The i-th direction `SelectedSquare` tries, in the source's order. */
  function Direction(i: nat): (d: (int, int))
    requires i < DirectionCount
    ensures IsDirection(d.0, d.1)
  {
    [(0, -1), (1, -1), (1, 0), (1, 1), (0, 1), (-1, 1), (-1, 0), (-1, -1)][i]
  }

  /** The state after `SelectedSquare` has made the calls of `Flip` for
      directions i .. 7, one after the other, starting from s. */
  function SelectFrom(s: GameState, x: int, y: int, i: nat): (r: GameState)
    requires WellFormed(s.board) && OnBoard(x, y) && i <= DirectionCount
    ensures WellFormed(r.board)
    decreases DirectionCount - i
  {
    if i == DirectionCount then s
    else SelectFrom(AfterFlip(s, x, y, Direction(i).0, Direction(i).1), x, y, i + 1)
  }

  /** A click on (x, y): `SelectedSquare(x, y)`. */
  function Select(s: GameState, x: int, y: int): GameState
    requires WellFormed(s.board) && OnBoard(x, y)
  {
    SelectFrom(s, x, y, 0)
  }

  /** `Select` with its eight tries written out in the source's order. */
  lemma SelectUnfold(s: GameState, x: int, y: int)
    requires WellFormed(s.board) && OnBoard(x, y)
    ensures var s1 := AfterFlip(s, x, y, 0, -1);
      var s2 := AfterFlip(s1, x, y, 1, -1);
      var s3 := AfterFlip(s2, x, y, 1, 0);
      var s4 := AfterFlip(s3, x, y, 1, 1);
      var s5 := AfterFlip(s4, x, y, 0, 1);
      var s6 := AfterFlip(s5, x, y, -1, 1);
      var s7 := AfterFlip(s6, x, y, -1, 0);
      Select(s, x, y) == AfterFlip(s7, x, y, -1, -1)
  {
  }

  /** The index of the first of directions i .. 7 that brackets. */
  function FirstBracket(g: Board, t: Color, x: int, y: int, i: nat): (r: Option<nat>)
    requires WellFormed(g) && OnBoard(x, y) && i <= DirectionCount
    ensures r.Some? ==> i <= r.value < DirectionCount
    decreases DirectionCount - i
  {
    if i == DirectionCount then None
    else if Bracket(g, t, x, y, Direction(i).0, Direction(i).1).Some? then Some(i)
    else FirstBracket(g, t, x, y, i + 1)
  }

  /** A click on an occupied cell changes nothing: every `Flip` from it
      returns false. This is why the re-entrant `SelectedSquare` on the
      bracketing cell is a no-op. */
  lemma {:induction false} SelectFromOccupied(s: GameState, x: int, y: int, i: nat)
    requires WellFormed(s.board) && OnBoard(x, y) && i <= DirectionCount
    requires s.board[y][x] != Empty
    ensures SelectFrom(s, x, y, i) == s
    decreases DirectionCount - i
  {
    if i < DirectionCount {
      SelectFromOccupied(s, x, y, i + 1);
    }
  }

  /** At most one direction flips per click: the remaining tries equal the
      single `Flip` in the first direction that brackets, or nothing at all. */
  lemma {:induction false} SelectFromOnce(s: GameState, x: int, y: int, i: nat)
    requires WellFormed(s.board) && OnBoard(x, y) && i <= DirectionCount
    ensures SelectFrom(s, x, y, i) ==
      match FirstBracket(s.board, s.turn, x, y, i)
      case None => s
      case Some(d) => AfterFlip(s, x, y, Direction(d).0, Direction(d).1)
    decreases DirectionCount - i
  {
    if i < DirectionCount {
      var s1 := AfterFlip(s, x, y, Direction(i).0, Direction(i).1);
      if Bracket(s.board, s.turn, x, y, Direction(i).0, Direction(i).1).Some? {
        SelectFromOccupied(s1, x, y, i + 1);
      } else {
        SelectFromOnce(s, x, y, i + 1);
      }
    }
  }

  /** A click is the `Flip` of the first bracketing direction, if any. */
  lemma SelectOnce(s: GameState, x: int, y: int)
    requires WellFormed(s.board) && OnBoard(x, y)
    ensures Select(s, x, y) ==
      match FirstBracket(s.board, s.turn, x, y, 0)
      case None => s
      case Some(d) => AfterFlip(s, x, y, Direction(d).0, Direction(d).1)
  {
    SelectFromOnce(s, x, y, 0);
  }

  /** A click passes the turn exactly once if some direction brackets and
      not at all otherwise, and adds exactly one piece to the board in the
      first case and none in the second. */
  lemma SelectTurn(s: GameState, x: int, y: int)
    requires WellFormed(s.board) && OnBoard(x, y)
    ensures var r := Select(s, x, y);
      var flipped := FirstBracket(s.board, s.turn, x, y, 0).Some?;
      && r.turn == (if flipped then Opponent(s.turn) else s.turn)
      && Count(r.board, Piece(Black)) + Count(r.board, Piece(White))
         == Count(s.board, Piece(Black)) + Count(s.board, Piece(White)) + Ind(flipped)
  {
    SelectOnce(s, x, y);
    match FirstBracket(s.board, s.turn, x, y, 0)
    case None =>
    case Some(d) =>
      FirstBracketIsBracket(s.board, s.turn, x, y, 0);
      FlipEffect(s, x, y, Direction(d).0, Direction(d).1);
  }

  lemma {:induction false} FirstBracketIsBracket(g: Board, t: Color, x: int, y: int, i: nat)
    requires WellFormed(g) && OnBoard(x, y) && i <= DirectionCount
    ensures match FirstBracket(g, t, x, y, i)
      case None => forall d :: i <= d < DirectionCount ==> Bracket(g, t, x, y, Direction(d).0, Direction(d).1) == None
      case Some(d) =>
        && i <= d < DirectionCount && Bracket(g, t, x, y, Direction(d).0, Direction(d).1).Some?
        && forall j :: i <= j < d ==> Bracket(g, t, x, y, Direction(j).0, Direction(j).1) == None
    decreases DirectionCount - i
  {
    if i < DirectionCount {
      FirstBracketIsBracket(g, t, x, y, i + 1);
    }
  }

  /** The cell of the source's initial board literal. */
  function StartCell(x: int, y: int): Cell {
    if (x == 3 && y == 3) || (x == 4 && y == 4) then Piece(Black)
    else if (x == 4 && y == 3) || (x == 3 && y == 4) then Piece(White)
    else Empty
  }

  function InitialBoard(): (g: Board)
    ensures WellFormed(g)
  {
    seq(N, y => seq(N, x => StartCell(x, y)))
  }

  /** The initial `state`: Black to move, not over, and both counters at 0
      although four pieces stand on the board. */
  function Initial(): GameState {
    GameState(InitialBoard(), Black, false, 0, 0)
  }

  /** The initial board holds two black and two white pieces and 60 empty
      cells, although `Initial` starts both counters at 0. */
  lemma InitialPieces()
    ensures Count(InitialBoard(), Piece(Black)) == 2
    ensures Count(InitialBoard(), Piece(White)) == 2
    ensures Count(InitialBoard(), Empty) == Cells - 4
  {
    var e: Board := seq(N, y => seq(N, x => Empty));
    var g1 := Set(e, 3, 3, Piece(Black));
    var g2 := Set(g1, 4, 3, Piece(White));
    var g3 := Set(g2, 3, 4, Piece(White));
    var g4 := Set(g3, 4, 4, Piece(Black));
    forall y | 0 <= y < N
      ensures g4[y] == InitialBoard()[y]
    {
      assert forall x :: 0 <= x < N ==> g4[y][x] == StartCell(x, y);
    }
    assert g4 == InitialBoard();
    CountZero(e, Piece(Black));
    CountZero(e, Piece(White));
    CountSet(e, 3, 3, Piece(Black), Piece(Black));
    CountSet(e, 3, 3, Piece(Black), Piece(White));
    CountSet(g1, 4, 3, Piece(White), Piece(Black));
    CountSet(g1, 4, 3, Piece(White), Piece(White));
    CountSet(g2, 3, 4, Piece(White), Piece(Black));
    CountSet(g2, 3, 4, Piece(White), Piece(White));
    CountSet(g3, 4, 4, Piece(Black), Piece(Black));
    CountSet(g3, 4, 4, Piece(Black), Piece(White));
    CountPartition(g4);
  }
}
