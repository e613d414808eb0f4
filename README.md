# A verified model of the checkers.js flanking game

checkers.js is a browser game on an 8x8 board. Despite the file's name, the
game is not checkers. Black and White take turns clicking an empty cell. A
click tries the eight directions from that cell in a fixed order
(`SelectedSquare`). In each direction, `Flip` steps over a run of the
opponent's pieces. When a piece of the mover closes the run,
`RenderReverse` paints the clicked cell and the run in the mover's colour.
It then recounts the pieces (`countPieces`), checks for a full board
(`checkForVictory`), re-clicks the closing cell, and passes the turn
(`nextTurn`).

The project has three modules:

- `Boards` (boards.dfy): cells, the board as a sequence of rows
  (`board[y][x]`, as in the source), single-cell writes, and piece counts.
- `Rules` (rules.dfy): the behaviour of one `Flip`, one `RenderReverse` and
  one click, written as functions on a `GameState` value. It also holds
  the lemmas about them: the walk finds exactly the runs, painting changes
  exactly the span, the counts, at most one flip per click, and the
  victory rule.
- `Checkers` (game.dfy): class `Game` holds the fields of the source's
  `state` object. Its methods follow the source statement by statement,
  with the real recursion `SelectedSquare` → `Flip` → `RenderReverse` →
  `SelectedSquare`. `Flip`, `RenderReverse` and `SelectedSquare` are proved
  to leave `Model()` equal to `AfterFlip`, `Flank` and `Select`. The smaller
  methods each state the one field they may change, as `Set`, `Count`,
  `Victory`, `Opponent` or `Paint` of the old state; their `modifies`
  clauses keep every other field. The recursion terminates because every
  flank fills one empty cell, and the re-entrant click is on an occupied
  cell, where it does nothing.

Two quirks of the source are kept:

- Once `Flip` has flanked in one direction, the clicked cell is occupied.
  All later directions of the same click therefore return at once, so at
  most one direction flips per click. In Othello, every bracketing
  direction would flip.
- The re-entrant `SelectedSquare(x, y)` inside `RenderReverse` is proved to
  change nothing.

## Model

| member | source | states |
|---|---|---|
| Boards.Opponent | checkers.js:44-49 | the other side is never the side itself (`nextTurn` swaps 'b' and 'w') |
| Boards.Set | checkers.js:58-63 | the board after `renderPiece`'s write to cell (x, y) is still 8x8; its cells are stated by `Checkers.Game.RenderPiece` and its counts by `Boards.CountSet` |
| Boards.CountRow | checkers.js:75-77 | the number of cells of a row equal to a value, counted left to right as the inner loop does; `Checkers.Game.CountPieces` is proved to compute it |
| Boards.Count | checkers.js:74-77 | the number of cells of the board equal to a value, row by row; `Boards.CountPartition`, `Boards.CountZero` and `Boards.CountSet` state its properties |
| Boards.CountSet | checkers.js:54-64 | writing one cell changes the count of any value by exactly the difference between the old and new cell |
| Boards.CountPartition | checkers.js:71-85 | every cell is empty, black or white, so the three counts sum to 64 and black + white never exceeds 64 |
| Boards.CountZero | checkers.js:26-28 | a value's count is zero exactly when no cell of the board holds it |
| Rules.Walk | checkers.js:181-198 | the walk of `Flip`'s loop: the end cell where the mover's piece closes the run, or nothing at an edge or empty cell; `Rules.WalkIff` characterises it |
| Rules.WalkSound | checkers.js:181-198 | a cell found by the walk of `Flip`'s loop is m steps away, with opponent pieces on every cell in between and the mover's piece on it |
| Rules.WalkComplete | checkers.js:181-198 | conversely, every such run closed by the mover's piece is found by the walk, at its end cell |
| Rules.WalkIff | checkers.js:181-198 | the walk ends m steps away if and only if the cells 1 .. m-1 hold opponent pieces and the cell m steps away holds the mover's piece |
| Rules.Bracket | checkers.js:165-179 | `Flip` gives up when the next cell is off the board, when the origin is occupied, or when the next cell holds no opponent piece |
| Rules.BracketIff | checkers.js:160-202 | `Flip` flanks at distance k if and only if the origin is empty, k >= 2, the cells strictly between hold opponent pieces and the cell k steps away holds the mover's |
| Rules.BracketAt | checkers.js:181-198 | once the early returns are passed, the cell where the loop meets the mover's piece is the bracketing cell k steps away |
| Rules.BracketNone | checkers.js:181-201 | once the early returns are passed, a loop that breaks or runs off the board means no flank |
| Rules.BracketSpan | checkers.js:160-202 | a flank of length k lies on the board, starts from an empty cell and is a run closed by the mover |
| Rules.Paint | checkers.js:131-152 | painting a span on the board keeps it an 8x8 board |
| Rules.PaintCells | checkers.js:131-152 | after `RenderReverse`'s loop, the k cells from the origin hold the mover's piece and every other cell is unchanged |
| Rules.PaintStep | checkers.js:135-149 | one write of the loop changes each count according to what the written cell held |
| Rules.PaintCounts | checkers.js:131-154 | painting an empty origin and k-1 opponent pieces gives the mover k more pieces, the opponent k-1 fewer, and one empty cell fewer |
| Rules.BracketPaint | checkers.js:129-156 | after painting a flank, the bracketing cell still holds the mover's piece, so the re-entrant click meets an occupied cell, and exactly one empty cell fewer remains |
| Rules.PaintOrigin | checkers.js:138-145 | the clicked cell receives the mover's piece |
| Rules.Victory | checkers.js:27-32 | `checkForVictory`'s rule: no winner below 64 counted pieces, else Black on a strict majority and White otherwise; `Rules.VictoryOnFullBoard` states what it means on a board |
| Rules.VictoryOnFullBoard | checkers.js:26-38 | with counts read off a board, a winner is declared exactly when no cell is empty; Black wins iff it has strictly more pieces, and a tie goes to White |
| Rules.Flank | checkers.js:129-159 | after `RenderReverse`, the origin holds the mover's piece and there is exactly one empty cell fewer (the measure that ends the recursion) |
| Rules.AfterFlip | checkers.js:160-202 | one `Flip` never increases the number of empty cells |
| Rules.FlipEffect | checkers.js:129-202 | a `Flip` that does not bracket changes nothing. One that does: the span becomes the mover's and every other cell is unchanged; the mover gains k and the opponent loses k-1; the total rises by one; the counters equal the board's counts; `over` is set iff the total reaches 64; the turn passes |
| Rules.Direction | checkers.js:116-126 | each of the eight directions tried by a click is a unit step |
| Rules.SelectFrom | checkers.js:116-126 | the tries of a click keep the board 8x8 |
| Rules.Select | checkers.js:116-126 | one click, the tries of all eight directions from the first; `Rules.SelectOnce` and `Rules.SelectTurn` state its effect |
| Rules.SelectUnfold | checkers.js:116-126 | a click is the eight `Flip` calls in the source's order (0,-1), (1,-1), (1,0), (1,1), (0,1), (-1,1), (-1,0), (-1,-1) |
| Rules.FirstBracket | checkers.js:116-126 | the first bracketing direction, if any, is one of the remaining directions |
| Rules.FirstBracketIsBracket | checkers.js:116-126 | the first bracketing direction does bracket and no earlier remaining direction does; if there is none, no direction brackets |
| Rules.SelectFromOccupied | checkers.js:156 | a click on an occupied cell changes nothing, so the re-entrant `SelectedSquare` on the bracketing cell is a no-op |
| Rules.SelectFromOnce | checkers.js:116-126 | at most one direction flips per click: the remaining tries equal the single `Flip` of the first bracketing direction, or nothing |
| Rules.SelectOnce | checkers.js:116-126 | a whole click equals the `Flip` of its first bracketing direction, or leaves the game unchanged |
| Rules.SelectTurn | checkers.js:116-159 | a click passes the turn exactly once if some direction brackets and not at all otherwise, and adds exactly one piece in the first case and none in the second |
| Rules.StartCell | checkers.js:14-15 | the cells of the initial board literal: black at (3, 3) and (4, 4), white at (4, 3) and (3, 4), empty elsewhere |
| Rules.InitialBoard | checkers.js:10-19 | the initial board literal is 8x8 |
| Rules.Initial | checkers.js:4-21 | the initial `state`: the literal board, Black to move, not over, both counters 0 |
| Rules.InitialPieces | checkers.js:4-21 | the initial board holds two black pieces, two white pieces and 60 empty cells, although the counters start at 0 |
| Checkers.Game.constructor | checkers.js:4-21 | the initial state: the four centre pieces, Black to move, not over, both counters 0 |
| Checkers.Game.RenderPiece | checkers.js:54-64 | cell (x, y) receives the piece and no other cell changes |
| Checkers.Game.CountPieces | checkers.js:71-85 | the nested loops leave in `black` and `white` the exact number of black and white cells, which together are at most 64 |
| Checkers.Game.CheckForVictory | checkers.js:26-38 | the result is the winner rule of `Victory`, and `over` is set exactly when there is a winner (or was already set) |
| Checkers.Game.NextTurn | checkers.js:44-49 | the turn passes to the other side |
| Checkers.Game.PaintRun | checkers.js:131-152 | the loop of `RenderReverse` paints the k cells from the origin up to the bracketing cell |
| Checkers.Game.RenderReverse | checkers.js:129-159 | the game ends in the `Flank` state: span painted, counters recounted, `over` updated, re-entrant click a no-op, turn passed |
| Checkers.Game.Flip | checkers.js:160-202 | the five early returns, then the loop that walks over opponent pieces; the game ends in `AfterFlip` |
| Checkers.Game.SelectedSquare | checkers.js:116-126 | the game ends in `Select`: the eight `Flip` calls in order. A click on an occupied cell changes nothing |

## Left out

- Drawing: the canvas calls of `renderPiece`, `renderSquare` and `renderBoard`, the `innerHTML` texts of `countPieces`, `nextTurn` and `checkForVictory`, and `setup` are not modelled; only their effect on `state` is.
- `handleMouseDown` and `boardPosition` are not modelled. They turn pixel positions into coordinates, and they admit the coordinates 8 and 9, which would index outside the 8x8 board.
- Checkers.Game.SelectedSquare: requires 0 <= x, y <= 7 (`OnBoard`), while the mouse handler passes up to 9. Those clicks are not modelled. In the source, a click with x = 9 or y = 9, or with x = 8 and y <= 7, has no effect: every `Flip` returns at checkers.js:165 or skips the loop at checkers.js:181. A click on row 8 with x <= 8 throws at checkers.js:167, which reads a cell of the missing row 8.
- `state.action` and the commented-out `captures` are never used by the code, and are left out.
- Checkers.Game.Flip: the source returns `false` or `undefined`, and its only caller discards the value; the method returns nothing.
- Checkers.Game.CheckForVictory: the source's result strings 'black wins' and 'white wins' and `null` are modelled as `Some(Black)`, `Some(White)` and `None`. The unreachable trailing `return 'black wins'` is not modelled.
- Checkers.Game.RenderReverse: the third branch of the loop (turn neither 'b' nor 'w') cannot happen, because the turn is a `Color`. The loop body is in the helper `Checkers.Game.PaintRun`.
- Checkers.Game.constructor: the source starts both counters at 0 although four pieces are on the board. The model keeps this, so no invariant ties the counters to the board until the first `countPieces`.
- The board is a sequence value that the methods replace, not nested arrays written in place. Aliasing of rows is not modelled; the source never shares rows.
- `state.over` is set but never read by the source. The model sets it the same way and nothing depends on it.
- Rules.InitialBoard: its own contract states only the board's shape. Its cells are given by `Rules.StartCell`, and `Rules.InitialPieces` counts them.
