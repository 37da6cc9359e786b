/** The application around the board: it owns the current grid and, after a
    loss or a win, throws it away for a freshly built one (resetGame). */
module Game {
  import opened Rules
  import opened Engine

  class Minesweeper {
    /** The board in play; replaced wholesale by a reset. */
    var board: Board

    /** The board in play is valid and not yet won: a win resets it at once. */
    ghost predicate Valid()
      reads this, board, board.grid
    {
      board.Valid() && !AllSafeOpen(board.open, board.mines)
    }

    /** Start-up: the first board is built like every later one. */
    constructor (draws: seq<Coord>)
      requires forall i :: 0 <= i < |draws| ==> IsValid(draws[i].0, draws[i].1)
      requires |Elems(draws)| >= MineCount
      ensures Valid() && fresh(board) && fresh(board.grid)
      ensures board.mines == Fill({}, draws) && board.open == {}
    {
      board := new Board(draws);
      new;
      FreshBoardNotWon(board.mines);
    }

    /** resetGame: a new grid of closed, empty cells, then placeMines and
        calculateNumbers on it. */
    method ResetGame(draws: seq<Coord>)
      requires forall i :: 0 <= i < |draws| ==> IsValid(draws[i].0, draws[i].1)
      requires |Elems(draws)| >= MineCount
      modifies this
      ensures Valid() && fresh(board) && fresh(board.grid)
      ensures board.mines == Fill({}, draws) && board.open == {}
    {
      board := new Board(draws);
      FreshBoardNotWon(board.mines);
    }

    /** A click on (x, y): open the cell; an explosion (showGameOver) or a
        win reported by checkWin is followed by resetGame, which takes its
        placement draws from the injected sequence. */
    method Click(x: int, y: int, survive: bool, draws: seq<Coord>) returns (outcome: Outcome, won: bool)
      requires Valid() && IsValid(x, y)
      requires forall i :: 0 <= i < |draws| ==> IsValid(draws[i].0, draws[i].1)
      requires |Elems(draws)| >= MineCount
      modifies this, board, board.grid
      ensures Valid()
      ensures outcome == AlreadyOpen <==> (x, y) in old(board.open)
      ensures outcome == Opened <==> (x, y) !in old(board.open) && (x, y) !in old(board.mines)
      ensures outcome == SurvivedMine <==> (x, y) !in old(board.open) && (x, y) in old(board.mines) && survive
      ensures outcome == Exploded <==> (x, y) !in old(board.open) && (x, y) in old(board.mines) && !survive
      ensures won ==> outcome == Opened || outcome == SurvivedMine
      ensures outcome == Exploded || won ==>
        fresh(board) && fresh(board.grid) && board.mines == Fill({}, draws) && board.open == {}
      ensures outcome == AlreadyOpen ==> board == old(board) && board.open == old(board.open)
      ensures outcome == SurvivedMine ==> !won && board == old(board) && board.open == old(board.open) + {(x, y)}
      ensures outcome == Opened && !won && !Zero(board.mines, (x, y)) ==> board.open == old(board.open) + {(x, y)}
      ensures !(outcome == Exploded || won) ==>
        forall c :: c in board.open - old(board.open) ==> ReachedFrom(board.mines, (x, y), board.open - old(board.open), c)
      ensures !(outcome == Exploded || won) ==>
        board == old(board) && board.mines == old(board.mines) &&
        old(board.open) + {(x, y)} <= board.open && !AllSafeOpen(board.open, board.mines)
    {
      outcome, won := board.Open(x, y, survive);
      if outcome == Exploded || won {
        ResetGame(draws);
      }
    }
  }
}
