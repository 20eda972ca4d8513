/** Short games played through the service's methods, using only their
    contracts. */
module Scenarios {
  import opened Rules
  import opened Heuristic
  import opened Service

  /** Against the computer, X opens in the corner 0: the move is accepted,
      the turn passes to O and the computer's move becomes pending. */
  method OpenInCorner() returns (game: TicTacToeService)
    ensures fresh(game) && fresh(game.board) && game.Valid() && game.mode == VersusAI
    ensures game.board[..] == [X, Empty, Empty, Empty, Empty, Empty, Empty, Empty, Empty]
    ensures game.currentPlayer == O && game.aiThinking
  {
    game := new TicTacToeService();
    game.SetMode(VersusAI);
    var ok := game.MakeMove(0);
    assert game.board[..] == [X, Empty, Empty, Empty, Empty, Empty, Empty, Empty, Empty];
    OneMarkUndecided(game.board[..], 0);
  }

  /** The computer's callback answers the corner opening in the centre and
      hands the turn back to X. */
  method CornerOpeningAnswered(rnd: real) returns (cells: seq<Cell>, turn: Player, pending: bool)
    requires 0.0 <= rnd < 1.0
    ensures cells == [X, Empty, Empty, Empty, O, Empty, Empty, Empty, Empty]
    ensures turn == X && !pending
  {
    var game := OpenInCorner();
    ghost var opening := game.board[..];
    CornerOpeningExample(opening, rnd);
    var move := game.AiStep(rnd);
    cells, turn, pending := game.board[..], game.currentPlayer, game.aiThinking;
    assert cells == opening[Center := O];
    CenterReply(opening);
  }

  /** Reset does not cancel a computer move that is still pending: when the
      callback scheduled before the reset fires, it plays O in the centre of
      the new game's empty board and passes the turn to O, so the human's
      next move is recorded as O. */
  method StaleMoveAfterReset(rnd: real) returns (cells: seq<Cell>, turn: Player)
    requires 0.0 <= rnd < 1.0
    ensures cells == [Empty, Empty, Empty, Empty, O, Empty, Empty, Empty, Empty]
    ensures turn == O
  {
    var game := OpenInCorner();
    game.Reset();
    ghost var blank := game.board[..];
    assert blank == seq(Size, _ => Empty);
    EmptyBoardExample(rnd);
    var move := game.AiStep(rnd);
    cells, turn := game.board[..], game.currentPlayer;
    assert cells == blank[Center := O];
    CenterOnEmpty(blank);
  }

  lemma CenterReply(opening: seq<Cell>)
    requires opening == [X, Empty, Empty, Empty, Empty, Empty, Empty, Empty, Empty]
    ensures opening[Center := O] == [X, Empty, Empty, Empty, O, Empty, Empty, Empty, Empty]
    ensures Evaluate(opening[Center := O], Undecided) == Undecided
  {
    TwoMarksUndecided(opening[Center := O], 0, Center);
  }

  lemma CenterOnEmpty(empty: seq<Cell>)
    requires empty == seq(Size, _ => Empty)
    ensures empty[Center := O] == [Empty, Empty, Empty, Empty, O, Empty, Empty, Empty, Empty]
    ensures Evaluate(empty[Center := O], Undecided) == Undecided
  {
    OneMarkUndecided(empty[Center := O], Center);
  }

  /** A board holding a single mark is a game in progress. */
  lemma OneMarkUndecided(cells: seq<Cell>, i: nat)
    requires |cells| == Size && i < Size
    requires forall j :: 0 <= j < Size && j != i ==> cells[j] == Empty
    ensures Evaluate(cells, Undecided) == Undecided
  {
    assert !HasWinningLine(cells);
    var free := if i == 0 then 1 else 0;
    assert cells[free] == Empty;
    EvaluateOutcome(cells, Undecided);
  }

  /** A board holding two marks is a game in progress. */
  lemma TwoMarksUndecided(cells: seq<Cell>, i: nat, k: nat)
    requires |cells| == Size && i < Size && k < Size
    requires forall j :: 0 <= j < Size && j != i && j != k ==> cells[j] == Empty
    ensures Evaluate(cells, Undecided) == Undecided
  {
    assert !HasWinningLine(cells);
    var free := if i != 0 && k != 0 then 0 else if i != 1 && k != 1 then 1 else 2;
    assert cells[free] == Empty;
    EvaluateOutcome(cells, Undecided);
  }
}
