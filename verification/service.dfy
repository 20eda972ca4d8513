/** The game service: the board, whose turn it is, the outcome fields, and the
    moves of the human players and of the computer player. */
module Service {
  import opened Rules
  import opened Heuristic

  class TicTacToeService {
    var board: array<Cell>
    var currentPlayer: Player
    var mode: Mode
    var winner: Option<Player>
    var winningCombo: Option<Line>
    var gameOver: bool
    /** Set while the computer player's move is pending. */
    var aiThinking: bool

    function Status(): Outcome
      reads this
    {
      Outcome(winner, winningCombo, gameOver)
    }

    /** The board has nine cells and the outcome fields are what the
        end-of-game check computes from them. */
    ghost predicate Valid()
      reads this, board
    {
      board.Length == Size && Status() == Evaluate(board[..], Undecided)
    }

    /** A new game in two-player mode. */
    constructor ()
      ensures Valid() && fresh(board)
      ensures forall i :: 0 <= i < Size ==> board[i] == Empty
      ensures mode == TwoPlayer && currentPlayer == X
      ensures winner == None && winningCombo == None && !gameOver && !aiThinking
    {
      mode := TwoPlayer;
      board := new Cell[Size](_ => Empty);
      currentPlayer := X;
      winner := None;
      winningCombo := None;
      gameOver := false;
      aiThinking := false;
      new;
      assert !Full(board[..]) by { assert board[..][0] == Empty; }
    }

    /** Changes the mode and starts a new game. */
    method SetMode(m: Mode)
      modifies this
      ensures Valid() && fresh(board)
      ensures forall i :: 0 <= i < Size ==> board[i] == Empty
      ensures mode == m && currentPlayer == X
      ensures winner == None && winningCombo == None && !gameOver && !aiThinking
    {
      mode := m;
      Reset();
    }

    /** Starts a new game on a fresh empty board, X to move; the mode is kept. */
    method Reset()
      modifies this
      ensures Valid() && fresh(board)
      ensures forall i :: 0 <= i < Size ==> board[i] == Empty
      ensures mode == old(mode) && currentPlayer == X
      ensures winner == None && winningCombo == None && !gameOver && !aiThinking
    {
      board := new Cell[Size](_ => Empty);
      currentPlayer := X;
      winner := None;
      winningCombo := None;
      gameOver := false;
      aiThinking := false;
      assert !Full(board[..]) by { assert board[..][0] == Empty; }
    }

    /** A human move on cell `idx`. It is refused, and nothing changes, when
        the game is over or the cell is taken. Otherwise the mover's mark is
        placed, the end of the game is checked, and if the game goes on the
        turn passes; when that hands the turn to the computer player, its move
        becomes pending. */
    method MakeMove(idx: int) returns (ok: bool)
      requires Valid() && 0 <= idx < Size
      modifies this, board
      ensures Valid() && board == old(board) && mode == old(mode)
      ensures ok <==> !old(gameOver) && old(board[idx]) == Empty
      ensures !ok ==>
        board[..] == old(board[..]) && Status() == old(Status()) &&
        currentPlayer == old(currentPlayer) && aiThinking == old(aiThinking)
      ensures ok ==> board[..] == old(board[..])[idx := old(currentPlayer)]
      ensures ok ==> currentPlayer == if gameOver then old(currentPlayer) else Other(old(currentPlayer))
      ensures ok ==> aiThinking == ((!gameOver && mode == VersusAI && currentPlayer == O) || old(aiThinking))
    {
      if gameOver || board[idx] != Empty {
        return false;
      }
      NotOverIsUndecided(board[..]);
      board[idx] := currentPlayer;
      CheckGameOver();
      if !gameOver {
        SwitchPlayer();
        if mode == VersusAI && currentPlayer == O {
          AiPlay();
        }
      }
      return true;
    }

    method SwitchPlayer()
      modifies this`currentPlayer
      ensures currentPlayer == Other(old(currentPlayer))
      ensures old(Valid()) ==> Valid()
    {
      currentPlayer := if currentPlayer == X then O else X;
    }

    /** The end-of-game check: the first line in scan order whose three cells
        hold the same mark decides the game; failing that a full board is a
        tie; otherwise the outcome fields are left as they are. */
    method CheckGameOver()
      requires board.Length == Size
      modifies this`winner, this`winningCombo, this`gameOver
      ensures Status() == Evaluate(board[..], old(Status()))
      ensures old(Valid()) ==> Valid()
    {
      EvaluateSettled(board[..]);
      for k := 0 to |WinPatterns|
        invariant forall j :: 0 <= j < k ==> !LineWins(board[..], WinPatterns[j])
        invariant Status() == old(Status())
      {
        var l := WinPatterns[k];
        if board[l.a] != Empty && board[l.a] == board[l.b] && board[l.b] == board[l.c] {
          assert LineWins(board[..], l);
          winner := Some(board[l.a]);
          winningCombo := Some(l);
          gameOver := true;
          return;
        }
      }
      if forall i :: 0 <= i < Size ==> board[i] != Empty {
        winner := None;
        winningCombo := None;
        gameOver := true;
      }
    }

    /** Marks the computer player's move as pending. The delayed callback that
        performs it is AiStep. */
    method AiPlay()
      modifies this`aiThinking
      ensures aiThinking
      ensures old(Valid()) ==> Valid()
    {
      aiThinking := true;
    }

    /** The delayed callback of the computer player: choose a cell, place O
        there, check the end of the game, clear the pending flag, and pass the
        turn when the game goes on. On a full board the choice is -1 and no
        cell is written. */
    method AiStep(rnd: real) returns (move: int)
      requires Valid() && 0.0 <= rnd < 1.0
      modifies this, board
      ensures Valid() && board == old(board) && mode == old(mode)
      ensures move == AIMove(old(board[..]), rnd)
      ensures move == -1 ==> board[..] == old(board[..])
      ensures move != -1 ==> 0 <= move < Size && old(board[move]) == Empty && board[..] == old(board[..])[move := O]
      ensures !aiThinking
      ensures currentPlayer == if gameOver then old(currentPlayer) else Other(old(currentPlayer))
    {
      ghost var cells := board[..];
      ghost var player := currentPlayer;
      move := FindAIMove(rnd);
      assert currentPlayer == player && mode == old(mode);
      ghost var prev := Status();
      if move != -1 {
        board[move] := O;
      }
      CheckGameOver();
      assert currentPlayer == player && mode == old(mode);
      if Full(cells) {
        FullBoardDecided(cells, prev, Undecided);
      }
      aiThinking := false;
      if !gameOver {
        SwitchPlayer();
      }
    }

    /** One trial of the computer player's search: place `p` on the free cell
        `i`, run the end-of-game check, read whether `p` won, then clear the
        cell and reset the outcome fields to a game in progress. */
    method TryCell(i: nat, p: Player) returns (wins: bool)
      requires board.Length == Size && i < Size && board[i] == Empty
      requires winner.Some? ==> HasWinningLine(board[..])
      modifies board, this`winner, this`winningCombo, this`gameOver
      ensures board[..] == old(board[..])
      ensures wins == Completes(old(board[..]), i, p)
      ensures Status() == Undecided
    {
      ghost var cells := board[..];
      ghost var prev := Status();
      board[i] := p;
      assert board[..] == cells[i := p];
      CheckGameOver();
      TrialReportsCompletion(cells, i, p, prev);
      wins := winner == Some(p);
      board[i] := Empty;
      assert board[..] == cells;
      winner := None;
      winningCombo := None;
      gameOver := false;
    }

    /** The search loop of the computer player's first two steps: try `p` on
        every free cell in ascending order and stop at the first where it wins.
        The board is left as on entry, and the outcome fields are reset to a
        game in progress as soon as one cell has been tried. */
    method ScanTrials(p: Player) returns (found: Option<nat>)
      requires board.Length == Size
      requires winner.Some? ==> HasWinningLine(board[..])
      modifies board, this`winner, this`winningCombo, this`gameOver
      ensures board[..] == old(board[..])
      ensures found == LowestCompleting(old(board[..]), p, 0)
      ensures Status() == if Full(old(board[..])) then old(Status()) else Undecided
      ensures winner.Some? ==> HasWinningLine(board[..])
    {
      ghost var cells := board[..];
      ghost var touched := false;
      var i := 0;
      while i < Size
        invariant 0 <= i <= Size
        invariant board[..] == cells
        invariant LowestCompleting(cells, p, i) == LowestCompleting(cells, p, 0)
        invariant touched ==> !Full(cells)
        invariant !touched ==> forall j :: 0 <= j < i ==> cells[j] != Empty
        invariant Status() == if touched then Undecided else old(Status())
        invariant winner.Some? ==> HasWinningLine(cells)
      {
        if board[i] == Empty {
          assert cells[i] == Empty;
          var wins := TryCell(i, p);
          touched := true;
          if wins {
            return Some(i);
          }
        }
        i := i + 1;
      }
      return None;
    }

    /** The computer player's choice. Each trial places a mark, runs the
        end-of-game check, reads the winner, and then clears the cell and resets
        the outcome fields to a game in progress; so the board is as on entry,
        and the outcome fields are too unless the board had a free cell and the
        game was over. */
    method FindAIMove(rnd: real) returns (move: int)
      requires Valid() && 0.0 <= rnd < 1.0
      modifies board, this`winner, this`winningCombo, this`gameOver
      ensures board[..] == old(board[..])
      ensures move == AIMove(old(board[..]), rnd)
      ensures Status() == if Full(old(board[..])) then old(Status()) else Undecided
      ensures !old(gameOver) ==> Status() == old(Status())
    {
      WinnerHasLine(board[..]);
      // 1. win at once if possible
      var win := ScanTrials(O);
      if win.Some? {
        return win.value;
      }
      // 2. block X's win
      var block := ScanTrials(X);
      if block.Some? {
        return block.value;
      }
      // 3. the centre
      if board[Center] == Empty {
        return Center;
      }
      // 4. a corner, picked by the random number
      var corners := FreeAmong(board[..], Corners);
      if |corners| > 0 {
        return corners[Pick(rnd, |corners|)];
      }
      // 5. the first free side, else the first free cell
      var sides := FreeAmong(board[..], Sides);
      if |sides| > 0 {
        return sides[0];
      }
      return FirstFreeFrom(board[..], 0);
    }
  }
}
