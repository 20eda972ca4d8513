/** Board cells, the eight winning lines, and the win/tie evaluation that the
    service performs after every placement, as pure definitions. */
module Rules {

  datatype Option<+T> = None | Some(value: T)

  /** A cell holds a mark or nothing (the source's `null`). */
  datatype Cell = Empty | X | O

  /** A player is a non-empty cell value: 'X' or 'O'. */
  type Player = c: Cell | c != Empty witness X

  /** The game mode: two humans, or a human (X) against the computer (O). */
  datatype Mode = TwoPlayer | VersusAI

  /** The three board indices of one line. */
  datatype Line = Line(a: nat, b: nat, c: nat)

  /** The board has nine cells, indexed row by row:
        0 1 2
        3 4 5
        6 7 8 */
  const Size: nat := 9

  /** The winning lines in the order the service scans them:
      rows, then columns, then the two diagonals. */
  const WinPatterns: seq<Line> :=
    [Line(0, 1, 2), Line(3, 4, 5), Line(6, 7, 8),
     Line(0, 3, 6), Line(1, 4, 7), Line(2, 5, 8),
     Line(0, 4, 8), Line(2, 4, 6)]

  function Other(p: Player): (q: Player)
    ensures q != p
  {
    if p == X then O else X
  }

  predicate OnLine(l: Line, i: int) {
    i == l.a || i == l.b || i == l.c
  }

  /** The three cells of `l` are equal and not empty. */
  predicate LineWins(cells: seq<Cell>, l: Line) {
    l.a < |cells| && l.b < |cells| && l.c < |cells| &&
    cells[l.a] != Empty && cells[l.a] == cells[l.b] && cells[l.b] == cells[l.c]
  }

  predicate HasWinningLine(cells: seq<Cell>) {
    exists k :: 0 <= k < |WinPatterns| && LineWins(cells, WinPatterns[k])
  }

  /** Every cell holds a mark. */
  predicate Full(cells: seq<Cell>) {
    forall i :: 0 <= i < |cells| ==> cells[i] != Empty
  }

  /** The index, at or after `k`, of the first winning line in scan order. */
  function FirstWinFrom(cells: seq<Cell>, k: nat): (r: Option<nat>)
    requires k <= |WinPatterns|
    ensures r.Some? ==> k <= r.value < |WinPatterns| && LineWins(cells, WinPatterns[r.value])
    ensures r.Some? ==> forall j :: k <= j < r.value ==> !LineWins(cells, WinPatterns[j])
    ensures r.None? ==> forall j :: k <= j < |WinPatterns| ==> !LineWins(cells, WinPatterns[j])
    decreases |WinPatterns| - k
  {
    if k == |WinPatterns| then None
    else if LineWins(cells, WinPatterns[k]) then Some(k)
    else FirstWinFrom(cells, k + 1)
  }

  function FirstWin(cells: seq<Cell>): Option<nat> {
    FirstWinFrom(cells, 0)
  }

  /** What `winner`, `winningCombo` and `gameOver` hold. */
  datatype Outcome = Outcome(winner: Option<Player>, combo: Option<Line>, over: bool)

  /** The outcome of a game in progress: no winner, no line, not over. */
  const Undecided: Outcome := Outcome(None, None, false)

  /** The outcome after the end-of-game check on `cells`, starting from `prev`:
      the first winning line in scan order decides the game; failing that a
      full board is a tie; otherwise nothing changes. */
  function Evaluate(cells: seq<Cell>, prev: Outcome): Outcome {
    match FirstWin(cells)
    case Some(k) =>
      var l := WinPatterns[k];
      Outcome(Some(cells[l.a]), Some(l), true)
    case None =>
      if Full(cells) then Outcome(None, None, true) else prev
  }

  /** What the check reports: when some line wins, the game is over, the
      reported line is the first winning line in scan order and the winner is
      the mark in all three of its cells; when none wins, a full board is a tie
      and otherwise nothing changes. */
  lemma EvaluateOutcome(cells: seq<Cell>, prev: Outcome)
    ensures var v := Evaluate(cells, prev);
      HasWinningLine(cells) ==>
        v.over && v.winner.Some? && v.combo.Some? &&
        exists k :: 0 <= k < |WinPatterns| && v.combo.value == WinPatterns[k] &&
          LineWins(cells, WinPatterns[k]) &&
          (forall j :: 0 <= j < k ==> !LineWins(cells, WinPatterns[j]))
    ensures var v := Evaluate(cells, prev);
      HasWinningLine(cells) ==>
        var l := v.combo.value;
        l.a < |cells| && l.b < |cells| && l.c < |cells| &&
        cells[l.a] == v.winner.value && cells[l.b] == v.winner.value && cells[l.c] == v.winner.value
    ensures !HasWinningLine(cells) && Full(cells) ==> Evaluate(cells, prev) == Outcome(None, None, true)
    ensures !HasWinningLine(cells) && !Full(cells) ==> Evaluate(cells, prev) == prev
  {
  }

  /** Running the check again on an unchanged board changes nothing. */
  lemma EvaluateSettled(cells: seq<Cell>)
    ensures Evaluate(cells, Evaluate(cells, Undecided)) == Evaluate(cells, Undecided)
  {
  }

  /** Placing `p` on the empty cell `i` makes the end-of-game check report `p`
      as the winner. */
  predicate Completes(cells: seq<Cell>, i: int, p: Player) {
    0 <= i < |cells| && cells[i] == Empty && Evaluate(cells[i := p], Undecided).winner == Some(p)
  }

  /** On a full board the check decides the game whatever the fields held. */
  lemma FullBoardDecided(cells: seq<Cell>, prev: Outcome, prev': Outcome)
    requires Full(cells)
    ensures Evaluate(cells, prev) == Evaluate(cells, prev')
    ensures Evaluate(cells, prev).over
  {
  }

  /** In a consistent state the outcome fields are those the check computes
      from the board; then a game not over has the undecided outcome. */
  lemma {:induction false} NotOverIsUndecided(cells: seq<Cell>)
    requires !Evaluate(cells, Undecided).over
    ensures Evaluate(cells, Undecided) == Undecided
    ensures !HasWinningLine(cells) && !Full(cells)
  {
    EvaluateOutcome(cells, Undecided);
  }

  /** The check names a winner only when some line wins. */
  lemma WinnerHasLine(cells: seq<Cell>)
    ensures Evaluate(cells, Undecided).winner.Some? ==> HasWinningLine(cells)
  {
    EvaluateOutcome(cells, Undecided);
  }

  /** A line that wins after one more mark is placed on an empty cell either
      won before or runs through that cell. */
  lemma NewLineRunsThrough(cells: seq<Cell>, i: int, p: Player, l: Line)
    requires 0 <= i < |cells| && cells[i] == Empty
    requires LineWins(cells[i := p], l) && !LineWins(cells, l)
    ensures OnLine(l, i) && cells[i := p][l.a] == p
  {
  }

  /** Placing a mark on an empty cell never undoes a winning line. */
  lemma WinPersists(cells: seq<Cell>, i: int, p: Player)
    requires 0 <= i < |cells| && cells[i] == Empty
    requires HasWinningLine(cells)
    ensures HasWinningLine(cells[i := p])
  {
    var k :| 0 <= k < |WinPatterns| && LineWins(cells, WinPatterns[k]);
    assert LineWins(cells[i := p], WinPatterns[k]);
  }

  /** On a board nobody has won yet, `p` completes a line at `i` exactly when
      some winning line runs through `i` and holds `p` in its other two cells. */
  lemma {:induction false} CompletesIffLine(cells: seq<Cell>, i: int, p: Player)
    requires |cells| == Size && !HasWinningLine(cells)
    ensures Completes(cells, i, p) <==>
      0 <= i < Size && cells[i] == Empty &&
      exists k :: 0 <= k < |WinPatterns| && OnLine(WinPatterns[k], i) && LineWins(cells[i := p], WinPatterns[k])
  {
    if 0 <= i < Size && cells[i] == Empty {
      var after := cells[i := p];
      var v := Evaluate(after, Undecided);
      EvaluateOutcome(after, Undecided);
      if Completes(cells, i, p) {
        assert HasWinningLine(after);
        var k :| 0 <= k < |WinPatterns| && v.combo.value == WinPatterns[k] && LineWins(after, WinPatterns[k]);
        assert !LineWins(cells, WinPatterns[k]);
        NewLineRunsThrough(cells, i, p, WinPatterns[k]);
      }
      if exists k :: 0 <= k < |WinPatterns| && OnLine(WinPatterns[k], i) && LineWins(after, WinPatterns[k]) {
        var k :| 0 <= k < |WinPatterns| && OnLine(WinPatterns[k], i) && LineWins(after, WinPatterns[k]);
        assert HasWinningLine(after);
        var k' :| 0 <= k' < |WinPatterns| && v.combo.value == WinPatterns[k'] && LineWins(after, WinPatterns[k']);
        assert !LineWins(cells, WinPatterns[k']);
        NewLineRunsThrough(cells, i, p, WinPatterns[k']);
      }
    }
  }

  /** Putting the third matching mark on any line of a board nobody has won
      ends the game with that mark as the winner and a winning line through
      the cell just played. */
  lemma {:induction false} ThirdMarkWins(cells: seq<Cell>, i: int, p: Player, k: nat, prev: Outcome)
    requires |cells| == Size && !HasWinningLine(cells)
    requires 0 <= i < Size && cells[i] == Empty
    requires k < |WinPatterns| && OnLine(WinPatterns[k], i)
    requires forall j :: OnLine(WinPatterns[k], j) && j != i ==> cells[j] == p
    ensures var v := Evaluate(cells[i := p], prev);
      v.over && v.winner == Some(p) && v.combo.Some? && OnLine(v.combo.value, i)
  {
    var after := cells[i := p];
    var l := WinPatterns[k];
    assert LineWins(after, l);
    assert HasWinningLine(after);
    var v := Evaluate(after, prev);
    EvaluateOutcome(after, prev);
    var k' :| 0 <= k' < |WinPatterns| && v.combo.value == WinPatterns[k'] && LineWins(after, WinPatterns[k']);
    assert !LineWins(cells, WinPatterns[k']);
    NewLineRunsThrough(cells, i, p, WinPatterns[k']);
  }

  /** The hypothetical placement the computer player tries reads the winner
      field after the check. Starting from an outcome that names a winner only
      when the board already has a winning line, that field reports `p`
      exactly when `p` completes a line there. */
  lemma {:induction false} TrialReportsCompletion(cells: seq<Cell>, i: int, p: Player, prev: Outcome)
    requires 0 <= i < |cells| && cells[i] == Empty
    requires prev.winner.Some? ==> HasWinningLine(cells)
    ensures Evaluate(cells[i := p], prev).winner == Some(p) <==> Completes(cells, i, p)
  {
    if HasWinningLine(cells) {
      WinPersists(cells, i, p);
    }
    EvaluateOutcome(cells[i := p], prev);
    EvaluateOutcome(cells[i := p], Undecided);
  }
}
