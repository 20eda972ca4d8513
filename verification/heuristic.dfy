/** The computer player's fixed-priority choice of a cell, as pure definitions:
    win now, else block X, else the centre, else a free corner picked by the
    random number, else the first free side, else the first free cell. */
module Heuristic {
  import opened Rules

  const Center: nat := 4
  const Corners: seq<nat> := [0, 2, 6, 8]
  const Sides: seq<nat> := [1, 3, 5, 7]

  predicate Increasing(s: seq<nat>) {
    forall i, j :: 0 <= i < j < |s| ==> s[i] < s[j]
  }

  predicate Free(cells: seq<Cell>, i: int) {
    0 <= i < |cells| && cells[i] == Empty
  }

  /** The lowest index at or after `k` where placing `p` makes `p` the winner. */
  function LowestCompleting(cells: seq<Cell>, p: Player, k: nat): (r: Option<nat>)
    requires |cells| == Size && k <= Size
    ensures r.Some? ==> k <= r.value < Size && Completes(cells, r.value, p)
    ensures r.Some? ==> forall j :: k <= j < r.value ==> !Completes(cells, j, p)
    ensures r.None? ==> forall j :: k <= j < Size ==> !Completes(cells, j, p)
    decreases Size - k
  {
    if k == Size then None
    else if Completes(cells, k, p) then Some(k)
    else LowestCompleting(cells, p, k + 1)
  }

  /** The indices of `idxs` whose cells are free, in the order of `idxs`. */
  function FreeAmong(cells: seq<Cell>, idxs: seq<nat>): (r: seq<nat>)
    ensures forall x :: x in r <==> x in idxs && Free(cells, x)
    ensures Increasing(idxs) ==> Increasing(r)
  {
    if idxs == [] then []
    else
      var rest := FreeAmong(cells, idxs[1..]);
      assert Increasing(idxs) ==> Increasing(idxs[1..]);
      if Free(cells, idxs[0]) then
        IncreasingCons(idxs[0], idxs[1..], rest);
        [idxs[0]] + rest
      else rest
  }

  /** Keeping the head of an increasing sequence and a sub-collection of its
      tail, in increasing order, gives an increasing sequence. */
  lemma IncreasingCons(x: nat, tail: seq<nat>, rest: seq<nat>)
    requires forall y :: y in rest ==> y in tail
    ensures Increasing([x] + tail) && Increasing(rest) ==> Increasing([x] + rest)
  {
    if Increasing([x] + tail) && Increasing(rest) {
      var s := [x] + rest;
      forall i, j | 0 <= i < j < |s| ensures s[i] < s[j] {
        if i == 0 {
          var y := rest[j - 1];
          assert y in rest;
          var k :| 0 <= k < |tail| && tail[k] == y;
          assert ([x] + tail)[0] == x && ([x] + tail)[k + 1] == y;
        } else {
          assert s[i] == rest[i - 1] && s[j] == rest[j - 1];
        }
      }
    }
  }

  /** The index of the first free cell at or after `k`, or -1 when there is none. */
  function FirstFreeFrom(cells: seq<Cell>, k: nat): (r: int)
    requires k <= |cells|
    ensures r == -1 <==> forall j :: k <= j < |cells| ==> cells[j] != Empty
    ensures r != -1 ==> k <= r < |cells| && cells[r] == Empty
    ensures r != -1 ==> forall j :: k <= j < r ==> cells[j] != Empty
    decreases |cells| - k
  {
    if k == |cells| then -1
    else if cells[k] == Empty then k
    else FirstFreeFrom(cells, k + 1)
  }

  /** The position among `n` candidates that a random number in [0, 1) selects:
      the floor of `rnd * n`. */
  function Pick(rnd: real, n: nat): (r: nat)
    requires 0.0 <= rnd < 1.0 && 0 < n
    ensures r < n
    ensures (r as real) <= rnd * (n as real) < (r as real) + 1.0
  {
    PickInRange(rnd, n);
    (rnd * (n as real)).Floor
  }

  lemma PickInRange(rnd: real, n: nat)
    requires 0.0 <= rnd < 1.0 && 0 < n
    ensures 0 <= (rnd * (n as real)).Floor < n
  {
    assert 0.0 <= rnd * (n as real) < n as real by {
      assert rnd * (n as real) <= 1.0 * (n as real) - (1.0 - rnd) * (n as real);
    }
  }

  /** The cell the computer player takes on `cells`, with `rnd` standing for the
      random number that picks among the free corners. -1 when the board is full. */
  function AIMove(cells: seq<Cell>, rnd: real): (r: int)
    requires |cells| == Size && 0.0 <= rnd < 1.0
    ensures r == -1 <==> Full(cells)
    ensures r != -1 ==> Free(cells, r)
  {
    var win := LowestCompleting(cells, O, 0);
    if win.Some? then win.value
    else
      var block := LowestCompleting(cells, X, 0);
      if block.Some? then block.value
      else Positional(cells, rnd)
  }

  /** Steps 3 to 5, which look only at which cells are free: the centre, else
      a corner picked by `rnd`, else the first free side, else the first free
      cell (-1 when there is none). */
  function Positional(cells: seq<Cell>, rnd: real): (r: int)
    requires |cells| == Size && 0.0 <= rnd < 1.0
    ensures r == -1 <==> Full(cells)
    ensures r != -1 ==> Free(cells, r)
  {
    var corners := FreeAmong(cells, Corners);
    if cells[Center] == Empty then Center
    else if |corners| > 0 then
      var c := corners[Pick(rnd, |corners|)];
      assert c in corners;
      c
    else
      var sides := FreeAmong(cells, Sides);
      if |sides| > 0 then
        assert sides[0] in sides;
        sides[0]
      else FirstFreeFrom(cells, 0)
  }

  predicate NoCompletion(cells: seq<Cell>, p: Player) {
    forall i :: 0 <= i < Size ==> !Completes(cells, i, p)
  }

  lemma LowestCompletingNone(cells: seq<Cell>, p: Player)
    requires |cells| == Size
    ensures LowestCompleting(cells, p, 0).None? <==> NoCompletion(cells, p)
  {
  }

  /** Step 1: when O can win at once, the lowest such cell is taken. */
  lemma {:induction false} AIMoveWinsFirst(cells: seq<Cell>, rnd: real)
    requires |cells| == Size && 0.0 <= rnd < 1.0
    requires !NoCompletion(cells, O)
    ensures var r := AIMove(cells, rnd);
      Completes(cells, r, O) && forall j :: 0 <= j < r ==> !Completes(cells, j, O)
  {
    LowestCompletingNone(cells, O);
  }

  /** Step 2: else, when X could win at once, the lowest such cell is blocked. */
  lemma {:induction false} AIMoveBlocks(cells: seq<Cell>, rnd: real)
    requires |cells| == Size && 0.0 <= rnd < 1.0
    requires NoCompletion(cells, O) && !NoCompletion(cells, X)
    ensures var r := AIMove(cells, rnd);
      Completes(cells, r, X) && forall j :: 0 <= j < r ==> !Completes(cells, j, X)
  {
    LowestCompletingNone(cells, O);
    LowestCompletingNone(cells, X);
  }

  /** Without a winning or blocking cell, the choice is the positional one. */
  lemma NoThreatIsPositional(cells: seq<Cell>, rnd: real)
    requires |cells| == Size && 0.0 <= rnd < 1.0
    requires NoCompletion(cells, O) && NoCompletion(cells, X)
    ensures AIMove(cells, rnd) == Positional(cells, rnd)
  {
    LowestCompletingNone(cells, O);
    LowestCompletingNone(cells, X);
  }

  /** Step 3: else the centre, when it is free. */
  lemma {:induction false} AIMoveCenter(cells: seq<Cell>, rnd: real)
    requires |cells| == Size && 0.0 <= rnd < 1.0
    requires NoCompletion(cells, O) && NoCompletion(cells, X) && cells[Center] == Empty
    ensures AIMove(cells, rnd) == Center
  {
    NoThreatIsPositional(cells, rnd);
  }

  /** Step 4: else a free corner, whatever the random number. */
  lemma {:induction false} AIMoveCorner(cells: seq<Cell>, rnd: real)
    requires |cells| == Size && 0.0 <= rnd < 1.0
    requires NoCompletion(cells, O) && NoCompletion(cells, X) && cells[Center] != Empty
    requires exists c :: c in Corners && Free(cells, c)
    ensures var r := AIMove(cells, rnd);
      r in Corners && Free(cells, r)
  {
    NoThreatIsPositional(cells, rnd);
    PositionalCorner(cells, rnd);
  }

  lemma PositionalCorner(cells: seq<Cell>, rnd: real)
    requires |cells| == Size && 0.0 <= rnd < 1.0
    requires cells[Center] != Empty
    requires exists c :: c in Corners && Free(cells, c)
    ensures var r := Positional(cells, rnd);
      r in Corners && Free(cells, r)
  {
    var c :| c in Corners && Free(cells, c);
    assert c in FreeAmong(cells, Corners);
  }

  /** Step 5: else the lowest free side. */
  lemma {:induction false} AIMoveSide(cells: seq<Cell>, rnd: real)
    requires |cells| == Size && 0.0 <= rnd < 1.0
    requires NoCompletion(cells, O) && NoCompletion(cells, X) && cells[Center] != Empty
    requires forall c :: c in Corners ==> !Free(cells, c)
    requires exists s :: s in Sides && Free(cells, s)
    ensures var r := AIMove(cells, rnd);
      r in Sides && Free(cells, r) && forall s :: s in Sides && s < r ==> !Free(cells, s)
  {
    NoThreatIsPositional(cells, rnd);
    PositionalSide(cells, rnd);
  }

  lemma PositionalSide(cells: seq<Cell>, rnd: real)
    requires |cells| == Size && 0.0 <= rnd < 1.0
    requires cells[Center] != Empty
    requires forall c :: c in Corners ==> !Free(cells, c)
    requires exists s :: s in Sides && Free(cells, s)
    ensures var r := Positional(cells, rnd);
      r in Sides && Free(cells, r) && forall s :: s in Sides && s < r ==> !Free(cells, s)
  {
    var sides := FreeAmong(cells, Sides);
    var s0 :| s0 in Sides && Free(cells, s0);
    assert s0 in sides;
    FirstFreeIsLowest(cells, Sides);
  }

  /** The first entry of the filtered sequence is the lowest free index of an
      increasing `idxs`. */
  lemma FirstFreeIsLowest(cells: seq<Cell>, idxs: seq<nat>)
    requires Increasing(idxs) && FreeAmong(cells, idxs) != []
    ensures forall s :: s in idxs && s < FreeAmong(cells, idxs)[0] ==> !Free(cells, s)
  {
  }

  /** The last fallback, the first free cell overall, is reached only when the
      board is full, and then the choice is -1. */
  lemma {:induction false} AIMoveFallback(cells: seq<Cell>, rnd: real)
    requires |cells| == Size && 0.0 <= rnd < 1.0
    requires cells[Center] != Empty
    requires forall c :: c in Corners ==> !Free(cells, c)
    requires forall s :: s in Sides ==> !Free(cells, s)
    ensures Full(cells) && AIMove(cells, rnd) == -1
  {
    forall i | 0 <= i < Size ensures cells[i] != Empty {
      assert i == Center || i in Corners || i in Sides;
    }
  }

  /** Example: with X on 0 and 1 and O on 3 and 4, O takes 5 and wins rather
      than blocking at 2. */
  lemma WinNowExample(rnd: real)
    requires 0.0 <= rnd < 1.0
    ensures AIMove([X, X, Empty, O, O, Empty, Empty, Empty, Empty], rnd) == 5
  {
    var cells := [X, X, Empty, O, O, Empty, Empty, Empty, Empty];
    assert !HasWinningLine(cells) by {
      forall k | 0 <= k < |WinPatterns| ensures !LineWins(cells, WinPatterns[k]) { }
    }
    forall j | 0 <= j < 5 ensures !Completes(cells, j, O) {
      CompletesIffLine(cells, j, O);
    }
    CompletesIffLine(cells, 5, O);
    assert OnLine(WinPatterns[1], 5) && LineWins(cells[5 := O], WinPatterns[1]);
    AIMoveWinsFirst(cells, rnd);
  }

  /** Example: with X on 0 and 1 and O only on 4, O has no winning cell and
      blocks at 2. */
  lemma BlockExample(rnd: real)
    requires 0.0 <= rnd < 1.0
    ensures AIMove([X, X, Empty, Empty, O, Empty, Empty, Empty, Empty], rnd) == 2
  {
    var cells := [X, X, Empty, Empty, O, Empty, Empty, Empty, Empty];
    assert !HasWinningLine(cells) by {
      forall k | 0 <= k < |WinPatterns| ensures !LineWins(cells, WinPatterns[k]) { }
    }
    forall j | 0 <= j < Size ensures !Completes(cells, j, O) {
      CompletesIffLine(cells, j, O);
    }
    forall j | 0 <= j < 2 ensures !Completes(cells, j, X) {
      CompletesIffLine(cells, j, X);
    }
    CompletesIffLine(cells, 2, X);
    assert OnLine(WinPatterns[0], 2) && LineWins(cells[2 := X], WinPatterns[0]);
    AIMoveBlocks(cells, rnd);
  }

  /** Example: on the empty board the computer player takes the centre. */
  lemma EmptyBoardExample(rnd: real)
    requires 0.0 <= rnd < 1.0
    ensures AIMove(seq(Size, _ => Empty), rnd) == Center
  {
    var cells: seq<Cell> := seq(Size, _ => Empty);
    assert !HasWinningLine(cells);
    forall j, p: Player | 0 <= j < Size ensures !Completes(cells, j, p) {
      CompletesIffLine(cells, j, p);
    }
    AIMoveCenter(cells, rnd);
  }

  /** Example: after X opens in a corner, the computer player takes the centre. */
  lemma CornerOpeningExample(cells: seq<Cell>, rnd: real)
    requires cells == [X, Empty, Empty, Empty, Empty, Empty, Empty, Empty, Empty]
    requires 0.0 <= rnd < 1.0
    ensures AIMove(cells, rnd) == Center
  {
    assert !HasWinningLine(cells) by {
      forall k | 0 <= k < |WinPatterns| ensures !LineWins(cells, WinPatterns[k]) { }
    }
    forall j, p: Player | 0 <= j < Size ensures !Completes(cells, j, p) {
      CompletesIffLine(cells, j, p);
    }
    AIMoveCenter(cells, rnd);
  }
}
