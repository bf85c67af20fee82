/** The game's state machine as values: the state a component keeps, what one
    click does to it, what a run of clicks does, and the invariant every
    reachable state satisfies. */
module Engine {
  import opened Board

  /** The component's state: the board, whether X moves next, and the
      winner recorded so far (`None` until the line search finds one). */
  datatype GameState = GameState(board: seq<Cell>, xNext: bool, winner: Option<Mark>)

  /** The state a component starts in, and the one a reset restores. */
  function Initial(): GameState
  {
    GameState(EmptyBoard(), true, None)
  }

  /** A click on `index` is taken: the cell is empty and no winner is recorded. */
  predicate Accepts(s: GameState, index: nat)
    requires index < |s.board|
  {
    s.board[index] == None && s.winner == None
  }

  /** One click followed by the winner check that reacts to the new board.
      A refused click leaves everything as it was. A taken click writes the
      current player's mark into a copy of the board, hands the turn to the
      other player, and records the winner of the new board if there is one. */
  function Next(s: GameState, index: nat): (t: GameState)
    requires index < |s.board|
    ensures |t.board| == |s.board|
  {
    if !Accepts(s, index) then s
    else
      var board := s.board[index := Some(Turn(s.xNext))];
      var found := Winner(board);
      GameState(board, !s.xNext, if found != None then found else s.winner)
  }

  /** The state after clicking the cells of `moves` one after the other. */
  function Run(s: GameState, moves: seq<Index>): GameState
    requires |s.board| == 9
    decreases |moves|
  {
    if moves == [] then s else Run(Next(s, moves[0]), moves[1..])
  }

  /** The invariant of every reachable state: nine cells; X has made as many
      moves as O when X is next, and one more when O is next; and the
      recorded winner is exactly the winner of the board. */
  ghost predicate Valid(s: GameState)
  {
    |s.board| == 9 &&
    Count(s.board, X) == Count(s.board, O) + (if s.xNext then 0 else 1) &&
    s.winner == Winner(s.board)
  }

  /** The starting state satisfies the invariant. */
  lemma InitialValid()
    ensures Valid(Initial())
    ensures |Initial().board| == 9 && Initial().xNext && Initial().winner == None
  {
    EmptyBoardHasNoWinner();
  }

  /** What a taken click does: the clicked cell gets the current player's
      mark, every other cell keeps its content, and the turn passes to the
      other player, also on the click that completes a line. */
  lemma AcceptedMove(s: GameState, index: nat)
    requires index < |s.board| && Accepts(s, index)
    ensures Next(s, index).board[index] == Some(Turn(s.xNext))
    ensures forall j :: 0 <= j < |s.board| && j != index ==> Next(s, index).board[j] == s.board[j]
    ensures Next(s, index).xNext == !s.xNext
    ensures Next(s, index).winner == Winner(Next(s, index).board)
  {
  }

  /** A click on an occupied cell, or any click once a winner is recorded,
      changes nothing: not the board, not the turn, not the winner. */
  lemma RefusedMove(s: GameState, index: nat)
    requires index < |s.board| && (s.board[index] != None || s.winner != None)
    ensures Next(s, index) == s
  {
  }

  /** A click keeps the invariant. */
  lemma {:induction false} NextPreservesValid(s: GameState, index: nat)
    requires Valid(s) && index < 9
    ensures Valid(Next(s, index))
  {
    if Accepts(s, index) {
      CountWrite(s.board, index, Turn(s.xNext));
    }
  }

  /** Every state reached from a valid one by clicks is valid. */
  lemma {:induction false} RunPreservesValid(s: GameState, moves: seq<Index>)
    requires Valid(s)
    ensures Valid(Run(s, moves))
    decreases |moves|
  {
    if moves != [] {
      NextPreservesValid(s, moves[0]);
      RunPreservesValid(Next(s, moves[0]), moves[1..]);
    }
  }

  /** Once a winner is recorded, no sequence of clicks changes the state. */
  lemma {:induction false} FrozenAfterWin(s: GameState, moves: seq<Index>)
    requires |s.board| == 9 && s.winner != None
    ensures Run(s, moves) == s
    decreases |moves|
  {
    if moves != [] {
      FrozenAfterWin(Next(s, moves[0]), moves[1..]);
    }
  }

  /** Clicking `p` and then `q` is clicking `p + q`. */
  lemma {:induction false} RunSplit(s: GameState, p: seq<Index>, q: seq<Index>)
    requires |s.board| == 9
    ensures |Run(s, p).board| == 9
    ensures Run(s, p + q) == Run(Run(s, p), q)
    decreases |p|
  {
    if p == [] {
      assert p + q == q;
    } else {
      assert (p + q)[1..] == p[1..] + q;
      RunSplit(Next(s, p[0]), p[1..], q);
    }
  }

  /** A game freezes at the click that records a winner: once the first `k`
      clicks of `moves` have produced one, the remaining clicks change nothing. */
  lemma {:induction false} FrozenFromFirstWin(s: GameState, moves: seq<Index>, k: nat)
    requires |s.board| == 9 && k <= |moves|
    requires Run(s, moves[..k]).winner != None
    ensures Run(s, moves) == Run(s, moves[..k])
  {
    assert moves[..k] + moves[k..] == moves;
    RunSplit(s, moves[..k], moves[k..]);
    FrozenAfterWin(Run(s, moves[..k]), moves[k..]);
  }

  /** X opens on cell 0, O answers on 3, X on 1, O on 4, and X completes the
      top row on 2: X is recorded as winner and the turn has still passed to O. */
  lemma TopRowWin()
    ensures Run(Initial(), [0, 3, 1, 4, 2]) ==
            GameState([Some(X), Some(X), Some(X), Some(O), Some(O), None, None, None, None], false, Some(X))
  {
  }

  /** The game has no draw outcome: when all nine cells are filled and no
      line is complete, no winner is recorded, the state reports nothing
      else, and every click is refused until the game is reset. */
  lemma FullBoardWithoutWinner(s: GameState)
    requires Valid(s)
    requires forall i :: 0 <= i < 9 ==> s.board[i] != None
    requires forall k :: 0 <= k < |Lines| ==> !Complete(s.board, Lines[k])
    ensures s.winner == None
    ensures forall i: Index :: Next(s, i) == s
  {
  }
}
