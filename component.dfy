/** The game component: the three pieces of state it keeps, the click
    handler, the winner check that runs after the board changes, and reset. */
module Component {
  import opened Board
  import opened Engine

  class Game {
    var board: seq<Cell>
    var xNext: bool
    var winner: Option<Mark>

    /** The component's state as a value. */
    function State(): GameState
      reads this
    {
      GameState(board, xNext, winner)
    }

    /** The invariant every reachable state keeps. */
    ghost predicate Valid()
      reads this
    {
      Engine.Valid(State())
    }

    /** A fresh component: nine empty cells, X to move, no winner. */
    constructor ()
      ensures Valid() && State() == Initial()
      ensures board == EmptyBoard() && xNext && winner == None
    {
      board := EmptyBoard();
      xNext := true;
      winner := None;
      InitialValid();
    }

    /** The click handler on cell `index`, followed by the winner check that
        reacts to the new board. */
    method Click(index: nat)
      requires Valid() && index < 9
      modifies this
      ensures Valid()
      ensures State() == Next(old(State()), index)
      ensures old(board[index]) != None || old(winner) != None ==>
                board == old(board) && xNext == old(xNext) && winner == old(winner)
      ensures old(board[index]) == None && old(winner) == None ==>
                board == old(board)[index := Some(Turn(old(xNext)))] &&
                xNext == !old(xNext) &&
                winner == Winner(board)
    {
      if board[index] != None || winner != None {
        return;
      }
      var newBoard := board[index := Some(if xNext then X else O)];
      board := newBoard;
      xNext := !xNext;
      var winningPlayer := CalculateWinner(board);
      if winningPlayer != None {
        winner := winningPlayer;
      }
      NextPreservesValid(old(State()), index);
    }

    /** Back to the starting state, whatever the state was. */
    method Reset()
      modifies this
      ensures Valid() && State() == Initial()
      ensures board == EmptyBoard() && xNext && winner == None
    {
      board := EmptyBoard();
      xNext := true;
      winner := None;
      InitialValid();
    }
  }

  /** A client: after X wins on the top row, further clicks change nothing
      until the game is reset. */
  method PlayTopRow() returns (g: Game)
    ensures fresh(g) && g.Valid()
    ensures g.State() == Initial()
  {
    g := new Game();
    g.Click(0);
    g.Click(3);
    g.Click(1);
    g.Click(4);
    g.Click(2);
    TopRowWin();
    assert g.winner == Some(X) && !g.xNext;
    ghost var won := g.State();
    g.Click(5);
    assert g.State() == won;
    g.Reset();
  }
}
