/** The `Game` component: the two pieces of state it holds (`history` and
    `xIsNext`), the click handler of its board, `handlePlay` and `jumpTo`. */
module GameState {
  import opened Squares
  import opened WinEvaluator
  import opened Moves

  class Game {
    var history: seq<Board>
    var xIsNext: bool

    /** There is always a current board: the history is never empty. */
    ghost predicate Valid()
      reads this
    {
      |history| > 0
    }

    /** The stored flag agrees with the number of boards in the history. */
    ghost predicate TurnMatchesHistory()
      reads this
    {
      xIsNext == (|history| % 2 == 1)
    }

    /** The states that clicks and jumps can reach from a new game. */
    ghost predicate Reachable()
      reads this
    {
      LegalHistory(history) && TurnMatchesHistory()
    }

    /** `currentSquares`: the last board of the history. */
    function CurrentSquares(): Board
      reads this
      requires Valid()
    {
      history[|history| - 1]
    }

    /** A new game: one empty board, X to move. */
    constructor ()
      ensures Valid() && Reachable()
      ensures history == [EmptyBoard] && xIsNext
    {
      history := [EmptyBoard];
      xIsNext := true;
    }

    /** `handlePlay`: append the board and flip the flag. It checks nothing, so
        it keeps the game reachable only when handed a legal move. */
    method HandlePlay(nextSquares: Board)
      modifies this
      ensures history == old(history) + [nextSquares]
      ensures xIsNext == !old(xIsNext)
      ensures Valid()
      ensures old(TurnMatchesHistory()) ==> TurnMatchesHistory()
      ensures old(Reachable() && IsMove(CurrentSquares(), nextSquares, xIsNext)) ==> Reachable()
    {
      ghost var wasReachable := Reachable() && IsMove(CurrentSquares(), nextSquares, xIsNext);
      ghost var h := history;
      history := history + [nextSquares];
      xIsNext := !xIsNext;
      if wasReachable {
        LegalExtend(h, nextSquares);
      }
    }

    /** `Board.handleClick(i)` wired to `handlePlay`: ignore the click when the
        cell is taken or the current board has a winner; otherwise copy the
        board, write the mover's mark into cell `i` of the copy and play it. */
    method HandleClick(i: nat) returns (accepted: bool)
      requires Valid() && i < 9
      modifies this
      ensures Valid()
      ensures accepted == Click(old(CurrentSquares()), old(xIsNext), i).Some?
      ensures accepted ==>
        history == old(history) + [Click(old(CurrentSquares()), old(xIsNext), i).value] &&
        xIsNext == !old(xIsNext)
      ensures !accepted ==> history == old(history) && xIsNext == old(xIsNext)
      ensures old(TurnMatchesHistory()) ==> TurnMatchesHistory()
      ensures old(Reachable()) ==> Reachable()
    {
      var squares := CurrentSquares();
      var winner := CalculateWinner(squares);
      if squares[i] != Empty || winner.Some? {
        accepted := false;
        return;
      }
      var nextSquares := new Cell[9](j requires 0 <= j < 9 => squares[j]);
      nextSquares[i] := Taken(Mark(xIsNext));
      assert nextSquares[..] == squares[i := Taken(Mark(xIsNext))];
      var played: Board := nextSquares[..];
      assert Click(squares, xIsNext, i) == Some(played);
      HandlePlay(played);
      accepted := true;
    }

    /** `jumpTo(move)`: keep the first `move + 1` boards and set the flag from
        the parity of `move`. */
    method JumpTo(move: nat)
      requires move < |history|
      modifies this
      ensures history == old(history[..move + 1])
      ensures xIsNext == (move % 2 == 0)
      ensures Valid() && TurnMatchesHistory()
      ensures CurrentSquares() == old(history[move])
      ensures old(Reachable()) ==> Reachable()
      ensures old(Reachable()) && move == 0 ==> history == [EmptyBoard] && xIsNext
    {
      ghost var wasReachable := Reachable();
      ghost var h := history;
      var isXNext := move % 2 == 0;
      xIsNext := isXNext;
      history := history[..move + 1];
      if wasReachable {
        LegalPrefix(h, move + 1);
      }
    }

    /** What holds of the current board of every reachable game: X has as many
        marks as O or one more, it is X's turn exactly when they are equal, and
        at most one player fills a line. */
    lemma ReachableCurrentBoard()
      requires Reachable()
      ensures Count(CurrentSquares(), X) - Count(CurrentSquares(), O) in {0, 1}
      ensures xIsNext <==> Count(CurrentSquares(), X) == Count(CurrentSquares(), O)
      ensures !(HasLine(CurrentSquares(), X) && HasLine(CurrentSquares(), O))
    {
      var k := |history| - 1;
      assert CurrentSquares() == history[k];
      assert xIsNext == (k % 2 == 0);
      MarkBalance(history, k);
      AtMostOneWinner(history, k);
    }
  }

  /** The first four clicks of the game below: X in 0 and 1, O in 4 and 3. */
  method TopRowOpening() returns (g: Game)
    ensures fresh(g) && g.Valid() && g.xIsNext && |g.history| == 5
    ensures g.history[2] ==
      [Taken(X), Empty, Empty, Empty, Taken(O), Empty, Empty, Empty, Empty]
    ensures g.CurrentSquares() ==
      [Taken(X), Taken(X), Empty, Taken(O), Taken(O), Empty, Empty, Empty, Empty]
  {
    g := new Game();
    var ok := g.HandleClick(0);
    assert ok;
    ok := g.HandleClick(4);
    assert ok;
    ok := g.HandleClick(1);
    assert ok;
    ok := g.HandleClick(3);
    assert ok;
  }

  /** X takes the top row on its third move; a later click on cell 5 is
      ignored; jumping back to move 2 restores the two-mark board with X to move. */
  method TopRowScenario() returns (won: Status, ignored: bool, afterJump: Status, board: Board)
    ensures won == Won(X)
    ensures ignored
    ensures board == [Taken(X), Empty, Empty, Empty, Taken(O), Empty, Empty, Empty, Empty]
    ensures afterJump == NextPlayer(X)
  {
    var g := TopRowOpening();
    var ok := g.HandleClick(2);
    assert ok;
    won := StatusOf(g.CurrentSquares(), g.xIsNext);
    ok := g.HandleClick(5);
    ignored := !ok;
    g.JumpTo(2);
    board := g.CurrentSquares();
    afterJump := StatusOf(board, g.xIsNext);
  }

  /** The first three clicks of the drawn game below: X in 0 and 1, O in 2. */
  method DrawOpening() returns (g: Game)
    ensures fresh(g) && g.Valid() && !g.xIsNext
    ensures g.CurrentSquares() ==
      [Taken(X), Taken(X), Taken(O), Empty, Empty, Empty, Empty, Empty, Empty]
  {
    g := new Game();
    var ok := g.HandleClick(0);
    assert ok;
    ok := g.HandleClick(2);
    assert ok;
    ok := g.HandleClick(1);
    assert ok;
  }

  /** The next three clicks of the drawn game: O in 3, X in 5, O in 4. */
  method DrawMiddle(g: Game)
    requires g.Valid() && !g.xIsNext
    requires g.CurrentSquares() ==
      [Taken(X), Taken(X), Taken(O), Empty, Empty, Empty, Empty, Empty, Empty]
    modifies g
    ensures g.Valid() && g.xIsNext
    ensures g.CurrentSquares() ==
      [Taken(X), Taken(X), Taken(O), Taken(O), Taken(O), Taken(X), Empty, Empty, Empty]
  {
    var ok := g.HandleClick(3);
    assert ok;
    ok := g.HandleClick(5);
    assert ok;
    ok := g.HandleClick(4);
    assert ok;
  }

  /** X plays 0, 1, 5, 6, 8 and O plays 2, 3, 4, 7: every click is accepted,
      nobody fills a line and the board ends full. */
  method DrawScenario() returns (s: Status)
    ensures s == Draw
  {
    var g := DrawOpening();
    DrawMiddle(g);
    var ok := g.HandleClick(6);
    assert ok;
    ok := g.HandleClick(7);
    assert ok;
    ok := g.HandleClick(8);
    assert ok;
    s := StatusOf(g.CurrentSquares(), g.xIsNext);
  }
}
