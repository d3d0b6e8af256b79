/** The move rule of `Board.handleClick`, the status line, and what holds of
    every history built from legal moves alone. */
module Moves {
  import opened Squares
  import opened WinEvaluator

  /** The mark written by the player whose turn the flag names. */
  function Mark(xIsNext: bool): (p: Player)
    ensures p == X <==> xIsNext
  {
    if xIsNext then X else O
  }

  /** `handleClick(i)`: `None` when the click is ignored (cell taken or game
      already won), otherwise the copied board with the mover's mark in cell `i`. */
  function Click(b: Board, xIsNext: bool, i: nat): (r: Option<Board>)
    requires i < 9
    ensures r.None? <==> b[i] != Empty || HasLine(b, X) || HasLine(b, O)
    ensures r.Some? ==> b[i] == Empty && r.value[i] == Taken(Mark(xIsNext))
    ensures r.Some? ==> forall j :: 0 <= j < 9 && j != i ==> r.value[j] == b[j]
  {
    WinnerNoneIffNoLine(b);
    if b[i] != Empty || Winner(b).Some? then None
    else
      var next: Board := b[i := Taken(Mark(xIsNext))];
      Some(next)
  }

  /** An accepted click changes exactly one cell of the board. */
  lemma ClickChangesOneCell(b: Board, xIsNext: bool, i: nat)
    requires i < 9
    ensures Click(b, xIsNext, i).Some? ==> DiffCount(b, Click(b, xIsNext, i).value) == 1
  {
    if Click(b, xIsNext, i).Some? {
      DiffCountSingleWrite(b, i, Taken(Mark(xIsNext)));
    }
  }

  /** On a won or full board every click is ignored. */
  lemma ClickIgnoredWhenDecided(b: Board, xIsNext: bool, i: nat)
    requires i < 9
    ensures HasLine(b, X) || HasLine(b, O) || IsFull(b) ==> Click(b, xIsNext, i).None?
  {
    if IsFull(b) {
      assert b[i] != Empty;
    }
  }

  datatype Status = Won(winner: Player) | Draw | NextPlayer(player: Player)

  /** The status line: a winner first (even on a full board), else a draw when
      every cell is filled, else the player to move. */
  function StatusOf(b: Board, xIsNext: bool): (s: Status)
    ensures s.Won? <==> HasLine(b, X) || HasLine(b, O)
    ensures s.Won? ==> HasLine(b, s.winner)
    ensures s.Won? ==> exists k: nat :: IsFirstLine(b, k, s.winner)
    ensures s == Draw <==> !HasLine(b, X) && !HasLine(b, O) && IsFull(b)
    ensures s.NextPlayer? ==> s.player == Mark(xIsNext)
  {
    WinnerNoneIffNoLine(b);
    WinnerHasLine(b);
    match Winner(b)
    case Some(p) => WinnerIsFirstLine(b, p); Won(p)
    case None => if IsFull(b) then Draw else NextPlayer(Mark(xIsNext))
  }

  /** The game is in progress exactly when some click would be accepted. */
  lemma InProgressIffPlayable(b: Board, xIsNext: bool)
    ensures StatusOf(b, xIsNext).NextPlayer? <==>
      exists i: nat :: i < 9 && Click(b, xIsNext, i).Some?
  {
    if StatusOf(b, xIsNext).NextPlayer? {
      var i: nat :| i < 9 && b[i] == Empty;
      assert Click(b, xIsNext, i).Some?;
    } else {
      forall i: nat | i < 9 ensures Click(b, xIsNext, i).None? {
        ClickIgnoredWhenDecided(b, xIsNext, i);
      }
    }
  }

  /** `next` is what an accepted click on `prev` produces. */
  predicate IsMove(prev: Board, next: Board, xIsNext: bool)
  {
    exists i: nat :: i < 9 && Click(prev, xIsNext, i) == Some(next)
  }

  /** A history the game can reach: the empty board, then one accepted click
      after another, X making the first move. Entry `k + 1` is made by X
      exactly when `k` is even. */
  predicate LegalHistory(h: seq<Board>)
  {
    |h| > 0 && h[0] == EmptyBoard &&
    forall k :: 0 <= k < |h| - 1 ==> IsMove(h[k], h[k + 1], k % 2 == 0)
  }

  /** Cutting a legal history back to a non-empty prefix keeps it legal. */
  lemma LegalPrefix(h: seq<Board>, n: nat)
    requires LegalHistory(h) && 1 <= n <= |h|
    ensures LegalHistory(h[..n])
  {
    forall k | 0 <= k < n - 1 ensures IsMove(h[..n][k], h[..n][k + 1], k % 2 == 0) {
      assert h[..n][k] == h[k] && h[..n][k + 1] == h[k + 1];
    }
  }

  /** Appending the result of an accepted click by the player whose turn the
      length gives keeps a history legal. */
  lemma LegalExtend(h: seq<Board>, next: Board)
    requires LegalHistory(h) && IsMove(h[|h| - 1], next, |h| % 2 == 1)
    ensures LegalHistory(h + [next])
  {
    var h' := h + [next];
    forall k | 0 <= k < |h'| - 1 ensures IsMove(h'[k], h'[k + 1], k % 2 == 0) {
      if k < |h| - 1 {
        assert h'[k] == h[k] && h'[k + 1] == h[k + 1];
      } else {
        assert h'[k] == h[|h| - 1] && h'[k + 1] == next;
        assert (k % 2 == 0) == (|h| % 2 == 1);
      }
    }
  }

  /** After `k` legal moves X has made half of them rounded up and O half
      rounded down. */
  lemma {:induction false} MoveCounts(h: seq<Board>, k: nat)
    requires LegalHistory(h) && k < |h|
    ensures Count(h[k], X) == (k + 1) / 2 && Count(h[k], O) == k / 2
  {
    if k == 0 {
      assert Count(EmptyBoard, X) == 0 && Count(EmptyBoard, O) == 0;
    } else {
      var prev, xMoved := h[k - 1], (k - 1) % 2 == 0;
      MoveCounts(h, k - 1);
      assert IsMove(prev, h[k], xMoved);
      var i: nat :| i < 9 && Click(prev, xMoved, i) == Some(h[k]);
      assert h[k] == prev[i := Taken(Mark(xMoved))];
      CountAfterWrite(prev, i, Mark(xMoved));
      if xMoved {
        assert (k + 1) / 2 == k / 2 + 1 && k / 2 == (k - 1) / 2;
      } else {
        assert (k + 1) / 2 == k / 2 && k / 2 == (k - 1) / 2 + 1;
      }
    }
  }

  /** On every reachable board X has as many marks as O or one more, and it
      is X's turn exactly when the counts are equal. */
  lemma MarkBalance(h: seq<Board>, k: nat)
    requires LegalHistory(h) && k < |h|
    ensures Count(h[k], X) - Count(h[k], O) in {0, 1}
    ensures (Count(h[k], X) == Count(h[k], O)) <==> k % 2 == 0
  {
    MoveCounts(h, k);
  }

  /** Each entry differs from its predecessor in exactly one cell, which was
      empty before. */
  lemma StepChangesOneCell(h: seq<Board>, k: nat)
    requires LegalHistory(h) && 0 < k < |h|
    ensures DiffCount(h[k - 1], h[k]) == 1
    ensures exists i: nat :: i < 9 && h[k - 1][i] == Empty && h[k][i] != Empty
  {
    assert IsMove(h[k - 1], h[k], (k - 1) % 2 == 0);
    var i: nat :| i < 9 && Click(h[k - 1], (k - 1) % 2 == 0, i) == Some(h[k]);
    ClickChangesOneCell(h[k - 1], (k - 1) % 2 == 0, i);
  }

  /** A move by `m` cannot complete a line for the opponent. */
  lemma MoveKeepsOpponentLines(b: Board, i: nat, m: Player, j: nat)
    requires i < 9 && j < |Lines|
    ensures OwnedBy(b[i := Taken(m)], j, Opponent(m)) ==> OwnedBy(b, j, Opponent(m))
  {
  }

  /** No reachable board has lines for both players, and only the last entry
      of a legal history can have a line at all. */
  lemma {:induction false} AtMostOneWinner(h: seq<Board>, k: nat)
    requires LegalHistory(h) && k < |h|
    ensures !(HasLine(h[k], X) && HasLine(h[k], O))
    ensures k < |h| - 1 ==> !HasLine(h[k], X) && !HasLine(h[k], O)
  {
    if k < |h| - 1 {
      assert IsMove(h[k], h[k + 1], k % 2 == 0);
    }
    if k == 0 {
      assert !HasLine(EmptyBoard, X) && !HasLine(EmptyBoard, O);
    } else {
      var m := Mark((k - 1) % 2 == 0);
      assert IsMove(h[k - 1], h[k], (k - 1) % 2 == 0);
      var i: nat :| i < 9 && Click(h[k - 1], (k - 1) % 2 == 0, i) == Some(h[k]);
      assert h[k] == h[k - 1][i := Taken(m)];
      if HasLine(h[k], Opponent(m)) {
        var j: nat :| j < |Lines| && OwnedBy(h[k], j, Opponent(m));
        MoveKeepsOpponentLines(h[k - 1], i, m, j);
      }
      assert m == X || m == O;
    }
  }

  /** On reachable boards the order of the scan does not matter: the winner
      reported is the one player who fills a line. */
  lemma WinnerOfReachableBoard(h: seq<Board>, k: nat, p: Player)
    requires LegalHistory(h) && k < |h|
    ensures Winner(h[k]) == Some(p) <==> HasLine(h[k], p)
  {
    AtMostOneWinner(h, k);
    WinnerNoneIffNoLine(h[k]);
    WinnerHasLine(h[k]);
    assert p == X || p == O;
    if Winner(h[k]).Some? {
      assert Winner(h[k]).value == X || Winner(h[k]).value == O;
    }
  }
}
