/** `calculateWinner`: scan the eight winning lines in a fixed order and report
    the mark filling the first complete one. */
module WinEvaluator {
  import opened Squares

  /** Three rows, three columns, two diagonals, in the order they are checked. */
  const Lines: seq<(nat, nat, nat)> :=
    [(0, 1, 2), (3, 4, 5), (6, 7, 8),
     (0, 3, 6), (1, 4, 7), (2, 5, 8),
     (0, 4, 8), (2, 4, 6)]

  /** The test the scan applies to line `k`: its first cell is non-empty and
      the other two cells equal it. */
  predicate Matches(b: Board, k: nat)
    requires k < |Lines|
  {
    var x, y, z := Lines[k].0, Lines[k].1, Lines[k].2;
    b[x] != Empty && b[x] == b[y] && b[x] == b[z]
  }

  /** The mark in the first cell of line `k`. */
  function FirstCell(b: Board, k: nat): Cell
    requires k < |Lines|
  {
    b[Lines[k].0]
  }

  /** Reference definition: all three cells of line `k` hold `p`'s mark. */
  predicate OwnedBy(b: Board, k: nat, p: Player)
    requires k < |Lines|
  {
    var x, y, z := Lines[k].0, Lines[k].1, Lines[k].2;
    b[x] == Taken(p) && b[y] == Taken(p) && b[z] == Taken(p)
  }

  /** Some line is filled with `p`'s mark. */
  predicate HasLine(b: Board, p: Player)
  {
    exists k :: 0 <= k < |Lines| && OwnedBy(b, k, p)
  }

  /** No line before `k` is filled by either player. */
  predicate NoLineBefore(b: Board, k: nat)
    requires k <= |Lines|
  {
    forall j :: 0 <= j < k ==> !OwnedBy(b, j, X) && !OwnedBy(b, j, O)
  }

  /** Line `k` is the first line filled by anyone, and `p` fills it. */
  predicate IsFirstLine(b: Board, k: nat, p: Player)
  {
    k < |Lines| && OwnedBy(b, k, p) && NoLineBefore(b, k)
  }

  /** The result of the scan when it starts at line `k`. */
  function WinnerFrom(b: Board, k: nat): Option<Player>
    decreases |Lines| - k
  {
    if k >= |Lines| then None
    else if Matches(b, k) then Some(FirstCell(b, k).owner)
    else WinnerFrom(b, k + 1)
  }

  function Winner(b: Board): Option<Player>
  {
    WinnerFrom(b, 0)
  }

  /** The scan's test agrees with the reference definition of a filled line. */
  lemma MatchesIffOwned(b: Board, k: nat)
    requires k < |Lines|
    ensures Matches(b, k) <==> OwnedBy(b, k, X) || OwnedBy(b, k, O)
    ensures Matches(b, k) ==> OwnedBy(b, k, FirstCell(b, k).owner)
  {
    var c := FirstCell(b, k);
    if c.Taken? {
      assert c.owner == X || c.owner == O;
    }
  }

  /** The scan started at `k` reports nothing exactly when none of the lines
      from `k` on is filled. */
  lemma {:induction false} WinnerFromNone(b: Board, k: nat)
    requires k <= |Lines|
    ensures WinnerFrom(b, k).None? <==>
      forall j :: k <= j < |Lines| ==> !OwnedBy(b, j, X) && !OwnedBy(b, j, O)
    decreases |Lines| - k
  {
    if k < |Lines| {
      MatchesIffOwned(b, k);
      if !Matches(b, k) {
        WinnerFromNone(b, k + 1);
      }
    }
  }

  /** The scan started at `k` reports the mark filling the first filled line
      at or after `k`. */
  lemma {:induction false} WinnerFromSome(b: Board, k: nat)
    requires k <= |Lines|
    ensures WinnerFrom(b, k).Some? ==>
      exists j :: k <= j < |Lines| && OwnedBy(b, j, WinnerFrom(b, k).value) &&
        forall i :: k <= i < j ==> !OwnedBy(b, i, X) && !OwnedBy(b, i, O)
    decreases |Lines| - k
  {
    if k < |Lines| {
      MatchesIffOwned(b, k);
      if !Matches(b, k) {
        WinnerFromSome(b, k + 1);
      }
    }
  }

  /** At most one line is the first filled line, and one mark fills it. */
  lemma FirstLineUnique(b: Board, j: nat, p: Player, k: nat, q: Player)
    requires IsFirstLine(b, j, p) && IsFirstLine(b, k, q)
    ensures j == k && p == q
  {
    assert p == X || p == O;
    assert q == X || q == O;
  }

  /** `calculateWinner` returns a mark exactly when that mark fills the first
      filled line in the listed order. */
  lemma WinnerIsFirstLine(b: Board, p: Player)
    ensures Winner(b) == Some(p) <==> exists k: nat :: IsFirstLine(b, k, p)
  {
    WinnerFromNone(b, 0);
    WinnerFromSome(b, 0);
    if Winner(b) == Some(p) {
      var j: nat :| j < |Lines| && OwnedBy(b, j, p) && NoLineBefore(b, j);
      assert IsFirstLine(b, j, p);
    } else if exists k: nat :: IsFirstLine(b, k, p) {
      var k: nat :| IsFirstLine(b, k, p);
      var q := Winner(b).value;
      var j: nat :| j < |Lines| && OwnedBy(b, j, q) && NoLineBefore(b, j);
      FirstLineUnique(b, j, q, k, p);
    }
  }

  /** `calculateWinner` returns null exactly when no line is filled with one mark. */
  lemma WinnerNoneIffNoLine(b: Board)
    ensures Winner(b).None? <==> !HasLine(b, X) && !HasLine(b, O)
  {
    WinnerFromNone(b, 0);
  }

  /** A reported winner fills some line. */
  lemma WinnerHasLine(b: Board)
    ensures Winner(b).Some? ==> HasLine(b, Winner(b).value)
  {
    WinnerFromSome(b, 0);
  }

  /** Relabelling the marks relabels the winner, line by line of the scan. */
  lemma {:induction false} WinnerFromSwap(b: Board, k: nat)
    ensures WinnerFrom(SwapBoard(b), k) == SwapWinner(WinnerFrom(b, k))
    decreases |Lines| - k
  {
    if k < |Lines| {
      assert Matches(SwapBoard(b), k) == Matches(b, k);
      if !Matches(b, k) {
        WinnerFromSwap(b, k + 1);
      }
    }
  }

  /** `calculateWinner` is symmetric under swapping X and O. */
  lemma WinnerSwap(b: Board)
    ensures Winner(SwapBoard(b)) == SwapWinner(Winner(b))
  {
    WinnerFromSwap(b, 0);
  }

  /** The loop of `calculateWinner`, with its early return. */
  method CalculateWinner(b: Board) returns (w: Option<Player>)
    ensures w == Winner(b)
    ensures w.None? <==> !HasLine(b, X) && !HasLine(b, O)
    ensures w.Some? ==> exists k: nat :: IsFirstLine(b, k, w.value)
  {
    WinnerNoneIffNoLine(b);
    var k := 0;
    while k < |Lines|
      invariant k <= |Lines|
      invariant WinnerFrom(b, k) == Winner(b)
      invariant NoLineBefore(b, k)
    {
      var (x, y, z) := Lines[k];
      if b[x] != Empty && b[x] == b[y] && b[x] == b[z] {
        w := Some(b[x].owner);
        MatchesIffOwned(b, k);
        assert IsFirstLine(b, k, w.value);
        return;
      }
      MatchesIffOwned(b, k);
      k := k + 1;
    }
    w := None;
  }
}
