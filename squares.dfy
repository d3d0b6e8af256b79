/** The cells of the 3x3 grid and the board value the game stores in its history.
    A cell is empty (`null` in the JavaScript) or holds the mark of one player. */
module Squares {

  datatype Option<+T> = None | Some(value: T)

  datatype Player = X | O

  /** The other player: O after X, X after O. */
  function Opponent(p: Player): (q: Player)
    ensures q != p
  {
    if p == X then O else X
  }

  datatype Cell = Empty | Taken(owner: Player)

  /** A board is exactly nine cells, indexed row by row. */
  type Board = b: seq<Cell> | |b| == 9
    witness [Empty, Empty, Empty, Empty, Empty, Empty, Empty, Empty, Empty]

  const EmptyBoard: Board := [Empty, Empty, Empty, Empty, Empty, Empty, Empty, Empty, Empty]

  /** Every cell holds a mark: the test the status line uses for a draw. */
  predicate IsFull(b: Board)
  {
    forall j :: 0 <= j < |b| ==> b[j] != Empty
  }

  /** The number of cells holding `p`'s mark. */
  function Count(s: seq<Cell>, p: Player): (n: nat)
    ensures n <= |s|
  {
    if s == [] then 0 else (if s[0] == Taken(p) then 1 else 0) + Count(s[1..], p)
  }

  /** Writing `p`'s mark into an empty cell adds one to `p`'s count and leaves
      the opponent's count alone. */
  lemma {:induction false} CountAfterWrite(s: seq<Cell>, i: nat, p: Player)
    requires i < |s| && s[i] == Empty
    ensures Count(s[i := Taken(p)], p) == Count(s, p) + 1
    ensures Count(s[i := Taken(p)], Opponent(p)) == Count(s, Opponent(p))
  {
    if i == 0 {
      assert s[i := Taken(p)][1..] == s[1..];
    } else {
      assert s[i := Taken(p)][1..] == s[1..][i - 1 := Taken(p)];
      CountAfterWrite(s[1..], i - 1, p);
    }
  }

  /** The number of positions at which two equally long cell sequences differ. */
  function DiffCount(s: seq<Cell>, t: seq<Cell>): (n: nat)
    requires |s| == |t|
    ensures n <= |s|
    ensures n == 0 <==> s == t
  {
    if s == [] then 0
    else (if s[0] != t[0] then 1 else 0) + DiffCount(s[1..], t[1..])
  }

  /** Changing one cell to a different value makes the sequences differ in exactly one place. */
  lemma {:induction false} DiffCountSingleWrite(s: seq<Cell>, i: nat, c: Cell)
    requires i < |s| && s[i] != c
    ensures DiffCount(s, s[i := c]) == 1
  {
    if i == 0 {
      assert s[i := c][1..] == s[1..];
    } else {
      assert s[i := c][1..] == s[1..][i - 1 := c];
      DiffCountSingleWrite(s[1..], i - 1, c);
    }
  }

  /** Relabelling X as O and O as X. */
  function SwapCell(c: Cell): (d: Cell)
    ensures d.Empty? <==> c.Empty?
  {
    match c
    case Empty => Empty
    case Taken(p) => Taken(Opponent(p))
  }

  function SwapBoard(b: Board): (r: Board)
    ensures forall j :: 0 <= j < 9 ==> r[j] == SwapCell(b[j])
  {
    seq(9, j requires 0 <= j < 9 => SwapCell(b[j]))
  }

  function SwapWinner(w: Option<Player>): (v: Option<Player>)
    ensures v.None? <==> w.None?
  {
    match w
    case None => None
    case Some(p) => Some(Opponent(p))
  }
}
