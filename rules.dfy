/**
 * The rules of 3x3 tic-tac-toe: squares, boards, the eight winning lines
 * and the win check `calculateWinner`.
 */
module Rules {

  datatype Option<+T> = None | Some(value: T)

  /** The two marks a square can hold ('X' and 'O' in the game). */
  datatype Player = X | O

  /** One square: empty (null in the game) or holding a mark. */
  datatype Cell = Empty | Filled(mark: Player)

  /** A square's position, 0..8 in row-major order. */
  type Index = i: int | 0 <= i < 9

  /** The nine squares of a board, in row-major order. */
  type Squares = s: seq<Cell> | |s| == 9
    witness [Empty, Empty, Empty, Empty, Empty, Empty, Empty, Empty, Empty]

  /** The board every game starts from: nine empty squares. */
  const EmptyBoard: Squares := [Empty, Empty, Empty, Empty, Empty, Empty, Empty, Empty, Empty]

  /** The mark written by the player to move: 'X' when `xIsNext`, else 'O'. */
  function Mover(xIsNext: bool): (p: Player)
    ensures p == X <==> xIsNext
  {
    if xIsNext then X else O
  }

  /** The eight winning lines, in the order the win check scans them:
      three rows, three columns, the two diagonals. */
  const Lines: seq<(Index, Index, Index)> := [
    (0, 1, 2),
    (3, 4, 5),
    (6, 7, 8),
    (0, 3, 6),
    (1, 4, 7),
    (2, 5, 8),
    (0, 4, 8),
    (2, 4, 6)
  ]

  /** The test the win check applies to one line: its first square is
      occupied and the other two hold the same value. */
  predicate Complete(squares: Squares, line: (Index, Index, Index)) {
    squares[line.0] != Empty && squares[line.0] == squares[line.1] && squares[line.0] == squares[line.2]
  }

  /** All three squares of `line` hold the mark `p`. */
  predicate Holds(squares: Squares, line: (Index, Index, Index), p: Player) {
    squares[line.0] == Filled(p) && squares[line.1] == Filled(p) && squares[line.2] == Filled(p)
  }

  /** Some winning line is all `p`. */
  ghost predicate HasLine(squares: Squares, p: Player) {
    exists k :: 0 <= k < |Lines| && Holds(squares, Lines[k], p)
  }

  /** The result of scanning the lines from position `k` on: the mark of the
      first complete line, or None. */
  function WinnerFrom(squares: Squares, k: nat): Option<Player>
    requires k <= |Lines|
    decreases |Lines| - k
  {
    if k == |Lines| then None
    else if Complete(squares, Lines[k]) then Some(squares[Lines[k].0].mark)
    else WinnerFrom(squares, k + 1)
  }

  /** The winner as `calculateWinner` reports it: a reported mark holds a
      line, and None means no line is complete. */
  function Winner(squares: Squares): (w: Option<Player>)
    ensures w.Some? ==> HasLine(squares, w.value)
    ensures w.None? <==> forall j :: 0 <= j < |Lines| ==> !Complete(squares, Lines[j])
  {
    var r := WinnerFrom(squares, 0);
    WinnerFromNone(squares, 0);
    if r.Some? then WinnerFromSome(squares, 0, r.value); r else r
  }

  /** `calculateWinner`: a loop over the lines with an early return. */
  method CalculateWinner(squares: Squares) returns (w: Option<Player>)
    ensures w == Winner(squares)
  {
    for k := 0 to |Lines|
      invariant WinnerFrom(squares, k) == Winner(squares)
    {
      var (a, b, c) := Lines[k];
      if squares[a] != Empty && squares[a] == squares[b] && squares[a] == squares[c] {
        return Some(squares[a].mark);
      }
    }
    return None;
  }

  /** Scanning from `k` yields `p` exactly when some line at or after `k`
      is all `p` and no line between `k` and it is complete. */
  lemma {:induction false} WinnerFromSome(squares: Squares, k: nat, p: Player)
    requires k <= |Lines|
    ensures WinnerFrom(squares, k) == Some(p) <==>
      exists j :: k <= j < |Lines| && Holds(squares, Lines[j], p) &&
        forall i :: k <= i < j ==> !Complete(squares, Lines[i])
    decreases |Lines| - k
  {
    if k < |Lines| {
      WinnerFromSome(squares, k + 1, p);
      if Complete(squares, Lines[k]) {
        if squares[Lines[k].0] == Filled(p) {
          assert Holds(squares, Lines[k], p);
        } else {
          forall j | k <= j < |Lines| && Holds(squares, Lines[j], p)
            ensures exists i :: k <= i < j && Complete(squares, Lines[i])
          {
            assert j != k;
          }
        }
      } else {
        if WinnerFrom(squares, k) == Some(p) {
          var j :| k + 1 <= j < |Lines| && Holds(squares, Lines[j], p) &&
            forall i :: k + 1 <= i < j ==> !Complete(squares, Lines[i]);
          assert forall i :: k <= i < j ==> !Complete(squares, Lines[i]);
        }
      }
    }
  }

  /** Scanning from `k` yields None exactly when no line at or after `k`
      is complete. */
  lemma {:induction false} WinnerFromNone(squares: Squares, k: nat)
    requires k <= |Lines|
    ensures WinnerFrom(squares, k) == None <==> forall j :: k <= j < |Lines| ==> !Complete(squares, Lines[j])
    decreases |Lines| - k
  {
    if k < |Lines| {
      WinnerFromNone(squares, k + 1);
    }
  }

  /** The win check returns `p` exactly when some line is all `p` and every
      line listed before it is incomplete: the first matching line wins. */
  lemma WinnerIsFirstCompleteLine(squares: Squares, p: Player)
    ensures Winner(squares) == Some(p) <==>
      exists j :: 0 <= j < |Lines| && Holds(squares, Lines[j], p) &&
        forall i :: 0 <= i < j ==> !Complete(squares, Lines[i])
  {
    WinnerFromSome(squares, 0, p);
  }

  /** The win check returns None exactly when no line has three equal,
      occupied squares. */
  lemma NoWinnerIffNoCompleteLine(squares: Squares)
    ensures Winner(squares) == None <==> forall j :: 0 <= j < |Lines| ==> !Complete(squares, Lines[j])
  {
    WinnerFromNone(squares, 0);
  }

  /** A reported winner owns a winning line. */
  lemma WinnerHasLine(squares: Squares, p: Player)
    ensures Winner(squares) == Some(p) ==> HasLine(squares, p)
  {
    WinnerIsFirstCompleteLine(squares, p);
  }

  /** A board with no complete line has no player holding a line. */
  lemma NoWinnerNoLine(squares: Squares, p: Player)
    requires Winner(squares) == None
    ensures !HasLine(squares, p)
  {
    NoWinnerIffNoCompleteLine(squares);
  }

  /** A player holding a line means the win check reports someone. */
  lemma LineMeansWinner(squares: Squares, p: Player)
    requires HasLine(squares, p)
    ensures Winner(squares).Some?
  {
    if Winner(squares).None? {
      NoWinnerNoLine(squares, p);
    }
  }

  /** The empty board has no winner. */
  lemma EmptyBoardHasNoWinner()
    ensures Winner(EmptyBoard) == None
  {
    NoWinnerIffNoCompleteLine(EmptyBoard);
  }

  /** The number of squares in `cells` holding `c`. */
  function Count(cells: seq<Cell>, c: Cell): (n: nat)
    ensures n <= |cells|
  {
    if cells == [] then 0 else (if cells[0] == c then 1 else 0) + Count(cells[1..], c)
  }

  /** Overwriting one square moves one unit of count from the old value to the new one. */
  lemma {:induction false} CountUpdate(cells: seq<Cell>, i: nat, c: Cell, d: Cell)
    requires i < |cells|
    ensures Count(cells[i := c], d) ==
      Count(cells, d) - (if cells[i] == d then 1 else 0) + (if c == d then 1 else 0)
  {
    if i == 0 {
      assert cells[i := c][1..] == cells[1..];
    } else {
      assert cells[i := c][1..] == cells[1..][i - 1 := c];
      CountUpdate(cells[1..], i - 1, c, d);
    }
  }

  /** Every square is empty, X or O. */
  lemma {:induction false} CountPartition(cells: seq<Cell>)
    ensures Count(cells, Empty) + Count(cells, Filled(X)) + Count(cells, Filled(O)) == |cells|
  {
    if cells != [] {
      CountPartition(cells[1..]);
      match cells[0]
      case Empty =>
      case Filled(m) => assert m == X || m == O;
    }
  }

  /** A value is counted zero times exactly when no square holds it. */
  lemma {:induction false} CountZero(cells: seq<Cell>, c: Cell)
    ensures Count(cells, c) == 0 <==> forall j :: 0 <= j < |cells| ==> cells[j] != c
  {
    if cells != [] {
      CountZero(cells[1..], c);
      assert forall j :: 1 <= j < |cells| ==> cells[j] == cells[1..][j - 1];
    }
  }

  /** The empty board holds no marks. */
  lemma EmptyBoardCounts(p: Player)
    ensures Count(EmptyBoard, Filled(p)) == 0 && Count(EmptyBoard, Empty) == 9
  {
    CountZero(EmptyBoard, Filled(p));
    CountPartition(EmptyBoard);
    CountZero(EmptyBoard, Filled(if p == X then O else X));
  }
}
