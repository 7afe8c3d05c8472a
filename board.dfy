/**
 * The `Board` component's game logic: accepting or rejecting a click on a
 * square, and classifying a board for the status line.
 */
module Board {
  import opened Rules

  /** The board a click on square `i` produces, or None when the click is
      ignored (the square is taken or the game is already won). */
  function Move(squares: Squares, i: Index, xIsNext: bool): (r: Option<Squares>)
    ensures r.None? <==> squares[i] != Empty || Winner(squares).Some?
    ensures r.Some? ==>
      && r.value[i] == Filled(Mover(xIsNext))
      && forall j :: 0 <= j < 9 && j != i ==> r.value[j] == squares[j]
  {
    if squares[i] != Empty || Winner(squares).Some? then None
    else Some(squares[i := Filled(Mover(xIsNext))])
  }

  /** `handleClick`: rejects a click on an occupied square or a won board;
      otherwise returns a copy of the board with the mover's mark at `i`.
      The board passed in is a value and is left as it was. */
  method HandleClick(squares: Squares, i: Index, xIsNext: bool) returns (next: Option<Squares>)
    ensures next.None? <==> squares[i] != Empty || Winner(squares).Some?
    ensures next.Some? ==>
      && next.value[i] == Filled(Mover(xIsNext))
      && forall j :: 0 <= j < 9 && j != i ==> next.value[j] == squares[j]
    ensures next == Move(squares, i, xIsNext)
  {
    var winner := CalculateWinner(squares);
    if squares[i] != Empty || winner.Some? {
      return None;
    }
    return Some(squares[i := Filled(Mover(xIsNext))]);
  }

  /** An accepted move adds exactly one mark, the mover's, and fills exactly
      one previously empty square. */
  lemma MoveAddsOneMark(squares: Squares, i: Index, xIsNext: bool)
    requires Move(squares, i, xIsNext).Some?
    ensures var after := Move(squares, i, xIsNext).value;
      && squares[i] == Empty
      && Count(after, Filled(Mover(xIsNext))) == Count(squares, Filled(Mover(xIsNext))) + 1
      && Count(after, Filled(if xIsNext then O else X)) == Count(squares, Filled(if xIsNext then O else X))
      && Count(after, Empty) == Count(squares, Empty) - 1
  {
    var c := Filled(Mover(xIsNext));
    CountUpdate(squares, i, c, c);
    CountUpdate(squares, i, c, Filled(if xIsNext then O else X));
    CountUpdate(squares, i, c, Empty);
  }

  /** A move cannot give the other player a line: every line the
      other player holds afterwards was already there. */
  lemma MoveOnlyHelpsMover(squares: Squares, i: Index, xIsNext: bool, q: Player)
    requires Move(squares, i, xIsNext).Some?
    requires q != Mover(xIsNext)
    ensures HasLine(Move(squares, i, xIsNext).value, q) ==> HasLine(squares, q)
  {
  }

  /** The three outcomes the status line shows. */
  datatype Status = Wins(winner: Player) | Draw | Turn(next: Player)

  /** Every square is occupied (`squares.every(square => square)`), that is,
      no square is counted empty. */
  predicate Full(squares: Squares)
    ensures Full(squares) <==> Count(squares, Empty) == 0
  {
    CountZero(squares, Empty);
    forall j :: 0 <= j < 9 ==> squares[j] != Empty
  }

  /** The status derivation: a winner first, then a full board is a draw,
      otherwise it is the turn of the player to move. */
  function GameStatus(squares: Squares, xIsNext: bool): (s: Status)
    ensures s.Wins? <==> Winner(squares).Some?
    ensures s.Wins? ==> Winner(squares) == Some(s.winner) && HasLine(squares, s.winner)
    ensures s == Draw <==> Winner(squares).None? && Full(squares)
    ensures s.Turn? ==> s.next == Mover(xIsNext) && exists i: Index :: squares[i] == Empty
  {
    match Winner(squares)
    case Some(p) => Wins(p)
    case None => if Full(squares) then Draw else Turn(Mover(xIsNext))
  }

  /** A click is accepted exactly when the status says someone is to move
      and the clicked square is empty: a won or drawn game takes no moves. */
  lemma MoveIffTurn(squares: Squares, i: Index, xIsNext: bool)
    ensures Move(squares, i, xIsNext).Some? <==> GameStatus(squares, xIsNext).Turn? && squares[i] == Empty
  {
  }

  /** While the status names a player to move, that player has a square to click. */
  lemma TurnHasMove(squares: Squares, xIsNext: bool)
    requires GameStatus(squares, xIsNext).Turn?
    ensures GameStatus(squares, xIsNext).next == Mover(xIsNext)
    ensures exists i: Index :: Move(squares, i, xIsNext).Some?
  {
    var i: Index :| squares[i] == Empty;
    assert Move(squares, i, xIsNext).Some?;
  }

  /** A full board with no line for either player: the status is a draw and
      every click on it is ignored. */
  lemma DrawnBoardRejectsClicks(xIsNext: bool)
    ensures var b: Squares := [Filled(X), Filled(O), Filled(X),
                               Filled(X), Filled(O), Filled(O),
                               Filled(O), Filled(X), Filled(X)];
      && GameStatus(b, xIsNext) == Draw
      && forall i: Index :: Move(b, i, xIsNext) == None
  {
    var b: Squares := [Filled(X), Filled(O), Filled(X),
                       Filled(X), Filled(O), Filled(O),
                       Filled(O), Filled(X), Filled(X)];
    NoWinnerIffNoCompleteLine(b);
  }

  /** X, having played 4, 8, 1 and 7 against O's 0, 2 and 6, holds the
      middle column: the status names X the winner and every further click,
      even on an empty square, is ignored. */
  lemma WonBoardRejectsClicks(xIsNext: bool)
    ensures var b: Squares := [Filled(O), Filled(X), Filled(O),
                               Empty,     Filled(X), Empty,
                               Filled(O), Filled(X), Filled(X)];
      && Winner(b) == Some(X)
      && GameStatus(b, xIsNext) == Wins(X)
      && forall i: Index :: Move(b, i, xIsNext) == None
  {
  }
}
