/**
 * The `App` component's state: the list of boards played so far and the
 * cursor `currentMove` selecting the one on display, with playing a move,
 * jumping back in time and starting a new game.
 */
module App {
  import opened Rules
  import opened Board

  /** Whose turn it is, from the cursor alone: X opens, and the turn passes
      to the other player with every move. */
  function XIsNext(currentMove: nat): (r: bool)
    ensures currentMove == 0 ==> r
    ensures currentMove > 0 ==> r == !XIsNext(currentMove - 1)
  {
    currentMove % 2 == 0
  }

  /** The history after playing `nextSquares` at cursor `currentMove`:
      everything up to the cursor is kept, everything after it is dropped,
      and the new board is appended. */
  function NextHistory(history: seq<Squares>, currentMove: nat, nextSquares: Squares): (r: seq<Squares>)
    requires currentMove < |history|
    ensures |r| == currentMove + 2
    ensures forall k :: 0 <= k <= currentMove ==> r[k] == history[k]
    ensures r[|r| - 1] == nextSquares
  {
    history[..currentMove + 1] + [nextSquares]
  }

  /** `after` is what a click accepted on `before` produces when the cursor
      is at `move`. */
  ghost predicate Follows(before: Squares, after: Squares, move: nat) {
    exists i: Index :: Move(before, i, XIsNext(move)) == Some(after)
  }

  /** A history that the game can produce: it starts from the empty board
      and each entry comes from the previous by one accepted click, made by
      the player whose turn it was. */
  ghost predicate WellPlayed(history: seq<Squares>) {
    && |history| > 0
    && history[0] == EmptyBoard
    && forall k :: 0 <= k < |history| - 1 ==> Follows(history[k], history[k + 1], k)
  }

  /** Entry `k` of a well-played history holds exactly `k` marks. */
  lemma DisplayedMarks(history: seq<Squares>, k: nat)
    ensures WellPlayed(history) && k < |history| ==>
      Count(history[k], Filled(X)) + Count(history[k], Filled(O)) == k
  {
    if WellPlayed(history) && k < |history| {
      MarksMatchMoveNumber(history, k);
    }
  }

  /** Playing an accepted click at the cursor keeps the history well played. */
  lemma PlayKeepsWellPlayed(history: seq<Squares>, currentMove: nat, nextSquares: Squares)
    requires WellPlayed(history) && currentMove < |history|
    requires Follows(history[currentMove], nextSquares, currentMove)
    ensures WellPlayed(NextHistory(history, currentMove, nextSquares))
  {
    var r := NextHistory(history, currentMove, nextSquares);
    forall k | 0 <= k < |r| - 1
      ensures Follows(r[k], r[k + 1], k)
    {
      if k < currentMove {
        assert r[k] == history[k] && r[k + 1] == history[k + 1];
      }
    }
  }

  /** Entry `k` of a well-played history holds exactly `k` marks: (k+1)/2
      crosses and k/2 noughts. */
  lemma {:induction false} MarksMatchMoveNumber(history: seq<Squares>, k: nat)
    requires WellPlayed(history) && k < |history|
    ensures Count(history[k], Filled(X)) == (k + 1) / 2
    ensures Count(history[k], Filled(O)) == k / 2
  {
    if k == 0 {
      EmptyBoardCounts(X);
      EmptyBoardCounts(O);
    } else {
      MarksMatchMoveNumber(history, k - 1);
      assert Follows(history[k - 1], history[k], k - 1);
      var i: Index :| Move(history[k - 1], i, XIsNext(k - 1)) == Some(history[k]);
      MoveAddsOneMark(history[k - 1], i, XIsNext(k - 1));
    }
  }

  /** The cursor's parity agrees with the board: X is to move exactly when
      both players have placed the same number of marks. */
  lemma ParityAgreesWithMarks(history: seq<Squares>, k: nat)
    requires WellPlayed(history) && k < |history|
    ensures Count(history[k], Filled(X)) + Count(history[k], Filled(O)) == k
    ensures XIsNext(k) <==> Count(history[k], Filled(X)) == Count(history[k], Filled(O))
  {
    MarksMatchMoveNumber(history, k);
  }

  /** A game lasts at most nine moves, so a history has at most ten entries. */
  lemma HistoryAtMostTen(history: seq<Squares>)
    requires WellPlayed(history)
    ensures |history| <= 10
  {
    var k := |history| - 1;
    MarksMatchMoveNumber(history, k);
    CountPartition(history[k]);
  }

  /** A well-played board is full only after the ninth move. */
  lemma FullOnlyAtMoveNine(history: seq<Squares>, k: nat)
    requires WellPlayed(history) && k < |history|
    ensures Full(history[k]) <==> k == 9
  {
    MarksMatchMoveNumber(history, k);
    CountPartition(history[k]);
    CountZero(history[k], Empty);
  }

  /** Only the last entry of a well-played history can be decided: every
      earlier one had a player to move. */
  lemma OnlyLastEntryDecided(history: seq<Squares>, k: nat)
    requires WellPlayed(history) && k < |history| - 1
    ensures GameStatus(history[k], XIsNext(k)).Turn?
  {
    assert Follows(history[k], history[k + 1], k);
    var i: Index :| Move(history[k], i, XIsNext(k)) == Some(history[k + 1]);
    MoveIffTurn(history[k], i, XIsNext(k));
  }

  /** On a well-played board at most one player holds a line. */
  lemma AtMostOnePlayerHasLine(history: seq<Squares>, k: nat)
    requires WellPlayed(history) && k < |history|
    ensures !(HasLine(history[k], X) && HasLine(history[k], O))
  {
    if k == 0 {
      EmptyBoardHasNoWinner();
      NoWinnerNoLine(EmptyBoard, X);
    } else {
      assert Follows(history[k - 1], history[k], k - 1);
      var i: Index :| Move(history[k - 1], i, XIsNext(k - 1)) == Some(history[k]);
      var q := if XIsNext(k - 1) then O else X;
      NoWinnerNoLine(history[k - 1], q);
      MoveOnlyHelpsMover(history[k - 1], i, XIsNext(k - 1), q);
    }
  }

  /** On a well-played board the order in which lines are scanned does not
      matter: the win check names `p` exactly when `p` holds some line. */
  lemma WinnerIsLineHolder(history: seq<Squares>, k: nat, p: Player)
    requires WellPlayed(history) && k < |history|
    ensures Winner(history[k]) == Some(p) <==> HasLine(history[k], p)
  {
    WinnerHasLine(history[k], p);
    if HasLine(history[k], p) {
      LineMeansWinner(history[k], p);
      var q := Winner(history[k]).value;
      WinnerHasLine(history[k], q);
      AtMostOnePlayerHasLine(history, k);
    }
  }

  /** The state of `App`: `history` and the cursor `currentMove`. */
  class GameHistory {
    var history: seq<Squares>
    var currentMove: nat

    /** The cursor designates an existing entry. */
    ghost predicate Valid()
      reads this
    {
      currentMove < |history|
    }

    /** The board on display; in a well-played history it holds as many
        marks as the cursor's move number. */
    function CurrentSquares(): (s: Squares)
      reads this
      requires Valid()
      ensures s in history
      ensures WellPlayed(history) ==> Count(s, Filled(X)) + Count(s, Filled(O)) == currentMove
    {
      DisplayedMarks(history, currentMove);
      history[currentMove]
    }

    /** The initial state: one empty board, cursor at 0. */
    constructor ()
      ensures Valid() && WellPlayed(history)
      ensures history == [EmptyBoard] && currentMove == 0
    {
      history := [EmptyBoard];
      currentMove := 0;
    }

    /** `handlePlay`: keep the entries up to the cursor, append the new
        board and move the cursor onto it. */
    method HandlePlay(nextSquares: Squares)
      requires Valid()
      modifies this
      ensures Valid()
      ensures history == NextHistory(old(history), old(currentMove), nextSquares)
      ensures currentMove == |history| - 1 == old(currentMove) + 1
      ensures CurrentSquares() == nextSquares
      ensures old(WellPlayed(history)) && Follows(old(CurrentSquares()), nextSquares, old(currentMove))
        ==> WellPlayed(history)
    {
      ghost var before, cursor := history, currentMove;
      var nextHistory := history[..currentMove + 1] + [nextSquares];
      history := nextHistory;
      currentMove := |nextHistory| - 1;
      if WellPlayed(before) && Follows(before[cursor], nextSquares, cursor) {
        PlayKeepsWellPlayed(before, cursor, nextSquares);
      }
    }

    /** `jumpTo`: move the cursor to an existing entry; the history stays. */
    method JumpTo(nextMove: nat)
      requires Valid() && nextMove < |history|
      modifies this
      ensures Valid()
      ensures history == old(history) && currentMove == nextMove
    {
      currentMove := nextMove;
    }

    /** The New Game button, as one step: a single empty board, cursor at 0. */
    method NewGame()
      modifies this
      ensures Valid() && WellPlayed(history)
      ensures history == [EmptyBoard] && currentMove == 0
    {
      history := [EmptyBoard];
      currentMove := 0;
    }

    /** A click on square `i` of the displayed board: `Board.handleClick`
        with the current squares and `xIsNext`, whose accepted result goes
        to `handlePlay`. An ignored click changes nothing. */
    method Click(i: Index)
      requires Valid()
      modifies this
      ensures Valid()
      ensures var next := Move(old(CurrentSquares()), i, XIsNext(old(currentMove)));
        if next.None? then
          history == old(history) && currentMove == old(currentMove)
        else
          history == NextHistory(old(history), old(currentMove), next.value) &&
          currentMove == old(currentMove) + 1
      ensures old(WellPlayed(history)) ==> WellPlayed(history)
    {
      var next := HandleClick(history[currentMove], i, XIsNext(currentMove));
      if next.Some? {
        HandlePlay(next.value);
      }
    }
  }

  /** Three moves, a jump back to move 1 and a different second move: the
      history then has three entries and the abandoned future is gone. */
  method TimeTravel() returns (length: nat, current: Squares)
    ensures length == 3
    ensures current == EmptyBoard[4 := Filled(X)][2 := Filled(O)]
  {
    var game := new GameHistory();
    EmptyBoardHasNoWinner();
    game.Click(4);
    game.Click(0);
    game.Click(8);
    game.JumpTo(1);
    game.Click(2);
    length := |game.history|;
    current := game.CurrentSquares();
  }
}
