/**
 * The concrete boards of the engine's documentation examples, with the
 * results those examples promise.
 */
module Scenarios {
  import opened Options
  import opened GameLogic

  const E := Empty
  const H := Taken(X)
  const C := Taken(O)

  /** Coins that take the heuristic branch. */
  const Heuristic := Coins(false, Fraction(0, 1))

  /** A completed top row wins for `X`. */
  lemma TopRowWins()
    ensures CalculateWinner([H, H, H, E, C, E, E, E, E]) == Some(X)
  {
    var board: Board := [H, H, H, E, C, E, E, E, E];
    assert Monochrome(board, WinningLines[0]);
  }

  /** A completed main diagonal wins for `O`, after the six earlier lines are found open. */
  lemma DiagonalWins()
    ensures CalculateWinner([C, H, E, H, C, E, E, E, C]) == Some(O)
  {
    var board: Board := [C, H, E, H, C, E, E, E, C];
    assert forall k :: 0 <= k < 6 ==> !Monochrome(board, WinningLines[k]);
    assert WinnerFrom(board, 6) == Some(O);
  }

  /** No line is complete yet. */
  lemma NoWinnerYet()
    ensures CalculateWinner([H, C, H, C, H, E, E, E, E]).None?
  {
    var board: Board := [H, C, H, C, H, E, E, E, E];
    assert forall k :: 0 <= k < |WinningLines| ==> !Monochrome(board, WinningLines[k]);
  }

  /** A full board without a line: full, no winner, and the computer has no move; one free cell makes it not full. */
  lemma FullBoardWithoutLine(coins: Coins)
    ensures var board: Board := [H, C, H, C, H, C, C, H, C];
      IsBoardFull(board) && CalculateWinner(board).None? && GetComputerMove(board, coins) == -1
    ensures !IsBoardFull([H, C, E, C, H, C, C, H, C])
  {
    var board: Board := [H, C, H, C, H, C, C, H, C];
    assert forall k :: 0 <= k < |WinningLines| ==> !Monochrome(board, WinningLines[k]);
    assert [H, C, E, C, H, C, C, H, C][2] == Empty;
  }

  /** An empty cell is a legal move; a taken cell and an index past the board are not. */
  lemma MoveValidation()
    ensures var board: Board := [H, E, C, E, E, E, E, E, E];
      IsValidMove(board, 1) && !IsValidMove(board, 0) && !IsValidMove(board, 9) && !IsValidMove(board, -1)
  {
  }

  /** Without exploration the computer completes its own top row. */
  lemma HeuristicWins()
    ensures GetComputerMove([C, C, E, H, H, E, E, E, E], Heuristic) == 2
  {
    var board: Board := [C, C, E, H, H, E, E, E, E];
    assert Threat(board, WinningLines[0], O);
  }

  /** Without exploration and without a win of its own, the computer blocks the human's top row. */
  lemma HeuristicBlocks()
    ensures GetComputerMove([H, H, E, C, E, E, E, E, E], Heuristic) == 2
  {
    var board: Board := [H, H, E, C, E, E, E, E, E];
    assert forall k :: 0 <= k < |WinningLines| ==> !Threat(board, WinningLines[k], O);
    assert Threat(board, WinningLines[0], X);
  }
}
