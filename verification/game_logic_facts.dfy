/**
 * Properties of the engine: the shape of the winning lines, what the winner
 * scan and the threat scan mean in terms of lines a player holds, the
 * priority order of the computer's policy, and how one placement changes
 * the board.
 */
module GameLogicFacts {
  import opened Options
  import opened GameLogic

  // ---------------------------------------------------------------------------
  // The winning lines
  // ---------------------------------------------------------------------------

  predicate IsRow(l: Line) {
    l.a % 3 == 0 && l.b == l.a + 1 && l.c == l.a + 2
  }

  predicate IsColumn(l: Line) {
    l.a < 3 && l.b == l.a + 3 && l.c == l.a + 6
  }

  predicate IsDiagonal(l: Line) {
    l.b == 4 && ((l.a == 0 && l.c == 8) || (l.a == 2 && l.c == 6))
  }

  /**
   * The winning lines are exactly the three rows, the three columns and the
   * two diagonals, listed in that order, each with three distinct cells.
   */
  lemma WinningLinesAreRowsColumnsDiagonals()
    ensures |WinningLines| == 8
    ensures forall k :: 0 <= k < 3 ==> IsRow(WinningLines[k])
    ensures forall k :: 3 <= k < 6 ==> IsColumn(WinningLines[k])
    ensures forall k :: 6 <= k < 8 ==> IsDiagonal(WinningLines[k])
    ensures forall l: Line :: l in WinningLines <==> IsRow(l) || IsColumn(l) || IsDiagonal(l)
    ensures forall l :: l in WinningLines ==> l.a != l.b && l.b != l.c && l.a != l.c
  {
  }

  /** The three cells of every winning line are distinct. */
  lemma LineCellsDistinct(k: int)
    requires 0 <= k < |WinningLines|
    ensures WinningLines[k].a != WinningLines[k].b
    ensures WinningLines[k].b != WinningLines[k].c
    ensures WinningLines[k].a != WinningLines[k].c
  {
  }

  // ---------------------------------------------------------------------------
  // Winner detection
  // ---------------------------------------------------------------------------

  /**
   * `calculateWinner` is sound and complete: it reports `p` only when `p`
   * holds a line, reports nobody exactly when neither player holds a line,
   * and reports `p` whenever `p` is the only player holding a line.
   */
  lemma WinnerDetection(board: Board, p: Player)
    ensures CalculateWinner(board) == Some(p) ==> HasLine(board, p)
    ensures CalculateWinner(board).None? <==> !HasLine(board, X) && !HasLine(board, O)
    ensures HasLine(board, p) && !HasLine(board, Other(p)) ==> CalculateWinner(board) == Some(p)
  {
    var r := CalculateWinner(board);
    if r.None? {
      forall k | 0 <= k < |WinningLines|
        ensures !Owns(board, WinningLines[k], X) && !Owns(board, WinningLines[k], O)
      {
        assert !Monochrome(board, WinningLines[k]);
      }
    } else {
      var j :| FirstMonochrome(board, j) && Owns(board, WinningLines[j], r.value);
      assert HasLine(board, r.value);
    }
    if HasLine(board, p) {
      var k :| 0 <= k < |WinningLines| && Owns(board, WinningLines[k], p);
      assert Monochrome(board, WinningLines[k]);
    }
  }

  // ---------------------------------------------------------------------------
  // Threats and winning moves
  // ---------------------------------------------------------------------------

  /** Writing `p` at the empty cell `i` of line `l` gives `p` all of `l`. */
  predicate CompletesLine(board: Board, i: int, l: Line, p: Player) {
    0 <= i < 9 && board[i] == Empty && OnLine(l, i) && Owns(Place(board, i, p), l, p)
  }

  /**
   * On a line of three distinct cells, "two of `p` and one empty" holds
   * exactly when one move of `p` would complete the line, and the first
   * empty cell is that move.
   */
  lemma ThreatIffCompletes(board: Board, l: Line, p: Player)
    requires l.a != l.b && l.b != l.c && l.a != l.c
    ensures Threat(board, l, p) ==> CompletesLine(board, Gap(board, l), l, p)
    ensures Threat(board, l, p) <==> exists i :: CompletesLine(board, i, l, p)
  {
    if i :| CompletesLine(board, i, l, p) {
      assert Threat(board, l, p);
    }
    if Threat(board, l, p) {
      assert CompletesLine(board, Gap(board, l), l, p);
    }
  }

  /** Some single move of `p` completes a line of `p`. */
  predicate CanWinNow(board: Board, p: Player) {
    exists i, k :: 0 <= i < 9 && 0 <= k < |WinningLines| && CompletesLine(board, i, WinningLines[k], p)
  }

  /**
   * `findWinningMove(board, p)` finds a move exactly when some single move of
   * `p` completes a line, and the move it finds completes the first such line.
   */
  lemma FindWinningMoveMeaning(board: Board, p: Player)
    ensures FindWinningMove(board, p) != -1 <==> CanWinNow(board, p)
    ensures FindWinningMove(board, p) != -1 ==>
      exists k :: 0 <= k < |WinningLines| && CompletesLine(board, FindWinningMove(board, p), WinningLines[k], p)
    ensures FindWinningMove(board, p) != -1 ==>
      HasLine(Place(board, FindWinningMove(board, p), p), p)
  {
    var r := FindWinningMove(board, p);
    if r != -1 {
      var j :| FirstThreat(board, p, j) && r == Gap(board, WinningLines[j]);
      LineCellsDistinct(j);
      ThreatIffCompletes(board, WinningLines[j], p);
      assert CompletesLine(board, r, WinningLines[j], p);
      assert Owns(Place(board, r, p), WinningLines[j], p);
    }
    if CanWinNow(board, p) {
      var i, k :| 0 <= i < 9 && 0 <= k < |WinningLines| && CompletesLine(board, i, WinningLines[k], p);
      LineCellsDistinct(k);
      ThreatIffCompletes(board, WinningLines[k], p);
    }
  }

  // ---------------------------------------------------------------------------
  // The computer's policy
  // ---------------------------------------------------------------------------

  /**
   * Without exploration the policy wins when it can, else blocks the first
   * human threat, else plays the random empty cell; with exploration it plays
   * the random empty cell at once. Every branch returns a legal move unless
   * the board is full.
   */
  lemma HeuristicPriority(board: Board, coins: Coins)
    ensures !coins.explore && FindWinningMove(board, O) != -1 ==>
      GetComputerMove(board, coins) == FindWinningMove(board, O)
    ensures !coins.explore && FindWinningMove(board, O) == -1 && FindWinningMove(board, X) != -1 ==>
      GetComputerMove(board, coins) == FindWinningMove(board, X)
    ensures !coins.explore && CanWinNow(board, O) ==>
      var r := GetComputerMove(board, coins);
      0 <= r < 9 && HasLine(Place(board, r, O), O)
    ensures !coins.explore && !CanWinNow(board, O) && CanWinNow(board, X) ==>
      var r := GetComputerMove(board, coins);
      exists k :: 0 <= k < |WinningLines| && CompletesLine(board, r, WinningLines[k], X)
    ensures (coins.explore || (!CanWinNow(board, O) && !CanWinNow(board, X))) && !IsBoardFull(board) ==>
      GetComputerMove(board, coins) ==
        AvailableMoves(board)[Scale(coins.sample, |AvailableMoves(board)|)]
  {
    FindWinningMoveMeaning(board, O);
    FindWinningMoveMeaning(board, X);
  }

  // ---------------------------------------------------------------------------
  // One placement
  // ---------------------------------------------------------------------------

  /**
   * Writing `p` into an empty cell neither gives the other player a line
   * nor takes one away.
   */
  lemma PlaceKeepsOpponentLines(board: Board, i: Index, p: Player)
    requires board[i] == Empty
    ensures HasLine(Place(board, i, p), Other(p)) <==> HasLine(board, Other(p))
  {
    var q := Other(p);
    var nb := Place(board, i, p);
    if HasLine(nb, q) {
      var k :| 0 <= k < |WinningLines| && Owns(nb, WinningLines[k], q);
      assert Owns(board, WinningLines[k], q);
    }
    if HasLine(board, q) {
      var k :| 0 <= k < |WinningLines| && Owns(board, WinningLines[k], q);
      assert Owns(nb, WinningLines[k], q);
    }
  }

  /** A move onto an empty cell of a board without a winner makes the mover the only possible winner. */
  lemma PlaceWinner(board: Board, i: Index, p: Player)
    requires board[i] == Empty
    requires !HasLine(board, X) && !HasLine(board, O)
    ensures !HasLine(Place(board, i, p), Other(p))
    ensures CalculateWinner(Place(board, i, p)) == Some(p) <==> HasLine(Place(board, i, p), p)
    ensures CalculateWinner(Place(board, i, p)) != Some(p) ==> CalculateWinner(Place(board, i, p)).None?
  {
    var nb := Place(board, i, p);
    PlaceKeepsOpponentLines(board, i, p);
    assert Other(p) != p;
    WinnerDetection(nb, p);
    WinnerDetection(nb, Other(p));
  }

  /** The number of cells equal to `c`. */
  function CountOf(cells: seq<Cell>, c: Cell): nat {
    if |cells| == 0 then 0
    else (if cells[0] == c then 1 else 0) + CountOf(cells[1..], c)
  }

  /** Writing `p` into an empty cell adds one `p` and leaves the other player's count alone. */
  lemma {:induction false} CountAfterPlace(cells: seq<Cell>, i: int, p: Player)
    requires 0 <= i < |cells| && cells[i] == Empty
    ensures CountOf(cells[i := Taken(p)], Taken(p)) == CountOf(cells, Taken(p)) + 1
    ensures CountOf(cells[i := Taken(p)], Taken(Other(p))) == CountOf(cells, Taken(Other(p)))
  {
    if i > 0 {
      CountAfterPlace(cells[1..], i - 1, p);
      assert cells[i := Taken(p)][1..] == cells[1..][i - 1 := Taken(p)];
    } else {
      assert cells[i := Taken(p)][1..] == cells[1..];
    }
  }

  /** The empty board holds no mark of either player. */
  lemma {:induction false} CountOfAllEmpty(cells: seq<Cell>, p: Player)
    requires forall i :: 0 <= i < |cells| ==> cells[i] == Empty
    ensures CountOf(cells, Taken(p)) == 0
  {
    if |cells| > 0 {
      CountOfAllEmpty(cells[1..], p);
    }
  }
}
