/**
 * The single-session turn controller of the `useGame` hook, as pure step
 * functions: `Click` is one whole `handleCellClick` (the human's move and,
 * when the game goes on, the computer's reply), `ResetGame` is `resetGame`.
 *
 * The promo-code request is an input: `fetched` is `Some(code)` when the
 * request delivered a code and `None` when it failed. The 900 ms delay and
 * the `onGameEnd` callback change no state and are not modelled.
 */
module UseGame {
  import opened Options
  import opened GameLogic
  import opened GameLogicFacts

  datatype GameStatus = Active | Won | Lost | Draw

  datatype Session = Session(
    board: Board,
    status: GameStatus,
    lastPromoCode: Option<string>,
    thinking: bool,         // `isComputerThinking`
    lastMove: Option<int>   // `lastMoveIndex`
  )

  /** The hook's initial state: the values its `useState` calls start from. */
  function Initial(): Session {
    Session(InitializeBoard(), Active, None, false, None)
  }

  /** `resetGame`: every field goes back to its initial value, whatever the state was. */
  function ResetGame(s: Session): (r: Session)
    ensures forall i :: 0 <= i < |r.board| ==> r.board[i] == Empty
    ensures r.status == Active && r.lastPromoCode.None? && !r.thinking && r.lastMove.None?
    ensures Invariant(r)
  {
    CountOfAllEmpty(InitializeBoard(), X);
    CountOfAllEmpty(InitializeBoard(), O);
    Initial()
  }

  /**
   * The computer's half of `handleCellClick`, run after the human's move left
   * the game undecided: `O` goes on the cell the policy picks, which becomes
   * the last move, and the game is lost when `O` completes a line, drawn when
   * the board is full, and otherwise goes on. Only one cell changes, and only
   * from empty to `O`.
   */
  function ComputerTurn(s: Session, coins: Coins): (r: Session)
    ensures forall i :: 0 <= i < |s.board| && r.board[i] != s.board[i] ==>
      s.board[i] == Empty && r.board[i] == Taken(O) && r.lastMove == Some(i)
    ensures !IsBoardFull(s.board) ==> r.board != s.board
    ensures !r.thinking && r.lastPromoCode == s.lastPromoCode
  {
    var move := GetComputerMove(s.board, coins);
    if move != -1 then
      var afterComputer := Place(s.board, move, O);
      assert afterComputer[move] != s.board[move];
      var replied := s.(board := afterComputer, lastMove := Some(move), thinking := false);
      if CalculateWinner(afterComputer) == Some(O) then replied.(status := Lost)
      else if IsBoardFull(afterComputer) then replied.(status := GameStatus.Draw)
      else replied
    else
      s.(thinking := false)
  }

  /**
   * `handleCellClick(index)`. The click is ignored unless the game is active,
   * the computer is not thinking and the move is valid. Otherwise `X` is
   * written at `index`; a human line ends the game as won (with the fetched
   * code, if any), a full board as a draw, and otherwise the computer takes
   * its turn.
   */
  function Click(s: Session, index: int, coins: Coins, fetched: Option<string>): (r: Session)
    ensures s.status != Active || s.thinking || !IsValidMove(s.board, index) ==> r == s
    ensures forall i :: 0 <= i < |s.board| && s.board[i] != Empty ==> r.board[i] == s.board[i]
    ensures s.status == Active && !s.thinking && IsValidMove(s.board, index) ==>
      r.board[index] == Taken(X) && !r.thinking && r.lastMove.Some? &&
      forall i :: 0 <= i < |s.board| && i != index && r.board[i] != s.board[i] ==>
        s.board[i] == Empty && r.board[i] == Taken(O) && r.lastMove == Some(i)
  {
    if s.status != Active || s.thinking then s
    else if !IsValidMove(s.board, index) then s
    else
      var played := s.(board := Place(s.board, index, X), lastMove := Some(index));
      if CalculateWinner(played.board) == Some(X) then
        played.(status := Won, lastPromoCode := if fetched.Some? then fetched else s.lastPromoCode)
      else if IsBoardFull(played.board) then
        played.(status := GameStatus.Draw)
      else
        ComputerTurn(played, coins)
  }

  // ---------------------------------------------------------------------------
  // Reachable states
  // ---------------------------------------------------------------------------

  /**
   * What holds of every state the hook can reach: `X` moves first and the
   * players alternate, so `X` is ahead by at most one mark; the status agrees
   * with the board; a promo code exists only after a win; the last move
   * names a taken cell.
   */
  predicate Invariant(s: Session) {
    var xs := CountOf(s.board, Taken(X));
    var os := CountOf(s.board, Taken(O));
    os <= xs <= os + 1 &&
    !s.thinking &&
    (s.lastPromoCode.Some? ==> s.status == Won) &&
    (s.lastMove.None? ==> forall i :: 0 <= i < |s.board| ==> s.board[i] == Empty) &&
    (s.lastMove.Some? ==> 0 <= s.lastMove.value < |s.board| && s.board[s.lastMove.value] != Empty) &&
    match s.status
    case Active =>
      !HasLine(s.board, X) && !HasLine(s.board, O) && !IsBoardFull(s.board) && xs == os
    case Won =>
      HasLine(s.board, X) && !HasLine(s.board, O) && xs == os + 1 &&
      s.lastMove.Some? && s.board[s.lastMove.value] == Taken(X)
    case Lost =>
      HasLine(s.board, O) && !HasLine(s.board, X) && xs == os &&
      s.lastMove.Some? && s.board[s.lastMove.value] == Taken(O)
    case Draw =>
      IsBoardFull(s.board) && !HasLine(s.board, X) && !HasLine(s.board, O)
  }

  /** In a reachable state the status is exactly what `calculateWinner` and `isBoardFull` say. */
  lemma StatusAgreesWithBoard(s: Session)
    requires Invariant(s)
    ensures s.status == Active <==> CalculateWinner(s.board).None? && !IsBoardFull(s.board)
    ensures s.status == Won <==> CalculateWinner(s.board) == Some(X)
    ensures s.status == Lost <==> CalculateWinner(s.board) == Some(O)
    ensures s.status == GameStatus.Draw <==> CalculateWinner(s.board).None? && IsBoardFull(s.board)
  {
    WinnerDetection(s.board, X);
    WinnerDetection(s.board, O);
  }

  /**
   * The state the human's move leaves when the game goes on: active, no line
   * for either player, a free cell, one more `X` than `O`, no promo code.
   */
  predicate AwaitingComputer(s: Session) {
    s.status == Active && s.lastPromoCode.None? &&
    !HasLine(s.board, X) && !HasLine(s.board, O) && !IsBoardFull(s.board) &&
    CountOf(s.board, Taken(X)) == CountOf(s.board, Taken(O)) + 1
  }

  /** The computer's turn, started where the human's move left the game undecided, restores the invariant. */
  lemma ComputerTurnRestoresInvariant(s: Session, coins: Coins)
    requires AwaitingComputer(s)
    ensures Invariant(ComputerTurn(s, coins))
  {
    var move := GetComputerMove(s.board, coins);
    var afterComputer := Place(s.board, move, O);
    CountAfterPlace(s.board, move, O);
    PlaceWinner(s.board, move, O);
    WinnerDetection(afterComputer, O);
  }

  /** Every click keeps the invariant. */
  lemma ClickPreservesInvariant(s: Session, index: int, coins: Coins, fetched: Option<string>)
    requires Invariant(s)
    ensures Invariant(Click(s, index, coins, fetched))
  {
    if s.status == Active && IsValidMove(s.board, index) {
      var afterHuman := Place(s.board, index, X);
      CountAfterPlace(s.board, index, X);
      PlaceWinner(s.board, index, X);
      WinnerDetection(afterHuman, X);
      if !HasLine(afterHuman, X) && !IsBoardFull(afterHuman) {
        ComputerTurnRestoresInvariant(s.(board := afterHuman, lastMove := Some(index)), coins);
      }
    }
  }

  /**
   * When `X` completes a line the game is won at once: only the human's mark
   * is written, and the promo code is the fetched one, or none when the
   * request failed.
   */
  lemma HumanWinEndsGame(s: Session, index: int, coins: Coins, fetched: Option<string>)
    requires Invariant(s) && s.status == Active && IsValidMove(s.board, index)
    requires HasLine(Place(s.board, index, X), X)
    ensures var r := Click(s, index, coins, fetched);
      r.status == Won && r.board == Place(s.board, index, X) && r.lastMove == Some(index) &&
      r.lastPromoCode == fetched
  {
    PlaceWinner(s.board, index, X);
  }

  /** When the human's move fills the board without a line the game is drawn and the computer does not move. */
  lemma HumanFillIsDraw(s: Session, index: int, coins: Coins, fetched: Option<string>)
    requires Invariant(s) && s.status == Active && IsValidMove(s.board, index)
    requires !HasLine(Place(s.board, index, X), X) && IsBoardFull(Place(s.board, index, X))
    ensures var r := Click(s, index, coins, fetched);
      r.status == GameStatus.Draw && r.board == Place(s.board, index, X) && r.lastMove == Some(index) &&
      r.lastPromoCode.None?
  {
    PlaceWinner(s.board, index, X);
  }

  /**
   * Otherwise the computer answers on a previously empty cell, chosen by its
   * policy; the game is lost when `O` now holds a line, drawn when the board
   * is full, and still active otherwise.
   */
  lemma ComputerReplies(s: Session, index: int, coins: Coins, fetched: Option<string>)
    requires Invariant(s) && s.status == Active && IsValidMove(s.board, index)
    requires !HasLine(Place(s.board, index, X), X) && !IsBoardFull(Place(s.board, index, X))
    ensures var afterHuman := Place(s.board, index, X);
      var move := GetComputerMove(afterHuman, coins);
      var r := Click(s, index, coins, fetched);
      IsValidMove(afterHuman, move) &&
      r.board == Place(afterHuman, move, O) && r.lastMove == Some(move) && !r.thinking &&
      (r.status == Lost <==> HasLine(r.board, O)) &&
      (r.status == GameStatus.Draw <==> !HasLine(r.board, O) && IsBoardFull(r.board)) &&
      (r.status == Active <==> !HasLine(r.board, O) && !IsBoardFull(r.board))
  {
    var afterHuman := Place(s.board, index, X);
    PlaceWinner(s.board, index, X);
    var move := GetComputerMove(afterHuman, coins);
    PlaceWinner(afterHuman, move, O);
  }

  /** Repeating a click is a no-op: the cell is now taken, or the first click was already ignored. */
  lemma ClickIdempotent(s: Session, index: int, c1: Coins, f1: Option<string>, c2: Coins, f2: Option<string>)
    ensures Click(Click(s, index, c1, f1), index, c2, f2) == Click(s, index, c1, f1)
  {
  }

  // ---------------------------------------------------------------------------
  // Sessions as sequences of events
  // ---------------------------------------------------------------------------

  datatype Event =
    | CellClicked(index: int, coins: Coins, fetched: Option<string>)
    | ResetPressed

  function Step(s: Session, e: Event): Session {
    match e
    case CellClicked(index, coins, fetched) => Click(s, index, coins, fetched)
    case ResetPressed => ResetGame(s)
  }

  function Run(s: Session, events: seq<Event>): Session
    decreases |events|
  {
    if |events| == 0 then s else Run(Step(s, events[0]), events[1..])
  }

  /** Every event keeps the invariant. */
  lemma StepPreservesInvariant(s: Session, e: Event)
    requires Invariant(s)
    ensures Invariant(Step(s, e))
  {
    if e.CellClicked? {
      ClickPreservesInvariant(s, e.index, e.coins, e.fetched);
    }
  }

  /** Every state reached from a state satisfying the invariant satisfies it too. */
  lemma {:induction false} RunPreservesInvariant(s: Session, events: seq<Event>)
    requires Invariant(s)
    ensures Invariant(Run(s, events))
    decreases |events|
  {
    if |events| > 0 {
      StepPreservesInvariant(s, events[0]);
      RunPreservesInvariant(Step(s, events[0]), events[1..]);
    }
  }

  /** Every state the hook can reach from its initial state satisfies the invariant. */
  lemma ReachableStatesSatisfyInvariant(events: seq<Event>)
    ensures Invariant(Run(Initial(), events))
  {
    assert Initial() == ResetGame(Initial());
    RunPreservesInvariant(Initial(), events);
  }

  /** Without a reset, a taken cell keeps its mark for the rest of the game. */
  lemma {:induction false} CellsNeverOverwritten(s: Session, events: seq<Event>)
    requires forall k :: 0 <= k < |events| ==> events[k].CellClicked?
    decreases |events|
    ensures forall i :: 0 <= i < |s.board| && s.board[i] != Empty ==> Run(s, events).board[i] == s.board[i]
  {
    if |events| > 0 {
      var next := Step(s, events[0]);
      CellsNeverOverwritten(next, events[1..]);
    }
  }
}
