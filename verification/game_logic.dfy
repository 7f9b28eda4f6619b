/**
 * The tic-tac-toe engine: board, the eight winning lines, winner and
 * full-board detection, move validation and the computer's move policy.
 *
 * Every operation is a pure, total function. The two calls to the random
 * source that the policy makes are explicit parameters (`Coins`).
 */
module GameLogic {
  import opened Options

  /** `X` is the human player, `O` the computer. */
  datatype Player = X | O

  /** One square: empty (the source's `null`) or taken by a player. */
  datatype Cell = Empty | Taken(player: Player)

  function Other(p: Player): Player {
    if p == X then O else X
  }

  /** A position of the 3x3 grid in row-major order: 0 1 2 / 3 4 5 / 6 7 8. */
  type Index = i: int | 0 <= i < 9

  /** A board always holds exactly nine cells. */
  type Board = b: seq<Cell> | |b| == 9
    witness [Empty, Empty, Empty, Empty, Empty, Empty, Empty, Empty, Empty]

  /** Three positions that win when one player holds all of them. */
  datatype Line = Line(a: Index, b: Index, c: Index)

  /** The winning lines in declaration order: rows, then columns, then diagonals. */
  const WinningLines: seq<Line> := [
    Line(0, 1, 2), Line(3, 4, 5), Line(6, 7, 8),
    Line(0, 3, 6), Line(1, 4, 7), Line(2, 5, 8),
    Line(0, 4, 8), Line(2, 4, 6)
  ]

  predicate OnLine(l: Line, i: int) {
    i == l.a || i == l.b || i == l.c
  }

  /** Player `p` holds all three cells of `l`. */
  predicate Owns(board: Board, l: Line, p: Player) {
    board[l.a] == Taken(p) && board[l.b] == Taken(p) && board[l.c] == Taken(p)
  }

  /** Player `p` holds some winning line. */
  predicate HasLine(board: Board, p: Player) {
    exists k :: 0 <= k < |WinningLines| && Owns(board, WinningLines[k], p)
  }

  /** The board with `p` written at `i` and every other cell unchanged. */
  function Place(board: Board, i: Index, p: Player): Board {
    board[i := Taken(p)]
  }

  // ---------------------------------------------------------------------------
  // Board construction
  // ---------------------------------------------------------------------------

  function InitializeBoard(): (board: Board)
    ensures forall i :: 0 <= i < |board| ==> board[i] == Empty
    ensures !HasLine(board, X) && !HasLine(board, O)
  {
    [Empty, Empty, Empty, Empty, Empty, Empty, Empty, Empty, Empty]
  }

  // ---------------------------------------------------------------------------
  // Outcome evaluation
  // ---------------------------------------------------------------------------

  /** The test `calculateWinner` applies to one line: three equal, non-empty cells. */
  predicate Monochrome(board: Board, l: Line) {
    board[l.a] != Empty && board[l.a] == board[l.b] && board[l.b] == board[l.c]
  }

  /** Line `k` is the first monochrome line in declaration order. */
  predicate FirstMonochrome(board: Board, k: int) {
    0 <= k < |WinningLines| && Monochrome(board, WinningLines[k]) &&
    forall j :: 0 <= j < k ==> !Monochrome(board, WinningLines[j])
  }

  /** The scan of `calculateWinner`, started at line `k`. */
  function WinnerFrom(board: Board, k: nat): (r: Option<Player>)
    requires k <= |WinningLines|
    decreases |WinningLines| - k
    ensures r.None? <==> forall j :: k <= j < |WinningLines| ==> !Monochrome(board, WinningLines[j])
    ensures r.Some? ==>
      exists j :: k <= j < |WinningLines| && Owns(board, WinningLines[j], r.value) &&
        forall i :: k <= i < j ==> !Monochrome(board, WinningLines[i])
  {
    if k == |WinningLines| then None
    else if Monochrome(board, WinningLines[k]) then Some(board[WinningLines[k].a].player)
    else WinnerFrom(board, k + 1)
  }

  /**
   * The owner of the first monochrome line in declaration order, or `None`
   * when no line is monochrome.
   */
  function CalculateWinner(board: Board): (r: Option<Player>)
    ensures r.None? <==> forall j :: 0 <= j < |WinningLines| ==> !Monochrome(board, WinningLines[j])
    ensures r.Some? ==> exists j :: FirstMonochrome(board, j) && Owns(board, WinningLines[j], r.value)
  {
    WinnerFrom(board, 0)
  }

  /** `Array.prototype.every(cell => cell !== null)` over a sequence of cells. */
  function AllTaken(cells: seq<Cell>): (r: bool)
    ensures r <==> forall i :: 0 <= i < |cells| ==> cells[i] != Empty
  {
    |cells| == 0 || (cells[0] != Empty && AllTaken(cells[1..]))
  }

  function IsBoardFull(board: Board): (r: bool)
    ensures r <==> forall i :: 0 <= i < |board| ==> board[i] != Empty
  {
    AllTaken(board)
  }

  // ---------------------------------------------------------------------------
  // Move validation
  // ---------------------------------------------------------------------------

  /** The empty positions from `k` on, in ascending order. */
  function EmptyFrom(board: Board, k: nat): (m: seq<Index>)
    requires k <= |board|
    decreases |board| - k
    ensures forall j :: 0 <= j < |m| ==> k <= m[j] && board[m[j]] == Empty
    ensures forall i :: k <= i < |board| && board[i] == Empty ==> i in m
    ensures forall j, j' :: 0 <= j < j' < |m| ==> m[j] < m[j']
  {
    if k == |board| then []
    else if board[k] == Empty then [k as Index] + EmptyFrom(board, k + 1)
    else EmptyFrom(board, k + 1)
  }

  /**
   * The source's `availableMoves`: every empty position, ascending, each once.
   */
  function AvailableMoves(board: Board): (m: seq<Index>)
    ensures forall i :: i in m <==> 0 <= i < |board| && board[i] == Empty
    ensures forall j, j' :: 0 <= j < j' < |m| ==> m[j] < m[j']
  {
    EmptyFrom(board, 0)
  }

  /** The board is full exactly when no move is available. */
  lemma FullIffNoMoves(board: Board)
    ensures IsBoardFull(board) <==> |AvailableMoves(board)| == 0
  {
    var moves := AvailableMoves(board);
    if |moves| > 0 {
      assert moves[0] in moves;
    }
  }

  /**
   * The range test comes first, so an out-of-range index is never used to
   * read the board.
   */
  function IsValidMove(board: Board, index: int): bool {
    if index < 0 || index >= 9 then false
    else board[index] == Empty
  }

  /** A move is legal exactly when its index is one of the available moves. */
  lemma ValidIffAvailable(board: Board, index: int)
    ensures IsValidMove(board, index) <==> index in AvailableMoves(board)
  {
  }

  // ---------------------------------------------------------------------------
  // The computer's move policy
  // ---------------------------------------------------------------------------

  /** How many of the three cells of `l` equal `c`. */
  function CountOn(board: Board, l: Line, c: Cell): nat {
    (if board[l.a] == c then 1 else 0) +
    (if board[l.b] == c then 1 else 0) +
    (if board[l.c] == c then 1 else 0)
  }

  /** The test `findWinningMove` applies to one line: two cells of `p` and one empty. */
  predicate Threat(board: Board, l: Line, p: Player) {
    CountOn(board, l, Taken(p)) == 2 && CountOn(board, l, Empty) == 1
  }

  /** The first empty cell of `l`, scanning a, b, c. */
  function Gap(board: Board, l: Line): (i: Index)
    ensures Threat(board, l, X) || Threat(board, l, O) ==> board[i] == Empty && OnLine(l, i)
  {
    if board[l.a] == Empty then l.a
    else if board[l.b] == Empty then l.b
    else l.c
  }

  /** Line `k` is the first threat of `p` in declaration order. */
  predicate FirstThreat(board: Board, p: Player, k: int) {
    0 <= k < |WinningLines| && Threat(board, WinningLines[k], p) &&
    forall j :: 0 <= j < k ==> !Threat(board, WinningLines[j], p)
  }

  /** The scan of `findWinningMove`, started at line `k`. */
  function WinningMoveFrom(board: Board, p: Player, k: nat): (r: int)
    requires k <= |WinningLines|
    decreases |WinningLines| - k
    ensures r == -1 <==> forall j :: k <= j < |WinningLines| ==> !Threat(board, WinningLines[j], p)
    ensures r != -1 ==>
      exists j :: k <= j < |WinningLines| && Threat(board, WinningLines[j], p) &&
        r == Gap(board, WinningLines[j]) &&
        forall i :: k <= i < j ==> !Threat(board, WinningLines[i], p)
  {
    if k == |WinningLines| then -1
    else if Threat(board, WinningLines[k], p) then Gap(board, WinningLines[k])
    else WinningMoveFrom(board, p, k + 1)
  }

  /**
   * The empty cell of the first line on which `p` holds two cells and the
   * third is empty, or -1 when there is no such line.
   */
  function FindWinningMove(board: Board, p: Player): (r: int)
    ensures r == -1 <==> forall j :: 0 <= j < |WinningLines| ==> !Threat(board, WinningLines[j], p)
    ensures r != -1 ==>
      IsValidMove(board, r) &&
      exists j :: FirstThreat(board, p, j) && r == Gap(board, WinningLines[j])
  {
    WinningMoveFrom(board, p, 0)
  }

  /** One value of `Math.random()`: the rational num/den, which lies in [0, 1). */
  datatype Fraction = Fraction(num: nat, den: nat)

  type UnitFraction = f: Fraction | f.num < f.den witness Fraction(0, 1)

  /** The random decisions of one `getComputerMove` call. */
  datatype Coins = Coins(
    explore: bool,  // the outcome of `Math.random() < 0.4`
    sample: UnitFraction  // the value that picks among the available moves
  )

  /** `Math.floor(r * n)` for a draw `r`: a position in a list of length `n`. */
  function Scale(d: UnitFraction, n: nat): (k: nat)
    ensures k * d.den <= d.num * n < (k + 1) * d.den
    ensures n > 0 ==> k < n
  {
    var k := d.num * n / d.den;
    ScaleBounds(d.num, d.den, n, k);
    k
  }

  lemma ScaleBounds(num: nat, den: nat, n: nat, k: nat)
    requires num < den && k == num * n / den
    ensures k * den <= num * n < (k + 1) * den
    ensures n > 0 ==> k < n
  {
    var rem := num * n % den;
    assert num * n == k * den + rem && 0 <= rem < den;
    assert (k + 1) * den == k * den + den;
    if n > 0 {
      assert num * n < den * n by {
        assert (den - num) * n > 0;
        assert (den - num) * n == den * n - num * n;
      }
      assert (n - k) * den == n * den - k * den;
      assert (n - k) * den > 0;
    }
  }

  /** `availableMoves[Math.floor(r * availableMoves.length)]`. */
  function RandomMove(board: Board, d: UnitFraction): (i: Index)
    requires |AvailableMoves(board)| > 0
    ensures IsValidMove(board, i)
  {
    var moves := AvailableMoves(board);
    moves[Scale(d, |moves|)]
  }

  /**
   * The computer's move: with `coins.explore` a random empty cell; otherwise
   * a cell that wins now, else one that blocks the human, else a random
   * empty cell. -1 only when the board has no empty cell.
   */
  function GetComputerMove(board: Board, coins: Coins): (r: int)
    ensures r == -1 <==> IsBoardFull(board)
    ensures r != -1 ==> IsValidMove(board, r)
  {
    FullIffNoMoves(board);
    if coins.explore && |AvailableMoves(board)| > 0 then RandomMove(board, coins.sample)
    else
      var winning := FindWinningMove(board, O);
      if winning != -1 then winning
      else
        var blocking := FindWinningMove(board, X);
        if blocking != -1 then blocking
        else if |AvailableMoves(board)| > 0 then RandomMove(board, coins.sample)
        else -1
  }
}
