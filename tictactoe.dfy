/**
 * Tic-tac-toe: the board, whose turn it is, the legal moves, playing a
 * move, the eight winning lines, the end-of-game test and its utility, and
 * the minimax search that picks an optimal move.
 */
module TicTacToe {
  import opened Wrappers

  /** A cell holds X, O or nothing (`EMPTY`, which is Python's `None`). */
  datatype Cell = X | O | Empty

  /** A board is a list of rows; the game's boards are 3 by 3. */
  type Board = seq<seq<Cell>>

  /** A move: the row and the column of the cell to take. */
  type Action = (int, int)

  predicate IsBoard(b: Board) {
    |b| == 3 && forall i :: 0 <= i < 3 ==> |b[i]| == 3
  }

  predicate InRange(a: Action) {
    0 <= a.0 < 3 && 0 <= a.1 < 3
  }

  /** The empty 3 by 3 board. */
  function InitialState(): (b: Board)
    ensures IsBoard(b)
    ensures forall i, j :: 0 <= i < 3 && 0 <= j < 3 ==> b[i][j] == Empty
  {
    [[Empty, Empty, Empty], [Empty, Empty, Empty], [Empty, Empty, Empty]]
  }

  // ---- counting cells ------------------------------------------------------

  /** How many cells of `row` hold `c`. */
  function RowCount(row: seq<Cell>, c: Cell): nat {
    if row == [] then 0
    else RowCount(row[..|row| - 1], c) + (if row[|row| - 1] == c then 1 else 0)
  }

  /** How many cells of `b` hold `c`. */
  function CountOf(b: Board, c: Cell): nat {
    if b == [] then 0
    else CountOf(b[..|b| - 1], c) + RowCount(b[|b| - 1], c)
  }

  /** Overwriting one cell of a row moves one unit of count from the old symbol to the new. */
  lemma {:induction false} RowCountUpdate(row: seq<Cell>, j: int, v: Cell, c: Cell)
    requires 0 <= j < |row|
    ensures RowCount(row[j := v], c) + (if row[j] == c then 1 else 0) == RowCount(row, c) + (if v == c then 1 else 0)
  {
    var n := |row|;
    if j < n - 1 {
      assert row[j := v][..n - 1] == row[..n - 1][j := v];
      RowCountUpdate(row[..n - 1], j, v, c);
    } else {
      assert row[j := v][..n - 1] == row[..n - 1];
    }
  }

  /** Replacing one row changes the board's count by the difference of the two rows' counts. */
  lemma {:induction false} CountUpdate(b: Board, i: int, row: seq<Cell>, c: Cell)
    requires 0 <= i < |b|
    ensures CountOf(b[i := row], c) + RowCount(b[i], c) == CountOf(b, c) + RowCount(row, c)
  {
    var n := |b|;
    if i < n - 1 {
      assert b[i := row][..n - 1] == b[..n - 1][i := row];
      CountUpdate(b[..n - 1], i, row, c);
    } else {
      assert b[i := row][..n - 1] == b[..n - 1];
    }
  }

  /** A mark that appears in no cell is counted zero times. */
  lemma {:induction false} RowCountAbsent(row: seq<Cell>, c: Cell)
    requires forall j :: 0 <= j < |row| ==> row[j] != c
    ensures RowCount(row, c) == 0
  {
    if row != [] {
      RowCountAbsent(row[..|row| - 1], c);
    }
  }

  lemma {:induction false} CountAbsent(b: Board, c: Cell)
    requires forall i, j :: 0 <= i < |b| && 0 <= j < |b[i]| ==> b[i][j] != c
    ensures CountOf(b, c) == 0
  {
    if b != [] {
      RowCountAbsent(b[|b| - 1], c);
      CountAbsent(b[..|b| - 1], c);
    }
  }

  // ---- whose turn ------------------------------------------------------------

  /**
   * The player to move: X when both have played as often, O when X has
   * played more, and nobody (`None` in Python) when O is ahead.
   */
  function ToMove(b: Board): (p: Cell)
    ensures p != Empty <==> CountOf(b, O) <= CountOf(b, X)
  {
    var xs := CountOf(b, X);
    var os := CountOf(b, O);
    if xs == os then X else if xs > os then O else Empty
  }

  /** Someone is to move: O has not played more often than X. */
  predicate TurnDefined(b: Board) {
    CountOf(b, O) <= CountOf(b, X)
  }

  /** X has played as often as O or once more, as on every board reached from the empty one. */
  predicate Alternating(b: Board) {
    CountOf(b, O) <= CountOf(b, X) <= CountOf(b, O) + 1
  }

  /** Counts the X and O cells row by row, as `player` does. */
  method Player(b: Board) returns (p: Cell)
    ensures p == ToMove(b)
  {
    var xCount, oCount := 0, 0;
    for i := 0 to |b|
      invariant xCount == CountOf(b[..i], X) && oCount == CountOf(b[..i], O)
    {
      var row := b[i];
      for j := 0 to |row|
        invariant xCount == CountOf(b[..i], X) + RowCount(row[..j], X)
        invariant oCount == CountOf(b[..i], O) + RowCount(row[..j], O)
      {
        assert row[..j + 1][..j] == row[..j];
        if row[j] == X {
          xCount := xCount + 1;
        } else if row[j] == O {
          oCount := oCount + 1;
        }
      }
      assert row[..|row|] == row;
      assert b[..i + 1][..i] == b[..i];
    }
    assert b[..|b|] == b;
    if xCount == oCount {
      p := X;
    } else if xCount > oCount {
      p := O;
    } else {
      p := Empty;
    }
  }

  // ---- moves -------------------------------------------------------------------

  /** The empty cells of the board. */
  function ActionsOf(b: Board): set<Action> {
    set i, j | 0 <= i < |b| && 0 <= j < |b[i]| && b[i][j] == Empty :: (i, j)
  }

  /** On a 3 by 3 board the moves are exactly the empty cells, all within the board. */
  lemma ActionsAreEmptyCells(b: Board)
    requires IsBoard(b)
    ensures forall a :: a in ActionsOf(b) <==> InRange(a) && b[a.0][a.1] == Empty
  {
    forall a | InRange(a) && b[a.0][a.1] == Empty ensures a in ActionsOf(b) {
      var (i, j) := a;
      assert (i, j) in ActionsOf(b);
    }
  }

  /** Collects the empty cells row by row, as `actions` does. */
  method Actions(b: Board) returns (emptyCells: set<Action>)
    ensures emptyCells == ActionsOf(b)
  {
    emptyCells := {};
    for i := 0 to |b|
      invariant forall a :: a in emptyCells <==> 0 <= a.0 < i && 0 <= a.1 < |b[a.0]| && b[a.0][a.1] == Empty
    {
      for j := 0 to |b[i]|
        invariant forall a :: a in emptyCells <==>
                    (0 <= a.0 < i && 0 <= a.1 < |b[a.0]| && b[a.0][a.1] == Empty)
                    || (a.0 == i && 0 <= a.1 < j && b[i][a.1] == Empty)
      {
        if b[i][j] == Empty {
          emptyCells := emptyCells + {(i, j)};
        }
      }
    }
  }

  /** Writing `p` into the empty cell `a` moves one unit of count from `Empty` to `p`. */
  lemma MarkCounts(b: Board, a: Action, p: Cell)
    requires IsBoard(b) && InRange(a) && b[a.0][a.1] == Empty
    ensures CountOf(b[a.0 := b[a.0][a.1 := p]], Empty) + 1 == CountOf(b, Empty) + (if p == Empty then 1 else 0)
    ensures CountOf(b[a.0 := b[a.0][a.1 := p]], X) == CountOf(b, X) + (if p == X then 1 else 0)
    ensures CountOf(b[a.0 := b[a.0][a.1 := p]], O) == CountOf(b, O) + (if p == O then 1 else 0)
  {
    forall c | c in [X, O, Empty]
      ensures CountOf(b[a.0 := b[a.0][a.1 := p]], c) + (if c == Empty then 1 else 0)
              == CountOf(b, c) + (if c == p then 1 else 0)
    {
      RowCountUpdate(b[a.0], a.1, p, c);
      CountUpdate(b, a.0, b[a.0][a.1 := p], c);
    }
  }

  /** The other player. */
  function Opponent(p: Cell): Cell {
    match p
    case X => O
    case O => X
    case Empty => Empty
  }

  /** `result` either refuses a taken cell or returns a copy with the mover's mark in it. */
  datatype MoveOutcome = Moved(board: Board) | Occupied

  /**
   * The board after the player to move takes cell `a`. Taking a cell that
   * is not empty is an error; the given board is never changed, the move
   * is made on a copy. While someone is to move, a move fills one empty
   * cell and keeps O from getting ahead of X.
   */
  function Result(b: Board, a: Action): (r: MoveOutcome)
    requires IsBoard(b) && InRange(a)
    ensures r.Occupied? <==> b[a.0][a.1] != Empty
    ensures r.Moved? ==> IsBoard(r.board)
    ensures r.Moved? && TurnDefined(b) ==> CountOf(r.board, Empty) + 1 == CountOf(b, Empty) && TurnDefined(r.board)
  {
    if b[a.0][a.1] != Empty then Occupied
    else
      MarkCounts(b, a, ToMove(b));
      Moved(b[a.0 := b[a.0][a.1 := ToMove(b)]])
  }

  /**
   * A move writes the mark of the player to move into cell `a` and changes
   * no other cell; on a board with alternating turns, the turn passes to
   * the other player and the turns keep alternating.
   */
  lemma ResultMarksOneCell(b: Board, a: Action)
    requires IsBoard(b) && InRange(a) && b[a.0][a.1] == Empty
    ensures Result(b, a).board[a.0][a.1] == ToMove(b)
    ensures forall i, j :: 0 <= i < 3 && 0 <= j < 3 && (i, j) != a ==> Result(b, a).board[i][j] == b[i][j]
    ensures Alternating(b) ==> Alternating(Result(b, a).board) && ToMove(Result(b, a).board) == Opponent(ToMove(b))
  {
    MarkCounts(b, a, ToMove(b));
  }

  // ---- winning lines and the end of the game -------------------------------

  /** The eight winning lines: three rows, three columns, two diagonals. */
  function Line(k: nat): (line: seq<Action>)
    requires k < 8
    ensures |line| == 3 && forall m :: 0 <= m < 3 ==> InRange(line[m])
  {
    if k == 0 then [(0, 0), (0, 1), (0, 2)]
    else if k == 1 then [(1, 0), (1, 1), (1, 2)]
    else if k == 2 then [(2, 0), (2, 1), (2, 2)]
    else if k == 3 then [(0, 0), (1, 0), (2, 0)]
    else if k == 4 then [(0, 1), (1, 1), (2, 1)]
    else if k == 5 then [(0, 2), (1, 2), (2, 2)]
    else if k == 6 then [(0, 0), (1, 1), (2, 2)]
    else [(0, 2), (1, 1), (2, 0)]
  }

  /** All three cells of winning line `k` hold `s`. */
  predicate LineHolds(b: Board, k: nat, s: Cell)
    requires IsBoard(b) && k < 8
  {
    var line := Line(k);
    b[line[0].0][line[0].1] == s && b[line[1].0][line[1].1] == s && b[line[2].0][line[2].1] == s
  }

  /** The owner of the first line, from line `k` on, whose cells all hold the same mark. */
  function WinnerFrom(b: Board, k: nat): Cell
    requires IsBoard(b) && k <= 8
    decreases 8 - k
  {
    if k == 8 then Empty
    else
      var line := Line(k);
      var first := b[line[0].0][line[0].1];
      if first != Empty && LineHolds(b, k, first) then first
      else WinnerFrom(b, k + 1)
  }

  /** The scan from line `k` finds a mark exactly when one of the lines from `k` on is filled with it. */
  lemma {:induction false} WinnerFromOwnsLine(b: Board, k: nat)
    requires IsBoard(b) && k <= 8
    ensures WinnerFrom(b, k) != Empty ==> exists l :: k <= l < 8 && LineHolds(b, l, WinnerFrom(b, k))
    ensures WinnerFrom(b, k) == Empty <==> forall l, s :: k <= l < 8 && s != Empty ==> !LineHolds(b, l, s)
    decreases 8 - k
  {
    if k < 8 {
      WinnerFromOwnsLine(b, k + 1);
    }
  }

  /** The line the scan from `k` takes its mark from is the first filled line from `k` on. */
  lemma {:induction false} WinnerFromFirstLine(b: Board, k: nat)
    requires IsBoard(b) && k <= 8
    ensures WinnerFrom(b, k) != Empty ==>
              exists l :: k <= l < 8 && LineHolds(b, l, WinnerFrom(b, k)) && FirstFilled(b, k, l)
    decreases 8 - k
  {
    var w := WinnerFrom(b, k);
    if k < 8 && w != Empty {
      ScanStep(b, k);
      if LineHolds(b, k, w) {
        assert FirstFilled(b, k, k);
      } else {
        assert w == WinnerFrom(b, k + 1);
        WinnerFromFirstLine(b, k + 1);
        var l :| k + 1 <= l < 8 && LineHolds(b, l, w) && FirstFilled(b, k + 1, l);
        FirstFilledStep(b, k, l);
      }
    }
  }

  /** Lines before `l` stay unfilled when one more unfilled line, `k`, is put in front. */
  lemma FirstFilledStep(b: Board, k: nat, l: nat)
    requires IsBoard(b) && k < l <= 8 && FirstFilled(b, k + 1, l)
    requires forall s :: s != Empty ==> !LineHolds(b, k, s)
    ensures FirstFilled(b, k, l)
  {
    forall m, s | k <= m < l && s != Empty ensures !LineHolds(b, m, s) {
      if m != k {
        assert k + 1 <= m < l;
      }
    }
  }

  /**
   * One step of the scan: a line filled with a mark stops it with that
   * mark, and a line filled with neither mark passes it on.
   */
  lemma ScanStep(b: Board, k: nat)
    requires IsBoard(b) && k < 8
    ensures forall s :: s != Empty && LineHolds(b, k, s) ==> WinnerFrom(b, k) == s
    ensures WinnerFrom(b, k) != Empty && !LineHolds(b, k, WinnerFrom(b, k)) ==>
              WinnerFrom(b, k) == WinnerFrom(b, k + 1) && forall s :: s != Empty ==> !LineHolds(b, k, s)
  {
  }

  /** No line from `k` up to, but not including, `l` is filled with X or with O. */
  ghost predicate FirstFilled(b: Board, k: nat, l: nat)
    requires IsBoard(b) && l <= 8
  {
    forall m, s :: k <= m < l && s != Empty ==> !LineHolds(b, m, s)
  }

  /**
   * The winner: the mark filling the first of the eight lines, in the
   * listed order, that one mark fills, or nobody when no line is filled
   * with X or with O.
   */
  function Winner(b: Board): (w: Cell)
    requires IsBoard(b)
    ensures w != Empty ==> exists l :: 0 <= l < 8 && LineHolds(b, l, w) && FirstFilled(b, 0, l)
    ensures w == Empty <==> forall l, s :: 0 <= l < 8 && s != Empty ==> !LineHolds(b, l, s)
  {
    WinnerFromOwnsLine(b, 0);
    WinnerFromFirstLine(b, 0);
    WinnerFrom(b, 0)
  }

  /** No cell is empty. */
  predicate Full(b: Board)
    requires IsBoard(b)
  {
    forall i, j :: 0 <= i < 3 && 0 <= j < 3 ==> b[i][j] != Empty
  }

  /** The game is over: someone has won or the board is full. */
  predicate Terminal(b: Board): (over: bool)
    requires IsBoard(b)
    ensures over <==> (exists l, s :: 0 <= l < 8 && s != Empty && LineHolds(b, l, s)) || Full(b)
  {
    Winner(b) != Empty || Full(b)
  }

  /** The game is over exactly when someone has won or no move is left. */
  lemma TerminalIffNoMoves(b: Board)
    requires IsBoard(b)
    ensures Terminal(b) <==> Winner(b) != Empty || ActionsOf(b) == {}
  {
    ActionsAreEmptyCells(b);
    if !Full(b) {
      var i, j :| 0 <= i < 3 && 0 <= j < 3 && b[i][j] == Empty;
      assert (i, j) in ActionsOf(b);
    }
  }

  /** The initial board: X moves first, every cell is a legal move, and the game is not over. */
  lemma InitialStateFacts()
    ensures ToMove(InitialState()) == X
    ensures forall a :: a in ActionsOf(InitialState()) <==> InRange(a)
    ensures !Terminal(InitialState())
  {
    var b := InitialState();
    CountAbsent(b, X);
    CountAbsent(b, O);
    ActionsAreEmptyCells(b);
    assert Winner(b) == Empty;
  }

  /**
   * 1 when X has won, -1 when O has won, 0 for a full board without a
   * winner, and nothing (Python's implicit `None`) while the game goes on.
   */
  function Utility(b: Board): (u: Option<int>)
    requires IsBoard(b)
    ensures u.Some? <==> Terminal(b)
    ensures u == Some(1) <==> Winner(b) == X
    ensures u == Some(-1) <==> Winner(b) == O
    ensures u == Some(0) <==> Full(b) && Winner(b) == Empty
  {
    if Winner(b) == X then Some(1)
    else if Winner(b) == O then Some(-1)
    else if Terminal(b) then Some(0)
    else None
  }

  // ---- minimax values ----------------------------------------------------------

  /** The k-th cell in row-major order. */
  function Position(k: nat): (a: Action)
    requires k < 9
    ensures InRange(a)
  {
    if k < 3 then (0, k) else if k < 6 then (1, k - 3) else (2, k - 6)
  }

  /** Every cell has its place in the row-major order. */
  lemma PositionOf(a: Action)
    requires InRange(a)
    ensures 3 * a.0 + a.1 < 9 && Position(3 * a.0 + a.1) == a
  {
  }

  function Max(x: int, y: int): int {
    if x < y then y else x
  }

  function Min(x: int, y: int): int {
    if x < y then x else y
  }

  /** The largest element of `s`, or -2 (below every value, Python's `-inf`) when there is none. */
  ghost function Largest(s: seq<int>): (m: int)
    ensures forall i :: 0 <= i < |s| ==> s[i] <= m
    ensures s == [] ==> m == -2
    ensures s != [] ==> exists i :: 0 <= i < |s| && m == s[i]
  {
    if s == [] then -2
    else if |s| == 1 then s[0]
    else
      var rest := Largest(s[1..]);
      if s[0] < rest then
        var j :| 0 <= j < |s| - 1 && rest == s[1..][j];
        assert s[j + 1] == rest;
        rest
      else
        assert forall i :: 1 <= i < |s| ==> s[i] == s[1..][i - 1];
        s[0]
  }

  /** The smallest element of `s`, or 2 (above every value, Python's `inf`) when there is none. */
  ghost function Smallest(s: seq<int>): (m: int)
    ensures forall i :: 0 <= i < |s| ==> m <= s[i]
    ensures s == [] ==> m == 2
    ensures s != [] ==> exists i :: 0 <= i < |s| && m == s[i]
  {
    if s == [] then 2
    else if |s| == 1 then s[0]
    else
      var rest := Smallest(s[1..]);
      if rest < s[0] then
        var j :| 0 <= j < |s| - 1 && rest == s[1..][j];
        assert s[j + 1] == rest;
        rest
      else
        assert forall i :: 1 <= i < |s| ==> s[i] == s[1..][i - 1];
        s[0]
  }

  /**
   * The value of the game for X with X to choose on `b`: the utility when
   * the game is over, else the best of the values of the moves.
   */
  ghost function MaxValueOf(b: Board): (v: int)
    requires IsBoard(b) && (Terminal(b) || TurnDefined(b))
    ensures -1 <= v <= 1
    decreases CountOf(b, Empty), 2
  {
    if Terminal(b) then Utility(b).value
    else
      SomeMoveLeft(b);
      var replies := RepliesToMax(b);
      var l :| 0 <= l < 9 && b[Position(l).0][Position(l).1] == Empty;
      assert -1 <= replies[l] <= 1;
      Largest(replies)
  }

  /** The value for O to choose on `b`: dual to `MaxValueOf`. */
  ghost function MinValueOf(b: Board): (v: int)
    requires IsBoard(b) && (Terminal(b) || TurnDefined(b))
    ensures -1 <= v <= 1
    decreases CountOf(b, Empty), 2
  {
    if Terminal(b) then Utility(b).value
    else
      SomeMoveLeft(b);
      var replies := RepliesToMin(b);
      var l :| 0 <= l < 9 && b[Position(l).0][Position(l).1] == Empty;
      assert -1 <= replies[l] <= 1;
      Smallest(replies)
  }

  /** A board where the game goes on has an empty cell. */
  lemma SomeMoveLeft(b: Board)
    requires IsBoard(b) && !Terminal(b)
    ensures exists l :: 0 <= l < 9 && b[Position(l).0][Position(l).1] == Empty
  {
    var i, j :| 0 <= i < 3 && 0 <= j < 3 && b[i][j] == Empty;
    PositionOf((i, j));
  }

  /** What X gets from taking cell `a`: O's value after the move, or -2 when the cell is taken. */
  ghost function ReplyToMax(b: Board, a: Action): (v: int)
    requires IsBoard(b) && TurnDefined(b) && InRange(a)
    ensures -2 <= v <= 1
    ensures v == -2 <==> b[a.0][a.1] != Empty
    decreases CountOf(b, Empty), 0
  {
    if b[a.0][a.1] == Empty then MinValueOf(Result(b, a).board) else -2
  }

  /** What O gets from taking cell `a`: X's value after the move, or 2 when the cell is taken. */
  ghost function ReplyToMin(b: Board, a: Action): (v: int)
    requires IsBoard(b) && TurnDefined(b) && InRange(a)
    ensures -1 <= v <= 2
    ensures v == 2 <==> b[a.0][a.1] != Empty
    decreases CountOf(b, Empty), 0
  {
    if b[a.0][a.1] == Empty then MaxValueOf(Result(b, a).board) else 2
  }

  /** The replies to X at the nine cells in row-major order. */
  ghost function RepliesToMax(b: Board): (s: seq<int>)
    requires IsBoard(b) && TurnDefined(b)
    ensures |s| == 9 && forall l :: 0 <= l < 9 ==> s[l] == ReplyToMax(b, Position(l))
    decreases CountOf(b, Empty), 1
  {
    seq(9, l requires 0 <= l < 9 => ReplyToMax(b, Position(l)))
  }

  /** The replies to O at the nine cells in row-major order. */
  ghost function RepliesToMin(b: Board): (s: seq<int>)
    requires IsBoard(b) && TurnDefined(b)
    ensures |s| == 9 && forall l :: 0 <= l < 9 ==> s[l] == ReplyToMin(b, Position(l))
    decreases CountOf(b, Empty), 1
  {
    seq(9, l requires 0 <= l < 9 => ReplyToMin(b, Position(l)))
  }

  /**
   * On a board where the game goes on, X's value is at least the value of
   * every move, and some move reaches it.
   */
  lemma MaxValueIsBestMove(b: Board)
    requires IsBoard(b) && TurnDefined(b) && !Terminal(b)
    ensures forall a :: a in ActionsOf(b) ==> InRange(a) && ReplyToMax(b, a) <= MaxValueOf(b)
    ensures exists a :: a in ActionsOf(b) && InRange(a) && MaxValueOf(b) == ReplyToMax(b, a)
  {
    ActionsAreEmptyCells(b);
    var replies := RepliesToMax(b);
    assert MaxValueOf(b) == Largest(replies);
    forall a | a in ActionsOf(b) ensures ReplyToMax(b, a) <= MaxValueOf(b) {
      PositionOf(a);
      assert replies[3 * a.0 + a.1] == ReplyToMax(b, a);
    }
    var l :| 0 <= l < 9 && Largest(replies) == replies[l];
    assert Position(l) in ActionsOf(b);
  }

  /**
   * On a board where the game goes on, O's value is at most the value of
   * every move, and some move reaches it.
   */
  lemma MinValueIsBestMove(b: Board)
    requires IsBoard(b) && TurnDefined(b) && !Terminal(b)
    ensures forall a :: a in ActionsOf(b) ==> InRange(a) && MinValueOf(b) <= ReplyToMin(b, a)
    ensures exists a :: a in ActionsOf(b) && InRange(a) && MinValueOf(b) == ReplyToMin(b, a)
  {
    ActionsAreEmptyCells(b);
    var replies := RepliesToMin(b);
    assert MinValueOf(b) == Smallest(replies);
    forall a | a in ActionsOf(b) ensures MinValueOf(b) <= ReplyToMin(b, a) {
      PositionOf(a);
      assert replies[3 * a.0 + a.1] == ReplyToMin(b, a);
    }
    var l :| 0 <= l < 9 && Smallest(replies) == replies[l];
    assert Position(l) in ActionsOf(b);
  }

  /** The reply to X for each move. */
  ghost function MaxReplies(b: Board): map<Action, int>
    requires IsBoard(b) && TurnDefined(b)
  {
    map a | a in ActionsOf(b) && InRange(a) :: ReplyToMax(b, a)
  }

  /** The reply to O for each move. */
  ghost function MinReplies(b: Board): map<Action, int>
    requires IsBoard(b) && TurnDefined(b)
  {
    map a | a in ActionsOf(b) && InRange(a) :: ReplyToMin(b, a)
  }

  /**
   * After trying every move except those in `untried`, `v` is the largest
   * reply so far, or -2 before the first move.
   */
  ghost predicate LargestSoFar(replies: map<Action, int>, untried: set<Action>, v: int) {
    && untried <= replies.Keys
    && (forall a :: a in replies && a !in untried ==> replies[a] <= v)
    && (untried == replies.Keys ==> v == -2)
    && (untried != replies.Keys ==> exists a :: a in replies && a !in untried && v == replies[a])
  }

  /** After trying every move except those in `untried`, `v` is the smallest reply so far, or 2. */
  ghost predicate SmallestSoFar(replies: map<Action, int>, untried: set<Action>, v: int) {
    && untried <= replies.Keys
    && (forall a :: a in replies && a !in untried ==> v <= replies[a])
    && (untried == replies.Keys ==> v == 2)
    && (untried != replies.Keys ==> exists a :: a in replies && a !in untried && v == replies[a])
  }

  /**
   * After trying every move except those in `untried`, `move` is the last
   * tried move whose reply equals `target`, or nothing if none did.
   */
  ghost predicate LastMatch(replies: map<Action, int>, untried: set<Action>, move: Option<Action>, target: int) {
    && untried <= replies.Keys
    && (move.Some? ==> move.value in replies && move.value !in untried && replies[move.value] == target)
    && (move.None? ==> forall a :: a in replies && a !in untried ==> replies[a] != target)
  }

  lemma LargestSoFarStep(replies: map<Action, int>, untried: set<Action>, v: int, a: Action)
    requires LargestSoFar(replies, untried, v) && a in untried && -2 <= replies[a]
    ensures LargestSoFar(replies, untried - {a}, Max(v, replies[a]))
  {
    if untried != replies.Keys {
      var w :| w in replies && w !in untried && v == replies[w];
    }
  }

  lemma SmallestSoFarStep(replies: map<Action, int>, untried: set<Action>, v: int, a: Action)
    requires SmallestSoFar(replies, untried, v) && a in untried && replies[a] <= 2
    ensures SmallestSoFar(replies, untried - {a}, Min(v, replies[a]))
  {
    if untried != replies.Keys {
      var w :| w in replies && w !in untried && v == replies[w];
    }
  }

  lemma LastMatchStep(replies: map<Action, int>, untried: set<Action>, move: Option<Action>, target: int, a: Action)
    requires LastMatch(replies, untried, move, target) && a in untried
    ensures LastMatch(replies, untried - {a}, if replies[a] == target then Some(a) else move, target)
  {
  }

  /** The moves of the board are the keys of its reply tables. */
  lemma RepliesCoverActions(b: Board)
    requires IsBoard(b) && TurnDefined(b)
    ensures MaxReplies(b).Keys == ActionsOf(b) && MinReplies(b).Keys == ActionsOf(b)
  {
    ActionsAreEmptyCells(b);
  }

  /** X's value bounds every entry of the reply table and is one of them. */
  lemma MaxValueInReplies(b: Board)
    requires IsBoard(b) && TurnDefined(b) && !Terminal(b)
    ensures forall a :: a in MaxReplies(b) ==> MaxReplies(b)[a] <= MaxValueOf(b)
    ensures exists a :: a in MaxReplies(b) && MaxReplies(b)[a] == MaxValueOf(b)
  {
    var replies := MaxReplies(b);
    MaxValueIsBestMove(b);
    var best :| best in ActionsOf(b) && InRange(best) && MaxValueOf(b) == ReplyToMax(b, best);
    assert replies[best] == MaxValueOf(b);
  }

  /** O's value is below every entry of the reply table and is one of them. */
  lemma MinValueInReplies(b: Board)
    requires IsBoard(b) && TurnDefined(b) && !Terminal(b)
    ensures forall a :: a in MinReplies(b) ==> MinValueOf(b) <= MinReplies(b)[a]
    ensures exists a :: a in MinReplies(b) && MinReplies(b)[a] == MinValueOf(b)
  {
    var replies := MinReplies(b);
    MinValueIsBestMove(b);
    var best :| best in ActionsOf(b) && InRange(best) && MinValueOf(b) == ReplyToMin(b, best);
    assert replies[best] == MinValueOf(b);
  }

  /** Two numbers that both bound every reply and equal one of them are the same. */
  lemma LargestUnique(replies: map<Action, int>, v: int, w: int)
    requires LargestSoFar(replies, {}, v)
    requires forall a :: a in replies ==> replies[a] <= w
    requires exists a :: a in replies && replies[a] == w
    ensures v == w
  {
  }

  lemma SmallestUnique(replies: map<Action, int>, v: int, w: int)
    requires SmallestSoFar(replies, {}, v)
    requires forall a :: a in replies ==> w <= replies[a]
    requires exists a :: a in replies && replies[a] == w
    ensures v == w
  {
  }

  /** Once every move is tried, the largest reply is X's value. */
  lemma LargestIsMaxValue(b: Board, v: int)
    requires IsBoard(b) && TurnDefined(b) && !Terminal(b) && LargestSoFar(MaxReplies(b), {}, v)
    ensures v == MaxValueOf(b)
  {
    MaxValueInReplies(b);
    LargestUnique(MaxReplies(b), v, MaxValueOf(b));
  }

  /** Once every move is tried, the smallest reply is O's value. */
  lemma SmallestIsMinValue(b: Board, v: int)
    requires IsBoard(b) && TurnDefined(b) && !Terminal(b) && SmallestSoFar(MinReplies(b), {}, v)
    ensures v == MinValueOf(b)
  {
    MinValueInReplies(b);
    SmallestUnique(MinReplies(b), v, MinValueOf(b));
  }

  /** Once every move is tried, X has chosen a move, since an optimal move exists. */
  lemma MaxMatchFound(b: Board, move: Option<Action>)
    requires IsBoard(b) && TurnDefined(b) && !Terminal(b) && LastMatch(MaxReplies(b), {}, move, MaxValueOf(b))
    ensures move.Some? && move.value in ActionsOf(b) && InRange(move.value) && b[move.value.0][move.value.1] == Empty
    ensures MinValueOf(Result(b, move.value).board) == MaxValueOf(b)
  {
    MaxValueInReplies(b);
    ActionsAreEmptyCells(b);
    assert MaxReplies(b)[move.value] == ReplyToMax(b, move.value);
  }

  /** Once every move is tried, O has chosen a move. */
  lemma MinMatchFound(b: Board, move: Option<Action>)
    requires IsBoard(b) && TurnDefined(b) && !Terminal(b) && LastMatch(MinReplies(b), {}, move, MinValueOf(b))
    ensures move.Some? && move.value in ActionsOf(b) && InRange(move.value) && b[move.value.0][move.value.1] == Empty
    ensures MaxValueOf(Result(b, move.value).board) == MinValueOf(b)
  {
    MinValueInReplies(b);
    ActionsAreEmptyCells(b);
    assert MinReplies(b)[move.value] == ReplyToMin(b, move.value);
  }

  // ---- the search ----------------------------------------------------------------

  /**
   * X's value on `b`, trying every move in whatever order the set of moves
   * yields them, as `max_value` does.
   */
  method MaxValue(b: Board) returns (v: int)
    requires IsBoard(b) && (Terminal(b) || TurnDefined(b))
    ensures v == MaxValueOf(b)
    ensures -1 <= v <= 1
    ensures Terminal(b) ==> v == Utility(b).value
    decreases CountOf(b, Empty)
  {
    if Terminal(b) {
      return Utility(b).value;
    }
    ActionsAreEmptyCells(b);
    v := -2;
    var actions := Actions(b);
    ghost var replies := MaxReplies(b);
    RepliesCoverActions(b);
    while actions != {}
      invariant LargestSoFar(replies, actions, v)
      decreases actions
    {
      var action :| action in actions;
      var reply := MinValue(Result(b, action).board);
      assert reply == replies[action];
      LargestSoFarStep(replies, actions, v, action);
      v := Max(v, reply);
      actions := actions - {action};
    }
    LargestIsMaxValue(b, v);
  }

  /** O's value on `b`: dual to `MaxValue`, as `min_value` computes it. */
  method MinValue(b: Board) returns (v: int)
    requires IsBoard(b) && (Terminal(b) || TurnDefined(b))
    ensures v == MinValueOf(b)
    ensures -1 <= v <= 1
    ensures Terminal(b) ==> v == Utility(b).value
    decreases CountOf(b, Empty)
  {
    if Terminal(b) {
      return Utility(b).value;
    }
    ActionsAreEmptyCells(b);
    v := 2;
    var actions := Actions(b);
    ghost var replies := MinReplies(b);
    RepliesCoverActions(b);
    while actions != {}
      invariant SmallestSoFar(replies, actions, v)
      decreases actions
    {
      var action :| action in actions;
      var reply := MaxValue(Result(b, action).board);
      assert reply == replies[action];
      SmallestSoFarStep(replies, actions, v, action);
      v := Min(v, reply);
      actions := actions - {action};
    }
    SmallestIsMinValue(b, v);
  }

  /**
   * An optimal move for the player to move, or nothing when the game is
   * over: X takes a move whose value for O equals X's value of the board,
   * O a move whose value for X equals O's value. When several moves
   * qualify, the last one tried is kept, as in `minimax`.
   */
  method Minimax(b: Board) returns (move: Option<Action>)
    requires IsBoard(b) && (Terminal(b) || TurnDefined(b))
    ensures move.None? <==> Terminal(b)
    ensures move.Some? ==> move.value in ActionsOf(b) && InRange(move.value) && b[move.value.0][move.value.1] == Empty
    ensures move.Some? && ToMove(b) == X ==> MinValueOf(Result(b, move.value).board) == MaxValueOf(b)
    ensures move.Some? && ToMove(b) == O ==> MaxValueOf(Result(b, move.value).board) == MinValueOf(b)
  {
    if Terminal(b) {
      return None;
    }
    ActionsAreEmptyCells(b);
    RepliesCoverActions(b);
    var player := Player(b);
    var bestMove: Option<Action> := None;
    var actions := Actions(b);
    if player == X {
      ghost var replies := MaxReplies(b);
      while actions != {}
        invariant LastMatch(replies, actions, bestMove, MaxValueOf(b))
        decreases actions
      {
        var action :| action in actions;
        var best := MaxValue(b);
        var reply := MinValue(Result(b, action).board);
        assert reply == replies[action];
        LastMatchStep(replies, actions, bestMove, MaxValueOf(b), action);
        if best == reply {
          bestMove := Some(action);
        }
        actions := actions - {action};
      }
      MaxMatchFound(b, bestMove);
    } else {
      ghost var replies := MinReplies(b);
      while actions != {}
        invariant LastMatch(replies, actions, bestMove, MinValueOf(b))
        decreases actions
      {
        var action :| action in actions;
        var best := MinValue(b);
        var reply := MaxValue(Result(b, action).board);
        assert reply == replies[action];
        LastMatchStep(replies, actions, bestMove, MinValueOf(b), action);
        if best == reply {
          bestMove := Some(action);
        }
        actions := actions - {action};
      }
      MinMatchFound(b, bestMove);
    }
    return bestMove;
  }
}
