/**
 * algorithm.js: the heuristic engine.  A position is a 6 x 7 grid of cells
 * stored row by row, row 0 being the top row; a cell holds EMPTY, the
 * player's piece or the wizard's piece.  Positions are scored by weighing
 * every window of four cells in a line, and `minimax` searches a few plies
 * deep with alpha-beta pruning, the player maximising and the wizard
 * minimising.
 *
 * The engine allocates a fresh 2-D array for every position it creates and
 * never writes into a position it was given; here a position is an
 * `array2<int>`, and its contents as a value (`View`) is what the
 * specification functions talk about.
 */
module Heuristic {
  import opened Util

  const ROW_COUNT: int := 6
  const COLUMN_COUNT: int := 7
  const PLAYER_PIECE: int := 1
  const WIZARD_PIECE: int := 2
  const EMPTY: int := 0
  const TIE: int := -1

  /** The contents of a position: rows of cells, top row first. */
  type Grid = seq<seq<int>>

  predicate Shaped(g: Grid)
  {
    |g| == ROW_COUNT && forall r :: 0 <= r < |g| ==> |g[r]| == COLUMN_COUNT
  }

  predicate IsBoard(b: array2<int>)
  {
    b.Length0 == ROW_COUNT && b.Length1 == COLUMN_COUNT
  }

  /** The contents of an array position. */
  ghost function View(b: array2<int>): (g: Grid)
    reads b
    ensures |g| == b.Length0
    ensures forall r :: 0 <= r < |g| ==> |g[r]| == b.Length1
    ensures forall r, c :: 0 <= r < b.Length0 && 0 <= c < b.Length1 ==> g[r][c] == b[r, c]
  {
    seq(b.Length0, r requires 0 <= r < b.Length0 reads b =>
      seq(b.Length1, c requires 0 <= c < b.Length1 reads b => b[r, c]))
  }

  /** Every cell holds EMPTY or one of the two pieces. */
  predicate Pieces(g: Grid)
    requires Shaped(g)
  {
    forall r, c :: 0 <= r < ROW_COUNT && 0 <= c < COLUMN_COUNT ==>
      g[r][c] == EMPTY || g[r][c] == PLAYER_PIECE || g[r][c] == WIZARD_PIECE
  }

  // ---------------------------------------------------------------------
  // Sequences of sequences.
  // ---------------------------------------------------------------------

  /** The lists of `xss` one after the other. */
  function Concat<T>(xss: seq<seq<T>>): seq<T>
  {
    if xss == [] then [] else Concat(xss[..|xss| - 1]) + xss[|xss| - 1]
  }

  lemma ConcatSnoc<T>(xss: seq<seq<T>>, k: nat)
    requires k < |xss|
    ensures Concat(xss[..k + 1]) == Concat(xss[..k]) + xss[k]
  {
    assert xss[..k + 1][..k] == xss[..k];
  }

  lemma {:induction false} ConcatLength<T>(xss: seq<seq<T>>, k: nat)
    requires forall i :: 0 <= i < |xss| ==> |xss[i]| == k
    ensures |Concat(xss)| == |xss| * k
  {
    if xss != [] {
      var n := |xss| - 1;
      ConcatLength(xss[..n], k);
      assert |Concat(xss)| == n * k + k;
      assert n * k + k == |xss| * k;
    }
  }

  // ---------------------------------------------------------------------
  // count and evaluateWindow.
  // ---------------------------------------------------------------------

  /** `count(window, piece)`: the number of entries of the window equal to the piece. */
  method Count(window: seq<int>, piece: int) returns (n: nat)
    ensures n == multiset(window)[piece]
    ensures n <= |window|
  {
    n := 0;
    for i := 0 to |window|
      invariant n == multiset(window[..i])[piece]
      invariant n <= i
    {
      assert window[..i + 1] == window[..i] + [window[i]];
      if window[i] == piece {
        n := n + 1;
      }
    }
    assert window[..|window|] == window;
  }

  function Opponent(piece: int): int
  {
    if piece == PLAYER_PIECE then WIZARD_PIECE else PLAYER_PIECE
  }

  /**
   * The weight of one window for `piece`: 100 for four own pieces, 5 for three
   * and an empty cell, 2 for two and two empty cells; 4 less when the opponent
   * has three and the fourth cell is empty.
   */
  function WindowScore(w: seq<int>, piece: int): int
  {
    var own := multiset(w)[piece];
    var opponent := multiset(w)[Opponent(piece)];
    var empty := multiset(w)[EMPTY];
    (if own == 4 then 100
     else if own == 3 && empty == 1 then 5
     else if own == 2 && empty == 2 then 2
     else 0)
    + (if opponent == 3 && empty == 1 then -4 else 0)
  }

  method EvaluateWindow(window: seq<int>, piece: int) returns (score: int)
    ensures score == WindowScore(window, piece)
  {
    score := 0;
    var opponentPiece := if piece == PLAYER_PIECE then WIZARD_PIECE else PLAYER_PIECE;
    var countPiece := Count(window, piece);
    var countOpponent := Count(window, opponentPiece);
    var countEmpty := Count(window, EMPTY);
    if countPiece == 4 {
      score := score + 100;
    } else if countPiece == 3 && countEmpty == 1 {
      score := score + 5;
    } else if countPiece == 2 && countEmpty == 2 {
      score := score + 2;
    }
    if countOpponent == 3 && countEmpty == 1 {
      score := score - 4;
    }
  }

  /** Three distinct values occur at most |w| times between them. */
  lemma {:induction false} ThreeCounts(w: seq<int>, a: int, b: int, c: int)
    requires a != b && b != c && a != c
    ensures multiset(w)[a] + multiset(w)[b] + multiset(w)[c] <= |w|
  {
    if w != [] {
      var n := |w| - 1;
      ThreeCounts(w[..n], a, b, c);
      assert w == w[..n] + [w[n]];
    }
  }

  /**
   * On a window of four cells the weight is one of 100, 5, 2, 0 and -4, each
   * case occurring exactly in the situation its comment names.
   */
  lemma WindowScoreCases(w: seq<int>, piece: int)
    requires |w| == 4
    requires piece == PLAYER_PIECE || piece == WIZARD_PIECE
    ensures var own, opponent, empty := multiset(w)[piece], multiset(w)[Opponent(piece)], multiset(w)[EMPTY];
      && (WindowScore(w, piece) == 100 <==> own == 4)
      && (WindowScore(w, piece) == 5 <==> own == 3 && empty == 1)
      && (WindowScore(w, piece) == 2 <==> own == 2 && empty == 2)
      && (WindowScore(w, piece) == -4 <==> opponent == 3 && empty == 1)
      && (WindowScore(w, piece) == 0 <==> !(own == 4 || (own == 3 && empty == 1) || (own == 2 && empty == 2) || (opponent == 3 && empty == 1)))
  {
    ThreeCounts(w, piece, Opponent(piece), EMPTY);
  }

  // ---------------------------------------------------------------------
  // score: the windows of a position.
  // ---------------------------------------------------------------------

  /** Column `c` read from top to bottom (`board.map((row) => row[c])`). */
  function ColumnOf(g: Grid, c: int): (cells: seq<int>)
    requires Shaped(g) && 0 <= c < COLUMN_COUNT
    ensures |cells| == ROW_COUNT
  {
    seq(ROW_COUNT, r requires 0 <= r < ROW_COUNT => g[r][c])
  }

  function HorizontalWindow(g: Grid, r: int, c: int): seq<int>
    requires Shaped(g) && 0 <= r < ROW_COUNT && 0 <= c <= COLUMN_COUNT - 4
  {
    g[r][c..c + 4]
  }

  function VerticalWindow(g: Grid, r: int, c: int): seq<int>
    requires Shaped(g) && 0 <= r <= ROW_COUNT - 4 && 0 <= c < COLUMN_COUNT
  {
    ColumnOf(g, c)[r..r + 4]
  }

  /** Down and to the right from (r, c). */
  function PositiveWindow(g: Grid, r: int, c: int): seq<int>
    requires Shaped(g) && 0 <= r <= ROW_COUNT - 4 && 0 <= c <= COLUMN_COUNT - 4
  {
    seq(4, i requires 0 <= i < 4 => g[r + i][c + i])
  }

  /** Up and to the right from (r + 3, c). */
  function NegativeWindow(g: Grid, r: int, c: int): seq<int>
    requires Shaped(g) && 0 <= r <= ROW_COUNT - 4 && 0 <= c <= COLUMN_COUNT - 4
  {
    seq(4, i requires 0 <= i < 4 => g[r + 3 - i][c + i])
  }

  function RowWindows(g: Grid, r: int): seq<seq<int>>
    requires Shaped(g) && 0 <= r < ROW_COUNT
  {
    seq(COLUMN_COUNT - 3, c requires 0 <= c < COLUMN_COUNT - 3 => HorizontalWindow(g, r, c))
  }

  function ColumnWindows(g: Grid, c: int): seq<seq<int>>
    requires Shaped(g) && 0 <= c < COLUMN_COUNT
  {
    seq(ROW_COUNT - 3, r requires 0 <= r < ROW_COUNT - 3 => VerticalWindow(g, r, c))
  }

  /** The two diagonal windows of the square whose top-left corner is (r, c). */
  function DiagonalPair(g: Grid, r: int, c: int): seq<seq<int>>
    requires Shaped(g) && 0 <= r <= ROW_COUNT - 4 && 0 <= c <= COLUMN_COUNT - 4
  {
    [PositiveWindow(g, r, c), NegativeWindow(g, r, c)]
  }

  function DiagonalRow(g: Grid, r: int): seq<seq<seq<int>>>
    requires Shaped(g) && 0 <= r < ROW_COUNT - 3
  {
    seq(COLUMN_COUNT - 3, c requires 0 <= c < COLUMN_COUNT - 3 => DiagonalPair(g, r, c))
  }

  function Horizontals(g: Grid): seq<seq<seq<int>>>
    requires Shaped(g)
  {
    seq(ROW_COUNT, r requires 0 <= r < ROW_COUNT => RowWindows(g, r))
  }

  function Verticals(g: Grid): seq<seq<seq<int>>>
    requires Shaped(g)
  {
    seq(COLUMN_COUNT, c requires 0 <= c < COLUMN_COUNT => ColumnWindows(g, c))
  }

  function Diagonals(g: Grid): seq<seq<seq<int>>>
    requires Shaped(g)
  {
    seq(ROW_COUNT - 3, r requires 0 <= r < ROW_COUNT - 3 => Concat(DiagonalRow(g, r)))
  }

  /** Every window of four cells in a line, in the order `score` visits them. */
  function Windows(g: Grid): seq<seq<int>>
    requires Shaped(g)
  {
    Concat(Horizontals(g)) + Concat(Verticals(g)) + Concat(Diagonals(g))
  }

  function SumScores(ws: seq<seq<int>>, piece: int): int
  {
    if ws == [] then 0 else SumScores(ws[..|ws| - 1], piece) + WindowScore(ws[|ws| - 1], piece)
  }

  lemma {:induction false} SumScoresAppend(a: seq<seq<int>>, b: seq<seq<int>>, piece: int)
    ensures SumScores(a + b, piece) == SumScores(a, piece) + SumScores(b, piece)
  {
    if b != [] {
      var n := |b| - 1;
      assert (a + b)[..|a + b| - 1] == a + b[..n];
      assert (a + b)[|a + b| - 1] == b[n];
      SumScoresAppend(a, b[..n], piece);
    } else {
      assert a + b == a;
    }
  }

  /**
   * `score(board, piece)`: three points per own piece in the centre column,
   * plus the weight of every window.
   */
  function ScoreOf(g: Grid, piece: int): int
    requires Shaped(g)
  {
    3 * multiset(ColumnOf(g, COLUMN_COUNT / 2))[piece] + SumScores(Windows(g), piece)
  }

  lemma SumScoresSnoc(ws: seq<seq<int>>, w: seq<int>, piece: int)
    ensures SumScores(ws + [w], piece) == SumScores(ws, piece) + WindowScore(w, piece)
  {
    assert (ws + [w])[..|ws|] == ws;
  }

  lemma {:induction false} SumScoresRange(ws: seq<seq<int>>, piece: int)
    ensures -4 * |ws| <= SumScores(ws, piece) <= 100 * |ws|
  {
    if ws != [] {
      SumScoresRange(ws[..|ws| - 1], piece);
    }
  }

  /** `score` looks at 69 windows: 24 across, 21 down and 24 diagonal. */
  lemma WindowCount(g: Grid)
    requires Shaped(g)
    ensures |Concat(Horizontals(g))| == 24 && |Concat(Verticals(g))| == 21 && |Concat(Diagonals(g))| == 24
    ensures |Windows(g)| == 69
  {
    ConcatLength(Horizontals(g), COLUMN_COUNT - 3);
    ConcatLength(Verticals(g), ROW_COUNT - 3);
    forall r | 0 <= r < ROW_COUNT - 3
      ensures |Diagonals(g)[r]| == 8
    {
      ConcatLength(DiagonalRow(g, r), 2);
    }
    ConcatLength(Diagonals(g), 8);
  }

  /**
   * A heuristic score stays far below the 999999 that `minimax` gives a win,
   * so every win outranks every undecided position.
   */
  lemma ScoreRange(g: Grid, piece: int)
    requires Shaped(g)
    ensures -276 <= ScoreOf(g, piece) <= 6918
  {
    WindowCount(g);
    SumScoresRange(Windows(g), piece);
    var center := ColumnOf(g, COLUMN_COUNT / 2);
    assert multiset(center)[piece] <= |multiset(center)| == 6;
  }

  /** `board.map((row) => row[c])`. */
  method Column(board: array2<int>, c: int) returns (cells: seq<int>)
    requires IsBoard(board) && 0 <= c < COLUMN_COUNT
    ensures cells == ColumnOf(View(board), c)
  {
    cells := seq(ROW_COUNT, r requires 0 <= r < ROW_COUNT reads board => board[r, c]);
  }

  method Score(board: array2<int>, piece: int) returns (score: int)
    requires IsBoard(board)
    ensures score == ScoreOf(View(board), piece)
  {
    ghost var g := View(board);
    var center := Column(board, COLUMN_COUNT / 2);
    var n := Count(center, piece);
    score := n * 3;
    score := ScoreHorizontal(board, piece, score);
    score := ScoreVertical(board, piece, score);
    score := ScoreDiagonal(board, piece, score);
    SumScoresAppend(Concat(Horizontals(g)), Concat(Verticals(g)), piece);
    SumScoresAppend(Concat(Horizontals(g)) + Concat(Verticals(g)), Concat(Diagonals(g)), piece);
  }

  /** The horizontal windows of `score`, added to `score0`. */
  method ScoreHorizontal(board: array2<int>, piece: int, score0: int) returns (score: int)
    requires IsBoard(board)
    ensures score == score0 + SumScores(Concat(Horizontals(View(board))), piece)
  {
    ghost var g := View(board);
    ghost var hs := Horizontals(g);
    score := score0;
    for row := 0 to ROW_COUNT
      invariant score == score0 + SumScores(Concat(hs[..row]), piece)
    {
      var s := ScoreRow(board, piece, row);
      assert hs[row] == RowWindows(g, row);
      score := score + s;
      ConcatSnoc(hs, row);
      SumScoresAppend(Concat(hs[..row]), hs[row], piece);
    }
    assert hs[..ROW_COUNT] == hs;
  }

  /** The inner horizontal loop: the windows of one row, left to right. */
  method ScoreRow(board: array2<int>, piece: int, row: int) returns (score: int)
    requires IsBoard(board) && 0 <= row < ROW_COUNT
    ensures score == SumScores(RowWindows(View(board), row), piece)
  {
    ghost var ws := RowWindows(View(board), row);
    var rowArray := seq(COLUMN_COUNT, c requires 0 <= c < COLUMN_COUNT reads board => board[row, c]);
    assert rowArray == View(board)[row];
    score := 0;
    for col := 0 to COLUMN_COUNT - 3
      invariant score == SumScores(ws[..col], piece)
    {
      var window := rowArray[col..col + 4];
      var s := EvaluateWindow(window, piece);
      assert window == ws[col];
      assert ws[..col + 1] == ws[..col] + [window];
      SumScoresSnoc(ws[..col], window, piece);
      score := score + s;
    }
    assert ws[..COLUMN_COUNT - 3] == ws;
  }

  /** The vertical windows of `score`, added to `score0`. */
  method ScoreVertical(board: array2<int>, piece: int, score0: int) returns (score: int)
    requires IsBoard(board)
    ensures score == score0 + SumScores(Concat(Verticals(View(board))), piece)
  {
    ghost var g := View(board);
    ghost var vs := Verticals(g);
    score := score0;
    for col := 0 to COLUMN_COUNT
      invariant score == score0 + SumScores(Concat(vs[..col]), piece)
    {
      var s := ScoreColumn(board, piece, col);
      assert vs[col] == ColumnWindows(g, col);
      score := score + s;
      ConcatSnoc(vs, col);
      SumScoresAppend(Concat(vs[..col]), vs[col], piece);
    }
    assert vs[..COLUMN_COUNT] == vs;
  }

  /** The inner vertical loop: the windows of one column, top to bottom. */
  method ScoreColumn(board: array2<int>, piece: int, col: int) returns (score: int)
    requires IsBoard(board) && 0 <= col < COLUMN_COUNT
    ensures score == SumScores(ColumnWindows(View(board), col), piece)
  {
    ghost var ws := ColumnWindows(View(board), col);
    var colArray := Column(board, col);
    score := 0;
    for row := 0 to ROW_COUNT - 3
      invariant score == SumScores(ws[..row], piece)
    {
      var window := colArray[row..row + 4];
      var s := EvaluateWindow(window, piece);
      assert window == ws[row];
      assert ws[..row + 1] == ws[..row] + [window];
      SumScoresSnoc(ws[..row], window, piece);
      score := score + s;
    }
    assert ws[..ROW_COUNT - 3] == ws;
  }

  /** The diagonal windows of `score`, added to `score0`. */
  method ScoreDiagonal(board: array2<int>, piece: int, score0: int) returns (score: int)
    requires IsBoard(board)
    ensures score == score0 + SumScores(Concat(Diagonals(View(board))), piece)
  {
    ghost var ds := Diagonals(View(board));
    score := score0;
    for row := 0 to ROW_COUNT - 3
      invariant score == score0 + SumScores(Concat(ds[..row]), piece)
    {
      var s := ScoreDiagonalRow(board, piece, row);
      score := score + s;
      ConcatSnoc(ds, row);
      SumScoresAppend(Concat(ds[..row]), ds[row], piece);
    }
    assert ds[..ROW_COUNT - 3] == ds;
  }

  /** The inner diagonal loop: the windows of the squares whose top-left corner is on `row`. */
  method ScoreDiagonalRow(board: array2<int>, piece: int, row: int) returns (score: int)
    requires IsBoard(board) && 0 <= row < ROW_COUNT - 3
    ensures score == SumScores(Concat(DiagonalRow(View(board), row)), piece)
  {
    ghost var g := View(board);
    ghost var pairs := DiagonalRow(g, row);
    score := 0;
    for col := 0 to COLUMN_COUNT - 3
      invariant score == SumScores(Concat(pairs[..col]), piece)
    {
      var s := ScoreDiagonalPair(board, piece, row, col);
      assert pairs[col] == DiagonalPair(g, row, col);
      score := score + s;
      ConcatSnoc(pairs, col);
      SumScoresAppend(Concat(pairs[..col]), pairs[col], piece);
    }
    assert pairs[..COLUMN_COUNT - 3] == pairs;
  }

  /** One step of the diagonal loop: the two windows of the square at (row, col). */
  method ScoreDiagonalPair(board: array2<int>, piece: int, row: int, col: int) returns (score: int)
    requires IsBoard(board) && 0 <= row < ROW_COUNT - 3 && 0 <= col < COLUMN_COUNT - 3
    ensures score == SumScores(DiagonalPair(View(board), row, col), piece)
  {
    ghost var g := View(board);
    var positive, negative := DiagonalWindows(board, row, col);
    assert positive == PositiveWindow(g, row, col);
    assert negative == NegativeWindow(g, row, col);
    score := 0;
    var s := EvaluateWindow(positive, piece);
    score := score + s;
    s := EvaluateWindow(negative, piece);
    score := score + s;
    SumScoresSnoc([], positive, piece);
    SumScoresSnoc([positive], negative, piece);
  }

  /** The two windows `score` fills cell by cell for the square at (row, col). */
  method DiagonalWindows(board: array2<int>, row: int, col: int) returns (positive: seq<int>, negative: seq<int>)
    requires IsBoard(board) && 0 <= row < ROW_COUNT - 3 && 0 <= col < COLUMN_COUNT - 3
    ensures |positive| == 4 && forall j :: 0 <= j < 4 ==> positive[j] == board[row + j, col + j]
    ensures |negative| == 4 && forall j :: 0 <= j < 4 ==> negative[j] == board[row + 3 - j, col + j]
  {
    var positiveWindow := new int[4];
    var negativeWindow := new int[4];
    for i := 0 to 4
      invariant forall j :: 0 <= j < i ==> positiveWindow[j] == board[row + j, col + j]
      invariant forall j :: 0 <= j < i ==> negativeWindow[j] == board[row + 3 - j, col + j]
    {
      positiveWindow[i] := board[row + i, col + i];
      negativeWindow[i] := board[row + 3 - i, col + i];
    }
    positive, negative := positiveWindow[..], negativeWindow[..];
  }

  // ---------------------------------------------------------------------
  // checkWinner: lines of four.
  // ---------------------------------------------------------------------

  /** All four cells of the line from (r, c) stepping by (dr, dc) are on the board. */
  predicate Fits(r: int, c: int, dr: int, dc: int)
  {
    0 <= r < ROW_COUNT && 0 <= r + 3 * dr < ROW_COUNT && 0 <= c < COLUMN_COUNT && 0 <= c + 3 * dc < COLUMN_COUNT
  }

  /** The four cells of the line from (r, c) are on the board, equal, and not EMPTY. */
  predicate FourAt(g: Grid, r: int, c: int, dr: int, dc: int)
    requires Shaped(g)
  {
    && Fits(r, c, dr, dc)
    && g[r][c] != EMPTY
    && g[r + dr][c + dc] == g[r][c]
    && g[r + 2 * dr][c + 2 * dc] == g[r][c]
    && g[r + 3 * dr][c + 3 * dc] == g[r][c]
  }

  /** The directions of `checkWinner`: horizontal, vertical, positive and negative diagonal. */
  function RowStep(k: int): int
  {
    if k == 0 then 0 else if k == 3 then -1 else 1
  }

  function ColStep(k: int): int
  {
    if k == 1 then 0 else 1
  }

  /** Some line of four cells, in any direction, holds `p` four times. */
  ghost predicate HasFour(g: Grid, p: int)
    requires Shaped(g)
  {
    exists r, c, k :: 0 <= k < 4 && FourAt(g, r, c, RowStep(k), ColStep(k)) && g[r][c] == p
  }

  /** Row 0 has no EMPTY cell. */
  predicate Full(g: Grid)
    requires Shaped(g)
  {
    forall c :: 0 <= c < COLUMN_COUNT ==> g[0][c] != EMPTY
  }

  /** The value of the first line of four from (row, col), (row + 1, col), ... below `rowHi`. */
  function FirstInColumn(g: Grid, col: int, row: int, rowHi: int, dr: int, dc: int): Option<int>
    requires Shaped(g)
    decreases rowHi - row
  {
    if row >= rowHi then None
    else if FourAt(g, row, col, dr, dc) then Some(g[row][col])
    else FirstInColumn(g, col, row + 1, rowHi, dr, dc)
  }

  /** The first line of four of a family: columns in order, rows in order within a column. */
  function FirstInFamily(g: Grid, col: int, colHi: int, rowLo: int, rowHi: int, dr: int, dc: int): Option<int>
    requires Shaped(g)
    decreases colHi - col
  {
    if col >= colHi then None
    else
      var f := FirstInColumn(g, col, rowLo, rowHi, dr, dc);
      if f.Some? then f else FirstInFamily(g, col + 1, colHi, rowLo, rowHi, dr, dc)
  }

  lemma {:induction false} FirstInColumnMeaning(g: Grid, col: int, row: int, rowHi: int, dr: int, dc: int)
    requires Shaped(g)
    ensures FirstInColumn(g, col, row, rowHi, dr, dc).None? <==>
      forall r :: row <= r < rowHi ==> !FourAt(g, r, col, dr, dc)
    ensures FirstInColumn(g, col, row, rowHi, dr, dc).Some? ==>
      exists r :: row <= r < rowHi && FourAt(g, r, col, dr, dc) && g[r][col] == FirstInColumn(g, col, row, rowHi, dr, dc).value
    decreases rowHi - row
  {
    if row < rowHi {
      FirstInColumnMeaning(g, col, row + 1, rowHi, dr, dc);
    }
  }

  lemma {:induction false} FirstInFamilyMeaning(g: Grid, col: int, colHi: int, rowLo: int, rowHi: int, dr: int, dc: int)
    requires Shaped(g)
    ensures FirstInFamily(g, col, colHi, rowLo, rowHi, dr, dc).None? <==>
      forall r, c :: col <= c < colHi && rowLo <= r < rowHi ==> !FourAt(g, r, c, dr, dc)
    ensures FirstInFamily(g, col, colHi, rowLo, rowHi, dr, dc).Some? ==>
      exists r, c :: col <= c < colHi && rowLo <= r < rowHi && FourAt(g, r, c, dr, dc)
        && g[r][c] == FirstInFamily(g, col, colHi, rowLo, rowHi, dr, dc).value
    decreases colHi - col
  {
    if col < colHi {
      FirstInColumnMeaning(g, col, rowLo, rowHi, dr, dc);
      FirstInFamilyMeaning(g, col + 1, colHi, rowLo, rowHi, dr, dc);
    }
  }

  /**
   * The four families of lines `checkWinner` scans, each as (first column,
   * last column + 1, first row, last row + 1, row step, column step); every
   * start fits on the board.
   */
  predicate Rectangle(colLo: int, colHi: int, rowLo: int, rowHi: int, dr: int, dc: int)
  {
    && colLo < colHi && rowLo < rowHi && -1 <= dr <= 1 && 0 <= dc <= 1
    && Fits(rowLo, colLo, dr, dc) && Fits(rowHi - 1, colHi - 1, dr, dc)
  }

  /** One family of loops of `checkWinner`: the value of the first line of four found. */
  method ScanFamily(board: array2<int>, colLo: int, colHi: int, rowLo: int, rowHi: int, dr: int, dc: int)
    returns (found: Option<int>)
    requires IsBoard(board) && Rectangle(colLo, colHi, rowLo, rowHi, dr, dc)
    ensures found == FirstInFamily(View(board), colLo, colHi, rowLo, rowHi, dr, dc)
  {
    ghost var g := View(board);
    for col := colLo to colHi
      invariant FirstInFamily(g, colLo, colHi, rowLo, rowHi, dr, dc) == FirstInFamily(g, col, colHi, rowLo, rowHi, dr, dc)
    {
      found := ScanRows(board, col, rowLo, rowHi, dr, dc);
      if found.Some? {
        return found;
      }
    }
    return None;
  }

  /** The test of the inner loops of `checkWinner` on an array position. */
  predicate LineOfFour(board: array2<int>, row: int, col: int, dr: int, dc: int)
    requires IsBoard(board) && Fits(row, col, dr, dc)
    reads board
    ensures LineOfFour(board, row, col, dr, dc) == FourAt(View(board), row, col, dr, dc)
  {
    board[row, col] != EMPTY && board[row + dr, col + dc] == board[row, col]
    && board[row + 2 * dr, col + 2 * dc] == board[row, col] && board[row + 3 * dr, col + 3 * dc] == board[row, col]
  }

  /** The inner loop of one family: the starts of column `col`, rows in order. */
  method ScanRows(board: array2<int>, col: int, rowLo: int, rowHi: int, dr: int, dc: int) returns (found: Option<int>)
    requires IsBoard(board) && rowLo < rowHi && -1 <= dr <= 1 && 0 <= dc <= 1
    requires Fits(rowLo, col, dr, dc) && Fits(rowHi - 1, col, dr, dc)
    ensures found == FirstInColumn(View(board), col, rowLo, rowHi, dr, dc)
  {
    ghost var g := View(board);
    for row := rowLo to rowHi
      invariant FirstInColumn(g, col, rowLo, rowHi, dr, dc) == FirstInColumn(g, col, row, rowHi, dr, dc)
    {
      if LineOfFour(board, row, col, dr, dc) {
        return Some(board[row, col]);
      }
    }
    return None;
  }

  /** Whether row 0 has no EMPTY cell (the first loop of `checkWinner`). */
  method IsFull(board: array2<int>) returns (full: bool)
    requires IsBoard(board)
    ensures full == Full(View(board))
  {
    full := true;
    var col := 0;
    while col < COLUMN_COUNT && full
      invariant 0 <= col <= COLUMN_COUNT
      invariant full == forall c :: 0 <= c < col ==> board[0, c] != EMPTY
    {
      if board[0, col] == EMPTY {
        full := false;
      }
      col := col + 1;
    }
  }

  /**
   * `checkWinner(board)`: the piece of the first line of four found, looking
   * at horizontal, vertical, positive-diagonal and negative-diagonal lines in
   * that order; otherwise TIE when row 0 is full and EMPTY when it is not.
   */
  function Winner(g: Grid): int
    requires Shaped(g)
  {
    var h := FirstInFamily(g, 0, COLUMN_COUNT - 3, 0, ROW_COUNT, 0, 1);
    var v := FirstInFamily(g, 0, COLUMN_COUNT, 0, ROW_COUNT - 3, 1, 0);
    var p := FirstInFamily(g, 0, COLUMN_COUNT - 3, 0, ROW_COUNT - 3, 1, 1);
    var n := FirstInFamily(g, 0, COLUMN_COUNT - 3, 3, ROW_COUNT, -1, 1);
    if h.Some? then h.value
    else if v.Some? then v.value
    else if p.Some? then p.value
    else if n.Some? then n.value
    else if Full(g) then TIE
    else EMPTY
  }

  method CheckWinner(board: array2<int>) returns (winner: int)
    requires IsBoard(board)
    ensures winner == Winner(View(board))
  {
    var full := IsFull(board);
    var found := ScanFamily(board, 0, COLUMN_COUNT - 3, 0, ROW_COUNT, 0, 1);
    if found.Some? {
      return found.value;
    }
    found := ScanFamily(board, 0, COLUMN_COUNT, 0, ROW_COUNT - 3, 1, 0);
    if found.Some? {
      return found.value;
    }
    found := ScanFamily(board, 0, COLUMN_COUNT - 3, 0, ROW_COUNT - 3, 1, 1);
    if found.Some? {
      return found.value;
    }
    found := ScanFamily(board, 0, COLUMN_COUNT - 3, 3, ROW_COUNT, -1, 1);
    if found.Some? {
      return found.value;
    }
    winner := if full then TIE else EMPTY;
  }

  /** A line of four found in family `k` is a line of four of the board. */
  lemma FamilyFound(g: Grid, colLo: int, colHi: int, rowLo: int, rowHi: int, k: int)
    requires Shaped(g) && 0 <= k < 4
    requires FirstInFamily(g, colLo, colHi, rowLo, rowHi, RowStep(k), ColStep(k)).Some?
    ensures HasFour(g, FirstInFamily(g, colLo, colHi, rowLo, rowHi, RowStep(k), ColStep(k)).value)
  {
    FirstInFamilyMeaning(g, colLo, colHi, rowLo, rowHi, RowStep(k), ColStep(k));
  }

  /** Family `k` with these bounds holds every line of direction `k` that fits on the board. */
  lemma FamilyCovers(g: Grid, colLo: int, colHi: int, rowLo: int, rowHi: int, k: int, r: int, c: int)
    requires Shaped(g) && 0 <= k < 4
    requires FourAt(g, r, c, RowStep(k), ColStep(k))
    requires colLo <= c < colHi && rowLo <= r < rowHi
    ensures FirstInFamily(g, colLo, colHi, rowLo, rowHi, RowStep(k), ColStep(k)).Some?
  {
    FirstInFamilyMeaning(g, colLo, colHi, rowLo, rowHi, RowStep(k), ColStep(k));
  }

  /**
   * `checkWinner` reports a piece exactly when some line of four cells, in
   * any direction, holds that piece; otherwise it reports TIE when row 0 is
   * full and EMPTY when it is not.
   */
  lemma WinnerMeaning(g: Grid)
    requires Shaped(g) && Pieces(g)
    ensures Winner(g) in {PLAYER_PIECE, WIZARD_PIECE, TIE, EMPTY}
    ensures Winner(g) == PLAYER_PIECE || Winner(g) == WIZARD_PIECE ==> HasFour(g, Winner(g))
    ensures HasFour(g, PLAYER_PIECE) || HasFour(g, WIZARD_PIECE) ==> Winner(g) == PLAYER_PIECE || Winner(g) == WIZARD_PIECE
    ensures !HasFour(g, PLAYER_PIECE) && !HasFour(g, WIZARD_PIECE) ==> Winner(g) == if Full(g) then TIE else EMPTY
  {
    var h := FirstInFamily(g, 0, COLUMN_COUNT - 3, 0, ROW_COUNT, 0, 1);
    var v := FirstInFamily(g, 0, COLUMN_COUNT, 0, ROW_COUNT - 3, 1, 0);
    var p := FirstInFamily(g, 0, COLUMN_COUNT - 3, 0, ROW_COUNT - 3, 1, 1);
    var n := FirstInFamily(g, 0, COLUMN_COUNT - 3, 3, ROW_COUNT, -1, 1);
    if h.Some? {
      FamilyFound(g, 0, COLUMN_COUNT - 3, 0, ROW_COUNT, 0);
    } else if v.Some? {
      FamilyFound(g, 0, COLUMN_COUNT, 0, ROW_COUNT - 3, 1);
    } else if p.Some? {
      FamilyFound(g, 0, COLUMN_COUNT - 3, 0, ROW_COUNT - 3, 2);
    } else if n.Some? {
      FamilyFound(g, 0, COLUMN_COUNT - 3, 3, ROW_COUNT, 3);
    } else if HasFour(g, PLAYER_PIECE) || HasFour(g, WIZARD_PIECE) {
      var r, c, k :| 0 <= k < 4 && FourAt(g, r, c, RowStep(k), ColStep(k));
      if k == 0 {
        FamilyCovers(g, 0, COLUMN_COUNT - 3, 0, ROW_COUNT, k, r, c);
      } else if k == 1 {
        FamilyCovers(g, 0, COLUMN_COUNT, 0, ROW_COUNT - 3, k, r, c);
      } else if k == 2 {
        FamilyCovers(g, 0, COLUMN_COUNT - 3, 0, ROW_COUNT - 3, k, r, c);
      } else {
        FamilyCovers(g, 0, COLUMN_COUNT - 3, 3, ROW_COUNT, k, r, c);
      }
    }
    if Winner(g) != TIE && Winner(g) != EMPTY {
      var r, c, k :| 0 <= k < 4 && FourAt(g, r, c, RowStep(k), ColStep(k)) && g[r][c] == Winner(g);
    }
  }

  // ---------------------------------------------------------------------
  // validLocations, emptyBoard, copyBoard, getNextOpenRow, makeMove.
  // ---------------------------------------------------------------------

  /** The columns below `n` whose top cell is EMPTY, in ascending order. */
  function ValidBelow(g: Grid, n: int): seq<int>
    requires Shaped(g) && 0 <= n <= COLUMN_COUNT
  {
    if n == 0 then [] else ValidBelow(g, n - 1) + (if g[0][n - 1] == EMPTY then [n - 1] else [])
  }

  /** `validLocations(board)`. */
  function ValidLocationsOf(g: Grid): seq<int>
    requires Shaped(g)
  {
    ValidBelow(g, COLUMN_COUNT)
  }

  lemma {:induction false} ValidBelowMeaning(g: Grid, n: int)
    requires Shaped(g) && 0 <= n <= COLUMN_COUNT
    ensures forall c :: c in ValidBelow(g, n) <==> 0 <= c < n && g[0][c] == EMPTY
    ensures forall i, j :: 0 <= i < j < |ValidBelow(g, n)| ==> ValidBelow(g, n)[i] < ValidBelow(g, n)[j]
  {
    if n > 0 {
      ValidBelowMeaning(g, n - 1);
      var v, w := ValidBelow(g, n - 1), ValidBelow(g, n);
      forall i, j | 0 <= i < j < |w|
        ensures w[i] < w[j]
      {
        assert w[i] == v[i] && v[i] in v;
        if j < |v| {
          assert w[j] == v[j];
        }
      }
    }
  }

  /** `validLocations` lists, in ascending order, exactly the columns whose top cell is EMPTY. */
  lemma ValidLocationsMeaning(g: Grid)
    requires Shaped(g)
    ensures forall c :: c in ValidLocationsOf(g) <==> 0 <= c < COLUMN_COUNT && g[0][c] == EMPTY
    ensures forall i, j :: 0 <= i < j < |ValidLocationsOf(g)| ==> ValidLocationsOf(g)[i] < ValidLocationsOf(g)[j]
  {
    ValidBelowMeaning(g, COLUMN_COUNT);
  }

  method ValidLocations(board: array2<int>) returns (locations: seq<int>)
    requires IsBoard(board)
    ensures locations == ValidLocationsOf(View(board))
  {
    locations := [];
    for col := 0 to COLUMN_COUNT
      invariant locations == ValidBelow(View(board), col)
    {
      if board[0, col] == EMPTY {
        locations := locations + [col];
      }
    }
  }

  method EmptyBoard() returns (board: array2<int>)
    ensures fresh(board) && IsBoard(board)
    ensures forall r, c :: 0 <= r < ROW_COUNT && 0 <= c < COLUMN_COUNT ==> board[r, c] == EMPTY
  {
    board := new int[ROW_COUNT, COLUMN_COUNT]((r, c) => EMPTY);
  }

  /** `copyBoard(board)`: a fresh array with the same cells. */
  method CopyBoard(board: array2<int>) returns (copy: array2<int>)
    requires IsBoard(board)
    ensures fresh(copy) && IsBoard(copy)
    ensures View(copy) == View(board)
  {
    copy := EmptyBoard();
    for row := 0 to ROW_COUNT
      invariant forall r, c :: 0 <= r < row && 0 <= c < COLUMN_COUNT ==> copy[r, c] == board[r, c]
    {
      for col := 0 to COLUMN_COUNT
        invariant forall r, c :: 0 <= r < row && 0 <= c < COLUMN_COUNT ==> copy[r, c] == board[r, c]
        invariant forall c :: 0 <= c < col ==> copy[row, c] == board[row, c]
      {
        copy[row, col] := board[row, col];
      }
    }
    assert forall r :: 0 <= r < ROW_COUNT ==> View(copy)[r] == View(board)[r];
  }

  /** The scan of `getNextOpenRow` from `row` down. */
  function OpenRowFrom(g: Grid, col: int, row: int): (r: int)
    requires Shaped(g) && 0 <= col < COLUMN_COUNT && 0 <= row <= ROW_COUNT
    ensures row - 1 <= r < ROW_COUNT
    ensures forall i :: row <= i <= r ==> g[i][col] == EMPTY
    ensures r + 1 < ROW_COUNT ==> g[r + 1][col] != EMPTY
    decreases ROW_COUNT - row
  {
    if row < ROW_COUNT && g[row][col] == EMPTY then OpenRowFrom(g, col, row + 1) else row - 1
  }

  /**
   * `getNextOpenRow(board, col)`: one above the first occupied cell of the
   * column from the top; -1 for a full column, ROW_COUNT - 1 for an empty one.
   */
  function OpenRow(g: Grid, col: int): (r: int)
    requires Shaped(g) && 0 <= col < COLUMN_COUNT
    ensures -1 <= r < ROW_COUNT
    ensures forall i :: 0 <= i <= r ==> g[i][col] == EMPTY
    ensures r + 1 < ROW_COUNT ==> g[r + 1][col] != EMPTY
  {
    OpenRowFrom(g, col, 0)
  }

  method GetNextOpenRow(board: array2<int>, col: int) returns (row: int)
    requires IsBoard(board) && 0 <= col < COLUMN_COUNT
    ensures row == OpenRow(View(board), col)
  {
    ghost var g := View(board);
    var r := 0;
    while r < ROW_COUNT && board[r, col] == EMPTY
      invariant 0 <= r <= ROW_COUNT
      invariant OpenRowFrom(g, col, r) == OpenRow(g, col)
    {
      r := r + 1;
    }
    row := r - 1;
  }

  /** `makeMove(board, piece, col)` as a value: the piece lands in the column's open row. */
  function MakeMoveOf(g: Grid, piece: int, col: int): (h: Grid)
    requires Shaped(g) && 0 <= col < COLUMN_COUNT && g[0][col] == EMPTY
    ensures Shaped(h)
  {
    var row := OpenRow(g, col);
    g[row := g[row][col := piece]]
  }

  /**
   * The new position differs from the old one only in the cell the piece
   * falls to: the lowest EMPTY cell of the column that has no piece below
   * it, which was EMPTY and now holds the piece.
   */
  lemma MakeMoveMeaning(g: Grid, piece: int, col: int)
    requires Shaped(g) && 0 <= col < COLUMN_COUNT && g[0][col] == EMPTY
    ensures var row, h := OpenRow(g, col), MakeMoveOf(g, piece, col);
      && 0 <= row < ROW_COUNT && g[row][col] == EMPTY && h[row][col] == piece
      && (row == ROW_COUNT - 1 || g[row + 1][col] != EMPTY)
      && forall r, c :: 0 <= r < ROW_COUNT && 0 <= c < COLUMN_COUNT && (r != row || c != col) ==> h[r][c] == g[r][c]
  {
  }

  /**
   * `makeMove`: a fresh position equal to the old one with the piece dropped
   * into the column; the position it was given is left as it was.  The caller
   * only passes columns with an EMPTY top cell (on a full column the open row
   * is -1 and the write fails).
   */
  method MakeMove(board: array2<int>, piece: int, col: int) returns (newBoard: array2<int>)
    requires IsBoard(board) && 0 <= col < COLUMN_COUNT && board[0, col] == EMPTY
    ensures fresh(newBoard) && IsBoard(newBoard)
    ensures View(newBoard) == MakeMoveOf(View(board), piece, col)
  {
    ghost var g := View(board);
    newBoard := CopyBoard(board);
    var row := GetNextOpenRow(board, col);
    newBoard[row, col] := piece;
    ghost var h := MakeMoveOf(g, piece, col);
    assert forall r :: 0 <= r < ROW_COUNT ==> View(newBoard)[r] == h[r];
  }

  // ---------------------------------------------------------------------
  // minimax.
  // ---------------------------------------------------------------------

  /** What `minimax` returns: the chosen column (undefined at a leaf) and the value. */
  datatype Outcome = Outcome(move: Option<int>, value: ExtInt)

  /** The search stops here: depth used up, or `checkWinner` reports a win or a tie. */
  predicate Terminal(g: Grid, depth: int)
    requires Shaped(g)
  {
    depth <= 0 || Winner(g) != EMPTY
  }

  /** The value of a leaf, seen from the player. */
  function LeafValue(g: Grid, depth: int): int
    requires Shaped(g)
  {
    var winner := Winner(g);
    if winner == PLAYER_PIECE then 999999 + depth
    else if winner == WIZARD_PIECE || winner == TIE then -(999999 + depth)
    else ScoreOf(g, PLAYER_PIECE)
  }

  /** Every column of `cols` can take a piece. */
  predicate Droppable(g: Grid, cols: seq<int>)
    requires Shaped(g)
  {
    forall c :: c in cols ==> 0 <= c < COLUMN_COUNT && g[0][c] == EMPTY
  }

  /** The first of the columns can take a piece, and so can the rest. */
  lemma DroppableTail(g: Grid, cols: seq<int>)
    requires Shaped(g) && Droppable(g, cols) && cols != []
    ensures 0 <= cols[0] < COLUMN_COUNT && g[0][cols[0]] == EMPTY && Droppable(g, cols[1..])
  {
    assert cols[0] in cols;
    forall c | c in cols[1..]
      ensures 0 <= c < COLUMN_COUNT && g[0][c] == EMPTY
    {
      assert c in cols;
    }
  }

  /** A position `checkWinner` calls undecided has an open column. */
  lemma NonTerminalHasMove(g: Grid)
    requires Shaped(g) && Winner(g) == EMPTY
    ensures ValidLocationsOf(g) != [] && Droppable(g, ValidLocationsOf(g))
  {
    FirstInFamilyMeaning(g, 0, COLUMN_COUNT - 3, 0, ROW_COUNT, 0, 1);
    FirstInFamilyMeaning(g, 0, COLUMN_COUNT, 0, ROW_COUNT - 3, 1, 0);
    FirstInFamilyMeaning(g, 0, COLUMN_COUNT - 3, 0, ROW_COUNT - 3, 1, 1);
    FirstInFamilyMeaning(g, 0, COLUMN_COUNT - 3, 3, ROW_COUNT, -1, 1);
    ValidLocationsMeaning(g);
    var c :| 0 <= c < COLUMN_COUNT && g[0][c] == EMPTY;
    assert c in ValidLocationsOf(g);
  }

  /**
   * `minimax(board, depth, alpha, beta, player_turn)` as a value.  The random
   * first guess of the move is left out: the first column searched always
   * replaces it, because every search value is finite.
   */
  function MinimaxOf(g: Grid, depth: int, alpha: ExtInt, beta: ExtInt, playerTurn: bool): (r: Outcome)
    requires Shaped(g)
    ensures r.value.Fin?
    decreases depth, 1, 0
  {
    if Terminal(g, depth) then Outcome(None, Fin(LeafValue(g, depth)))
    else
      NonTerminalHasMove(g);
      if playerTurn then MaxLoopOf(g, depth, ValidLocationsOf(g), alpha, beta, NegInf, None)
      else MinLoopOf(g, depth, ValidLocationsOf(g), alpha, beta, PosInf, None)
  }

  /** The search below the position after `piece` drops into `col`. */
  function ChildOf(g: Grid, depth: int, piece: int, col: int, alpha: ExtInt, beta: ExtInt, playerTurn: bool): (r: Outcome)
    requires Shaped(g) && depth > 0 && 0 <= col < COLUMN_COUNT && g[0][col] == EMPTY
    ensures r.value.Fin?
    decreases depth, 0, 0
  {
    MinimaxOf(MakeMoveOf(g, piece, col), depth - 1, alpha, beta, playerTurn)
  }

  /** The player's loop over the columns still to try, with the window and best value so far. */
  function MaxLoopOf(g: Grid, depth: int, cols: seq<int>, alpha: ExtInt, beta: ExtInt, value: ExtInt, move: Option<int>): (r: Outcome)
    requires Shaped(g) && depth > 0 && Droppable(g, cols)
    ensures value.Fin? || (value.NegInf? && cols != []) ==> r.value.Fin?
    decreases depth, 0, |cols|
  {
    if cols == [] then Outcome(move, value)
    else
      var col := cols[0];
      DroppableTail(g, cols);
      var newScore := ChildOf(g, depth, PLAYER_PIECE, col, alpha, beta, false).value;
      var better := Less(value, newScore);
      var value' := if better then newScore else value;
      var move' := if better then Some(col) else move;
      var alpha' := Max(alpha, value');
      if !Less(alpha', beta) then Outcome(move', value')
      else MaxLoopOf(g, depth, cols[1..], alpha', beta, value', move')
  }

  /** The wizard's loop, the mirror image of the player's. */
  function MinLoopOf(g: Grid, depth: int, cols: seq<int>, alpha: ExtInt, beta: ExtInt, value: ExtInt, move: Option<int>): (r: Outcome)
    requires Shaped(g) && depth > 0 && Droppable(g, cols)
    ensures value.Fin? || (value.PosInf? && cols != []) ==> r.value.Fin?
    decreases depth, 0, |cols|
  {
    if cols == [] then Outcome(move, value)
    else
      var col := cols[0];
      DroppableTail(g, cols);
      var newScore := ChildOf(g, depth, WIZARD_PIECE, col, alpha, beta, true).value;
      var better := Less(newScore, value);
      var value' := if better then newScore else value;
      var move' := if better then Some(col) else move;
      var beta' := Min(beta, value');
      if !Less(alpha, beta') then Outcome(move', value')
      else MinLoopOf(g, depth, cols[1..], alpha, beta', value', move')
  }

  /**
   * `minimax`: a leaf is scored by `LeafValue`; otherwise the player tries
   * every open column for the maximum and the wizard for the minimum, leaving
   * the loop once alpha >= beta.
   */
  method Minimax(board: array2<int>, ghost g: Grid, depth: int, alpha: ExtInt, beta: ExtInt, playerTurn: bool)
    returns (move: Option<int>, value: ExtInt)
    requires IsBoard(board) && View(board) == g
    ensures Outcome(move, value) == MinimaxOf(g, depth, alpha, beta, playerTurn)
    decreases depth, 2
  {
    var validLocations := ValidLocations(board);
    var winner := CheckWinner(board);
    if depth <= 0 || winner != EMPTY {
      if winner == PLAYER_PIECE {
        return None, Fin(999999 + depth);
      } else if winner == WIZARD_PIECE {
        return None, Fin(-(999999 + depth));
      } else if winner == TIE {
        return None, Fin(-(999999 + depth));
      } else {
        var s := Score(board, PLAYER_PIECE);
        return None, Fin(s);
      }
    }
    NonTerminalHasMove(g);
    if playerTurn {
      move, value := MaxTurn(board, g, depth, validLocations, alpha, beta);
    } else {
      move, value := MinTurn(board, g, depth, validLocations, alpha, beta);
    }
  }

  /** One recursive call of `minimax`, on a copy of `board` with `piece` dropped into `col`. */
  method Reply(board: array2<int>, ghost g: Grid, depth: int, piece: int, col: int, alpha: ExtInt, beta: ExtInt, playerTurn: bool)
    returns (move: Option<int>, value: ExtInt)
    requires IsBoard(board) && View(board) == g && depth > 0
    requires 0 <= col < COLUMN_COUNT && g[0][col] == EMPTY
    ensures Outcome(move, value) == ChildOf(g, depth, piece, col, alpha, beta, playerTurn)
    decreases depth, 0
  {
    var newBoard := MakeMove(board, piece, col);
    move, value := Minimax(newBoard, MakeMoveOf(g, piece, col), depth - 1, alpha, beta, playerTurn);
  }

  /**
   * One round of the player's loop: after `child` is searched, the loop either
   * stops with the updated best move and value or carries on with the rest.
   */
  lemma MaxLoopStep(g: Grid, depth: int, cols: seq<int>, alpha: ExtInt, beta: ExtInt, value: ExtInt, move: Option<int>,
                    child: Outcome, rest: seq<int>, alpha': ExtInt, value': ExtInt, move': Option<int>)
    requires Shaped(g) && depth > 0 && Droppable(g, cols) && cols != [] && rest == cols[1..]
    requires cols[0] in cols && child == ChildOf(g, depth, PLAYER_PIECE, cols[0], alpha, beta, false)
    requires value' == (if Less(value, child.value) then child.value else value)
    requires move' == (if Less(value, child.value) then Some(cols[0]) else move)
    requires alpha' == Max(alpha, value')
    ensures Droppable(g, rest)
    ensures !Less(alpha', beta) ==> MaxLoopOf(g, depth, cols, alpha, beta, value, move) == Outcome(move', value')
    ensures Less(alpha', beta) ==> MaxLoopOf(g, depth, cols, alpha, beta, value, move) == MaxLoopOf(g, depth, rest, alpha', beta, value', move')
  {
    DroppableTail(g, cols);
  }

  /** One round of the wizard's loop, the mirror image of `MaxLoopStep`. */
  lemma MinLoopStep(g: Grid, depth: int, cols: seq<int>, alpha: ExtInt, beta: ExtInt, value: ExtInt, move: Option<int>,
                    child: Outcome, rest: seq<int>, beta': ExtInt, value': ExtInt, move': Option<int>)
    requires Shaped(g) && depth > 0 && Droppable(g, cols) && cols != [] && rest == cols[1..]
    requires cols[0] in cols && child == ChildOf(g, depth, WIZARD_PIECE, cols[0], alpha, beta, true)
    requires value' == (if Less(child.value, value) then child.value else value)
    requires move' == (if Less(child.value, value) then Some(cols[0]) else move)
    requires beta' == Min(beta, value')
    ensures Droppable(g, rest)
    ensures !Less(alpha, beta') ==> MinLoopOf(g, depth, cols, alpha, beta, value, move) == Outcome(move', value')
    ensures Less(alpha, beta') ==> MinLoopOf(g, depth, cols, alpha, beta, value, move) == MinLoopOf(g, depth, rest, alpha, beta', value', move')
  {
    DroppableTail(g, cols);
  }

  /** The player's turn of `minimax`. */
  method MaxTurn(board: array2<int>, ghost g: Grid, depth: int, validLocations: seq<int>, alpha0: ExtInt, beta: ExtInt)
    returns (move: Option<int>, value: ExtInt)
    requires IsBoard(board) && View(board) == g && depth > 0
    requires validLocations != [] && Droppable(g, validLocations)
    ensures Outcome(move, value) == MaxLoopOf(g, depth, validLocations, alpha0, beta, NegInf, None)
    decreases depth, 1
  {
    ghost var goal := MaxLoopOf(g, depth, validLocations, alpha0, beta, NegInf, None);
    var alpha := alpha0;
    value := NegInf;
    var pick :| 0 <= pick < |validLocations|;
    move := Some(validLocations[pick]);
    ghost var specMove: Option<int> := None;
    var rest := validLocations;
    while rest != []
      invariant Droppable(g, rest)
      invariant rest == validLocations ==> value == NegInf
      invariant rest != validLocations ==> move == specMove
      invariant MaxLoopOf(g, depth, rest, alpha, beta, value, specMove) == goal
      decreases |rest|
    {
      var col := rest[0];
      assert col in rest;
      var childMove, newScore := Reply(board, g, depth, PLAYER_PIECE, col, alpha, beta, false);
      ghost var (alphaIn, valueIn, moveIn) := (alpha, value, specMove);
      if Less(value, newScore) {
        value := newScore;
        move := Some(col);
        specMove := move;
      }
      alpha := Max(alpha, value);
      MaxLoopStep(g, depth, rest, alphaIn, beta, valueIn, moveIn, Outcome(childMove, newScore), rest[1..], alpha, value, specMove);
      rest := rest[1..];
      if !Less(alpha, beta) {
        break;
      }
    }
  }

  /** The wizard's turn of `minimax`. */
  method MinTurn(board: array2<int>, ghost g: Grid, depth: int, validLocations: seq<int>, alpha: ExtInt, beta0: ExtInt)
    returns (move: Option<int>, value: ExtInt)
    requires IsBoard(board) && View(board) == g && depth > 0
    requires validLocations != [] && Droppable(g, validLocations)
    ensures Outcome(move, value) == MinLoopOf(g, depth, validLocations, alpha, beta0, PosInf, None)
    decreases depth, 1
  {
    ghost var goal := MinLoopOf(g, depth, validLocations, alpha, beta0, PosInf, None);
    var beta := beta0;
    value := PosInf;
    var pick :| 0 <= pick < |validLocations|;
    move := Some(validLocations[pick]);
    ghost var specMove: Option<int> := None;
    var rest := validLocations;
    while rest != []
      invariant Droppable(g, rest)
      invariant rest == validLocations ==> value == PosInf
      invariant rest != validLocations ==> move == specMove
      invariant MinLoopOf(g, depth, rest, alpha, beta, value, specMove) == goal
      decreases |rest|
    {
      var col := rest[0];
      assert col in rest;
      var childMove, newScore := Reply(board, g, depth, WIZARD_PIECE, col, alpha, beta, true);
      ghost var (betaIn, valueIn, moveIn) := (beta, value, specMove);
      if Less(newScore, value) {
        value := newScore;
        move := Some(col);
        specMove := move;
      }
      beta := Min(beta, value);
      MinLoopStep(g, depth, rest, alpha, betaIn, valueIn, moveIn, Outcome(childMove, newScore), rest[1..], beta, value, specMove);
      rest := rest[1..];
      if !Less(alpha, beta) {
        break;
      }
    }
  }

  // ---------------------------------------------------------------------
  // What the pruning keeps: the value of plain minimax.
  // ---------------------------------------------------------------------

  /** The value of `g` searched `depth` plies deep with no pruning. */
  function ValueOf(g: Grid, depth: int, playerTurn: bool): ExtInt
    requires Shaped(g)
    decreases depth, 1, 0
  {
    if Terminal(g, depth) then Fin(LeafValue(g, depth))
    else
      NonTerminalHasMove(g);
      if playerTurn then MaxOver(g, depth, ValidLocationsOf(g))
      else MinOver(g, depth, ValidLocationsOf(g))
  }

  /** The unpruned value below the position after `piece` drops into `col`. */
  function ChildValueOf(g: Grid, depth: int, piece: int, col: int, playerTurn: bool): ExtInt
    requires Shaped(g) && depth > 0 && 0 <= col < COLUMN_COUNT && g[0][col] == EMPTY
    decreases depth, 0, 0
  {
    ValueOf(MakeMoveOf(g, piece, col), depth - 1, playerTurn)
  }

  /** The best the player can reach through the columns of `cols`. */
  function MaxOver(g: Grid, depth: int, cols: seq<int>): ExtInt
    requires Shaped(g) && depth > 0 && Droppable(g, cols)
    decreases depth, 0, |cols|
  {
    if cols == [] then NegInf
    else
      DroppableTail(g, cols);
      Max(ChildValueOf(g, depth, PLAYER_PIECE, cols[0], false), MaxOver(g, depth, cols[1..]))
  }

  /** The best the wizard can reach through the columns of `cols`. */
  function MinOver(g: Grid, depth: int, cols: seq<int>): ExtInt
    requires Shaped(g) && depth > 0 && Droppable(g, cols)
    decreases depth, 0, |cols|
  {
    if cols == [] then PosInf
    else
      DroppableTail(g, cols);
      Min(ChildValueOf(g, depth, WIZARD_PIECE, cols[0], true), MinOver(g, depth, cols[1..]))
  }

  /**
   * What a search with window (alpha, beta) says about the true value `m`
   * when it returns `v`: inside the window it is exact, at or below alpha it
   * is an upper bound, at or above beta a lower bound.
   */
  predicate Bounds(v: ExtInt, m: ExtInt, alpha: ExtInt, beta: ExtInt)
  {
    && (Less(alpha, v) && Less(v, beta) ==> v == m)
    && (AtMost(v, alpha) ==> AtMost(m, v))
    && (AtMost(beta, v) ==> AtMost(v, m))
  }

  lemma MaxRegroup(a: ExtInt, b: ExtInt, c: ExtInt)
    ensures Max(a, Max(b, c)) == Max(Max(b, a), c)
  {
  }

  lemma MinRegroup(a: ExtInt, b: ExtInt, c: ExtInt)
    ensures Min(a, Min(b, c)) == Min(Min(b, a), c)
  {
  }

  /**
   * Alpha-beta pruning is sound: whatever `minimax` returns for a non-empty
   * window bounds the unpruned value as `Bounds` says.
   */
  lemma {:induction false} AlphaBetaSound(g: Grid, depth: int, alpha: ExtInt, beta: ExtInt, playerTurn: bool)
    requires Shaped(g) && Less(alpha, beta)
    ensures Bounds(MinimaxOf(g, depth, alpha, beta, playerTurn).value, ValueOf(g, depth, playerTurn), alpha, beta)
    decreases depth, 1, 0
  {
    if !Terminal(g, depth) {
      NonTerminalHasMove(g);
      var cols := ValidLocationsOf(g);
      if playerTurn {
        MaxLoopSound(g, depth, cols, alpha, alpha, beta, NegInf, None, NegInf);
      } else {
        MinLoopSound(g, depth, cols, alpha, beta, beta, PosInf, None, PosInf);
      }
    }
  }

  /** `AlphaBetaSound` for one child of `g`. */
  lemma {:induction false} ChildSound(g: Grid, depth: int, piece: int, col: int, alpha: ExtInt, beta: ExtInt, playerTurn: bool)
    requires Shaped(g) && depth > 0 && 0 <= col < COLUMN_COUNT && g[0][col] == EMPTY && Less(alpha, beta)
    ensures Bounds(ChildOf(g, depth, piece, col, alpha, beta, playerTurn).value, ChildValueOf(g, depth, piece, col, playerTurn), alpha, beta)
    decreases depth, 0, 0
  {
    AlphaBetaSound(MakeMoveOf(g, piece, col), depth - 1, alpha, beta, playerTurn);
  }

  /**
   * One round of the player's loop, on values alone: the child searched with
   * the window (alpha, beta) returned `r` for the unpruned value `t`; `rest`
   * is the unpruned maximum of the columns after it and `v` what the loop
   * finally returns.  The invariant of `MaxLoopSound` passes to the next round,
   * and the bound for the rest gives the bound for the whole.
   */
  lemma MaxRound(a0: ExtInt, alpha: ExtInt, beta: ExtInt, value: ExtInt, done: ExtInt,
                 r: ExtInt, t: ExtInt, rest: ExtInt, v: ExtInt)
    requires Less(a0, beta) && alpha == Max(a0, value) && Less(alpha, beta)
    requires AtMost(done, value) && (Less(a0, value) ==> done == value)
    requires Bounds(r, t, alpha, beta)
    ensures var value' := if Less(value, r) then r else value;
      Less(Max(alpha, value'), beta) ==>
        Max(alpha, value') == Max(a0, value') && AtMost(Max(t, done), value') && (Less(a0, value') ==> Max(t, done) == value')
    ensures var value' := if Less(value, r) then r else value;
      (!Less(Max(alpha, value'), beta) ==> v == value') &&
      (Less(Max(alpha, value'), beta) ==> Bounds(v, Max(Max(t, done), rest), a0, beta))
      ==> Bounds(v, Max(done, Max(t, rest)), a0, beta)
  {
    MaxRegroup(done, t, rest);
  }

  /** One round of the wizard's loop, the mirror image of `MaxRound`. */
  lemma MinRound(alpha: ExtInt, b0: ExtInt, beta: ExtInt, value: ExtInt, done: ExtInt,
                 r: ExtInt, t: ExtInt, rest: ExtInt, v: ExtInt)
    requires Less(alpha, b0) && beta == Min(b0, value) && Less(alpha, beta)
    requires AtMost(value, done) && (Less(value, b0) ==> done == value)
    requires Bounds(r, t, alpha, beta)
    ensures var value' := if Less(r, value) then r else value;
      Less(alpha, Min(beta, value')) ==>
        Min(beta, value') == Min(b0, value') && AtMost(value', Min(t, done)) && (Less(value', b0) ==> Min(t, done) == value')
    ensures var value' := if Less(r, value) then r else value;
      (!Less(alpha, Min(beta, value')) ==> v == value') &&
      (Less(alpha, Min(beta, value')) ==> Bounds(v, Min(Min(t, done), rest), alpha, b0))
      ==> Bounds(v, Min(done, Min(t, rest)), alpha, b0)
  {
    MinRegroup(done, t, rest);
  }

  /**
   * The player's loop, part way through: `done` is the unpruned maximum over
   * the columns already tried, which `value` bounds from above, and matches
   * once it has risen past the caller's alpha `a0`.
   */
  lemma {:induction false} MaxLoopSound(g: Grid, depth: int, cols: seq<int>, a0: ExtInt, alpha: ExtInt, beta: ExtInt,
                                        value: ExtInt, move: Option<int>, done: ExtInt)
    requires Shaped(g) && depth > 0 && Droppable(g, cols)
    requires Less(a0, beta) && alpha == Max(a0, value) && Less(alpha, beta)
    requires AtMost(done, value) && (Less(a0, value) ==> done == value)
    ensures Bounds(MaxLoopOf(g, depth, cols, alpha, beta, value, move).value, Max(done, MaxOver(g, depth, cols)), a0, beta)
    decreases depth, 0, |cols|
  {
    if cols != [] {
      var col := cols[0];
      DroppableTail(g, cols);
      var child := ChildOf(g, depth, PLAYER_PIECE, col, alpha, beta, false);
      var r := child.value;
      var t := ChildValueOf(g, depth, PLAYER_PIECE, col, false);
      ChildSound(g, depth, PLAYER_PIECE, col, alpha, beta, false);
      var value' := if Less(value, r) then r else value;
      var move' := if Less(value, r) then Some(col) else move;
      var alpha' := Max(alpha, value');
      var rest := MaxOver(g, depth, cols[1..]);
      assert MaxOver(g, depth, cols) == Max(t, rest);
      MaxLoopStep(g, depth, cols, alpha, beta, value, move, child, cols[1..], alpha', value', move');
      MaxRound(a0, alpha, beta, value, done, r, t, rest, MaxLoopOf(g, depth, cols, alpha, beta, value, move).value);
      if Less(alpha', beta) {
        MaxLoopSound(g, depth, cols[1..], a0, alpha', beta, value', move', Max(t, done));
      }
    }
  }

  /** The wizard's loop, the mirror image of `MaxLoopSound`. */
  lemma {:induction false} MinLoopSound(g: Grid, depth: int, cols: seq<int>, alpha: ExtInt, b0: ExtInt, beta: ExtInt,
                                        value: ExtInt, move: Option<int>, done: ExtInt)
    requires Shaped(g) && depth > 0 && Droppable(g, cols)
    requires Less(alpha, b0) && beta == Min(b0, value) && Less(alpha, beta)
    requires AtMost(value, done) && (Less(value, b0) ==> done == value)
    ensures Bounds(MinLoopOf(g, depth, cols, alpha, beta, value, move).value, Min(done, MinOver(g, depth, cols)), alpha, b0)
    decreases depth, 0, |cols|
  {
    if cols != [] {
      var col := cols[0];
      DroppableTail(g, cols);
      var child := ChildOf(g, depth, WIZARD_PIECE, col, alpha, beta, true);
      var r := child.value;
      var t := ChildValueOf(g, depth, WIZARD_PIECE, col, true);
      ChildSound(g, depth, WIZARD_PIECE, col, alpha, beta, true);
      var value' := if Less(r, value) then r else value;
      var move' := if Less(r, value) then Some(col) else move;
      var beta' := Min(beta, value');
      var rest := MinOver(g, depth, cols[1..]);
      assert MinOver(g, depth, cols) == Min(t, rest);
      MinLoopStep(g, depth, cols, alpha, beta, value, move, child, cols[1..], beta', value', move');
      MinRound(alpha, b0, beta, value, done, r, t, rest, MinLoopOf(g, depth, cols, alpha, beta, value, move).value);
      if Less(alpha, beta') {
        MinLoopSound(g, depth, cols[1..], alpha, b0, beta', value', move', Min(t, done));
      }
    }
  }

  /** Searched with the full window, `minimax` returns the unpruned value. */
  lemma RootValue(g: Grid, depth: int, playerTurn: bool)
    requires Shaped(g)
    ensures MinimaxOf(g, depth, NegInf, PosInf, playerTurn).value == ValueOf(g, depth, playerTurn)
  {
    AlphaBetaSound(g, depth, NegInf, PosInf, playerTurn);
  }

  /** The player's loop reports one of the columns it tried, or keeps `move`. */
  lemma {:induction false} MaxLoopMove(g: Grid, depth: int, cols: seq<int>, alpha: ExtInt, beta: ExtInt, value: ExtInt, move: Option<int>)
    requires Shaped(g) && depth > 0 && Droppable(g, cols) && !value.PosInf?
    ensures var r := MaxLoopOf(g, depth, cols, alpha, beta, value, move);
      (value.NegInf? && cols != []) || r.move != move ==> r.move.Some? && r.move.value in cols
    decreases |cols|
  {
    if cols != [] {
      var col := cols[0];
      DroppableTail(g, cols);
      var r := ChildOf(g, depth, PLAYER_PIECE, col, alpha, beta, false).value;
      var value' := if Less(value, r) then r else value;
      var move' := if Less(value, r) then Some(col) else move;
      MaxLoopMove(g, depth, cols[1..], Max(alpha, value'), beta, value', move');
    }
  }

  /** The wizard's loop reports one of the columns it tried, or keeps `move`. */
  lemma {:induction false} MinLoopMove(g: Grid, depth: int, cols: seq<int>, alpha: ExtInt, beta: ExtInt, value: ExtInt, move: Option<int>)
    requires Shaped(g) && depth > 0 && Droppable(g, cols) && !value.NegInf?
    ensures var r := MinLoopOf(g, depth, cols, alpha, beta, value, move);
      (value.PosInf? && cols != []) || r.move != move ==> r.move.Some? && r.move.value in cols
    decreases |cols|
  {
    if cols != [] {
      var col := cols[0];
      DroppableTail(g, cols);
      var r := ChildOf(g, depth, WIZARD_PIECE, col, alpha, beta, true).value;
      var value' := if Less(r, value) then r else value;
      var move' := if Less(r, value) then Some(col) else move;
      MinLoopMove(g, depth, cols[1..], alpha, Min(beta, value'), value', move');
    }
  }

  /** Above a leaf, `minimax` always names a column that can take a piece. */
  lemma MinimaxMove(g: Grid, depth: int, alpha: ExtInt, beta: ExtInt, playerTurn: bool)
    requires Shaped(g) && !Terminal(g, depth)
    ensures var r := MinimaxOf(g, depth, alpha, beta, playerTurn);
      r.move.Some? && 0 <= r.move.value < COLUMN_COUNT && g[0][r.move.value] == EMPTY
  {
    NonTerminalHasMove(g);
    ValidLocationsMeaning(g);
    if playerTurn {
      MaxLoopMove(g, depth, ValidLocationsOf(g), alpha, beta, NegInf, None);
    } else {
      MinLoopMove(g, depth, ValidLocationsOf(g), alpha, beta, PosInf, None);
    }
  }

  /**
   * The leaves of `minimax`: a win for the player is worth 999999 + depth, a
   * win for the wizard and a full board -(999999 + depth), and an undecided
   * position out of depth its `score` for the player.
   */
  lemma MinimaxLeaf(g: Grid, depth: int, alpha: ExtInt, beta: ExtInt, playerTurn: bool)
    requires Shaped(g) && Pieces(g)
    ensures var r := MinimaxOf(g, depth, alpha, beta, playerTurn);
      && (HasFour(g, PLAYER_PIECE) && !HasFour(g, WIZARD_PIECE) ==> r == Outcome(None, Fin(999999 + depth)))
      && (HasFour(g, WIZARD_PIECE) && !HasFour(g, PLAYER_PIECE) ==> r == Outcome(None, Fin(-(999999 + depth))))
      && (!HasFour(g, PLAYER_PIECE) && !HasFour(g, WIZARD_PIECE) && Full(g) ==> r == Outcome(None, Fin(-(999999 + depth))))
      && (!HasFour(g, PLAYER_PIECE) && !HasFour(g, WIZARD_PIECE) && !Full(g) && depth <= 0 ==>
            r == Outcome(None, Fin(ScoreOf(g, PLAYER_PIECE))))
  {
    WinnerMeaning(g);
  }
}
