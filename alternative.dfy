/**
 * alternative_algorithm.js: a Connect-Four board kept as seven columns of
 * pieces, bottom first, with the move sequence that produced it, and a
 * depth-limited negamax over it.
 */
module Alternative {
  import opened Util

  const ROW_COUNT := 6
  const COLUMN_COUNT := 7
  const PLAYER_PIECE := 1
  const WIZARD_PIECE := 2
  const EMPTY := 0

  /** Column `c` lists its pieces from the bottom up. */
  type Columns = seq<seq<int>>

  /** The piece of the side to move after `moves` moves: the wizard opens. */
  function Mover(moves: int): (p: int)
    ensures p == PLAYER_PIECE || p == WIZARD_PIECE
  {
    if moves % 2 == 0 then WIZARD_PIECE else PLAYER_PIECE
  }

  /** A character of a move sequence: '1' to '7'. */
  predicate IsMoveChar(ch: char)
  {
    '1' <= ch <= '7'
  }

  predicate IsMoveSequence(s: string)
  {
    forall i :: 0 <= i < |s| ==> IsMoveChar(s[i])
  }

  /** `charCodeAt(i) - 49`. */
  function ColumnOfChar(ch: char): int
    requires IsMoveChar(ch)
  {
    ch as int - 49
  }

  /** The text of `col + 1`. */
  function CharOfColumn(col: int): (ch: char)
    requires 0 <= col < COLUMN_COUNT
    ensures IsMoveChar(ch) && ColumnOfChar(ch) == col
  {
    (col + 49) as char
  }

  function EmptyColumns(): (cols: Columns)
    ensures |cols| == COLUMN_COUNT
  {
    seq(COLUMN_COUNT, _ => [])
  }

  /** `cols` with `piece` pushed on top of column `col`. */
  function Push(cols: Columns, col: int, piece: int): Columns
    requires 0 <= col < |cols|
  {
    cols[col := cols[col] + [piece]]
  }

  /** The columns reached by playing `s` from the empty board. */
  function Replay(s: string): (cols: Columns)
    requires IsMoveSequence(s)
    ensures |cols| == COLUMN_COUNT
  {
    if s == [] then EmptyColumns()
    else
      var n := |s| - 1;
      assert IsMoveChar(s[n]);
      Push(Replay(s[..n]), ColumnOfChar(s[n]), Mover(n))
  }

  /** The number of pieces on the board. */
  function Total(cols: Columns): nat
  {
    if cols == [] then 0 else Total(cols[..|cols| - 1]) + |cols[|cols| - 1]|
  }

  lemma {:induction false} TotalUpdate(cols: Columns, col: int, column: seq<int>)
    requires 0 <= col < |cols|
    ensures Total(cols[col := column]) == Total(cols) - |cols[col]| + |column|
  {
    var n := |cols| - 1;
    if col < n {
      assert cols[col := column][..n] == cols[..n][col := column];
      TotalUpdate(cols[..n], col, column);
    } else {
      assert cols[col := column][..n] == cols[..n];
    }
  }

  /** Every piece is the player's or the wizard's. */
  predicate PiecesOk(cols: Columns)
  {
    forall c, i :: 0 <= c < |cols| && 0 <= i < |cols[c]| ==> cols[c][i] == PLAYER_PIECE || cols[c][i] == WIZARD_PIECE
  }

  /** A replayed board holds one piece per move, each of them a real piece. */
  lemma {:induction false} ReplayFacts(s: string)
    requires IsMoveSequence(s)
    ensures Total(Replay(s)) == |s|
    ensures PiecesOk(Replay(s))
  {
    if s != [] {
      var n := |s| - 1;
      assert IsMoveChar(s[n]);
      ReplayFacts(s[..n]);
      var before := Replay(s[..n]);
      var col := ColumnOfChar(s[n]);
      TotalUpdate(before, col, before[col] + [Mover(n)]);
    } else {
      TotalOfEmpty(EmptyColumns());
    }
  }

  lemma {:induction false} TotalOfEmpty(cols: Columns)
    requires forall k :: 0 <= k < |cols| ==> cols[k] == []
    ensures Total(cols) == 0
  {
    if cols != [] {
      TotalOfEmpty(cols[..|cols| - 1]);
    }
  }

  // ---------------------------------------------------------------------
  // Board.
  // ---------------------------------------------------------------------

  class Board {
    var columns: Columns
    var moveSequence: string
    var moves: int

    /** The columns are what the move sequence produces, one move per character. */
    ghost predicate Valid()
      reads this
    {
      IsMoveSequence(moveSequence) && moves == |moveSequence| && columns == Replay(moveSequence)
    }

    /** `new Board(move_sequence)`: the empty board, then one `play` per character. */
    constructor (sequence: string)
      requires IsMoveSequence(sequence)
      ensures Valid() && moveSequence == sequence && columns == Replay(sequence) && moves == |sequence|
    {
      columns := EmptyColumns();
      moveSequence := "";
      moves := 0;
      new;
      var i := 0;
      while i < |sequence|
        invariant 0 <= i <= |sequence|
        invariant Valid() && moveSequence == sequence[..i]
      {
        assert IsMoveChar(sequence[i]);
        Play(ColumnOfChar(sequence[i]));
        assert sequence[..i + 1] == sequence[..i] + [sequence[i]];
        i := i + 1;
      }
      assert sequence[..i] == sequence;
    }

    /** `copy()`: a fresh board with the same pieces, sequence and move count. */
    method Copy() returns (copy: Board)
      requires Valid()
      ensures fresh(copy) && copy.Valid()
      ensures copy.columns == columns && copy.moveSequence == moveSequence && copy.moves == moves
    {
      copy := new Board("");
      for i := 0 to COLUMN_COUNT
        invariant |copy.columns| == COLUMN_COUNT
        invariant forall k :: 0 <= k < i ==> copy.columns[k] == columns[k]
        invariant forall k :: i <= k < COLUMN_COUNT ==> copy.columns[k] == []
      {
        for j := 0 to |columns[i]|
          invariant |copy.columns| == COLUMN_COUNT
          invariant forall k :: 0 <= k < i ==> copy.columns[k] == columns[k]
          invariant forall k :: i < k < COLUMN_COUNT ==> copy.columns[k] == []
          invariant copy.columns[i] == columns[i][..j]
        {
          assert columns[i][..j + 1] == columns[i][..j] + [columns[i][j]];
          copy.columns := copy.columns[i := copy.columns[i] + [columns[i][j]]];
        }
        assert columns[i][..|columns[i]|] == columns[i];
      }
      copy.moveSequence := moveSequence;
      copy.moves := moves;
    }

    /** `isTie()`: all 42 moves have been made. */
    predicate IsTie()
      reads this
    {
      moves == ROW_COUNT * COLUMN_COUNT
    }

    /** `canPlay(col)`: the column has room. */
    predicate CanPlay(col: int)
      reads this
      requires 0 <= col < |columns|
    {
      |columns[col]| < ROW_COUNT
    }

    /** `dropToRow(col)`: the height, counted from the bottom, where the next piece lands. */
    function DropToRow(col: int): int
      reads this
      requires 0 <= col < |columns|
    {
      |columns[col]|
    }

    /** `getPeiceAt(row, col)`, rows counted from the top; EMPTY where nothing is stored. */
    function PieceAt(row: int, col: int): int
      reads this
      requires 0 <= col < |columns|
    {
      var i := ROW_COUNT - row - 1;
      if 0 <= i < |columns[col]| then columns[col][i] else EMPTY
    }

    /** `isTie()` on a replayed board: the board holds 42 pieces. */
    lemma TieCountsPieces()
      requires Valid()
      ensures IsTie() <==> Total(columns) == ROW_COUNT * COLUMN_COUNT
    {
      ReplayFacts(moveSequence);
    }

    /**
     * How a column of a replayed board reads: `getPeiceAt` is EMPTY exactly
     * on the rows above the `dropToRow(col)` stored pieces, so the cell the
     * next piece lands on is empty when `canPlay(col)`, and `canPlay(col)`
     * holds exactly when the top cell is empty.
     */
    lemma ColumnReads(col: int)
      requires Valid() && 0 <= col < COLUMN_COUNT
      ensures forall row :: 0 <= row < ROW_COUNT ==>
        (PieceAt(row, col) == EMPTY <==> row < ROW_COUNT - DropToRow(col))
      ensures forall row :: 0 <= row < ROW_COUNT && PieceAt(row, col) != EMPTY ==>
        PieceAt(row, col) == columns[col][ROW_COUNT - row - 1]
      ensures CanPlay(col) <==> PieceAt(0, col) == EMPTY
      ensures CanPlay(col) ==> PieceAt(ROW_COUNT - 1 - DropToRow(col), col) == EMPTY
    {
      ReplayFacts(moveSequence);
    }

    /** A board on which all 42 moves have been made, with no column over-filled, has no room left. */
    lemma TieIsFull()
      requires Valid() && IsTie()
      requires forall c :: 0 <= c < COLUMN_COUNT ==> |columns[c]| <= ROW_COUNT
      ensures forall c :: 0 <= c < COLUMN_COUNT ==> !CanPlay(c)
    {
      ReplayFacts(moveSequence);
      forall c | 0 <= c < COLUMN_COUNT
        ensures !CanPlay(c)
      {
        if CanPlay(c) {
          TotalBound(columns, c);
          assert false;
        }
      }
    }

    /**
     * `play(col)`: the side to move (the wizard after an even number of
     * moves) drops a piece on top of `col`; nothing else changes.
     */
    method Play(col: int)
      requires Valid() && 0 <= col < COLUMN_COUNT
      modifies this
      ensures Valid()
      ensures columns == Push(old(columns), col, Mover(old(moves)))
      ensures moveSequence == old(moveSequence) + [CharOfColumn(col)]
      ensures moves == old(moves) + 1
      ensures DropToRow(col) == old(DropToRow(col)) + 1
      ensures PieceAt(ROW_COUNT - 1 - old(DropToRow(col)), col) == Mover(old(moves))
      ensures forall r, c :: 0 <= c < COLUMN_COUNT && (c != col || r != ROW_COUNT - 1 - old(DropToRow(col))) ==>
        PieceAt(r, c) == old(PieceAt(r, c))
    {
      var piece := if moves % 2 == 0 then WIZARD_PIECE else PLAYER_PIECE;
      ghost var s := moveSequence;
      columns := columns[col := columns[col] + [piece]];
      moveSequence := moveSequence + [CharOfColumn(col)];
      moves := moves + 1;
      assert moveSequence[..|s|] == s;
    }

    /** The cells the scans of `checkWinningMove` go over, from (col, row) along (dc, dr). */
    method Scan(col: int, row: int, dc: int, dr: int, forward: bool, piece: int, count0: int) returns (count: int)
      requires Valid() && 1 <= count0 <= 4
      ensures count == count0 + Run(columns, col, row, dc, dr, forward, 1, 4 - count0, piece)
    {
      count := count0;
      var offset := 1;
      while count < 4 && Extends(columns, col, row, dc, dr, Off(forward, offset), piece)
        invariant count0 <= count <= 4 && offset == count - count0 + 1
        invariant count + Run(columns, col, row, dc, dr, forward, offset, 4 - count, piece)
               == count0 + Run(columns, col, row, dc, dr, forward, 1, 4 - count0, piece)
        decreases 4 - count
      {
        count := count + 1;
        offset := offset + 1;
      }
    }

    /** Both scans along (dc, dr), the second going on with the count of the first. */
    method ScanLine(col: int, row: int, dc: int, dr: int, piece: int) returns (count: int)
      requires Valid()
      ensures count == LineCount(columns, col, row, dc, dr, piece)
    {
      count := Scan(col, row, dc, dr, true, piece, 1);
      RunMeaning(columns, col, row, dc, dr, true, 1, 3, piece, 0);
      count := Scan(col, row, dc, dr, false, piece, count);
    }

    /**
     * `checkWinningMove(col)`: the piece of the side to move if dropping it on
     * `col` makes four in a line, and nothing (`false`) otherwise.
     */
    method CheckWinningMove(col: int) returns (winner: Option<int>)
      requires Valid() && 0 <= col < COLUMN_COUNT
      ensures winner == if WinningMove(columns, moves, col) then Some(Mover(moves)) else None
    {
      var row := |columns[col]|;
      var piece := if moves % 2 == 0 then WIZARD_PIECE else PLAYER_PIECE;
      if row >= 3 && piece == columns[col][row - 1] && piece == columns[col][row - 2] && piece == columns[col][row - 3] {
        return Some(piece);
      }
      var count := ScanLine(col, row, 1, 0, piece);
      if count == 4 {
        return Some(piece);
      }
      count := ScanLine(col, row, 1, 1, piece);
      if count == 4 {
        return Some(piece);
      }
      count := ScanLine(col, row, 1, -1, piece);
      if count == 4 {
        return Some(piece);
      }
      return None;
    }

    /** `key()`: every column's pieces as digits, padded with '0' to six characters. */
    method Key() returns (key: string)
      requires Valid() && forall c :: 0 <= c < COLUMN_COUNT ==> |columns[c]| <= ROW_COUNT
      ensures key == KeyOf(columns)
    {
      ReplayFacts(moveSequence);
      key := "";
      for col := 0 to COLUMN_COUNT
        invariant key == KeyPrefix(columns, col)
      {
        key := key + Digits(columns[col]) + Zeros(ROW_COUNT - |columns[col]|);
      }
    }
  }

  lemma {:induction false} TotalBound(cols: Columns, c: int)
    requires |cols| == COLUMN_COUNT && 0 <= c < COLUMN_COUNT
    requires forall k :: 0 <= k < COLUMN_COUNT ==> |cols[k]| <= ROW_COUNT
    ensures Total(cols) <= ROW_COUNT * COLUMN_COUNT - ROW_COUNT + |cols[c]|
  {
    TotalUpdate(cols, c, seq(ROW_COUNT, _ => EMPTY));
    var full := cols[c := seq(ROW_COUNT, _ => EMPTY)];
    TotalAtMost(full, |full|);
  }

  lemma {:induction false} TotalAtMost(cols: Columns, n: nat)
    requires n == |cols| && forall k :: 0 <= k < |cols| ==> |cols[k]| <= ROW_COUNT
    ensures Total(cols) <= ROW_COUNT * n
  {
    if n > 0 {
      TotalAtMost(cols[..n - 1], n - 1);
    }
  }

  // ---------------------------------------------------------------------
  // checkWinningMove.
  // ---------------------------------------------------------------------

  /** Cell (c, r), with r counted from the bottom, holds `piece`; a missing cell holds nothing. */
  predicate Holds(cols: Columns, c: int, r: int, piece: int)
  {
    0 <= c < |cols| && 0 <= r < |cols[c]| && cols[c][r] == piece
  }

  /** The signed offset of step `o` of a scan. */
  function Off(forward: bool, o: int): int
  {
    if forward then o else -o
  }

  /**
   * The cell at signed offset `o` along (dc, dr) from (col, row) lies where the
   * scans of `checkWinningMove` may look, and holds `piece`: its column is on the
   * board, and its row is below ROW_COUNT when the scan climbs and at least 0 when
   * it descends.
   */
  predicate Extends(cols: Columns, col: int, row: int, dc: int, dr: int, o: int, piece: int)
  {
    var c := col + o * dc;
    var r := row + o * dr;
    && 0 <= c < COLUMN_COUNT
    && (o * dr > 0 ==> r < ROW_COUNT)
    && (o * dr < 0 ==> r >= 0)
    && Holds(cols, c, r, piece)
  }

  /** How many steps o, o + 1, ... (at most `budget`) in a row extend the line. */
  function Run(cols: Columns, col: int, row: int, dc: int, dr: int, forward: bool, o: int, budget: int, piece: int): int
    decreases budget
  {
    if budget <= 0 || !Extends(cols, col, row, dc, dr, Off(forward, o), piece) then 0
    else 1 + Run(cols, col, row, dc, dr, forward, o + 1, budget - 1, piece)
  }

  lemma {:induction false} RunMeaning(cols: Columns, col: int, row: int, dc: int, dr: int, forward: bool, o: int, budget: int, piece: int, m: int)
    requires 0 <= m <= budget
    ensures 0 <= Run(cols, col, row, dc, dr, forward, o, budget, piece) <= budget
    ensures Run(cols, col, row, dc, dr, forward, o, budget, piece) >= m <==>
      forall k :: o <= k < o + m ==> Extends(cols, col, row, dc, dr, Off(forward, k), piece)
    decreases budget
  {
    if budget > 0 && Extends(cols, col, row, dc, dr, Off(forward, o), piece) {
      RunMeaning(cols, col, row, dc, dr, forward, o + 1, budget - 1, piece, if m > 0 then m - 1 else 0);
      if m > 0 && forall k :: o + 1 <= k < o + m ==> Extends(cols, col, row, dc, dr, Off(forward, k), piece) {
        forall k | o <= k < o + m
          ensures Extends(cols, col, row, dc, dr, Off(forward, k), piece)
        {
          if k > o {
            assert o + 1 <= k < o + 1 + (m - 1);
          }
        }
      }
    } else if m > 0 {
      assert o <= o < o + m;
    }
  }

  /** `count` after the two scans along (dc, dr): one more than the cells found, at most 4. */
  function LineCount(cols: Columns, col: int, row: int, dc: int, dr: int, piece: int): int
  {
    var right := Run(cols, col, row, dc, dr, true, 1, 3, piece);
    1 + right + Run(cols, col, row, dc, dr, false, 1, 3 - right, piece)
  }

  /** The cells at offsets s to s + 3 along (dc, dr), other than (col, row) itself, hold `piece`. */
  predicate LineFrom(cols: Columns, col: int, row: int, dc: int, dr: int, s: int, piece: int)
  {
    forall o :: s <= o <= s + 3 && o != 0 ==> Extends(cols, col, row, dc, dr, o, piece)
  }

  /** Four consecutive cells along (dc, dr) include (col, row), and the other three hold `piece`. */
  ghost predicate FourThrough(cols: Columns, col: int, row: int, dc: int, dr: int, piece: int)
  {
    exists s :: -3 <= s <= 0 && LineFrom(cols, col, row, dc, dr, s, piece)
  }

  /** The two capped scans reach 4 exactly when a line of four runs through the cell. */
  lemma LineCountMeaning(cols: Columns, col: int, row: int, dc: int, dr: int, piece: int)
    ensures LineCount(cols, col, row, dc, dr, piece) == 4 <==> FourThrough(cols, col, row, dc, dr, piece)
  {
    var right := Run(cols, col, row, dc, dr, true, 1, 3, piece);
    RunMeaning(cols, col, row, dc, dr, true, 1, 3, piece, 0);
    var left := Run(cols, col, row, dc, dr, false, 1, 3 - right, piece);
    RunMeaning(cols, col, row, dc, dr, false, 1, 3 - right, piece, 0);
    if right + left == 3 {
      RunMeaning(cols, col, row, dc, dr, true, 1, 3, piece, right);
      RunMeaning(cols, col, row, dc, dr, false, 1, 3 - right, piece, left);
      var s := -left;
      forall o | s <= o <= s + 3 && o != 0
        ensures Extends(cols, col, row, dc, dr, o, piece)
      {
        if o > 0 {
          assert Off(true, o) == o && 1 <= o < 1 + right;
        } else {
          assert Off(false, -o) == o && 1 <= -o < 1 + left;
        }
      }
      assert LineFrom(cols, col, row, dc, dr, s, piece);
    }
    if FourThrough(cols, col, row, dc, dr, piece) {
      var s :| -3 <= s <= 0 && LineFrom(cols, col, row, dc, dr, s, piece);
      forall k | 1 <= k < 1 + (3 + s)
        ensures Extends(cols, col, row, dc, dr, Off(true, k), piece)
      {
        assert s <= k <= s + 3;
      }
      RunMeaning(cols, col, row, dc, dr, true, 1, 3, piece, 3 + s);
      forall k | 1 <= k < 1 + (3 - right)
        ensures Extends(cols, col, row, dc, dr, Off(false, k), piece)
      {
        assert s <= -k <= s + 3;
      }
      RunMeaning(cols, col, row, dc, dr, false, 1, 3 - right, piece, 3 - right);
    }
  }

  /** What `checkWinningMove(col)` tests, in the order it tests it. */
  predicate WinningMove(cols: Columns, moves: int, col: int)
    requires |cols| == COLUMN_COUNT && 0 <= col < COLUMN_COUNT
  {
    var row := |cols[col]|;
    var piece := Mover(moves);
    || (row >= 3 && cols[col][row - 1] == piece && cols[col][row - 2] == piece && cols[col][row - 3] == piece)
    || LineCount(cols, col, row, 1, 0, piece) == 4
    || LineCount(cols, col, row, 1, 1, piece) == 4
    || LineCount(cols, col, row, 1, -1, piece) == 4
  }

  /**
   * `checkWinningMove(col)` succeeds exactly when the mover's piece on top of
   * `col` would complete four in a line: down the column, across, or along
   * either diagonal.
   */
  lemma WinningMoveMeaning(cols: Columns, moves: int, col: int)
    requires |cols| == COLUMN_COUNT && 0 <= col < COLUMN_COUNT
    ensures WinningMove(cols, moves, col) <==>
      || FourThrough(cols, col, |cols[col]|, 0, 1, Mover(moves))
      || FourThrough(cols, col, |cols[col]|, 1, 0, Mover(moves))
      || FourThrough(cols, col, |cols[col]|, 1, 1, Mover(moves))
      || FourThrough(cols, col, |cols[col]|, 1, -1, Mover(moves))
  {
    var row, piece := |cols[col]|, Mover(moves);
    LineCountMeaning(cols, col, row, 1, 0, piece);
    LineCountMeaning(cols, col, row, 1, 1, piece);
    LineCountMeaning(cols, col, row, 1, -1, piece);
    VerticalMeaning(cols, col, piece);
  }

  /** The column test: the three pieces under the new one are the mover's. */
  lemma VerticalMeaning(cols: Columns, col: int, piece: int)
    requires |cols| == COLUMN_COUNT && 0 <= col < COLUMN_COUNT
    ensures (|cols[col]| >= 3 && cols[col][|cols[col]| - 1] == piece && cols[col][|cols[col]| - 2] == piece && cols[col][|cols[col]| - 3] == piece)
      <==> FourThrough(cols, col, |cols[col]|, 0, 1, piece)
  {
    var row := |cols[col]|;
    assert !Extends(cols, col, row, 0, 1, 1, piece);
    if FourThrough(cols, col, row, 0, 1, piece) {
      var s :| -3 <= s <= 0 && LineFrom(cols, col, row, 0, 1, s, piece);
      assert Extends(cols, col, row, 0, 1, -1, piece);
      assert Extends(cols, col, row, 0, 1, -2, piece);
      assert Extends(cols, col, row, 0, 1, -3, piece);
    }
    if row >= 3 && cols[col][row - 1] == piece && cols[col][row - 2] == piece && cols[col][row - 3] == piece {
      forall o | -3 <= o <= 0 && o != 0
        ensures Extends(cols, col, row, 0, 1, o, piece)
      {
        assert o == -1 || o == -2 || o == -3;
      }
      assert LineFrom(cols, col, row, 0, 1, -3, piece);
    }
  }

  // ---------------------------------------------------------------------
  // key.
  // ---------------------------------------------------------------------

  /** `join("")` of a column of pieces. */
  function Digits(column: seq<int>): (s: string)
    ensures |s| == |column|
  {
    seq(|column|, i requires 0 <= i < |column| => if 0 <= column[i] <= 9 then (column[i] + 48) as char else '?')
  }

  /** `"0".repeat(n)`. */
  function Zeros(n: int): (s: string)
    ensures |s| == if n < 0 then 0 else n
  {
    seq(if n < 0 then 0 else n, _ => '0')
  }

  /** The text `key()` builds for the first `n` columns. */
  function KeyPrefix(cols: Columns, n: int): string
    requires 0 <= n <= |cols|
  {
    if n == 0 then "" else KeyPrefix(cols, n - 1) + Digits(cols[n - 1]) + Zeros(ROW_COUNT - |cols[n - 1]|)
  }

  function KeyOf(cols: Columns): string
    requires |cols| == COLUMN_COUNT
  {
    KeyPrefix(cols, COLUMN_COUNT)
  }

  /** With no column over six pieces, each column takes exactly six characters of the key. */
  lemma {:induction false} KeyPrefixBlocks(cols: Columns, n: int)
    requires 0 <= n <= |cols| && forall k :: 0 <= k < |cols| ==> |cols[k]| <= ROW_COUNT
    ensures |KeyPrefix(cols, n)| == ROW_COUNT * n
    ensures forall k :: 0 <= k < n ==>
      KeyPrefix(cols, n)[ROW_COUNT * k..ROW_COUNT * k + ROW_COUNT] == Digits(cols[k]) + Zeros(ROW_COUNT - |cols[k]|)
  {
    if n > 0 {
      KeyPrefixBlocks(cols, n - 1);
      var before := KeyPrefix(cols, n - 1);
      var block := Digits(cols[n - 1]) + Zeros(ROW_COUNT - |cols[n - 1]|);
      assert KeyPrefix(cols, n) == before + block;
      forall k | 0 <= k < n
        ensures KeyPrefix(cols, n)[ROW_COUNT * k..ROW_COUNT * k + ROW_COUNT] == Digits(cols[k]) + Zeros(ROW_COUNT - |cols[k]|)
      {
        if k < n - 1 {
          assert ROW_COUNT * k + ROW_COUNT <= |before|;
          assert (before + block)[ROW_COUNT * k..ROW_COUNT * k + ROW_COUNT] == before[ROW_COUNT * k..ROW_COUNT * k + ROW_COUNT];
        } else {
          assert (before + block)[|before|..] == block;
        }
      }
    }
  }

  /** The number of characters before the first '0'. */
  function LeadingDigits(s: string): nat
  {
    if s == [] || s[0] == '0' then 0 else 1 + LeadingDigits(s[1..])
  }

  /** A column's block of the key starts with one non-'0' digit per piece. */
  lemma {:induction false} LeadingDigitsOfBlock(column: seq<int>, n: int)
    requires forall i :: 0 <= i < |column| ==> column[i] == PLAYER_PIECE || column[i] == WIZARD_PIECE
    ensures LeadingDigits(Digits(column) + Zeros(n)) == |column|
    decreases |column|
  {
    var block := Digits(column) + Zeros(n);
    if column == [] {
      assert block == Zeros(n);
    } else {
      assert block[0] == Digits(column)[0] != '0';
      assert block[1..] == Digits(column[1..]) + Zeros(n);
      LeadingDigitsOfBlock(column[1..], n);
    }
  }

  /** One column's block of the key gives the column back. */
  lemma ColumnBlockInjective(a: seq<int>, b: seq<int>)
    requires forall i :: 0 <= i < |a| ==> a[i] == PLAYER_PIECE || a[i] == WIZARD_PIECE
    requires forall i :: 0 <= i < |b| ==> b[i] == PLAYER_PIECE || b[i] == WIZARD_PIECE
    requires Digits(a) + Zeros(ROW_COUNT - |a|) == Digits(b) + Zeros(ROW_COUNT - |b|)
    ensures a == b
  {
    var ka, kb := Digits(a) + Zeros(ROW_COUNT - |a|), Digits(b) + Zeros(ROW_COUNT - |b|);
    LeadingDigitsOfBlock(a, ROW_COUNT - |a|);
    LeadingDigitsOfBlock(b, ROW_COUNT - |b|);
    forall i | 0 <= i < |a|
      ensures a[i] == b[i]
    {
      assert ka[i] == Digits(a)[i] && kb[i] == Digits(b)[i];
    }
  }

  /** `key()` tells positions apart: two boards with the same key hold the same pieces. */
  lemma KeyInjective(a: Columns, b: Columns)
    requires |a| == COLUMN_COUNT && |b| == COLUMN_COUNT && PiecesOk(a) && PiecesOk(b)
    requires forall k :: 0 <= k < COLUMN_COUNT ==> |a[k]| <= ROW_COUNT && |b[k]| <= ROW_COUNT
    requires KeyOf(a) == KeyOf(b)
    ensures a == b
    ensures |KeyOf(a)| == ROW_COUNT * COLUMN_COUNT
  {
    KeyPrefixBlocks(a, COLUMN_COUNT);
    KeyPrefixBlocks(b, COLUMN_COUNT);
    forall k | 0 <= k < COLUMN_COUNT
      ensures a[k] == b[k]
    {
      assert KeyOf(a)[ROW_COUNT * k..ROW_COUNT * k + ROW_COUNT] == KeyOf(b)[ROW_COUNT * k..ROW_COUNT * k + ROW_COUNT];
      ColumnBlockInjective(a[k], b[k]);
    }
  }

  // ---------------------------------------------------------------------
  // negamax.
  // ---------------------------------------------------------------------

  /** What `negamax` returns: a column (or undefined) and a score. */
  datatype Answer = Answer(move: Option<int>, score: int)

  /** Which columns have room and would win at once for the side to move. */
  function Winners(cols: Columns, moves: int): seq<bool>
    requires |cols| == COLUMN_COUNT
  {
    seq(COLUMN_COUNT, k requires 0 <= k < COLUMN_COUNT => |cols[k]| < ROW_COUNT && WinningMove(cols, moves, k))
  }

  /** The first index from `i` on where `w` holds. */
  function FirstTrue(w: seq<bool>, i: int): Option<int>
    requires 0 <= i <= |w|
    decreases |w| - i
  {
    if i == |w| then None else if w[i] then Some(i) else FirstTrue(w, i + 1)
  }

  lemma {:induction false} FirstTrueMeaning(w: seq<bool>, i: int)
    requires 0 <= i <= |w|
    ensures match FirstTrue(w, i)
      case Some(c) => i <= c < |w| && w[c] && forall k :: i <= k < c ==> !w[k]
      case None => forall k :: i <= k < |w| ==> !w[k]
    decreases |w| - i
  {
    if i < |w| {
      FirstTrueMeaning(w, i + 1);
    }
  }

  /** The column the win check of `negamax` settles on, scanning from column 0. */
  function FirstWin(cols: Columns, moves: int): Option<int>
    requires |cols| == COLUMN_COUNT
  {
    FirstTrue(Winners(cols, moves), 0)
  }

  /** That column is the least one with room whose move wins at once. */
  lemma FirstWinMeaning(cols: Columns, moves: int)
    requires |cols| == COLUMN_COUNT
    ensures match FirstWin(cols, moves)
      case Some(c) =>
        && 0 <= c < COLUMN_COUNT && |cols[c]| < ROW_COUNT && WinningMove(cols, moves, c)
        && forall k :: 0 <= k < c ==> !(|cols[k]| < ROW_COUNT && WinningMove(cols, moves, k))
      case None => forall k :: 0 <= k < COLUMN_COUNT ==> !(|cols[k]| < ROW_COUNT && WinningMove(cols, moves, k))
  {
    var w := Winners(cols, moves);
    FirstTrueMeaning(w, 0);
    assert forall k :: 0 <= k < COLUMN_COUNT ==> (w[k] <==> |cols[k]| < ROW_COUNT && WinningMove(cols, moves, k));
  }

  /**
   * `negamax(board, alpha, beta, depth)` as a value: out of depth it returns
   * alpha, on a full board 0, with a winning column the first one and
   * floor((43 - moves) / 2); otherwise beta is lowered to
   * floor((41 - moves) / 2) and the playable columns are searched in order.
   */
  function NegamaxOf(cols: Columns, moves: int, alpha: int, beta: int, depth: int): Answer
    requires |cols| == COLUMN_COUNT
    decreases depth, 1, 0
  {
    if depth < 0 then Answer(None, alpha)
    else if moves == ROW_COUNT * COLUMN_COUNT then Answer(None, 0)
    else match FirstWin(cols, moves)
      case Some(col) => Answer(Some(col), (COLUMN_COUNT * ROW_COUNT + 1 - moves) / 2)
      case None =>
        var max := (COLUMN_COUNT * ROW_COUNT - 1 - moves) / 2;
        if beta > max && alpha >= max then Answer(None, max)
        else NegamaxLoopOf(cols, moves, alpha, if beta > max then max else beta, depth, 0, None)
  }

  /** The score of a reply: minus the opponent's search after the mover plays `col`. */
  function ChildScore(cols: Columns, moves: int, col: int, alpha: int, beta: int, depth: int): int
    requires |cols| == COLUMN_COUNT && 0 <= col < COLUMN_COUNT && depth >= 0
    decreases depth, 0, 0
  {
    -NegamaxOf(Push(cols, col, Mover(moves)), moves + 1, -beta, -alpha, depth - 1).score
  }

  /** The loop over columns `col` and up, with the best column so far. */
  function NegamaxLoopOf(cols: Columns, moves: int, alpha: int, beta: int, depth: int, col: int, best: Option<int>): Answer
    requires |cols| == COLUMN_COUNT && 0 <= col <= COLUMN_COUNT && depth >= 0
    decreases depth, 0, COLUMN_COUNT + 1 - col
  {
    if col == COLUMN_COUNT then Answer(best, alpha)
    else if |cols[col]| >= ROW_COUNT then NegamaxLoopOf(cols, moves, alpha, beta, depth, col + 1, best)
    else
      var score := ChildScore(cols, moves, col, alpha, beta, depth);
      if score >= beta then Answer(Some(col), score)
      else if score > alpha then NegamaxLoopOf(cols, moves, score, beta, depth, col + 1, Some(col))
      else NegamaxLoopOf(cols, moves, alpha, beta, depth, col + 1, best)
  }

  /**
   * The loop never returns less than alpha; it returns alpha itself with the
   * best column it was given, or a larger score with a playable column.
   */
  lemma {:induction false} NegamaxLoopShape(cols: Columns, moves: int, alpha: int, beta: int, depth: int, col: int, best: Option<int>)
    requires |cols| == COLUMN_COUNT && 0 <= col <= COLUMN_COUNT && depth >= 0 && alpha < beta
    ensures var r := NegamaxLoopOf(cols, moves, alpha, beta, depth, col, best);
      && r.score >= alpha
      && ((r.score == alpha && r.move == best)
          || (r.score > alpha && r.move.Some? && col <= r.move.value < COLUMN_COUNT && |cols[r.move.value]| < ROW_COUNT))
    decreases COLUMN_COUNT - col
  {
    if col < COLUMN_COUNT {
      if |cols[col]| >= ROW_COUNT {
        NegamaxLoopShape(cols, moves, alpha, beta, depth, col + 1, best);
      } else {
        var score := ChildScore(cols, moves, col, alpha, beta, depth);
        if score >= beta {
        } else if score > alpha {
          NegamaxLoopShape(cols, moves, score, beta, depth, col + 1, Some(col));
        } else {
          NegamaxLoopShape(cols, moves, alpha, beta, depth, col + 1, best);
        }
      }
    }
  }

  /**
   * The outcomes of `negamax`: a column it names can be played; a winning
   * column is the first one and scores floor((43 - moves) / 2); and with no
   * win at hand and a window that survives the cap, the score is at least
   * alpha and exceeds it only together with a column.
   */
  lemma NegamaxShape(cols: Columns, moves: int, alpha: int, beta: int, depth: int)
    requires |cols| == COLUMN_COUNT && alpha < beta
    ensures var r := NegamaxOf(cols, moves, alpha, beta, depth);
      && (r.move.Some? ==> 0 <= r.move.value < COLUMN_COUNT && |cols[r.move.value]| < ROW_COUNT)
      && (depth >= 0 && moves != ROW_COUNT * COLUMN_COUNT && FirstWin(cols, moves).Some? ==>
            r == Answer(FirstWin(cols, moves), (COLUMN_COUNT * ROW_COUNT + 1 - moves) / 2))
      && (depth >= 0 && moves != ROW_COUNT * COLUMN_COUNT && FirstWin(cols, moves).None? &&
          alpha < (COLUMN_COUNT * ROW_COUNT - 1 - moves) / 2 ==>
            r.score >= alpha && (r.score > alpha ==> r.move.Some?) && (r.move.None? ==> r.score == alpha))
  {
    FirstWinMeaning(cols, moves);
    if depth >= 0 && moves != ROW_COUNT * COLUMN_COUNT && FirstWin(cols, moves).None? {
      var max := (COLUMN_COUNT * ROW_COUNT - 1 - moves) / 2;
      if !(beta > max && alpha >= max) {
        NegamaxLoopShape(cols, moves, alpha, if beta > max then max else beta, depth, 0, None);
      }
    }
  }

  /** One recursive call of `negamax`, on a copy of `board` with `col` played. */
  method Reply(board: Board, col: int, alpha: int, beta: int, depth: int) returns (score: int)
    requires board.Valid() && 0 <= col < COLUMN_COUNT && depth >= 0
    ensures score == ChildScore(board.columns, board.moves, col, alpha, beta, depth)
    decreases depth, 0
  {
    var boardCopy := board.Copy();
    boardCopy.Play(col);
    var _, childScore := Negamax(boardCopy, -beta, -alpha, depth - 1);
    score := -childScore;
  }

  /** The win check of `negamax`: the first column, in ascending order, that wins at once. */
  method FindWin(board: Board) returns (win: Option<int>)
    requires board.Valid()
    ensures win == FirstWin(board.columns, board.moves)
  {
    for col := 0 to COLUMN_COUNT
      invariant FirstWin(board.columns, board.moves) == FirstTrue(Winners(board.columns, board.moves), col)
    {
      if board.CanPlay(col) {
        var winner := board.CheckWinningMove(col);
        if winner.Some? {
          return Some(col);
        }
      }
    }
    return None;
  }

  /** The search loop of `negamax`: every playable column in order, raising alpha, until a cut-off. */
  method SearchColumns(board: Board, alpha0: int, beta: int, depth: int) returns (move: Option<int>, score: int)
    requires board.Valid() && depth >= 0
    ensures Answer(move, score) == NegamaxLoopOf(board.columns, board.moves, alpha0, beta, depth, 0, None)
    decreases depth, 1
  {
    ghost var goal := NegamaxLoopOf(board.columns, board.moves, alpha0, beta, depth, 0, None);
    var alpha := alpha0;
    var best: Option<int> := None;
    for col := 0 to COLUMN_COUNT
      invariant NegamaxLoopOf(board.columns, board.moves, alpha, beta, depth, col, best) == goal
    {
      if board.CanPlay(col) {
        var childScore := Reply(board, col, alpha, beta, depth);
        if childScore >= beta {
          return Some(col), childScore;
        }
        if childScore > alpha {
          best := Some(col);
          alpha := childScore;
        }
      }
    }
    return best, alpha;
  }

  /** `negamax(board, alpha, beta, depth)`; the board itself is left as it was. */
  method Negamax(board: Board, alpha: int, beta0: int, depth: int) returns (move: Option<int>, score: int)
    requires board.Valid()
    ensures Answer(move, score) == NegamaxOf(board.columns, board.moves, alpha, beta0, depth)
    decreases depth, 2
  {
    if depth < 0 {
      return None, alpha;
    }
    if board.IsTie() {
      return None, 0;
    }
    var win := FindWin(board);
    if win.Some? {
      return win, (COLUMN_COUNT * ROW_COUNT + 1 - board.moves) / 2;
    }
    var beta := beta0;
    var max := (COLUMN_COUNT * ROW_COUNT - 1 - board.moves) / 2;
    if beta > max {
      beta := max;
      if alpha >= beta {
        return None, beta;
      }
    }
    move, score := SearchColumns(board, alpha, beta, depth);
  }
}
