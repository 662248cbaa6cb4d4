/**
 * algorithm/board.js, the mask algebra: the constants, the static masks, and
 * the pure mask expressions of the exact solver's bitboard.
 *
 * Column c (0..6) owns bits 7c..7c+5, bottom cell first; bit 7c+6 is a guard
 * bit that no stone ever occupies.  `mask` holds every stone, `current` the
 * stones of the player to move.
 *
 * The source keeps both fields in Java BigIntegers.  Every value it builds
 * from an on-board position has its meaningful bits below bit 64 (the widest
 * shift, 24, applied to a 48-bit position is cut back to the board by an AND,
 * and every right shift is of a value below bit 64), so the masks are bv64.
 */
module BoardMasks {

  const ROW_COUNT: int := 6
  const COLUMN_COUNT: int := 7
  const PLAYER_PIECE: int := 1
  const WIZARD_PIECE: int := 2
  const EMPTY: int := 0

  type Col = c: int | 0 <= c < 7
  type Row = r: int | 0 <= r < 6

  /** `bottom_mask`: the bottom cell of every column. */
  const BOTTOM: bv64 := 0x40810204081
  /** `board_mask`: every playable cell. */
  const BOARD: bv64 := 0xFDFBF7EFDFBF

  /** `bottom(width, height)`: one bit at the foot of each of `width` columns of `height + 1` bits. */
  function Bottom(width: bv64, height: bv64): bv64
    requires width <= 7 && height <= 8
    decreases width
  {
    if width == 0 then 0
    else Bottom(width - 1, height) | (1 << ((width - 1) * (height + 1)))
  }

  /** `bottom_mask` is `bottom(COLUMN_COUNT, ROW_COUNT)`. */
  lemma BottomMaskValue()
    ensures Bottom(7, 6) == BOTTOM
  {
  }

  /** `board_mask` is `bottom_mask * ((1 << ROW_COUNT) - 1)`: six cells above each foot. */
  lemma BoardMaskValue()
    ensures BOARD == BOTTOM * ((1 << 6) - 1)
    ensures BOARD & BOTTOM == BOTTOM
  {
  }

  /** The bit offsets `col * (ROW_COUNT + 1)` of the seven columns. */
  predicate ColumnShift(s: bv64)
  {
    s == 0 || s == 7 || s == 14 || s == 21 || s == 28 || s == 35 || s == 42
  }

  /** Bit offset of a column: `col * (ROW_COUNT + 1)`, as a table. */
  function ColShift(c: Col): (s: bv64)
    ensures ColumnShift(s)
  {
    match c
    case 0 => 0
    case 1 => 7
    case 2 => 14
    case 3 => 21
    case 4 => 28
    case 5 => 35
    case 6 => 42
  }

  /** `x.shiftLeft(col * (ROW_COUNT + 1))`: the column pattern `x` moved to column `c`. */
  function AtColumn(x: bv64, c: Col): bv64
  {
    match c
    case 0 => x
    case 1 => x << 7
    case 2 => x << 14
    case 3 => x << 21
    case 4 => x << 28
    case 5 => x << 35
    case 6 => x << 42
  }

  /** The column masks as the source writes them, shifted by the column offset. */
  lemma ColumnMasksShift(c: Col)
    ensures AtColumn(0x20, c) == 0x20 << ColShift(c)
    ensures AtColumn(1, c) == 1 << ColShift(c)
    ensures AtColumn(0x3F, c) == 0x3F << ColShift(c)
  {
  }

  /** `Board.topMask(col)`. */
  function TopMask(c: Col): bv64
  {
    AtColumn(0x20, c)
  }

  /** `Board.bottomMask(col)`. */
  function BottomMask(c: Col): bv64
  {
    AtColumn(1, c)
  }

  /** `Board.columnMask(col)`. */
  function ColumnMask(c: Col): bv64
  {
    AtColumn(0x3F, c)
  }

  const ROW_BITS: seq<bv64> := [0x20, 0x10, 0x8, 0x4, 0x2, 0x1]

  /** `1 << (ROW_COUNT - (1 + row))`: the bit of row `row`, counted from the top, inside a column. */
  function RowBit(row: Row): (r: bv64)
    ensures r != 0 && r & !0x3F == 0
  {
    ROW_BITS[row]
  }

  /** A pattern inside one column stays on the board once moved to any column. */
  lemma AtColumnOnBoard(x: bv64, c: Col)
    requires x & !0x3F == 0
    ensures AtColumn(x, c) & !BOARD == 0
  {
  }

  /** `Board.coordinateMask(row, col)`. */
  function CoordinateMask(row: Row, c: Col): bv64
  {
    AtColumn(RowBit(row), c)
  }

  /** Every cell is a single bit. */
  lemma CoordinateOneBit(row: Row, c: Col)
    ensures OneBit(CoordinateMask(row, c))
  {
    RowBitOneBit(row);
    AtColumnOneBit(RowBit(row), c);
  }

  /** Two different cells never share a bit. */
  lemma CoordinatesDisjoint(row: Row, c: Col, row2: Row, c2: Col)
    requires row != row2 || c != c2
    ensures CoordinateMask(row, c) & CoordinateMask(row2, c2) == 0
  {
    hide CoordinateMask;
    if c == c2 {
      SameColumnCells(row, row2, c);
    } else {
      OtherColumnCells(row, c, row2, c2);
    }
  }

  lemma SameColumnCells(row: Row, row2: Row, c: Col)
    requires row != row2
    ensures CoordinateMask(row, c) & CoordinateMask(row2, c) == 0
  {
    hide AtColumn, RowBit;
    RowBitsDisjoint(row, row2);
    AtColumnAnd(RowBit(row), RowBit(row2), c);
  }

  lemma OtherColumnCells(row: Row, c: Col, row2: Row, c2: Col)
    requires c != c2
    ensures CoordinateMask(row, c) & CoordinateMask(row2, c2) == 0
  {
    hide AtColumn, RowBit, ColumnMask;
    AtColumnInColumn(RowBit(row), c);
    AtColumnInColumn(RowBit(row2), c2);
    ColumnsDisjoint(c, c2);
    InsideDisjoint(CoordinateMask(row, c), CoordinateMask(row2, c2), ColumnMask(c), ColumnMask(c2));
  }

  lemma RowBitOneBit(row: Row)
    ensures OneBit(RowBit(row))
  {
  }

  lemma RowBitsDisjoint(row: Row, row2: Row)
    requires row != row2
    ensures RowBit(row) & RowBit(row2) == 0
  {
  }

  lemma AtColumnOneBit(x: bv64, c: Col)
    requires OneBit(x) && x & !0x3F == 0
    ensures OneBit(AtColumn(x, c))
  {
  }

  lemma AtColumnAnd(x: bv64, y: bv64, c: Col)
    requires x & y == 0 && x & !0x3F == 0 && y & !0x3F == 0
    ensures AtColumn(x, c) & AtColumn(y, c) == 0
  {
  }

  lemma AtColumnInColumn(x: bv64, c: Col)
    requires x & !0x3F == 0
    ensures AtColumn(x, c) & !ColumnMask(c) == 0
  {
  }

  lemma ColumnsDisjoint(c: Col, c2: Col)
    requires c != c2
    ensures ColumnMask(c) & ColumnMask(c2) == 0
  {
  }

  lemma InsideDisjoint(x: bv64, y: bv64, m: bv64, n: bv64)
    requires x & !m == 0 && y & !n == 0 && m & n == 0
    ensures x & y == 0
  {
  }

  /**
   * A mask reached by dropping stones: on the board, and every cell whose
   * upper neighbour is filled is itself filled.
   */
  predicate Stacked(m: bv64)
  {
    m & !BOARD == 0 && (m >> 1) & BOARD & !m == 0
  }

  /**
   * `b` is the lowest empty cell of the column `colm`: a single bit of the
   * column, not in `m`, with every cell of the column below it in `m`.
   */
  predicate LowestEmpty(m: bv64, colm: bv64, b: bv64)
  {
    b != 0 && b & (b - 1) == 0 && b & !colm == 0 && b & m == 0 && (b - 1) & colm & !m == 0
  }

  /** `x` is a single set bit. */
  predicate OneBit(x: bv64)
  {
    x != 0 && x & (x - 1) == 0
  }

  // ---------------------------------------------------------------------
  // Facts about the column at bit offset s, proved once for every offset.
  // ---------------------------------------------------------------------

  /** Two lowest empty cells of one column are the same cell. */
  lemma LowestEmptyUnique(m: bv64, s: bv64, b1: bv64, b2: bv64)
    requires ColumnShift(s)
    requires LowestEmpty(m, 0x3F << s, b1) && LowestEmpty(m, 0x3F << s, b2)
    ensures b1 == b2
  {
  }

  lemma PlayColLowestAt(m: bv64, s: bv64)
    requires ColumnShift(s)
    requires Stacked(m) && m & (0x20 << s) == 0
    ensures LowestEmpty(m, 0x3F << s, (m + (1 << s)) & (0x3F << s))
  {
  }

  lemma PlayColFullAt(m: bv64, s: bv64)
    requires ColumnShift(s)
    requires Stacked(m) && m & (0x20 << s) != 0
    ensures (m + (1 << s)) & (0x3F << s) == 0
  {
  }

  lemma PlayColStackedAt(m: bv64, s: bv64)
    requires ColumnShift(s)
    requires Stacked(m)
    ensures Stacked(m | ((m + (1 << s)) & (0x3F << s)))
  {
  }

  lemma PossibleLowestAt(m: bv64, s: bv64)
    requires ColumnShift(s)
    requires Stacked(m) && m & (0x20 << s) == 0
    ensures LowestEmpty(m, 0x3F << s, (m + BOTTOM) & BOARD & (0x3F << s))
  {
  }

  lemma TopFilledMeansFull(m: bv64, s: bv64)
    requires ColumnShift(s)
    requires Stacked(m) && m & (0x20 << s) != 0
    ensures m & (0x3F << s) == 0x3F << s
  {
  }

  lemma PossibleOnFullColumn(m: bv64, s: bv64)
    requires ColumnShift(s)
    requires m & !BOARD == 0 && m & (0x3F << s) == 0x3F << s
    ensures (m + BOTTOM) & BOARD & (0x3F << s) == 0
  {
  }

  lemma PossibleFullAt(m: bv64, s: bv64)
    requires ColumnShift(s)
    requires Stacked(m) && m & (0x20 << s) != 0
    ensures (m + BOTTOM) & BOARD & (0x3F << s) == 0
  {
    TopFilledMeansFull(m, s);
    PossibleOnFullColumn(m, s);
  }

  lemma PossibleIsPlayColAt(m: bv64, s: bv64)
    requires ColumnShift(s)
    requires Stacked(m) && m & (0x20 << s) == 0
    ensures (m + BOTTOM) & BOARD & (0x3F << s) == (m + (1 << s)) & (0x3F << s)
  {
    PlayColLowestAt(m, s);
    PossibleLowestAt(m, s);
    LowestEmptyUnique(m, s, (m + BOTTOM) & BOARD & (0x3F << s), (m + (1 << s)) & (0x3F << s));
  }

  // ---------------------------------------------------------------------
  // Mask expressions of board.js and what they promise.
  // ---------------------------------------------------------------------

  /** The cell `playCol(col)` fills: `(mask + bottomMask(col)) & columnMask(col)`. */
  function PlayColMove(m: bv64, c: Col): bv64
  {
    (m + BottomMask(c)) & ColumnMask(c)
  }

  /** On a column whose top cell is empty, `playCol` fills exactly its lowest empty cell. */
  lemma PlayColLowest(m: bv64, c: Col)
    requires Stacked(m) && m & TopMask(c) == 0
    ensures LowestEmpty(m, ColumnMask(c), PlayColMove(m, c))
  {
    ColumnMasksShift(c);
    PlayColLowestAt(m, ColShift(c));
  }

  /** On a full column, `playCol` plays the empty move 0. */
  lemma PlayColFull(m: bv64, c: Col)
    requires Stacked(m) && m & TopMask(c) != 0
    ensures PlayColMove(m, c) == 0
  {
    ColumnMasksShift(c);
    PlayColFullAt(m, ColShift(c));
  }

  /** `playCol` keeps the stones stacked. */
  lemma PlayColStacked(m: bv64, c: Col)
    requires Stacked(m)
    ensures Stacked(m | PlayColMove(m, c))
  {
    ColumnMasksShift(c);
    PlayColStackedAt(m, ColShift(c));
  }

  /** `possible()`: the cells a stone can be dropped into next. */
  function PossibleOf(m: bv64): (r: bv64)
    ensures r & !BOARD == 0
  {
    (m + BOTTOM) & BOARD
  }

  /** In a column whose top is empty, `possible()` holds exactly the lowest empty cell. */
  lemma PossibleLowest(m: bv64, c: Col)
    requires Stacked(m) && m & TopMask(c) == 0
    ensures LowestEmpty(m, ColumnMask(c), PossibleOf(m) & ColumnMask(c))
  {
    ColumnMasksShift(c);
    PossibleLowestAt(m, ColShift(c));
  }

  /** In a full column, `possible()` holds nothing. */
  lemma PossibleFull(m: bv64, c: Col)
    requires Stacked(m) && m & TopMask(c) != 0
    ensures PossibleOf(m) & ColumnMask(c) == 0
  {
    ColumnMasksShift(c);
    PossibleFullAt(m, ColShift(c));
  }

  /** The cell of `possible()` in a playable column is the one `playCol` fills. */
  lemma PossibleIsPlayCol(m: bv64, c: Col)
    requires Stacked(m) && m & TopMask(c) == 0
    ensures PossibleOf(m) & ColumnMask(c) == PlayColMove(m, c)
  {
    ColumnMasksShift(c);
    PossibleIsPlayColAt(m, ColShift(c));
  }

  /** `possible()` of stacked stones holds only empty cells. */
  lemma PossibleEmpty(m: bv64)
    requires Stacked(m)
    ensures PossibleOf(m) & m == 0
  {
  }

  /** The board is the union of the seven columns. */
  lemma BoardIsColumns()
    ensures BOARD == ColumnMask(0) | ColumnMask(1) | ColumnMask(2) | ColumnMask(3) | ColumnMask(4) | ColumnMask(5) | ColumnMask(6)
  {
  }

  lemma AndOverSeven(x: bv64, a: bv64, b: bv64, c: bv64, d: bv64, e: bv64, f: bv64, g: bv64)
    ensures x & (a | b | c | d | e | f | g) == (x & a) | (x & b) | (x & c) | (x & d) | (x & e) | (x & f) | (x & g)
  {
  }

  /** A cell of the board lies in one of the seven columns. */
  lemma OnBoardInSomeColumn(x: bv64)
    requires x & BOARD != 0
    ensures exists c: Col :: x & ColumnMask(c) != 0
  {
    BoardIsColumns();
    hide ColumnMask;
    AndOverSeven(x, ColumnMask(0), ColumnMask(1), ColumnMask(2), ColumnMask(3), ColumnMask(4), ColumnMask(5), ColumnMask(6));
    var c: Col :| x & ColumnMask(c) != 0;
  }

  /** Dropping any set of `possible()` cells keeps the stones stacked. */
  lemma PossibleKeepsStacked(m: bv64, b: bv64)
    requires Stacked(m) && b & !PossibleOf(m) == 0
    ensures Stacked(m | b)
  {
  }

  /** Whatever is cut down to `y` lies inside `y`. */
  lemma AndInside(x: bv64, y: bv64)
    ensures (x & y) & !y == 0
  {
  }

  /** The four directions `computeWinningPosition` looks along, in its order. */
  datatype Direction = Vertical | Horizontal | Diagonal1 | Diagonal2

  /**
   * The cells that complete four in a row with the stones of `position`
   * along one direction (board.js lines 225-250, one block each): three
   * stones below for vertical; for the other directions, with step `s`
   * (7, 6 or 8), the missing end or inner cell of a line of four.
   */
  function LineCells(position: bv64, d: Direction): bv64
  {
    match d
    case Vertical =>
      (position << 1) & (position << 2) & (position << 3)
    case Horizontal =>
      var p := (position << 7) & (position << 14);
      var q := p >> 21;
      (p & (position << 21)) | (p & (position >> 7)) | (q & (position << 7)) | (q & (position >> 21))
    case Diagonal1 =>
      var p := (position << 6) & (position << 12);
      var q := p >> 18;
      (p & (position << 18)) | (p & (position >> 6)) | (q & (position << 6)) | (q & (position >> 18))
    case Diagonal2 =>
      var p := (position << 8) & (position << 16);
      var q := p >> 24;
      (p & (position << 24)) | (p & (position >> 8)) | (q & (position << 8)) | (q & (position >> 24))
  }

  /**
   * `alignment(pos)`: some stone of `pos` has stones one, two and three
   * steps from it horizontally (step 7), on either diagonal (6 and 8) or
   * vertically (1).
   */
  predicate Alignment(pos: bv64)
  {
    var h, d1, d2, v := pos & (pos >> 7), pos & (pos >> 6), pos & (pos >> 8), pos & (pos >> 1);
    h & (h >> 14) != 0 || d1 & (d1 >> 12) != 0 || d2 & (d2 >> 16) != 0 || v & (v >> 2) != 0
  }

  lemma HorizontalMonotone(p: bv64, q: bv64)
    requires p & !q == 0
    ensures var mp, mq := p & (p >> 7), q & (q >> 7);
      mp & (mp >> 14) != 0 ==> mq & (mq >> 14) != 0
  {
  }

  lemma Diagonal1Monotone(p: bv64, q: bv64)
    requires p & !q == 0
    ensures var mp, mq := p & (p >> 6), q & (q >> 6);
      mp & (mp >> 12) != 0 ==> mq & (mq >> 12) != 0
  {
  }

  lemma Diagonal2Monotone(p: bv64, q: bv64)
    requires p & !q == 0
    ensures var mp, mq := p & (p >> 8), q & (q >> 8);
      mp & (mp >> 16) != 0 ==> mq & (mq >> 16) != 0
  {
  }

  lemma VerticalMonotone(p: bv64, q: bv64)
    requires p & !q == 0
    ensures var mp, mq := p & (p >> 1), q & (q >> 1);
      mp & (mp >> 2) != 0 ==> mq & (mq >> 2) != 0
  {
  }

  /** Adding stones never breaks a line of four. */
  lemma AlignmentMonotone(p: bv64, q: bv64)
    requires p & !q == 0
    ensures Alignment(p) ==> Alignment(q)
  {
    HorizontalMonotone(p, q);
    Diagonal1Monotone(p, q);
    Diagonal2Monotone(p, q);
    VerticalMonotone(p, q);
  }

  /**
   * The alignment part of `computeWinningPosition`: every cell that
   * completes four in a row with the stones of `position`, along any of
   * the four directions.
   */
  function WinningCells(position: bv64): bv64
  {
    LineCells(position, Vertical) | LineCells(position, Horizontal) |
    LineCells(position, Diagonal1) | LineCells(position, Diagonal2)
  }

  /**
   * `computeWinningPosition(position, mask)`: the winning cells that are on
   * the board and empty.
   */
  function ComputeWinningPosition(position: bv64, mask: bv64): (r: bv64)
    ensures r & !(BOARD ^ mask) == 0
  {
    AndInside(WinningCells(position), BOARD ^ mask);
    WinningCells(position) & (BOARD ^ mask)
  }

  /** Inside `BOARD ^ mask` with `mask` on the board means empty and on the board. */
  lemma OutsideMask(x: bv64, mask: bv64)
    requires x & !(BOARD ^ mask) == 0 && mask & !BOARD == 0
    ensures x & mask == 0 && x & !BOARD == 0
  {
  }

  /** On a position whose stones lie on the board, every winning cell is an empty board cell. */
  lemma WinningCellsEmpty(position: bv64, mask: bv64)
    requires mask & !BOARD == 0
    ensures ComputeWinningPosition(position, mask) & mask == 0
    ensures ComputeWinningPosition(position, mask) & !BOARD == 0
  {
    OutsideMask(ComputeWinningPosition(position, mask), mask);
  }

  /**
   * The decision part of `possibleNonLosingMoves()`: given the possible cells
   * and the opponent's winning cells.  Two or more forced cells lose; one
   * forced cell is the only candidate; never play directly below an
   * opponent winning cell.
   */
  function NonLosing(possibleMask: bv64, opponentWin: bv64): (r: bv64)
    ensures r & !possibleMask == 0
    ensures r & (opponentWin >> 1) == 0
  {
    var forced := possibleMask & opponentWin;
    if forced != 0 then
      if forced & (forced - 1) != 0 then 0
      else forced & !(opponentWin >> 1)
    else possibleMask & !(opponentWin >> 1)
  }

  lemma TwoBitsNotOneBit(x: bv64, a: bv64, b: bv64)
    requires OneBit(a) && OneBit(b) && a != b
    requires a & !x == 0 && b & !x == 0
    ensures x & (x - 1) != 0
  {
  }

  /** Two distinct forced cells leave no non-losing move. */
  lemma TwoForcedLose(possibleMask: bv64, opponentWin: bv64, a: bv64, b: bv64)
    requires OneBit(a) && OneBit(b) && a != b
    requires a & !(possibleMask & opponentWin) == 0 && b & !(possibleMask & opponentWin) == 0
    ensures NonLosing(possibleMask, opponentWin) == 0
  {
    TwoBitsNotOneBit(possibleMask & opponentWin, a, b);
  }

  /** One forced cell is the only candidate. */
  lemma OneForcedOnly(possibleMask: bv64, opponentWin: bv64)
    requires OneBit(possibleMask & opponentWin)
    ensures NonLosing(possibleMask, opponentWin) & !(possibleMask & opponentWin) == 0
  {
  }

  /** `possibleNonLosingMoves()` of the position (`current`, `mask`). */
  function PossibleNonLosingMovesOf(current: bv64, mask: bv64): bv64
  {
    NonLosing(PossibleOf(mask), ComputeWinningPosition(current ^ mask, mask))
  }

  /** `key()`: the transposition key `current + mask`. */
  function KeyOf(current: bv64, mask: bv64): bv64
  {
    current + mask
  }

  /** Distinct reachable positions have distinct keys. */
  lemma KeyInjective(c1: bv64, m1: bv64, c2: bv64, m2: bv64)
    requires Stacked(m1) && Stacked(m2) && c1 & !m1 == 0 && c2 & !m2 == 0
    requires KeyOf(c1, m1) == KeyOf(c2, m2)
    ensures c1 == c2 && m1 == m2
  {
  }
}
