/**
 * algorithm/board.js, the `Board` class of the exact solver: the two
 * bit-fields and the move counter, updated in place, plus the loops of
 * `partialKey3`, `key3`, `popcount` and `dropRow`.
 */
module Bitboard {
  import opened Util
  import opened BoardMasks

  /** The piece code of the player to move after `n` moves: WIZARD moves first. */
  function MoverPiece(n: nat): (p: int)
    ensures p == WIZARD_PIECE <==> n % 2 == 0
    ensures p == PLAYER_PIECE <==> n % 2 == 1
  {
    if n % 2 == 0 then WIZARD_PIECE else PLAYER_PIECE
  }

  // ---------------------------------------------------------------------
  // popcount
  // ---------------------------------------------------------------------

  /** The number of set bits of `x`. */
  function Bits(x: bv64): nat
    decreases x
  {
    if x == 0 then 0 else (if x & 1 == 1 then 1 else 0) + Bits(x >> 1)
  }

  lemma BitsStep(x: bv64)
    ensures Bits(x) == (if x & 1 == 1 then 1 else 0) + Bits(x >> 1)
  {
  }

  lemma ClearEvenLowest(x: bv64)
    requires x != 0 && x & 1 == 0
    ensures (x & (x - 1)) & 1 == 0 && x >> 1 != 0
    ensures (x & (x - 1)) >> 1 == (x >> 1) & ((x >> 1) - 1)
  {
  }

  lemma ClearOddLowest(x: bv64)
    requires x & 1 == 1
    ensures (x & (x - 1)) & 1 == 0
    ensures (x & (x - 1)) >> 1 == x >> 1
  {
  }

  /** `m & (m - 1)` clears exactly one set bit. */
  /** `x & (x - 1)` has one set bit fewer than `x`. */
  predicate ClearsOne(x: bv64)
  {
    Bits(x & (x - 1)) == Bits(x) - 1
  }

  lemma ClearOddCase(x: bv64)
    requires x & 1 == 1
    ensures ClearsOne(x)
  {
    var y := x & (x - 1);
    BitsStep(x);
    BitsStep(y);
    ClearOddLowest(x);
  }

  lemma ClearEvenCase(x: bv64)
    requires x != 0 && x & 1 == 0
    requires ClearsOne(x >> 1)
    ensures ClearsOne(x)
  {
    var y := x & (x - 1);
    BitsStep(x);
    BitsStep(y);
    ClearEvenLowest(x);
  }

  lemma Halves(x: bv64)
    requires x != 0
    ensures x >> 1 < x
  {
  }

  /** `m & (m - 1)` clears exactly one set bit. */
  lemma {:induction false} ClearLowestBit(x: bv64)
    requires x != 0
    ensures ClearsOne(x)
    decreases x
  {
    if x & 1 == 1 {
      ClearOddCase(x);
    } else {
      var h := x >> 1;
      Halves(x);
      ClearLowestBit(h);
      ClearEvenCase(x);
    }
  }

  // ---------------------------------------------------------------------
  // key3: a base-3 reading of the columns
  // ---------------------------------------------------------------------

  /**
   * `!pos.and(x).equals(BigInt.ZERO)` for the single-bit `pos` that is bit `i`:
   * the cell `i` is set in `x`.  There are no cells past bit 63.
   */
  predicate HasCell(x: bv64, i: nat)
  {
    i < 64 && x & (1 << i) != 0
  }

  /**
   * The digits the loop of `partialKey3` reads from cell `i` upwards: 1 for
   * a stone of the player to move, 2 for the other player's, until the first
   * cell that holds no stone.
   */
  function DigitsFrom(current: bv64, mask: bv64, i: nat): seq<nat>
    decreases 64 - i
  {
    if !HasCell(mask, i) then []
    else [if HasCell(current, i) then 1 else 2] + DigitsFrom(current, mask, i + 1)
  }

  /**
   * The digits of scan column `c` (0..7), read from its foot, the bit
   * `c * (ROW_COUNT + 1)`; column 7 lies past the board.
   */
  function ColumnDigits(current: bv64, mask: bv64, c: int): seq<nat>
    requires 0 <= c <= 7
  {
    DigitsFrom(current, mask, c * (ROW_COUNT + 1))
  }

  /** There is no eighth column: its foot cell is off the board. */
  lemma EighthFootEmpty(mask: bv64)
    requires mask & !BOARD == 0
    ensures !HasCell(mask, 7 * (ROW_COUNT + 1))
  {
  }

  /** Append base-3 digits to `key`. */
  function Push(key: nat, ds: seq<nat>): nat
    decreases |ds|
  {
    if ds == [] then key else Push(key * 3 + ds[0], ds[1..])
  }

  /** `partialKey3(key, col)` on a column read as `ds`: its digits, then a 0 digit as separator. */
  function PartialKey3Of(key: nat, ds: seq<nat>): nat
  {
    Push(key, ds) * 3
  }

  /** `partialKey3` over the columns `cols` in turn. */
  function KeyScan(key: nat, cols: seq<seq<nat>>): nat
    decreases |cols|
  {
    if cols == [] then key else KeyScan(PartialKey3Of(key, cols[0]), cols[1..])
  }

  /** One step of a scan: the column at `j` is pushed, and the scan goes on from `j + 1`. */
  lemma KeyScanStep(key: nat, cols: seq<seq<nat>>, j: nat)
    requires j < |cols|
    ensures KeyScan(key, cols[j..]) == KeyScan(PartialKey3Of(key, cols[j]), cols[j + 1..])
  {
    assert cols[j..][1..] == cols[j + 1..];
  }

  /** The digits of the eight scan columns 0..7. */
  function Columns(current: bv64, mask: bv64): (cols: seq<seq<nat>>)
    ensures |cols| == 8
  {
    seq(8, c requires 0 <= c < 8 => ColumnDigits(current, mask, c))
  }

  function Reverse<T>(s: seq<T>): (r: seq<T>)
    ensures |r| == |s|
  {
    seq(|s|, k requires 0 <= k < |s| => s[|s| - 1 - k])
  }

  /**
   * `key3()` on columns read as `cols`: the forward scan over columns 0..6,
   * the reverse scan over columns 7..0, and the smaller of the two divided by 3.
   */
  function Key3OfColumns(cols: seq<seq<nat>>): nat
    requires |cols| == 8
  {
    var f := KeyScan(0, cols[..7]);
    var r := KeyScan(0, Reverse(cols));
    if f < r then f / 3 else r / 3
  }

  function Key3Of(current: bv64, mask: bv64): nat
  {
    Key3OfColumns(Columns(current, mask))
  }

  /** On a board the eighth scan column reads as no digits. */
  lemma EighthColumnEmpty(current: bv64, mask: bv64)
    requires mask & !BOARD == 0
    ensures Columns(current, mask)[7] == []
  {
    EighthFootEmpty(mask);
  }

  /** An empty column in front of the scan changes nothing: it pushes a 0 digit onto the zero key. */
  lemma ScanSkipsLeadingEmpty(cols: seq<seq<nat>>)
    ensures KeyScan(0, [[]] + cols) == KeyScan(0, cols)
  {
    assert ([[]] + cols)[1..] == cols;
  }

  /** Column `j` of one position reads as column `6 - j` of the other, and neither has an eighth column. */
  predicate MirroredColumns(cols1: seq<seq<nat>>, cols2: seq<seq<nat>>)
  {
    |cols1| == 8 && |cols2| == 8 && cols1[7] == [] && cols2[7] == [] &&
    forall j :: 0 <= j < 7 ==> cols1[j] == cols2[6 - j]
  }

  lemma ForwardIsMirroredReverse(cols1: seq<seq<nat>>, cols2: seq<seq<nat>>)
    requires MirroredColumns(cols1, cols2)
    ensures KeyScan(0, cols1[..7]) == KeyScan(0, Reverse(cols2))
  {
    assert Reverse(cols2) == [[]] + cols1[..7];
    ScanSkipsLeadingEmpty(cols1[..7]);
  }

  /**
   * `key3` is the same for a position and its mirror image: the forward scan
   * of one is the reverse scan of the other, so the smaller of the two agrees.
   */
  lemma Key3Symmetric(c1: bv64, m1: bv64, c2: bv64, m2: bv64)
    requires m1 & !BOARD == 0 && m2 & !BOARD == 0
    requires forall j :: 0 <= j < 7 ==> ColumnDigits(c1, m1, j) == ColumnDigits(c2, m2, 6 - j)
    ensures Key3Of(c1, m1) == Key3Of(c2, m2)
  {
    var cols1, cols2 := Columns(c1, m1), Columns(c2, m2);
    EighthColumnEmpty(c1, m1);
    EighthColumnEmpty(c2, m2);
    assert MirroredColumns(cols1, cols2);
    assert MirroredColumns(cols2, cols1) by {
      forall j | 0 <= j < 7
        ensures cols2[j] == cols1[6 - j]
      {
        assert cols1[6 - j] == cols2[6 - (6 - j)];
      }
    }
    ForwardIsMirroredReverse(cols1, cols2);
    ForwardIsMirroredReverse(cols2, cols1);
  }

  // ---------------------------------------------------------------------
  // Reading the board
  // ---------------------------------------------------------------------

  /**
   * `getPeiceAt` on the cell `cell`: EMPTY when no stone is there, else the
   * piece code of whoever owns the stone, with WIZARD moving first.
   */
  function PieceAt(current: bv64, mask: bv64, moves: nat, cell: bv64): int
  {
    if mask & cell == 0 then EMPTY
    else if current & cell != 0 then MoverPiece(moves)
    else MoverPiece(moves + 1)
  }

  lemma PlacedCell(c: bv64, m: bv64, b: bv64)
    requires c & !m == 0 && b & m == 0 && b != 0
    ensures (m | b) & b != 0 && (c ^ m) & b == 0
  {
  }

  lemma OtherCell(c: bv64, m: bv64, b: bv64, x: bv64)
    requires c & !m == 0 && OneBit(x) && x & b == 0
    ensures (m | b) & x == 0 <==> m & x == 0
    ensures m & x != 0 ==> ((c ^ m) & x != 0 <==> c & x == 0)
  {
  }

  /** The stone `play` drops reads as the piece of the player who dropped it. */
  lemma PlayedStonePiece(c: bv64, m: bv64, n: nat, b: bv64)
    requires c & !m == 0 && b & m == 0 && b != 0
    ensures PieceAt(c ^ m, m | b, n + 1, b) == MoverPiece(n)
  {
    PlacedCell(c, m, b);
  }

  /** `play` leaves every other cell reading as before. */
  lemma PlayKeepsOtherPieces(c: bv64, m: bv64, n: nat, b: bv64, x: bv64)
    requires c & !m == 0 && OneBit(x) && x & b == 0
    ensures PieceAt(c ^ m, m | b, n + 1, x) == PieceAt(c, m, n, x)
  {
    OtherCell(c, m, b, x);
  }

  lemma OwnerlessCell(c: bv64, m: bv64, b: bv64)
    requires c & !m == 0 && b & m == 0
    ensures c & b == 0
  {
  }

  lemma SetBit(x: bv64, b: bv64)
    requires b != 0
    ensures (x | b) & b != 0
  {
  }

  /**
   * `setPeiceAt` on the empty cell `b`: the stone reads as the piece of the
   * player to move unless it was set for the opponent; since the count goes
   * up by one without swapping the bit-fields, the player to move is now
   * the other one.
   */
  lemma SetStonePiece(c: bv64, m: bv64, n: nat, b: bv64, isOpponent: bool)
    requires c & !m == 0 && b & m == 0 && b != 0
    ensures isOpponent ==> PieceAt(c, m | b, n + 1, b) == MoverPiece(n + 2)
    ensures !isOpponent ==> PieceAt(c | b, m | b, n + 1, b) == MoverPiece(n + 1)
  {
    if isOpponent {
      OpponentStonePiece(c, m, n, b);
    } else {
      OwnStonePiece(c, m, n, b);
    }
  }

  lemma OpponentStonePiece(c: bv64, m: bv64, n: nat, b: bv64)
    requires c & !m == 0 && b & m == 0 && b != 0
    ensures PieceAt(c, m | b, n + 1, b) == MoverPiece(n + 2)
  {
    SetBit(m, b);
    OwnerlessCell(c, m, b);
  }

  lemma OwnStonePiece(c: bv64, m: bv64, n: nat, b: bv64)
    requires b != 0
    ensures PieceAt(c | b, m | b, n + 1, b) == MoverPiece(n + 1)
  {
    SetBit(m, b);
    SetBit(c, b);
  }

  /**
   * `setPeiceAt` leaves every other cell's bits as they were, and so every
   * other stone reads as the piece of the other player, while the empty
   * cells stay empty.
   */
  lemma SetFlipsOtherPieces(c: bv64, m: bv64, n: nat, b: bv64, x: bv64, isOpponent: bool)
    requires c & !m == 0 && OneBit(x) && x & b == 0
    ensures (m | b) & x == m & x
    ensures (if isOpponent then c else c | b) & x == c & x
    ensures PieceAt(if isOpponent then c else c | b, m | b, n + 1, x) == OtherPiece(PieceAt(c, m, n, x))
  {
    OtherCell(c, m, b, x);
  }

  /** The piece code of the other player; EMPTY stays EMPTY. */
  function OtherPiece(p: int): int
  {
    if p == EMPTY then EMPTY else 3 - p
  }

  /** `invert` swaps the owner of every stone and leaves the empty cells empty. */
  lemma InvertSwapsPieces(c: bv64, m: bv64, n: nat, x: bv64)
    requires c & !m == 0 && OneBit(x)
    ensures PieceAt(c ^ m, m, n, x) == OtherPiece(PieceAt(c, m, n, x))
  {
    if m & x != 0 {
      OtherCell(c, m, 0, x);
    }
  }

  /** `invert` twice gives back the board: the other side's stones are swapped back. */
  lemma InvertTwice(b: Board)
    requires b.Valid()
    ensures b.Invert().Valid() && b.Invert().Invert() == b
  {
  }

  /** The cell of row `row` (0 is the top) of column `c` holds a stone. */
  predicate Occupied(mask: bv64, row: Row, c: Col)
  {
    mask & CoordinateMask(row, c) != 0
  }

  /** The first row from `row` down whose cell of column `c` holds a stone; 6 when none does. */
  function FirstOccupied(mask: bv64, c: Col, row: nat): (r: nat)
    requires row <= ROW_COUNT
    ensures row <= r <= ROW_COUNT
    decreases ROW_COUNT - row
  {
    if row == ROW_COUNT then ROW_COUNT
    else if Occupied(mask, row, c) then row
    else FirstOccupied(mask, c, row + 1)
  }

  /** Every cell above the first stone is empty. */
  lemma {:induction false} FirstOccupiedIsFirst(mask: bv64, c: Col, row: nat, above: Row)
    requires row <= above < FirstOccupied(mask, c, row)
    ensures !Occupied(mask, above, c)
    decreases ROW_COUNT - row
  {
    if above > row {
      assert FirstOccupied(mask, c, row) == FirstOccupied(mask, c, row + 1);
      FirstOccupiedIsFirst(mask, c, row + 1, above);
    }
  }

  /** Every character names a column, '1' to '7'. */
  predicate MoveDigits(s: string)
  {
    forall i :: 0 <= i < |s| ==> '1' <= s[i] <= '7'
  }

  /**
   * The solver's bitboard: `current_position`, `mask` and `moves` of
   * board.js.  The model passes boards as values: the operations that update
   * the fields in place return the updated board.
   */
  datatype Board = Board(current: bv64, mask: bv64, moves: nat) {

    /** The player to move owns only stones that are on the board. */
    ghost predicate Valid()
    {
      current & !mask == 0 && mask & !BOARD == 0
    }

    /** `canPlay(col)`: the column's top cell is empty. */
    predicate CanPlay(c: Col)
    {
      mask & TopMask(c) == 0
    }

    /**
     * `play(move)`: the other player is to move, and the move's cells join
     * the stones.  A move that keeps the stones stacked keeps the board valid.
     */
    function Play(move: bv64): (b: Board)
      requires Valid() && Stacked(mask | move)
      ensures b.Valid() && Stacked(b.mask)
      ensures mask & !b.mask == 0 && move & !b.mask == 0
      ensures b.moves == moves + 1
    {
      Board(current ^ mask, mask | move, moves + 1)
    }

    /**
     * `playCol(col)`: `play` the cell `(mask + bottomMask(col)) & columnMask(col)`,
     * which is the column's lowest empty cell (PlayColLowest), or nothing on
     * a full column (PlayColFull).
     */
    function PlayCol(c: Col): (b: Board)
      requires Valid() && Stacked(mask)
      ensures b.Valid() && Stacked(b.mask)
      ensures mask & !b.mask == 0
      ensures b.moves == moves + 1
    {
      PlayColStacked(mask, c);
      Board(current ^ mask, mask | PlayColMove(mask, c), moves + 1)
    }

    /** `winningPosition()`: the cells that would win for the player to move. */
    function WinningPosition(): bv64
    {
      ComputeWinningPosition(current, mask)
    }

    /** `opponentWinningPosition()`. */
    function OpponentWinningPosition(): bv64
    {
      ComputeWinningPosition(current ^ mask, mask)
    }

    /** `possible()`: cells of the board; per column see `PossibleColumn`. */
    function Possible(): (r: bv64)
      ensures r & !BOARD == 0
    {
      PossibleOf(mask)
    }

    /** `possibleNonLosingMoves()`; see `NonLosingMoves`. */
    function PossibleNonLosingMoves(): bv64
    {
      PossibleNonLosingMovesOf(current, mask)
    }

    /** `canWinNext()`: some possible cell wins at once. */
    predicate CanWinNext()
    {
      WinningPosition() & Possible() != 0
    }

    /**
     * `isWinningMove(col)`: the mover's piece code when the column's possible
     * cell wins at once, `false` (None) otherwise.
     */
    function IsWinningMove(c: Col): (r: Option<int>)
      ensures r.Some? ==> r.value == MoverPiece(moves) && CanWinNext()
    {
      if WinningPosition() & Possible() & ColumnMask(c) != 0 then
        Some(MoverPiece(moves))
      else None
    }

    /** `isTie()`: all 42 cells have been played. */
    predicate IsTie()
    {
      moves == ROW_COUNT * COLUMN_COUNT
    }

    /** `key()`. */
    function Key(): bv64
    {
      KeyOf(current, mask)
    }

    /**
     * `getPeiceAt(row, col)`: EMPTY exactly on an empty cell; see
     * `StoneOwner` for whose piece a stone reads as.
     */
    function GetPieceAt(row: Row, c: Col): (r: int)
      ensures r == EMPTY <==> !Occupied(mask, row, c)
    {
      PieceAt(current, mask, moves, CoordinateMask(row, c))
    }

    /**
     * `setPeiceAt(row, col, is_opponent)`: put a stone on an empty cell without
     * gravity; the stone belongs to the player to move unless `isOpponent`.
     * An occupied cell leaves the board as it is.
     */
    function SetPieceAt(row: Row, c: Col, isOpponent: bool): (b: Board)
      requires Valid()
      ensures b.Valid() && Occupied(b.mask, row, c)
      ensures Occupied(mask, row, c) ==> b == this
      ensures !Occupied(mask, row, c) ==> b.moves == moves + 1
    {
      var coord := CoordinateMask(row, c);
      if mask & coord != 0 then this
      else
        CoordinateOnBoard(row, c);
        Board(if isOpponent then current else current | coord, mask | coord, moves + 1)
    }

    /** `invert()`: hand every stone to the other player. */
    function Invert(): (b: Board)
      requires Valid()
      ensures b.Valid() && b.mask == mask && b.moves == moves
    {
      Board(current ^ mask, mask, moves)
    }

    /**
     * `playSequence(sequence)`: play the columns named by the digits '1'..'7',
     * skipping full columns.  Stops with the winner's piece code after a
     * winning move, with -1 once the board is full, and with undefined (None)
     * at the end of the sequence; `b` is the board afterwards.
     */
    function Replayed(s: string, i: nat): (res: (Board, Option<int>))
      requires Valid() && Stacked(mask) && MoveDigits(s) && i <= |s|
      decreases |s| - i
    {
      if i == |s| then (this, None)
      else
        var col := s[i] as int - 49;
        var winner := if CanPlay(col) then IsWinningMove(col) else None;
        var next := if CanPlay(col) then PlayCol(col) else this;
        if winner.Some? then (next, winner)
        else if next.IsTie() then (next, Some(-1))
        else next.Replayed(s, i + 1)
    }

    method TakeTurn(s: string, i: nat) returns (next: Board, res: Option<int>)
      requires Valid() && Stacked(mask) && MoveDigits(s) && i < |s|
      ensures next.Valid() && Stacked(next.mask)
      ensures next.moves == moves || next.moves == moves + 1
      ensures res.Some? ==> (next, res) == Replayed(s, i)
      ensures res.None? ==> !next.IsTie() && next.Replayed(s, i + 1) == Replayed(s, i)
      ensures res == Some(-1) ==> next.IsTie()
      ensures res.Some? && res.value != -1 ==> next.moves == moves + 1 && res.value == MoverPiece(moves)
    {
      var col := (s[i] as int) - 49;
      next := this;
      res := None;
      if CanPlay(col) {
        res := IsWinningMove(col);
        next := PlayCol(col);
        if res.Some? {
          return;
        }
      }
      if next.IsTie() {
        res := Some(-1);
      }
    }

    method PlaySequence(sequence: string) returns (b: Board, r: Option<int>)
      requires Valid() && Stacked(mask) && MoveDigits(sequence)
      ensures (b, r) == Replayed(sequence, 0)
      ensures b.Valid() && Stacked(b.mask)
      ensures moves <= b.moves <= moves + |sequence|
      ensures r == Some(-1) ==> b.IsTie()
      ensures r == None && sequence != [] ==> !b.IsTie()
      ensures r.Some? && r.value != -1 ==> b.moves > 0 && r.value == MoverPiece(b.moves - 1)
    {
      b := this;
      for i := 0 to |sequence|
        invariant b.Valid() && Stacked(b.mask)
        invariant moves <= b.moves <= moves + i
        invariant i > 0 ==> !b.IsTie()
        invariant Replayed(sequence, 0) == b.Replayed(sequence, i)
      {
        var next, res := b.TakeTurn(sequence, i);
        if res.Some? {
          return next, res;
        }
        b := next;
      }
      return b, None;
    }

    /**
     * `partialKey3(key, col)`: one base-3 digit per stone of the column, from
     * its foot up to the first empty cell, then a 0 digit as separator.  The
     * single-bit `pos` of the loop is kept as its bit index `i`.
     */
    method PartialKey3(key: nat, col: int) returns (r: nat)
      requires 0 <= col <= 7
      ensures r == PartialKey3Of(key, ColumnDigits(current, mask, col))
    {
      var k := key;
      var i := col * (ROW_COUNT + 1);
      while HasCell(mask, i)
        invariant Push(k, DigitsFrom(current, mask, i)) == Push(key, ColumnDigits(current, mask, col))
        decreases 64 - i
      {
        k := k * 3 + (if HasCell(current, i) then 1 else 2);
        i := i + 1;
      }
      r := k * 3;
    }

    /** `key3()`: scan the columns forwards and backwards and keep the smaller key. */
    method Key3() returns (k: nat)
      ensures k == Key3Of(current, mask)
    {
      var keyForward := ScanForward();
      var keyReverse := ScanReverse();
      k := if keyForward < keyReverse then keyForward / 3 else keyReverse / 3;
    }

    /** The first loop of `key3`: `partialKey3` over the columns 0..6. */
    method ScanForward() returns (key: nat)
      ensures key == KeyScan(0, Columns(current, mask)[..7])
    {
      ghost var cols := Columns(current, mask);
      key := 0;
      for i := 0 to 7
        invariant KeyScan(key, cols[..7][i..]) == KeyScan(0, cols[..7])
      {
        KeyScanStep(key, cols[..7], i);
        key := PartialKey3(key, i);
      }
    }

    /** The second loop of `key3`: `partialKey3` over the columns 7 down to 0. */
    method ScanReverse() returns (key: nat)
      ensures key == KeyScan(0, Reverse(Columns(current, mask)))
    {
      ghost var cols := Columns(current, mask);
      key := 0;
      var i := 7;
      while i >= 0
        invariant -1 <= i <= 7
        invariant KeyScan(key, Reverse(cols)[7 - i..]) == KeyScan(0, Reverse(cols))
      {
        KeyScanStep(key, Reverse(cols), 7 - i);
        key := PartialKey3(key, i);
        i := i - 1;
      }
    }

    /** `popcount(m)`: clear the lowest set bit until none is left. */
    static method Popcount(m: bv64) returns (c: nat)
      ensures c == Bits(m)
    {
      var x := m;
      c := 0;
      while x != 0
        invariant c + Bits(x) == Bits(m)
        decreases Bits(x)
      {
        ClearLowestBit(x);
        x := x & (x - 1);
        c := c + 1;
      }
    }

    /** The score of a move: how many winning cells the mover would hold after it. */
    function ScoreOf(move: bv64): nat
    {
      Bits(ComputeWinningPosition(current | move, mask))
    }

    /** `moveScore(move)`: the popcount of the winning cells after `move`, which is its score. */
    method MoveScore(move: bv64) returns (c: nat)
      ensures c == ScoreOf(move)
    {
      c := Popcount(ComputeWinningPosition(current | move, mask));
    }

    /** `dropRow(col)`: the row (0 is the top) above the highest stone of the column. */
    method DropRow(c: Col) returns (r: int)
      ensures r == FirstOccupied(mask, c, 0) - 1
      ensures -1 <= r < ROW_COUNT
      ensures r < ROW_COUNT - 1 ==> Occupied(mask, r + 1, c)
    {
      for row := 0 to ROW_COUNT
        invariant FirstOccupied(mask, c, row) == FirstOccupied(mask, c, 0)
      {
        if Occupied(mask, row, c) {
          return row - 1;
        }
      }
      return ROW_COUNT - 1;
    }
  }

  /**
   * `canPlay(col)` against `possible()` on stacked stones: a column can be
   * played exactly when `possible()` holds a cell of it (its lowest empty
   * cell, by `PossibleLowest`).
   */
  lemma PossibleColumn(b: Board, c: Col)
    requires Stacked(b.mask)
    ensures b.CanPlay(c) <==> b.Possible() & ColumnMask(c) != 0
  {
    hide PossibleOf, ColumnMask, TopMask;
    if b.CanPlay(c) {
      PossibleLowest(b.mask, c);
    } else {
      PossibleFull(b.mask, c);
    }
  }

  /**
   * A stone reads as the piece of the player to move exactly when it is in
   * `current`, and as the other player's piece otherwise.
   */
  lemma StoneOwner(b: Board, row: Row, c: Col)
    requires Occupied(b.mask, row, c)
    ensures b.GetPieceAt(row, c) == if b.current & CoordinateMask(row, c) != 0 then MoverPiece(b.moves) else OtherPiece(MoverPiece(b.moves))
  {
    hide CoordinateMask;
  }

  /**
   * `possibleNonLosingMoves()` holds possible cells only, and none directly
   * below a cell where the opponent would win.
   */
  lemma NonLosingMoves(b: Board)
    ensures b.PossibleNonLosingMoves() & !b.Possible() == 0
    ensures b.PossibleNonLosingMoves() & (b.OpponentWinningPosition() >> 1) == 0
  {
    hide NonLosing, ComputeWinningPosition, PossibleOf;
    NonLosingMovesOf(b);
  }

  lemma NonLosingMovesOf(b: Board)
    ensures b.PossibleNonLosingMoves() == NonLosing(b.Possible(), b.OpponentWinningPosition())
  {
    hide NonLosing, ComputeWinningPosition, PossibleOf;
  }

  /** `canWinNext()` holds exactly when `isWinningMove` names a winning piece for some column. */
  lemma CanWinNextColumn(b: Board)
    ensures b.CanWinNext() <==> exists c: Col :: b.IsWinningMove(c).Some?
  {
    hide ComputeWinningPosition, PossibleOf, ColumnMask;
    if b.CanWinNext() {
      WinningCellInSomeColumn(b);
      var c: Col :| b.WinningPosition() & b.Possible() & ColumnMask(c) != 0;
      assert b.IsWinningMove(c).Some?;
    }
  }

  lemma WinningCellInSomeColumn(b: Board)
    requires b.CanWinNext()
    ensures exists c: Col :: b.WinningPosition() & b.Possible() & ColumnMask(c) != 0
  {
    hide ComputeWinningPosition, PossibleOf, ColumnMask;
    var w, p := b.WinningPosition(), b.Possible();
    assert w & p != 0;
    hide Board.WinningPosition, Board.Possible;
    InsideBoard(w, p);
    SomeColumnOfBoardCell(w, p);
  }

  lemma InsideBoard(w: bv64, p: bv64)
    requires w & p != 0 && p & !BOARD == 0
    ensures (w & p) & BOARD != 0
  {
  }

  lemma SomeColumnOfBoardCell(w: bv64, p: bv64)
    requires w & p & BOARD != 0
    ensures exists c: Col :: w & p & ColumnMask(c) != 0
  {
    OnBoardInSomeColumn(w & p);
  }

  /** Two boards with stacked stones and the same `key()` are the same position. */
  lemma BoardKeyInjective(b1: Board, b2: Board)
    requires b1.Valid() && b2.Valid() && Stacked(b1.mask) && Stacked(b2.mask)
    requires b1.Key() == b2.Key()
    ensures b1.current == b2.current && b1.mask == b2.mask
  {
    KeyInjective(b1.current, b1.mask, b2.current, b2.mask);
  }

  lemma CoordinateOnBoard(row: Row, c: Col)
    ensures CoordinateMask(row, c) & !BOARD == 0
  {
    AtColumnOnBoard(RowBit(row), c);
  }
}
