# quadlinksolver in Dafny

A model of the three Connect-Four engines of the quadlinksolver repository,
together with proofs of their properties. The board is six rows by seven
columns. The player's piece is 1 and the wizard's piece is 2.

- **The bitboard solver** (`algorithm/`): Pascal Pons' exact negamax solver.
  - `Board` stores a position as two 64-bit fields:
    - `current`: the stones of the side to move;
    - `mask`: every stone.

    Each column takes seven bits, with a guard bit on top.
  - `MoveSorter` is an insertion-sorted array of scored moves.
  - `TranspositionTable` is a bounded map.
  - The opening book is read from a decoded byte array.
  - `solver.js` holds:
    - alpha-beta negamax with window clamping and bounds stored in the table;
    - the null-window binary search `solve`;
    - `analyze` and `bestMove`.
- **The heuristic minimax** (`algorithm.js`). It works on a row-major 6×7
  array. It has window scoring, winner detection, gravity drops and
  max/min alpha-beta search.
- **The list-of-columns board** and its negamax (`alternative_algorithm.js`).
- **The helpers** `clamp`, `max` and `min` (`util.js`).

Modules and files:

| module | file | models |
|---|---|---|
| `Util` | util.dfy | `clamp`, `max`, `min`; the extended integers that stand for ±Infinity |
| `BoardMasks` | board_masks.dfy | `bottom`, the static masks, `possible`, `computeWinningPosition`, `possibleNonLosingMoves`, `alignment`, `key` |
| `Bitboard` | bitboard.dfy | the `Board` of board.js |
| `MoveSorting` | move_sorter.dfy | `MoveSorter`, a class over an array, and its specification as insertion into a sorted sequence |
| `Transposition` | transposition_table.dfy | `TranspositionTable`, a class with a map field and an insertion-order field |
| `Book` | opening_book.dfy | `has_factor`, `med`, `next_prime`, `index`, and the `load`/`getOpeningBook` state as a class |
| `Solver` | solver.dfy | negamax, `solve`, `analyze`, `bestMove` and the `terminate` flag, as methods of a class that owns the table and the book |
| `Heuristic` | heuristic.dfy | algorithm.js over `array2<int>`; each loop is a method proved against a function on the board's contents |
| `Alternative` | alternative.dfy | alternative_algorithm.js: `Board` is a class; `negamax` is a method proved against a recursive function |

Each method that loops is proved against a function of its inputs. The
properties the code promises are lemmas about those functions:

- round trips;
- subset relations between masks;
- sortedness and permutation;
- soundness of alpha-beta;
- termination of the binary search.

## Model

| member | source | states |
|---|---|---|
| Util.LessIsStrictTotal | util.js:2-3 | The order on integers extended with ±Infinity, used by `max`/`min` and minimax, is irreflexive, asymmetric, total and transitive. |
| Util.Clamp | util.js:1 | The result is hi when v > hi, lo when v < lo ≤ hi, and v itself when it is in range; it lies in [lo, hi] whenever lo ≤ hi. |
| Util.Max | util.js:2 | The result is at least a and at least b, and is one of them. It is a exactly when a > b; on equality it is b. |
| Util.Min | util.js:3 | The result is at most a and at most b, and is one of them. It is a exactly when a < b; on equality it is b. |
| BoardMasks.BottomMaskValue | algorithm/board.js:10-14 | The recursive `bottom(7, 6)` is the constant with one bit at the foot of each of the seven columns. |
| BoardMasks.BoardMaskValue | algorithm/board.js:15 | `board_mask` is `bottom_mask * (2^6 - 1)`, and it contains `bottom_mask`. |
| BoardMasks.ColShift | algorithm/board.js:144-155 | A column's shift amount `7*col` is one of the seven column offsets, so the static masks stay inside 49 bits. |
| BoardMasks.ColumnMasksShift | algorithm/board.js:144-155 | `topMask`, `bottomMask` and `columnMask` of a column are the constants 0x20, 1 and 0x3F shifted by `7*col`. |
| BoardMasks.RowBit | algorithm/board.js:150-152 | The in-column bit of a row given by `coordinateMask` is a single non-zero bit within the column's six cells. |
| BoardMasks.AtColumnOnBoard | algorithm/board.js:150-155 | A pattern within a column's six cells, shifted to any column, lies inside `board_mask`. |
| BoardMasks.LowestEmptyUnique | algorithm/board.js:36-38 | A column has at most one lowest empty cell. |
| BoardMasks.PlayColLowest | algorithm/board.js:36-38 | On a column whose top cell is free, `(mask + bottomMask(col)) & columnMask(col)` is exactly one bit: the column's lowest empty cell. |
| BoardMasks.PlayColFull | algorithm/board.js:36-38 | On a full column the same expression is 0, so `playCol` adds no stone. |
| BoardMasks.PlayColStacked | algorithm/board.js:36-38 | Adding that cell keeps every column's stones stacked from the bottom with no gaps. |
| BoardMasks.PossibleOf | algorithm/board.js:84-86 | `possible()` is a subset of `board_mask`. |
| BoardMasks.PossibleLowest | algorithm/board.js:84-86 | On a column that is not full, `possible()` holds exactly that column's lowest empty cell. |
| BoardMasks.PossibleFull | algorithm/board.js:84-86 | On a full column, `possible()` holds no cell. |
| BoardMasks.PossibleIsPlayCol | algorithm/board.js:36-38 | Within a column that is not full, `possible()` is the cell that `playCol` adds. |
| BoardMasks.PossibleKeepsStacked | algorithm/board.js:84-86 | Playing any subset of `possible()` keeps the stones stacked. |
| BoardMasks.AlignmentMonotone | algorithm/board.js:121-143 | `alignment` is monotone: a position that contains a four-in-a-row pattern keeps it when stones are added. |
| BoardMasks.HorizontalMonotone | algorithm/board.js:122-125 | The horizontal test of `alignment` is monotone in the position. |
| BoardMasks.Diagonal1Monotone | algorithm/board.js:127-130 | The first diagonal test of `alignment` is monotone in the position. |
| BoardMasks.Diagonal2Monotone | algorithm/board.js:132-135 | The second diagonal test of `alignment` is monotone in the position. |
| BoardMasks.VerticalMonotone | algorithm/board.js:137-140 | The vertical test of `alignment` is monotone in the position. |
| BoardMasks.ComputeWinningPosition | algorithm/board.js:224-253 | The result is a subset of `board_mask ^ mask`: only on-board cells that are still empty. |
| BoardMasks.WinningCellsEmpty | algorithm/board.js:252 | For a mask on the board, the winning cells miss every stone and lie inside `board_mask`. |
| BoardMasks.NonLosing | algorithm/board.js:64-76 | `possibleNonLosingMoves` is a subset of `possible()` and holds no cell directly below an opponent winning cell. |
| BoardMasks.TwoForcedLose | algorithm/board.js:69-71 | When two or more playable cells are opponent winning cells, the result is 0. |
| BoardMasks.OneForcedOnly | algorithm/board.js:69-73 | When exactly one playable cell is an opponent winning cell, the result is a subset of that forced cell. |
| BoardMasks.KeyInjective | algorithm/board.js:96-98 | For stacked masks and `current ⊆ mask`, the key `current + mask` determines both fields. |
| Bitboard.MoverPiece | algorithm/board.js:56-58 | The mover's piece code is WIZARD_PIECE exactly when `moves` is even, and PLAYER_PIECE exactly when it is odd. |
| Bitboard.Board.Play | algorithm/board.js:31-35 | `play` keeps `current ⊆ mask ⊆ board_mask` and keeps the stones stacked. It never removes a stone, it adds the move's cells, and it adds 1 to `moves`. |
| Bitboard.Board.PlayCol | algorithm/board.js:36-38 | `playCol` keeps the board valid and stacked, never removes a stone, and adds 1 to `moves`. |
| Bitboard.PlayedStonePiece | algorithm/board.js:31-35 | After `play`, the new cell reads as the piece of the side that moved. |
| Bitboard.PlayKeepsOtherPieces | algorithm/board.js:31-35 | After `play`, every other cell reads as the same piece (or EMPTY) as before. |
| Bitboard.Board.IsWinningMove | algorithm/board.js:53-59 | A column reported winning yields the mover's piece code, and then `canWinNext()` holds. |
| Bitboard.Board.SetPieceAt | algorithm/board.js:183-193 | An occupied cell leaves the board unchanged. Otherwise the cell becomes occupied, `moves` grows by one, and the board stays valid. How each cell then reads is stated by SetStonePiece and SetFlipsOtherPieces. |
| Bitboard.SetStonePiece | algorithm/board.js:187-192 | On an empty cell, the stone `setPeiceAt` adds reads as the piece of the player to move after the call (`moves + 1`) when set for the mover, and as the other piece (`moves + 2`, the same as `moves`) when set for the opponent. |
| Bitboard.SetFlipsOtherPieces | algorithm/board.js:187-192 | Every other cell keeps its `mask` and `current` bits. Because `moves` grows without swapping the fields, every older stone then reads as the other player's piece, and empty cells stay empty. |
| BoardMasks.CoordinateOneBit | algorithm/board.js:150-152 | `coordinateMask(row, col)` is a single bit, so the per-bit lemmas apply to every cell. |
| BoardMasks.CoordinatesDisjoint | algorithm/board.js:150-152 | Two different cells have disjoint coordinate masks. |
| Bitboard.Board.GetPieceAt | algorithm/board.js:167-182 | `getPeiceAt` is EMPTY exactly when the cell holds no stone. |
| Bitboard.StoneOwner | algorithm/board.js:167-182 | A stone reads as the piece of the player to move (by `moves % 2`) when its bit is in `current`, and as the other player's piece otherwise. |
| Bitboard.PossibleColumn | algorithm/board.js:28-30 | On stacked stones, `canPlay(col)` holds exactly when `possible()` has a cell in that column. |
| Bitboard.Board.Possible | algorithm/board.js:84-86 | `possible()` lies inside `board_mask`. |
| BoardMasks.PossibleEmpty | algorithm/board.js:84-86 | On stacked stones, `possible()` holds only empty cells. |
| Bitboard.NonLosingMoves | algorithm/board.js:64-76 | `possibleNonLosingMoves()` of a board is a subset of its `possible()` and holds no cell directly below a cell of `opponentWinningPosition()`. |
| Bitboard.CanWinNextColumn | algorithm/board.js:53-59 | `canWinNext()` holds exactly when `isWinningMove` reports a piece for some column. |
| BoardMasks.BoardIsColumns | algorithm/board.js:15 | `board_mask` is the union of the seven column masks. |
| BoardMasks.OnBoardInSomeColumn | algorithm/board.js:15 | Any set that meets `board_mask` meets some column mask. |
| Bitboard.BoardKeyInjective | algorithm/board.js:96-98 | Two valid boards with stacked stones and equal `key()` have the same `current` and `mask`. |
| Bitboard.Board.Invert | algorithm/board.js:194-196 | `invert` keeps `mask` and `moves` and keeps the board valid. |
| Bitboard.InvertSwapsPieces | algorithm/board.js:194-196 | After `invert`, every occupied cell reads as the other piece. |
| Bitboard.InvertTwice | algorithm/board.js:194-196 | Inverting twice gives back the same board. |
| Bitboard.Board.TakeTurn | algorithm/board.js:40-50 | One character of `playSequence`: a winning move stops with the mover's code, a full board stops with -1, otherwise the rest of the sequence is replayed from the new board. |
| Bitboard.Board.PlaySequence | algorithm/board.js:39-51 | The result is the replay of the sequence: the mover's piece at the first winning move, -1 at the first full board, and undefined (None) when the sequence ends with neither. It plays at most one stone per character. |
| Bitboard.Board.PartialKey3 | algorithm/board.js:110-119 | The loop appends one base-3 digit per stone of the column, from the bottom (1 for the mover's stone, 2 for the other's), then a 0. |
| Bitboard.Board.ScanForward | algorithm/board.js:100-102 | The forward loop computes the base-3 scan of columns 0..6. |
| Bitboard.Board.ScanReverse | algorithm/board.js:104-106 | The reverse loop computes the scan of columns 7..0. |
| Bitboard.Board.Key3 | algorithm/board.js:99-109 | `key3` is the smaller of the two scans, divided by 3. |
| Bitboard.ScanSkipsLeadingEmpty | algorithm/board.js:104-106 | An empty column scanned first on a zero accumulator changes nothing. |
| Bitboard.EighthColumnEmpty | algorithm/board.js:105 | The extra column 7 that the reverse loop reads is empty on every board, so that step is a no-op. |
| Bitboard.ForwardIsMirroredReverse | algorithm/board.js:99-109 | The forward scan of a board equals the reverse scan of its mirror image. |
| Bitboard.Key3Symmetric | algorithm/board.js:99-109 | A position and its horizontal mirror have the same `key3`. |
| Bitboard.Board.Popcount | algorithm/board.js:160-165 | `popcount` returns the number of set bits. |
| Bitboard.ClearLowestBit | algorithm/board.js:163 | `m & (m - 1)` clears exactly one set bit of a non-zero `m`. |
| Bitboard.Board.MoveScore | algorithm/board.js:157-159 | `moveScore` is the number of winning cells the mover would have after the move. |
| Bitboard.Board.DropRow | algorithm/board.js:197-203 | `dropRow` is one less than the first occupied row from the top: -1 for a full column, 5 for an empty one, and the row below is occupied. |
| Bitboard.FirstOccupiedIsFirst | algorithm/board.js:198-201 | Every row above the one `dropRow` stops at is empty. |
| Bitboard.CoordinateOnBoard | algorithm/board.js:150-152 | `coordinateMask(row, col)` lies inside `board_mask`. |
| MoveSorting.CountAtMostSorted | algorithm/move_sorter.js:10-15 | In a sorted array, the entries scoring at most s come before the entries scoring more. |
| MoveSorting.InsertPlacement | algorithm/move_sorter.js:10-15 | The new entry lands after every entry scoring at most its score, and before every entry scoring more. |
| MoveSorting.InsertSorted | algorithm/move_sorter.js:10-15 | Inserting into a sorted array keeps it sorted. |
| MoveSorting.InsertPermutation | algorithm/move_sorter.js:10-15 | Insertion keeps every existing entry and adds exactly the new one. |
| MoveSorting.InsertAllSortedPermutation | algorithm/move_sorter.js:10-15 | A sequence of `add` calls leaves the entries sorted, and they are a permutation of the added ones. |
| MoveSorting.InsertKeepsOrder | algorithm/move_sorter.js:12 | Insertion keeps the relative order of the existing entries. |
| MoveSorting.InsertAboveEqual | algorithm/move_sorter.js:12 | The strict `>` places a new entry above every existing entry with an equal score. |
| MoveSorting.InsertAllStable | algorithm/move_sorter.js:12 | Of two added entries with equal scores, the later one ends up above, so `getNext` returns it first. |
| MoveSorting.PlacedIsInsert | algorithm/move_sorter.js:10-15 | The array after the shift loop and the final store is the sorted insertion of the new entry. |
| MoveSorting.MoveSorter.constructor | algorithm/move_sorter.js:5-8 | The sorter starts empty, with capacity COLUMN_COUNT. |
| MoveSorting.MoveSorter.Add | algorithm/move_sorter.js:10-15 | The size grows by one and the contents become the sorted insertion of (move, score); requires room. |
| MoveSorting.MoveSorter.ShiftAbove | algorithm/move_sorter.js:11-13 | The shift loop moves up exactly the entries scoring more than the new score and stops at the right slot. |
| MoveSorting.MoveSorter.GetNext | algorithm/move_sorter.js:17-22 | It returns the move of the top entry, whose score is the highest, and drops that entry. It returns 0 on an empty sorter. |
| MoveSorting.MoveSorter.PeekNext | algorithm/move_sorter.js:23-28 | It returns the move `getNext` would return, or 0 when empty, and changes nothing. |
| MoveSorting.MoveSorter.PeekNextScore | algorithm/move_sorter.js:29-34 | It returns the highest score, or undefined exactly when empty, and changes nothing. |
| MoveSorting.MoveSorter.Reset | algorithm/move_sorter.js:36-38 | Afterwards the sorter is empty. |
| Transposition.DecimalString | algorithm/transposition_table.js:12 | `toString()` of a natural number is a non-empty string of decimal digits with no leading zero. |
| Transposition.DecimalStringInjective | algorithm/transposition_table.js:12-18 | Two keys share a table entry exactly when they are numerically equal. |
| Transposition.TranspositionTable.constructor | algorithm/transposition_table.js:6-9 | The table starts empty with the given `max_size`. |
| Transposition.TranspositionTable.Get | algorithm/transposition_table.js:17-19 | `get` finds a value exactly when the key's text is stored, and then returns the stored value; a key never stored gives undefined. |
| Transposition.TranspositionTable.Put | algorithm/transposition_table.js:11-16 | `put` stores the value under the key, and an existing key is overwritten without growth. An over-full table evicts its oldest key, so the size stays within `max_size`. When nothing is evicted, every other key keeps its value. |
| Transposition.EvictAsWrittenMakesNoProgress | algorithm/transposition_table.js:13-15 | As written, `entries.keys()[0]` names no key, so no round of the eviction loop removes anything and the size stays above `max_size`. |
| Transposition.PutOverLimitAsWritten | algorithm/transposition_table.js:11-16 | Concretely: with `max_size` 1, putting keys 1 then 2 leaves the loop's guard true after any number of rounds. |
| Transposition.CorrectedPutOverLimit | algorithm/transposition_table.js:11-16 | With the corrected eviction, the same puts leave key 2 stored and key 1 evicted. |
| Book.Med | algorithm/opening_book.js:20-22 | `med` is floor((min+max)/2): it lies in [min, max], strictly between them when min + 1 < max. |
| Book.HasFactorSpec | algorithm/opening_book.js:14-18 | `has_factor(n, lo, hi)` holds exactly when some d in [lo, hi) with d·d ≤ n divides n. |
| Book.HasFactorIffComposite | algorithm/opening_book.js:14-18 | `has_factor(n, 2, n)` holds exactly when n is composite. |
| Book.NextPrime | algorithm/opening_book.js:24-26 | A result is the least m ≥ n with `has_factor(m, 2, m)` false, within the fuel bound; when there is none, every candidate below the bound has a factor. |
| Book.NextPrimeIsLeastNonComposite | algorithm/opening_book.js:24-26 | `next_prime(n)` is the least m ≥ n that is not composite. |
| Book.Index | algorithm/opening_book.js:51-53 | `index(key)` lies in [0, size), and is the key itself when the key is below size. |
| Book.ToInt32 | algorithm/opening_book.js:63 | `intValue()` is the 32-bit two's-complement value congruent to its argument. |
| Book.LowByte | algorithm/opening_book.js:65 | `byteValue()` is the signed byte congruent to its argument modulo 256. |
| Book.ByteAt | algorithm/opening_book.js:65-66 | An array read gives a byte exactly when the index is in range, and undefined otherwise. |
| Book.WidthsRejected | algorithm/opening_book.js:40-42 | The corrected width check accepts exactly the header whose key width and value width are both 1. |
| Book.WidthCheckAsWrittenAcceptsWideValues | algorithm/opening_book.js:40 | The `&&` check as written accepts key width 1 with value width 2, which the corrected check rejects. |
| Book.WidthCheckAsWrittenIsWeaker | algorithm/opening_book.js:40 | The check as written rejects only headers the corrected one rejects, and accepts exactly those with at least one width equal to 1. |
| Book.OneShifted | algorithm/opening_book.js:45 | `1 << log_size` is 2^log_size for a non-negative byte and 0 for a negative one (a negative shift moves right). A missing byte 5 never reaches it: the load throws there. |
| Book.Probe | algorithm/opening_book.js:62-68 | The lookup hits exactly when the key byte at `key_offset + pos` equals the low signed byte of `key3`, with pos = `index(key3)`. A hit returns the byte at `value_offset + pos`. |
| Book.OpeningBook.constructor | algorithm/opening_book.js:8-12 | The module state starts with no data, depth -1, no size and offsets 0. |
| Book.OpeningBook.Load | algorithm/opening_book.js:28-49 | A failed read changes nothing. A read stores the data and depth = byte 2. Past the width check, a header with no byte 5 throws (`shiftLeft(undefined)`) with data and depth set and the size still unset; it throws exactly then. Otherwise size = `next_prime(2^byte5)`, keys start at offset 6 and values at 6 + size. The width check is the corrected one of Findings: any width other than 1 leaves the size unset. |
| Book.OpeningBook.GetOpeningBook | algorithm/opening_book.js:55-69 | It loads lazily once and then keeps the state. A throwing load throws out of this first call. Otherwise it is `Answered`: it misses when there is no file, or when `moves > depth` (this includes the failed-load depth of -1), it throws exactly when it must index with no size (so later calls on a book whose load threw throw unless the position is deeper than the book), and else it is the probe. |
| Solver.ScoreLadder | algorithm/solver.js:30-52 | The loss score is below the clamped minimum, which is at most 0, which is at most the clamped maximum, which is below the win score. |
| Solver.UpperCode | algorithm/solver.js:103 | An upper bound stored as `alpha - MIN_SCORE + 1` decodes back to alpha, and is at most 37 exactly when alpha ≤ MAX_SCORE. |
| Solver.LowerCode | algorithm/solver.js:96 | A lower bound stored as `score + MAX_SCORE - 2*MIN_SCORE + 2` decodes back to the score, and is above 37 exactly when score ≥ MIN_SCORE. |
| Solver.CodesDisjoint | algorithm/solver.js:57 | Upper and lower codes of in-range scores never collide, and the test `val > MAX_SCORE - MIN_SCORE + 1` tells them apart. |
| Solver.RaiseAlpha | algorithm/solver.js:41-45 | Raising alpha to a lower limit settles the search at that limit exactly when the window closes; otherwise the window narrows. |
| Solver.LowerBeta | algorithm/solver.js:48-52 | Lowering beta to an upper limit settles at that limit exactly when the window closes; otherwise the window narrows. |
| Solver.ClampWindowIntersects | algorithm/solver.js:40-52 | After clamping to the reachable scores, the window is either open and intersected with them, or settled at one of the two limits. |
| Solver.TightenWindowUsesBound | algorithm/solver.js:54-73 | A stored lower bound raises alpha to at least the bound, and a stored upper bound lowers beta to at most the bound. A closed window returns that bound. An absent entry changes nothing. |
| Solver.PreludeNarrows | algorithm/solver.js:30-73 | A window left open lies inside the caller's window, the reachable scores and the stored bound. |
| Solver.CandidatesPlayable | algorithm/solver.js:83-88 | Every candidate move is a playable cell that keeps the stones stacked. |
| Solver.SearchOrderBestFirst | algorithm/solver.js:83-91 | Moves are tried in non-increasing `moveScore`, as a permutation of the candidates. Among equal scores, the later-added one (the more central column) comes first. |
| Solver.SearchOrderPlayable | algorithm/solver.js:83-91 | Every move taken from the sorter is playable. |
| Solver.CollectMoves | algorithm/solver.js:83-88 | The sorter holds the sorted insertion of the non-zero candidates, added in reverse column order. |
| Solver.ScoredCandidate | algorithm/solver.js:85-87 | A column contributes one entry (move, `moveScore`) exactly when its possible cell is non-zero. |
| Solver.Solver.constructor | algorithm/solver.js:14-20 | The solver starts with an empty table, an unread book and `terminate_early` false. |
| Solver.Solver.Terminate | algorithm/solver.js:21-23 | `terminate(val)` sets the flag to val. |
| Solver.Solver.Negamax | algorithm/solver.js:28-105 | The trace of the call, given the table entries each call read (the entry of `board` is the one in the table), satisfies `Explains`: no non-losing move gives the loss score, a full board 0, a closed clamped window or stored bound settles. Otherwise a failing book read throws, a non-zero book value v (the book file's own answer) returns v + MIN_SCORE - 1, a stop request or depth < 0 returns alpha, and else the moves are searched best first, each child call again explained. The table is unchanged unless a search ran, and a returning call leaves the entry `StoredAfter` names. |
| Solver.Solver.BookThenSearch | algorithm/solver.js:75-104 | The four outcomes of lines 75-104 in order, each taken exactly when the earlier ones are not: a book fault throws, a non-zero book value is returned, a stop request or depth < 0 returns alpha, and else a search. Only a search changes the table, storing its bound under the key. |
| Solver.Solver.ReadBook | algorithm/solver.js:75 | The value read is the book file's answer for the board. |
| Solver.Solver.NextMove | algorithm/solver.js:91 | `getNext` yields the sorted moves from the best down, and 0 only when the sorter is empty. |
| Solver.Solver.Store | algorithm/solver.js:96-103 | After `put`, the table holds the value under the key. |
| Solver.Solver.Search | algorithm/solver.js:83-104 | The calls are the candidate moves best first, each searched in the window the loop has reached (`Tried`), and the result is as `SearchResult` states. A returning search stores a lower-bound code after a cut, else an upper-bound code. |
| Solver.Solver.TryMoves | algorithm/solver.js:90-101 | The calls follow the sorted moves from the top, each in the window (-beta, -alpha'), alpha' being alpha raised by the earlier scores. The loop stops at the first thrown call or the first score ≥ beta (reported as a cut); otherwise it tries every move and returns the greatest of alpha and the scores. |
| Solver.Solver.ScoreMove | algorithm/solver.js:92-94 | The child call plays the next move of the order on a copy and joins the search's trace; the score is its result negated, and it throws exactly when the child threw. |
| Solver.TriedSnoc | algorithm/solver.js:91-94 | A call that plays the next move of the order, searched in (-beta, -alpha') one stone deeper, extends the search's trace. |
| Solver.NextCall | algorithm/solver.js:91-93 | The k-th move taken from the sorter is the k-th of the search order, it can be played, and the loop's alpha is the best of alpha and the scores so far. |
| Solver.RunningSnoc | algorithm/solver.js:94-100 | After one more call: a throw ends the search with a throw, a score ≥ beta ends it with that score as a cut, and a lower score keeps the loop running with alpha raised to it. |
| Solver.RunningDone | algorithm/solver.js:101-104 | A loop that runs out of moves returns its alpha, without a cut. |
| Solver.SearchResultIsBest | algorithm/solver.js:90-104 | A search returning in an open window returns at least alpha. It returns at least beta exactly when it cut, and then the cutting score. Otherwise it tried every move, every score is at most the result, and the result is alpha or one of the scores. |
| Solver.SplitPoint | algorithm/solver.js:115-119 | Every `med` lies in [min, max), so `max - min` shrinks on every round. |
| Solver.RaiseIsMax | algorithm/solver.js:99-100 | The running maximum is at least alpha and every score, and is alpha or one of the scores. |
| Solver.LeastIsMin | algorithm/solver.js:121-122 | The running minimum is at most beta and every score, and is beta or one of the scores. |
| Solver.SoundProbesSnoc | algorithm/solver.js:120-124 | A score agrees with a run of probes and one more exactly when it agrees with the run and with the new probe. |
| Solver.BoundsSnoc | algorithm/solver.js:120-124 | A probe at a point inside [min, max] moves max down to its value when that is at most the point, and min up to it otherwise; every exact score the probes agree with stays within the new bounds. |
| Solver.BoundsDone | algorithm/solver.js:114-127 | Once the bounds close, `min` is the greatest of -21 and the low probes, at least the least of 21 and the high ones, and the only exact score every probe agrees with. |
| Solver.ProbeRecorded | algorithm/solver.js:115-120 | A probe at the SplitPoint of the open bounds, reading the entry the last probe left, extends the run: the probes stay chained, and the entry afterwards is the one that probe stored. |
| Solver.Solver.Solve | algorithm/solver.js:107-128 | An immediate win returns floor((43 - moves)/2) with no probe. Otherwise at most 42 probes run (`Solved`): each is `negamax(board, med, med + 1, depth)` at the SplitPoint of the bounds the earlier probes left, as its trace explains, and reads the table entry the probe before it left. A throw comes exactly from the last probe. The result is the final `min`, at least the final `max`, and any exact score in [-21, 21] that every probe agrees with equals it. |
| Solver.Solver.Analyze | algorithm/solver.js:130-144 | For every column (`ColumnReport`): undefined exactly when it is full, the win score for an immediate win, otherwise minus the result of the opponent's `solve` after playing it, with that solve's probes as `Solved` states. |
| Solver.Solver.ColumnScore | algorithm/solver.js:133-140 | One column of `analyze`, as above; a throw comes only from the opponent's `solve`, which then threw. |
| Solver.Solver.Reply | algorithm/solver.js:137-139 | The score of a column is minus the result of the opponent's `solve` after playing it, as `Solved` states; a throw is that solve's throw. |
| Solver.ReplyToImmediateWin | algorithm/solver.js:107-139 | A reply the opponent answers by winning at once scores minus the opponent's win score, with no probe; any other reply ran at least one probe. |
| Solver.FirstWinner | algorithm/solver.js:149-152 | The first column in COLUMN_ORDER that is playable and wins at once, or none. |
| Solver.BestOf | algorithm/solver.js:147-160 | The selected index holds a score. |
| Solver.BestOfIsFirstMaximum | algorithm/solver.js:147-160 | There is no selection exactly when no column was scored. Otherwise the selected score is the maximum and is strictly greater than every earlier one, so ties go to the earlier, more central column. |
| Solver.Solver.BestMove | algorithm/solver.js:146-165 | It returns the first immediately winning column in COLUMN_ORDER. Otherwise every column has the `ColumnReport` of `analyze` (minus the opponent's `solve`, as `Solved` states), and it returns the column of the first strictly greatest of those scores, or undefined when none is playable. |
| Solver.ReportedEach | algorithm/solver.js:131-142 | The per-column facts collected by the `analyze` loop hold for every column. |
| Heuristic.Count | algorithm.js:53-61 | `count` is the number of entries equal to the piece, at most the window's length. |
| Heuristic.EvaluateWindow | algorithm.js:63-83 | `evaluateWindow` scores the window by its counts of own, opponent and empty cells. |
| Heuristic.WindowScoreCases | algorithm.js:63-83 | A window of four scores 100 exactly for four own pieces, 5 for three own plus one empty, 2 for two own plus two empty, -4 for three opponent plus one empty, and 0 otherwise. |
| Heuristic.ThreeCounts | algorithm.js:67-69 | The counts of three distinct pieces add up to at most the window's length. |
| Heuristic.ColumnOf | algorithm.js:29 | `board.map(row => row[col])` has one cell per row. |
| Heuristic.Column | algorithm.js:29 | The loop reads the column's cells, top to bottom. |
| Heuristic.Score | algorithm.js:12-51 | `score` is three times the count in the centre column plus the window score of every horizontal, vertical and diagonal window. |
| Heuristic.ScoreHorizontal | algorithm.js:19-25 | The horizontal loop adds the scores of all 24 horizontal windows. |
| Heuristic.ScoreRow | algorithm.js:20-24 | One row adds the scores of its four windows. |
| Heuristic.ScoreVertical | algorithm.js:28-34 | The vertical loop adds the scores of all 21 vertical windows. |
| Heuristic.ScoreColumn | algorithm.js:29-33 | One column adds the scores of its three windows. |
| Heuristic.ScoreDiagonal | algorithm.js:37-48 | The diagonal loops add the scores of all 24 diagonal windows. |
| Heuristic.ScoreDiagonalRow | algorithm.js:38-47 | One starting row adds the scores of its positive and negative windows. |
| Heuristic.ScoreDiagonalPair | algorithm.js:39-46 | One start cell adds the scores of its positive and negative window. |
| Heuristic.DiagonalWindows | algorithm.js:39-44 | The positive window holds `board[row+i][col+i]` and the negative window `board[row+3-i][col+i]`. |
| Heuristic.SumScoresAppend | algorithm.js:12-51 | Window scores add up over concatenation. |
| Heuristic.SumScoresRange | algorithm.js:63-83 | A list of n windows scores between -4n and 100n. |
| Heuristic.WindowCount | algorithm.js:19-48 | The board has 24 horizontal, 21 vertical and 24 diagonal windows, 69 in all. |
| Heuristic.ScoreRange | algorithm.js:12-51 | `score` lies in [-276, 6918]. |
| Heuristic.ConcatLength | algorithm.js:19-48 | Concatenating rows of k windows each gives k windows per row. |
| Heuristic.FirstInColumnMeaning | algorithm.js:95-97 | The row scan finds nothing exactly when no four-in-a-row starts in that column; otherwise it returns the piece of one. |
| Heuristic.FirstInFamilyMeaning | algorithm.js:94-123 | The column-by-column scan finds nothing exactly when no four-in-a-row in that direction starts in the scanned rectangle; otherwise it returns the piece of one. |
| Heuristic.ScanFamily | algorithm.js:94-123 | The nested loops of one direction return its first four-in-a-row, in scan order. |
| Heuristic.ScanRows | algorithm.js:95-98 | The inner loop returns the first four-in-a-row in that column. |
| Heuristic.IsFull | algorithm.js:86-91 | `full` holds exactly when row 0 has no EMPTY cell. |
| Heuristic.CheckWinner | algorithm.js:85-126 | The loops compute `Winner`: the first four-in-a-row in scan order, else TIE or EMPTY. |
| Heuristic.WinnerMeaning | algorithm.js:85-126 | `checkWinner` returns a piece only when that piece has four in a row, returns a piece whenever some piece has four in a row, and otherwise returns TIE exactly when row 0 is full, else EMPTY. |
| Heuristic.FamilyCovers | algorithm.js:94-123 | Every four-in-a-row of a direction is found by that direction's scan. |
| Heuristic.ValidLocationsMeaning | algorithm.js:128-135 | `validLocations` holds exactly the columns whose top cell is EMPTY, in ascending order. |
| Heuristic.ValidLocations | algorithm.js:128-135 | The loop builds that list. |
| Heuristic.EmptyBoard | algorithm.js:137-146 | A fresh 6×7 board with every cell EMPTY. |
| Heuristic.CopyBoard | algorithm.js:147-154 | A fresh board with the same contents as the input. |
| Heuristic.OpenRow | algorithm.js:156-160 | The result lies in [-1, 5]. Every cell down to it is EMPTY and the cell below it is not, so it is -1 for a full column and 5 for an empty one. |
| Heuristic.GetNextOpenRow | algorithm.js:156-160 | The loop computes that row. |
| Heuristic.MakeMoveMeaning | algorithm.js:162-168 | On a playable column, the new board differs from the input only at (`getNextOpenRow`, col), which becomes the piece, and that cell is the lowest empty one. |
| Heuristic.MakeMove | algorithm.js:162-168 | A fresh board holding that result, with the input untouched. |
| Heuristic.NonTerminalHasMove | algorithm.js:171-182 | A board with no winner and no tie has a non-empty list of playable valid locations. |
| Heuristic.MinimaxOf | algorithm.js:170-216 | Minimax always produces a finite value. |
| Heuristic.MaxLoopOf | algorithm.js:184-199 | The player's loop produces a finite value once it has seen a child. |
| Heuristic.MinLoopOf | algorithm.js:200-215 | The wizard's loop produces a finite value once it has seen a child. |
| Heuristic.MinimaxLeaf | algorithm.js:174-182 | A player win gives 999999 + depth. A wizard win or a tie gives -(999999 + depth). A non-terminal board at depth ≤ 0 gives `score(board, PLAYER_PIECE)`. |
| Heuristic.AlphaBetaSound | algorithm.js:170-216 | For any open window, the alpha-beta value agrees with the plain minimax value inside (alpha, beta), and is on the right side of the window outside it. |
| Heuristic.ChildSound | algorithm.js:188-189 | The same holds for the value of a child. |
| Heuristic.MaxLoopSound | algorithm.js:184-199 | The player's loop with its alpha updates and cut-off is sound with respect to the maximum over the children. |
| Heuristic.MinLoopSound | algorithm.js:200-215 | The wizard's loop with its beta updates and cut-off is sound with respect to the minimum over the children. |
| Heuristic.RootValue | algorithm.js:170 | With the default window (-Infinity, +Infinity), minimax returns exactly the plain minimax value. |
| Heuristic.MinimaxMove | algorithm.js:184-215 | On a non-terminal board, minimax returns a move, and it is a valid location. |
| Heuristic.MaxLoopMove | algorithm.js:187-197 | The player's loop returns a move from the columns it searched. |
| Heuristic.MinLoopMove | algorithm.js:203-213 | The wizard's loop returns a move from the columns it searched. |
| Heuristic.MaxLoopStep | algorithm.js:190-196 | One step of the player's loop either stops at alpha ≥ beta or continues with the raised alpha. |
| Heuristic.MinLoopStep | algorithm.js:206-212 | One step of the wizard's loop either stops at alpha ≥ beta or continues with the lowered beta. |
| Heuristic.Minimax | algorithm.js:170-216 | The recursive method on the array board returns the (move, value) that `MinimaxOf` specifies. |
| Heuristic.Reply | algorithm.js:188-189 | A child is the result of `makeMove` searched one level deeper with the other side to move. |
| Heuristic.MaxTurn | algorithm.js:184-199 | The player's loop computes `MaxLoopOf` from value -Infinity. |
| Heuristic.MinTurn | algorithm.js:200-215 | The wizard's loop computes `MinLoopOf` from value +Infinity. |
| Alternative.Mover | alternative_algorithm.js:35 | The piece to move is WIZARD_PIECE or PLAYER_PIECE. |
| Alternative.CharOfColumn | alternative_algorithm.js:38 | The character appended for column c is the move character that the constructor maps back to c. |
| Alternative.EmptyColumns | alternative_algorithm.js:12-14 | The constructor starts with seven columns. |
| Alternative.Replay | alternative_algorithm.js:11-22 | Replaying a move string gives seven columns. |
| Alternative.ReplayFacts | alternative_algorithm.js:11-22 | After replaying a string, the columns hold as many pieces as the string has characters, and every piece is 1 or 2. |
| Alternative.TotalUpdate | alternative_algorithm.js:37 | Changing one column changes the piece count by the difference of its length. |
| Alternative.Board.constructor | alternative_algorithm.js:11-22 | `new Board(s)` is the replay of s: `move_sequence` is s and `moves` is its length. |
| Alternative.Board.Copy | alternative_algorithm.js:24-32 | `copy` gives a fresh board with equal columns, sequence and move count. |
| Alternative.Board.Play | alternative_algorithm.js:34-40 | The mover's piece (the wizard's when `moves` is even) is pushed onto the column. `col + 1` is appended to the sequence and `moves` grows by one. `dropToRow` of that column grows by one, `getPeiceAt` shows the new piece there, and every other cell is unchanged. |
| Alternative.Board.TieCountsPieces | alternative_algorithm.js:80-82 | On a replayed board, `isTie()` holds exactly when the columns hold 42 pieces. |
| Alternative.Board.ColumnReads | alternative_algorithm.js:84-93 | On a replayed board, `getPeiceAt(row, col)` is EMPTY exactly on the rows above the `dropToRow(col)` stored pieces and is the stored piece elsewhere. The landing cell is empty when `canPlay(col)`, and `canPlay(col)` holds exactly when the top cell is empty. |
| Alternative.Board.TieIsFull | alternative_algorithm.js:80-86 | After 42 moves with no column over-filled, no column can be played. |
| Alternative.Board.Scan | alternative_algorithm.js:52-54 | One counting loop adds the length of the run of the mover's pieces in one direction, capped so the count stays at most 4. |
| Alternative.Board.ScanLine | alternative_algorithm.js:51-56 | The two loops of one line compute `LineCount`. |
| Alternative.RunMeaning | alternative_algorithm.js:52-54 | The run length is at least m exactly when the next m cells in that direction hold the piece. |
| Alternative.LineCountMeaning | alternative_algorithm.js:51-57 | The count reaches 4 exactly when four cells on that line through the drop cell, including it, hold the piece. |
| Alternative.Board.CheckWinningMove | alternative_algorithm.js:42-78 | `checkWinningMove` returns the mover's piece exactly when the move wins, else false (None). |
| Alternative.WinningMoveMeaning | alternative_algorithm.js:42-78 | A move wins exactly when a vertical, horizontal or diagonal four-in-a-row of the mover passes through the drop cell. |
| Alternative.VerticalMeaning | alternative_algorithm.js:47 | The vertical test of three equal pieces below is exactly a vertical four through the drop cell. |
| Alternative.TotalBound | alternative_algorithm.js:80-86 | With every column at most 6 high, 42 pieces leave no column short. |
| Alternative.Board.Key | alternative_algorithm.js:113-119 | `key` is the concatenation of each column's digits padded with `'0'` to six. |
| Alternative.KeyPrefixBlocks | alternative_algorithm.js:113-119 | The key is six characters per column, and the k-th block is that column's digits and padding. |
| Alternative.KeyInjective | alternative_algorithm.js:113-119 | The key has length 42 and determines the columns. |
| Alternative.ColumnBlockInjective | alternative_algorithm.js:116 | One padded column block determines the column. |
| Alternative.FirstWinMeaning | alternative_algorithm.js:135-139 | The win check returns the first playable winning column in ascending order, or none. |
| Alternative.FindWin | alternative_algorithm.js:135-139 | The loop finds that column. |
| Alternative.NegamaxLoopShape | alternative_algorithm.js:148-165 | The loop never returns less than alpha. It returns alpha with the best column so far, or a larger score with a playable column. |
| Alternative.NegamaxShape | alternative_algorithm.js:123-165 | A returned move is playable. An immediate win returns the first winning column and floor((43 - moves)/2). When the window stays open, the score is at least alpha and a larger score comes with a move. |
| Alternative.Reply | alternative_algorithm.js:152-154 | A child score is minus the opponent's negamax on a copy with the column played. |
| Alternative.SearchColumns | alternative_algorithm.js:148-165 | The loop over columns computes `NegamaxLoopOf`. |
| Alternative.Negamax | alternative_algorithm.js:122-166 | The method computes `NegamaxOf`. That gives `[undefined, alpha]` for depth < 0 and `[undefined, 0]` for a tie. An immediate win gives the first winning column. A clamped beta gives `[undefined, beta]` when the window closes. Otherwise the ordered search runs. |

## Left out

- index.js and algorithm/test.js: GUI plumbing, a command driver and threads. They are not part of this model.
- `getSkyblockItemID` and `highlightSlot` in util.js: NBT access and drawing.
- `FileLib.read` and the Base64 decoding in `load`: the file is an input, either the decoded bytes or no file at all. The chat messages on failure are left out.
- `toString` of both boards, and the chat logging and `nodes_visited` counter in the alternative `negamax`.
- The command and overlay handlers of alternative_algorithm.js (lines 168-234).
- The Java `BigInteger` class. Bitboards are `bv64`. On a board whose stones lie below bit 49, the static masks and `possible` stay below bit 49. In `computeWinningPosition` the left shifts by 3·7, 3·6 and 3·8 (algorithm/board.js:230, 238, 246) reach past bit 64, but each such term is ANDed with a pair term below bit 57 before it is used, so `bv64` agrees with `BigInteger` on every bit of the result. `key3` is a `nat`.
- Bitboard.Board: the bitboard `Board` is a value, not an object. `play`, `playCol`, `setPeiceAt` and `invert` return the updated board, and `copy()` is the value itself. So aliasing of board objects is not modelled. The solver mutates only fresh copies, but algorithm/test.js:23 and :71 mutate a long-lived board in place; the model gives the new board as a result instead.
- Bitboard.Board.Play: states validity, stacking, "no stone removed" and the move count. The exact new fields are left to the function's definition.
- Bitboard.Board.PlaySequence: columns come from the characters '1'..'7' only. For other characters the source raises nothing: `BigInteger.shiftLeft` takes any shift, so '0' gives column -1, which `canPlay` accepts and `playCol` plays as the empty move (the side to move flips, no stone is added), and '8' puts a stone at bit 49, off the board. Those inputs are outside the model.
- BoardMasks.AlignmentMonotone: `alignment` is modelled, and its monotonicity proved, but it is not proved to mean "four in a row". No other core function calls it.
- Book.NextPrime: the search is bounded by a fuel argument (n + 1 candidates, which Bertrand's postulate makes enough). The existence of a prime in that range is not proved. A `None` result becomes a missing size.
- Solver.Solver.Negamax: the transposition-table entry each nested call reads is part of its trace. The entry of the root position is tied to the table, and each probe of `solve` reads the entry the previous one left. The entries deeper calls read depend on the whole table, whose contents after earlier searches the model does not compute, so they are a hidden input of the contract.
- Solver.Solver.Solve: the exact score is stated only relative to the probes (a score every probe agrees with equals the result). That the probes agree with the game's perfect-play value depends on the table entries above and is not proved.
- Solver.Solver.BestMove: it is the column of the first greatest `-solve` score. That this is a game-theoretically best move is not stated.
- Solver.Solver.Negamax: for a book whose load throws (no byte 5), the source throws on the first book read and, after that, on every read of a position no deeper than the book. Whether a read is the first is not tracked by the solver's contract, so for such a book a position deeper than the book may either throw or miss (`Answers`).
- The global `table = new Map()` that `load` creates (algorithm/opening_book.js:34) is left out: nothing reads it, and it is never declared.
- Bitboard.Board.IsTie: it compares the move counter with 42 and nothing more. Because `playCol` on a full column and `setPeiceAt` also count moves, the counter is not tied to the number of stones, so no further meaning is stated.
- Book.OpeningBook.Load: it applies the corrected width check of Findings (`||`), as `getOpeningBook` does. As written, a header with key width 1 and value width 2 would set a size and probe the book; in the model it leaves no size and the lookup throws.
- The thread that sets `terminate_early` is not modelled. The flag is a field of the solver, and `terminate` sets it.
- The exception a failed book read raises (`key.mod(undefined)`) is modelled as a `Thrown` result that every caller passes on.
- The solver's table is created with room for 8388593 keys (`TABLE_SIZE`). The memory that takes is not modelled.
- `Math.random` in `minimax` (algorithm.js:186, 202): the random initial move is always replaced by the first valid location's result. Every child's value is finite and so beats ±Infinity, and the model starts with no move.
- The ±Infinity sentinels are an extended-integer datatype.
- Alternative.Board.Key: requires every column to be at most six high. Beyond that, `"0".repeat` of a negative count throws a RangeError, which is not modelled.
- Alternative.Board.constructor: the move string must consist of the characters '1'..'7'. Other characters give an invalid column in the source.
- The global `board_copy` of the alternative `negamax` is a local variable. No other code reads it.
- The default arguments of the alternative `negamax` (-21, 21, 4) and of the solver functions are parameters.

## Findings

| source | as written | input that shows it | evidently intended | confidence | as-written member | corrected member |
|---|---|---|---|---|---|---|
| algorithm/transposition_table.js:13-15 | `this.entries.keys()[0]` indexes an iterator, giving undefined, so `delete` removes nothing and the eviction loop never ends once the table exceeds `max_size` | `max_size` 1: `put(1, 5)`, then `put(2, 7)` | evict the oldest key (the first in insertion order) until the size is within `max_size` | not executed | Transposition.EvictAsWrittenMakesNoProgress, Transposition.PutOverLimitAsWritten | Transposition.TranspositionTable.Put, Transposition.CorrectedPutOverLimit |
| algorithm/opening_book.js:40 | `partial_key_bytes !== 1 && value_bytes !== 1` rejects only when both widths differ from 1 | header bytes 3-4 = 1, 2 (key width 1, value width 2) are accepted | reject unless both widths are 1 (`\|\|`) | not executed | Book.WidthCheckAsWrittenAcceptsWideValues, Book.WidthCheckAsWrittenIsWeaker | Book.WidthsRejected, Book.OpeningBook.Load |
