/**
 * algorithm/solver.js: a depth-limited negamax with alpha-beta pruning over
 * the bitboard, a transposition table of score bounds, the opening book and
 * move ordering, wrapped by a null-window search (`solve`) and the two entry
 * points `analyze` and `bestMove`.
 *
 * Scores count from the mover's point of view: a win with k of the mover's
 * own stones left to play scores k + 1 (more for a quicker win), a loss the
 * negation, a draw 0.
 */
module Solver {
  import opened Util
  import opened BoardMasks
  import opened Bitboard
  import opened MoveSorting
  import Transposition
  import Book

  /** Columns from the centre outwards. */
  const COLUMN_ORDER: seq<Col> := [3, 4, 2, 5, 1, 6, 0]
  const STARTING_MAX: int := COLUMN_COUNT * ROW_COUNT / 2
  const MAX_SCORE: int := (COLUMN_COUNT * ROW_COUNT + 1) / 2 - 3
  const MIN_SCORE: int := -((COLUMN_COUNT * ROW_COUNT) / 2) + 3
  const TABLE_SIZE: nat := 8388593
  /** Stored values above this limit are lower bounds, the others upper bounds. */
  const BOUND_LIMIT: int := MAX_SCORE - MIN_SCORE + 1

  // ---------------------------------------------------------------------
  // Scores of a position with `moves` stones played.
  // ---------------------------------------------------------------------

  /** The score of a position where the mover cannot avoid losing next move. */
  function LossScore(moves: int): int
  {
    -((COLUMN_COUNT * ROW_COUNT - moves) / 2)
  }

  /** The lowest score the mover can still get: the opponent cannot win before its next stone. */
  function LowerLimit(moves: int): int
  {
    -((COLUMN_COUNT * ROW_COUNT - 2 - moves) / 2)
  }

  /** The highest score the mover can still get: it cannot win with its next stone. */
  function UpperLimit(moves: int): int
  {
    (COLUMN_COUNT * ROW_COUNT - 1 - moves) / 2
  }

  /** The score of winning with the next stone. */
  function WinScore(moves: int): int
  {
    (COLUMN_COUNT * ROW_COUNT + 1 - moves) / 2
  }

  /**
   * The scores are ordered as the moves they describe: winning now beats the
   * best later result, and the worst later result beats losing now.
   */
  lemma ScoreLadder(moves: nat)
    requires moves <= COLUMN_COUNT * ROW_COUNT
    ensures LossScore(moves) < LowerLimit(moves) && UpperLimit(moves) < WinScore(moves)
    ensures moves <= COLUMN_COUNT * ROW_COUNT - 2 ==> LowerLimit(moves) <= 0 <= UpperLimit(moves)
    ensures LossScore(moves) < 0 <==> moves < COLUMN_COUNT * ROW_COUNT - 1
  {
  }

  // ---------------------------------------------------------------------
  // How bounds are stored in the transposition table.
  // ---------------------------------------------------------------------

  /** The code `put` stores for the upper bound `alpha`. */
  function UpperCode(alpha: int): (v: int)
    ensures DecodeUpper(v) == alpha
    ensures v <= BOUND_LIMIT <==> alpha <= MAX_SCORE
  {
    alpha - MIN_SCORE + 1
  }

  /** The code `put` stores for the lower bound `score`. */
  function LowerCode(score: int): (v: int)
    ensures DecodeLower(v) == score
    ensures v > BOUND_LIMIT <==> score >= MIN_SCORE
  {
    score + MAX_SCORE - 2 * MIN_SCORE + 2
  }

  /** The upper bound a stored value at most BOUND_LIMIT stands for. */
  function DecodeUpper(v: int): int
  {
    v + MIN_SCORE - 1
  }

  /** The lower bound a stored value above BOUND_LIMIT stands for. */
  function DecodeLower(v: int): int
  {
    v + 2 * MIN_SCORE - MAX_SCORE - 2
  }

  /** The two codes can be told apart exactly for bounds inside [MIN_SCORE, MAX_SCORE]. */
  lemma CodesDisjoint(a: int, s: int)
    requires a <= MAX_SCORE && s >= MIN_SCORE
    ensures UpperCode(a) != LowerCode(s)
    ensures UpperCode(a) <= BOUND_LIMIT < LowerCode(s)
  {
  }

  // ---------------------------------------------------------------------
  // The window narrowing that precedes the search (lines 40-73).
  // ---------------------------------------------------------------------

  /** Either the search is settled with a score, or it goes on in the window. */
  datatype Window = Settled(score: int) | Open(alpha: int, beta: int)

  /** Raise alpha to `lo`; settle when that closes the window. */
  function RaiseAlpha(alpha: int, beta: int, lo: int): (w: Window)
    ensures alpha < lo && lo >= beta <==> w.Settled?
    ensures w.Settled? ==> w.score == lo
    ensures w.Open? ==> w.beta == beta && w.alpha >= alpha && w.alpha >= lo && (w.alpha == alpha || w.alpha == lo)
  {
    if alpha < lo then
      if lo >= beta then Settled(lo) else Open(lo, beta)
    else Open(alpha, beta)
  }

  /** Lower beta to `hi`; settle when that closes the window. */
  function LowerBeta(alpha: int, beta: int, hi: int): (w: Window)
    ensures beta > hi && alpha >= hi <==> w.Settled?
    ensures w.Settled? ==> w.score == hi
    ensures w.Open? ==> w.alpha == alpha && w.beta <= beta && w.beta <= hi && (w.beta == beta || w.beta == hi)
  {
    if beta > hi then
      if alpha >= hi then Settled(hi) else Open(alpha, hi)
    else Open(alpha, beta)
  }

  /** Narrow the window to the scores still reachable with `moves` stones played. */
  function ClampWindow(moves: int, alpha: int, beta: int): Window
  {
    match RaiseAlpha(alpha, beta, LowerLimit(moves))
    case Settled(s) => Settled(s)
    case Open(a, b) => LowerBeta(a, b, UpperLimit(moves))
  }

  /** Narrow the window with a stored bound, if any. */
  function TightenWindow(alpha: int, beta: int, stored: Option<int>): Window
  {
    match stored
    case None => Open(alpha, beta)
    case Some(v) =>
      if v > BOUND_LIMIT then RaiseAlpha(alpha, beta, DecodeLower(v))
      else LowerBeta(alpha, beta, DecodeUpper(v))
  }

  /**
   * The reachable-score clamp: it never widens the window, leaves it open
   * exactly when the reachable scores meet it, and then the open window is
   * the intersection.
   */
  lemma ClampWindowIntersects(moves: int, alpha: int, beta: int)
    requires alpha < beta
    ensures var lo, hi := LowerLimit(moves), UpperLimit(moves);
      var a := if alpha < lo then lo else alpha;
      var b := if beta > hi then hi else beta;
      match ClampWindow(moves, alpha, beta)
      case Open(a', b') => a' == a && b' == b && a < b
      case Settled(s) => a >= b && (s == lo || s == hi)
  {
  }

  /**
   * A stored bound narrows the window toward itself: a lower bound s (stored
   * as LowerCode(s)) settles at s or lifts alpha to at least s, an upper
   * bound a (stored as UpperCode(a)) settles at a or drops beta to at most a.
   * An open window stays open and never widens.
   */
  lemma TightenWindowUsesBound(alpha: int, beta: int, s: int, a: int)
    requires alpha < beta && MIN_SCORE <= s && a <= MAX_SCORE
    ensures match TightenWindow(alpha, beta, Some(LowerCode(s)))
      case Settled(x) => x == s && s >= beta
      case Open(a', b') => a' < b' && a' >= alpha && a' >= s && b' == beta
    ensures match TightenWindow(alpha, beta, Some(UpperCode(a)))
      case Settled(x) => x == a && a <= alpha
      case Open(a', b') => a' < b' && a' == alpha && b' <= beta && b' <= a
    ensures TightenWindow(alpha, beta, None) == Open(alpha, beta)
  {
  }

  // ---------------------------------------------------------------------
  // Move ordering (lines 83-91).
  // ---------------------------------------------------------------------

  /** The one cell of `possible` in the column COLUMN_ORDER[i]. */
  function CandidateMove(possible: bv64, i: int): bv64
    requires 0 <= i < COLUMN_COUNT
  {
    possible & ColumnMask(COLUMN_ORDER[i])
  }

  /** `moveScore(move)`: the mover's winning cells after `move`. */

  /**
   * The entries `add`ed by the loop over `col = 6 .. from` (COLUMN_ORDER read
   * backwards, so outer columns first): the non-empty candidate moves with
   * their scores.
   */
  function CandidatesFrom(board: Board, possible: bv64, from: int): (es: seq<Entry>)
    requires 0 <= from <= COLUMN_COUNT
    ensures |es| <= COLUMN_COUNT - from
    decreases COLUMN_COUNT - from
  {
    if from == COLUMN_COUNT then []
    else
      var before := CandidatesFrom(board, possible, from + 1);
      var move := CandidateMove(possible, from);
      if move != 0 then before + [Entry(move, board.ScoreOf(move))] else before
  }

  function Candidates(board: Board, possible: bv64): seq<Entry>
  {
    CandidatesFrom(board, possible, 0)
  }

  /** The order `getNext` hands the moves out: the sorter's contents read from the top. */
  function SearchOrder(cands: seq<Entry>): seq<Entry>
  {
    Reverse(InsertAll(cands))
  }

  /** A move the search may play on `board`: cells the stones stay stacked with. */
  predicate Playable(board: Board, move: bv64)
  {
    move != 0 && Stacked(board.mask | move)
  }

  /** Every entry of `es` is a move that can be played on `board`. */
  ghost predicate AllPlayable(board: Board, es: seq<Entry>)
  {
    forall e :: e in es ==> Playable(board, e.move)
  }

  lemma CandidateMovePlayable(board: Board, possible: bv64, i: int)
    requires 0 <= i < COLUMN_COUNT
    requires Stacked(board.mask) && possible & !PossibleOf(board.mask) == 0
    ensures CandidateMove(possible, i) != 0 ==> Playable(board, CandidateMove(possible, i))
  {
    CellOfPossiblePlayable(board.mask, possible, ColumnMask(COLUMN_ORDER[i]));
  }

  lemma CellOfPossiblePlayable(m: bv64, possible: bv64, colm: bv64)
    requires Stacked(m) && possible & !PossibleOf(m) == 0
    ensures Stacked(m | (possible & colm))
  {
    var move := possible & colm;
    CandidateInside(possible, colm, PossibleOf(m));
    PossibleKeepsStacked(m, move);
  }

  lemma {:induction false} CandidatesPlayable(board: Board, possible: bv64, from: int)
    requires 0 <= from <= COLUMN_COUNT
    requires Stacked(board.mask) && possible & !PossibleOf(board.mask) == 0
    ensures forall e :: e in CandidatesFrom(board, possible, from) ==> Playable(board, e.move)
    decreases COLUMN_COUNT - from
  {
    if from < COLUMN_COUNT {
      CandidatesPlayable(board, possible, from + 1);
      CandidateMovePlayable(board, possible, from);
    }
  }

  lemma CandidateInside(possible: bv64, col: bv64, p: bv64)
    requires possible & !p == 0
    ensures (possible & col) & !p == 0
  {
  }

  /**
   * The search order: the best-scored move first, every candidate exactly
   * once, and of two equally scored candidates the one added later (the
   * more central column) first.
   */
  lemma SearchOrderBestFirst(cands: seq<Entry>)
    ensures var order := SearchOrder(cands);
      |order| == |cands| &&
      multiset(order) == multiset(cands) &&
      forall i, j :: 0 <= i < j < |order| ==> order[i].score >= order[j].score
    ensures forall a, b :: 0 <= a < b < |cands| && cands[a].score == cands[b].score ==>
      Below(InsertAll(cands), cands[a], cands[b])
  {
    InsertAllSortedPermutation(cands);
    var s := InsertAll(cands);
    SortedPairs(s);
    assert |s| == |multiset(s)| == |multiset(cands)| == |cands|;
    ReverseMultiset(s);
    forall a, b | 0 <= a < b < |cands| && cands[a].score == cands[b].score
      ensures Below(s, cands[a], cands[b])
    {
      InsertAllStable(cands, a, b);
    }
  }

  lemma {:induction false} ReverseMultiset<T>(s: seq<T>)
    ensures multiset(Reverse(s)) == multiset(s)
  {
    if s != [] {
      var t := s[1..];
      ReverseMultiset(t);
      assert Reverse(s) == Reverse(t) + [s[0]];
      assert s == [s[0]] + t;
    }
  }

  /** Every candidate the search plays is playable. */
  lemma SearchOrderPlayable(board: Board, possible: bv64)
    requires Stacked(board.mask) && possible & !PossibleOf(board.mask) == 0
    ensures AllPlayable(board, InsertAll(Candidates(board, possible)))
  {
    var cands := Candidates(board, possible);
    CandidatesPlayable(board, possible, 0);
    InsertAllSortedPermutation(cands);
    forall e | e in InsertAll(cands)
      ensures Playable(board, e.move)
    {
      assert e in multiset(InsertAll(cands));
      assert e in multiset(cands);
    }
  }

  // ---------------------------------------------------------------------
  // The null-window search's split point (lines 115-119).
  // ---------------------------------------------------------------------

  /**
   * The probe of `solve`: half way between `min` and `max`, pulled toward
   * zero by halving the nearer bound; always inside [min, max).
   */
  function SplitPoint(min: int, max: int): (med: int)
    requires min < max
    ensures min <= med < max
  {
    var med := min + (max - min) / 2;
    if med <= 0 && min / 2 < med then min / 2
    else if med >= 0 && max / 2 > med then max / 2
    else med
  }

  /** The best of `alpha` and the scores: the value of a search that cut nothing. */
  function Raise(alpha: int, scores: seq<int>): int
  {
    if scores == [] then alpha
    else
      var m := Raise(alpha, scores[..|scores| - 1]);
      if scores[|scores| - 1] > m then scores[|scores| - 1] else m
  }

  /** `Raise` is the maximum of `alpha` and the scores. */
  lemma {:induction false} RaiseIsMax(alpha: int, scores: seq<int>)
    ensures Raise(alpha, scores) >= alpha && forall i :: 0 <= i < |scores| ==> Raise(alpha, scores) >= scores[i]
    ensures Raise(alpha, scores) == alpha || exists i :: 0 <= i < |scores| && Raise(alpha, scores) == scores[i]
  {
    if scores != [] {
      var n := |scores| - 1;
      RaiseIsMax(alpha, scores[..n]);
      if Raise(alpha, scores[..n]) != alpha && Raise(alpha, scores) == Raise(alpha, scores[..n]) {
        var i :| 0 <= i < n && Raise(alpha, scores[..n]) == scores[..n][i];
        assert Raise(alpha, scores) == scores[i];
      }
    }
  }

  /** The least of `beta` and the scores. */
  function Least(beta: int, scores: seq<int>): int
  {
    if scores == [] then beta
    else
      var m := Least(beta, scores[..|scores| - 1]);
      if scores[|scores| - 1] < m then scores[|scores| - 1] else m
  }

  /** `Least` is the minimum of `beta` and the scores. */
  lemma {:induction false} LeastIsMin(beta: int, scores: seq<int>)
    ensures Least(beta, scores) <= beta && forall i :: 0 <= i < |scores| ==> Least(beta, scores) <= scores[i]
    ensures Least(beta, scores) == beta || exists i :: 0 <= i < |scores| && Least(beta, scores) == scores[i]
  {
    if scores != [] {
      var n := |scores| - 1;
      LeastIsMin(beta, scores[..n]);
      if Least(beta, scores[..n]) != beta && Least(beta, scores) == Least(beta, scores[..n]) {
        var i :| 0 <= i < n && Least(beta, scores[..n]) == scores[..n][i];
        assert Least(beta, scores) == scores[i];
      }
    }
  }

  // ---------------------------------------------------------------------
  // What `solve`, `analyze` and `bestMove` return (lines 107-165).
  // ---------------------------------------------------------------------

  /**
   * A null-window probe of `solve` at `med` that agrees with the exact score
   * `v`: it reports at most `med` exactly when `v` is at most `med`, and
   * lies between `med` and `v` (a fail-soft bound on the side of `v`).
   */
  predicate SoundProbe(v: int, med: int, s: int)
  {
    if v <= med then v <= s <= med else med < s <= v
  }

  /** Every probe of a run of `solve` agrees with the exact score `v`. */
  predicate SoundProbes(v: int, meds: seq<int>, probes: seq<int>)
    requires |meds| == |probes|
  {
    forall i :: 0 <= i < |meds| ==> SoundProbe(v, meds[i], probes[i])
  }

  lemma SoundProbesSnoc(v: int, meds: seq<int>, probes: seq<int>, med: int, s: int)
    requires |meds| == |probes|
    requires SoundProbes(v, meds + [med], probes + [s])
    ensures SoundProbes(v, meds, probes) && SoundProbe(v, med, s)
  {
    assert forall i :: 0 <= i < |meds| ==> (meds + [med])[i] == meds[i] && (probes + [s])[i] == probes[i];
    assert (meds + [med])[|meds|] == med && (probes + [s])[|meds|] == s;
  }

  lemma LeastSnoc(beta: int, scores: seq<int>, s: int)
    ensures Least(beta, scores + [s]) == if s < Least(beta, scores) then s else Least(beta, scores)
  {
    assert (scores + [s])[..|scores|] == scores;
  }

  lemma BestOfSnoc(scores: seq<Option<int>>, v: Option<int>)
    ensures BestOf(scores + [v]) ==
      var b := BestOf(scores);
      if v.Some? && (b.None? || v.value > scores[b.value].value) then Some(|scores|) else b
  {
    assert (scores + [v])[..|scores|] == scores;
  }

  /** The probes of `solve` that came back above their probe point: each one raised `min`. */
  function Lows(meds: seq<int>, probes: seq<int>): seq<int>
    requires |meds| == |probes|
  {
    if probes == [] then []
    else
      var n := |probes| - 1;
      Lows(meds[..n], probes[..n]) + (if probes[n] > meds[n] then [probes[n]] else [])
  }

  /** The probes of `solve` that came back at or below their probe point: each one lowered `max`. */
  function Highs(meds: seq<int>, probes: seq<int>): seq<int>
    requires |meds| == |probes|
  {
    if probes == [] then []
    else
      var n := |probes| - 1;
      Highs(meds[..n], probes[..n]) + (if probes[n] <= meds[n] then [probes[n]] else [])
  }

  lemma LowsHighsSnoc(meds: seq<int>, probes: seq<int>, med: int, s: int)
    requires |meds| == |probes|
    ensures s > med ==> Lows(meds + [med], probes + [s]) == Lows(meds, probes) + [s]
    ensures s > med ==> Highs(meds + [med], probes + [s]) == Highs(meds, probes)
    ensures s <= med ==> Lows(meds + [med], probes + [s]) == Lows(meds, probes)
    ensures s <= med ==> Highs(meds + [med], probes + [s]) == Highs(meds, probes) + [s]
  {
    assert (meds + [med])[..|meds|] == meds && (probes + [s])[..|probes|] == probes;
    assert Lows(meds, probes) + [] == Lows(meds, probes) && Highs(meds, probes) + [] == Highs(meds, probes);
  }

  /** The probe points and the probes of one run of `solve`. */
  datatype Run = Run(meds: seq<int>, traces: seq<Trace>)

  /** The values the probes returned (a thrown probe counts 0). */
  function Values(traces: seq<Trace>): (vs: seq<int>)
    ensures |vs| == |traces|
  {
    if traces == [] then []
    else
      var n := |traces| - 1;
      Values(traces[..n]) + [if traces[n].result.Ok? then traces[n].result.value else 0]
  }

  lemma ValuesSnoc(traces: seq<Trace>, t: Trace)
    ensures Values(traces + [t]) == Values(traces) + [if t.result.Ok? then t.result.value else 0]
  {
    assert (traces + [t])[..|traces|] == traces;
  }

  /**
   * The probes of `solve` on `board`: each earlier probe returned, the
   * bounds [min, max] they left were still open, the probe point is their
   * SplitPoint, and the probe is `negamax(board, med, med + 1, depth)` as
   * its trace explains.
   */
  ghost predicate Probed(file: Option<seq<Book.SByte>>, board: Board, depth: int, terminated: bool,
                         meds: seq<int>, traces: seq<Trace>)
    requires |meds| == |traces|
  {
    traces == [] ||
    var n := |traces| - 1;
    var min := Raise(-STARTING_MAX, Lows(meds[..n], Values(traces[..n])));
    var max := Least(STARTING_MAX, Highs(meds[..n], Values(traces[..n])));
    Probed(file, board, depth, terminated, meds[..n], traces[..n]) &&
    (n > 0 ==> traces[n - 1].result.Ok?) &&
    min < max && meds[n] == SplitPoint(min, max) &&
    Explains(file, board, meds[n], meds[n] + 1, depth, terminated, traces[n])
  }

  lemma ProbedSnoc(file: Option<seq<Book.SByte>>, board: Board, depth: int, terminated: bool,
                   meds: seq<int>, traces: seq<Trace>, med: int, t: Trace)
    requires |meds| == |traces|
    requires Probed(file, board, depth, terminated, meds, traces)
    requires traces != [] ==> traces[|traces| - 1].result.Ok?
    requires Raise(-STARTING_MAX, Lows(meds, Values(traces))) < Least(STARTING_MAX, Highs(meds, Values(traces)))
    requires med == SplitPoint(Raise(-STARTING_MAX, Lows(meds, Values(traces))), Least(STARTING_MAX, Highs(meds, Values(traces))))
    requires Explains(file, board, med, med + 1, depth, terminated, t)
    ensures Probed(file, board, depth, terminated, meds + [med], traces + [t])
  {
    var meds', traces' := meds + [med], traces + [t];
    assert meds'[..|meds|] == meds && traces'[..|traces|] == traces;
    assert meds'[|meds|] == med && traces'[|traces|] == t;
  }

  /**
   * What `solve(board, depth)` returns after the run `run`: WinScore, with
   * no probe, when the mover wins with its next stone; otherwise at most
   * 42 probes as `Probed` describes, a throw exactly when the last probe
   * threw, and else the final `min`, which the last probe closed on `max`.
   */
  ghost predicate Solved(file: Option<seq<Book.SByte>>, board: Board, depth: int, terminated: bool,
                         r: Result<int>, run: Run)
  {
    var meds, traces := run.meds, run.traces;
    |meds| == |traces| <= 2 * STARTING_MAX &&
    if board.CanWinNext() then r == Ok(WinScore(board.moves)) && traces == []
    else
      Probed(file, board, depth, terminated, meds, traces) &&
      (r.Thrown? <==> traces != [] && traces[|traces| - 1].result.Thrown?) &&
      (r.Ok? ==>
         traces != [] &&
         r.value == Raise(-STARTING_MAX, Lows(meds, Values(traces))) >= Least(STARTING_MAX, Highs(meds, Values(traces))))
  }

  /**
   * The table entries of `board` the probes read: the first probe the
   * entry `first`, each later probe the entry the one before it left.
   */
  ghost predicate Chained(board: Board, meds: seq<int>, traces: seq<Trace>, first: Option<int>)
    requires |meds| == |traces|
  {
    traces == [] ||
    var n := |traces| - 1;
    Chained(board, meds[..n], traces[..n], first) &&
    traces[n].stored == if n == 0 then first else StoredAfter(board, meds[n - 1], meds[n - 1] + 1, traces[n - 1])
  }

  /** The entry of `board` after the probes. */
  ghost function LastStored(board: Board, meds: seq<int>, traces: seq<Trace>, first: Option<int>): Option<int>
    requires |meds| == |traces|
  {
    if traces == [] then first
    else StoredAfter(board, meds[|meds| - 1], meds[|meds| - 1] + 1, traces[|traces| - 1])
  }

  /**
   * The bounds [min, max] of `solve` after the probes `probes` at the points
   * `meds`: min is the greatest of -STARTING_MAX and the probes that came
   * back above their point, max the least of STARTING_MAX and the others,
   * and every exact score the probes agree with lies between the two.
   */
  ghost predicate Bounds(meds: seq<int>, probes: seq<int>, min: int, max: int)
  {
    |meds| == |probes| &&
    min == Raise(-STARTING_MAX, Lows(meds, probes)) && max == Least(STARTING_MAX, Highs(meds, probes)) &&
    forall v :: -STARTING_MAX <= v <= STARTING_MAX && SoundProbes(v, meds, probes) ==> min <= v <= max
  }

  /** Before the first probe: nothing probed, the bounds are the widest, and the entry is the one the solve found. */
  lemma ProbesStart(file: Option<seq<Book.SByte>>, board: Board, depth: int, terminated: bool, first: Option<int>)
    ensures Probed(file, board, depth, terminated, [], []) && Chained(board, [], [], first)
    ensures LastStored(board, [], [], first) == first
    ensures Values([]) == [] && Bounds([], [], -STARTING_MAX, STARTING_MAX)
  {
  }

  /**
   * A probe at a point inside the bounds moves max down to its value when
   * that is at most the point, and min up to it otherwise.
   */
  lemma BoundsSnoc(meds: seq<int>, probes: seq<int>, min: int, max: int, med: int, s: int)
    requires Bounds(meds, probes, min, max) && min <= med < max
    ensures Bounds(meds + [med], probes + [s], if s <= med then min else s, if s <= med then s else max)
  {
    LowsHighsSnoc(meds, probes, med, s);
    RaiseSnoc(-STARTING_MAX, Lows(meds, probes), s);
    LeastSnoc(STARTING_MAX, Highs(meds, probes), s);
    SoundSnoc(meds, probes, min, max, med, s);
  }

  lemma SoundSnoc(meds: seq<int>, probes: seq<int>, min: int, max: int, med: int, s: int)
    requires |meds| == |probes|
    requires forall v :: -STARTING_MAX <= v <= STARTING_MAX && SoundProbes(v, meds, probes) ==> min <= v <= max
    ensures forall v :: -STARTING_MAX <= v <= STARTING_MAX && SoundProbes(v, meds + [med], probes + [s]) ==>
      if s <= med then min <= v <= s else s <= v <= max
  {
    forall v | -STARTING_MAX <= v <= STARTING_MAX && SoundProbes(v, meds + [med], probes + [s])
      ensures if s <= med then min <= v <= s else s <= v <= max
    {
      SoundProbesSnoc(v, meds, probes, med, s);
    }
  }

  /** Closed bounds: min is the result `solve` reports, and the only exact score the probes agree with. */
  lemma BoundsDone(meds: seq<int>, probes: seq<int>, min: int, max: int)
    requires Bounds(meds, probes, min, max) && min >= max
    ensures min == Raise(-STARTING_MAX, Lows(meds, probes)) >= Least(STARTING_MAX, Highs(meds, probes))
    ensures forall v :: -STARTING_MAX <= v <= STARTING_MAX && SoundProbes(v, meds, probes) ==> v == min
  {
  }

  /** One more probe at the split point of the open bounds joins the run. */
  lemma ProbeRecorded(file: Option<seq<Book.SByte>>, board: Board, depth: int, terminated: bool,
                      meds: seq<int>, traces: seq<Trace>, first: Option<int>, min: int, max: int, med: int, t: Trace)
    requires |meds| == |traces| && Probed(file, board, depth, terminated, meds, traces)
    requires traces != [] ==> traces[|traces| - 1].result.Ok?
    requires Bounds(meds, Values(traces), min, max) && min < max && med == SplitPoint(min, max)
    requires Explains(file, board, med, med + 1, depth, terminated, t)
    requires Chained(board, meds, traces, first) && t.stored == LastStored(board, meds, traces, first)
    ensures Probed(file, board, depth, terminated, meds + [med], traces + [t])
    ensures Chained(board, meds + [med], traces + [t], first)
    ensures LastStored(board, meds + [med], traces + [t], first) == StoredAfter(board, med, med + 1, t)
    ensures Values(traces + [t]) == Values(traces) + [if t.result.Ok? then t.result.value else 0]
  {
    hide Explains, Runs, Probed, Chained, StoredAfter, Values, Raise, Least, Lows, Highs, SoundProbes, SplitPoint;
    ProbedSnoc(file, board, depth, terminated, meds, traces, med, t);
    ChainedSnoc(board, meds, traces, first, med, t);
    ValuesSnoc(traces, t);
  }

  lemma ChainedSnoc(board: Board, meds: seq<int>, traces: seq<Trace>, first: Option<int>, med: int, t: Trace)
    requires |meds| == |traces| && Chained(board, meds, traces, first)
    requires t.stored == LastStored(board, meds, traces, first)
    ensures Chained(board, meds + [med], traces + [t], first)
  {
    assert (meds + [med])[..|meds|] == meds && (traces + [t])[..|traces|] == traces;
  }

  /**
   * What `analyze` and `bestMove` hold for the column `c`: undefined (None)
   * exactly when the column is full, WinScore when it wins at once, and
   * otherwise minus the opponent's `solve` after it, run as `run`.
   */
  ghost predicate ColumnReport(file: Option<seq<Book.SByte>>, board: Board, depth: int, terminated: bool,
                               c: Col, v: Option<int>, run: Run)
  {
    (v.Some? <==> board.CanPlay(c)) &&
    (board.CanPlay(c) && board.IsWinningMove(c).Some? ==> v == Some(WinScore(board.moves))) &&
    (board.Valid() && Stacked(board.mask) && board.CanPlay(c) && board.IsWinningMove(c).None? ==>
       v.Some? && ReplyReport(file, board, depth, terminated, c, v.value, run))
  }

  /** The reply to column `c` scores `x`: the opponent's `solve` after it, run as `run`, returned -x. */
  ghost predicate ReplyReport(file: Option<seq<Book.SByte>>, board: Board, depth: int, terminated: bool,
                              c: Col, x: int, run: Run)
    requires board.Valid() && Stacked(board.mask)
  {
    Solved(file, board.PlayCol(c), depth, terminated, Ok(-x), run)
  }

  /** A reply the opponent answers by winning at once scores minus the opponent's WinScore. */
  lemma ReplyToImmediateWin(file: Option<seq<Book.SByte>>, board: Board, depth: int, terminated: bool,
                            c: Col, x: int, run: Run)
    requires board.Valid() && Stacked(board.mask)
    requires ReplyReport(file, board, depth, terminated, c, x, run)
    ensures board.PlayCol(c).CanWinNext() ==> x == -WinScore(board.moves + 1) && run.traces == []
    ensures !board.PlayCol(c).CanWinNext() ==> run.traces != []
  {
  }

  /** The columns left to right, as `analyze` visits them. */
  const COLUMNS: seq<Col> := [0, 1, 2, 3, 4, 5, 6]

  /** The reports `vs`, with the runs `runs`, hold for the first |vs| of the columns `cols`. */
  ghost predicate Reported(file: Option<seq<Book.SByte>>, board: Board, depth: int, terminated: bool,
                           cols: seq<Col>, vs: seq<Option<int>>, runs: seq<Run>)
    requires |vs| <= |cols| && |runs| == |vs|
  {
    vs == [] ||
    var n := |vs| - 1;
    Reported(file, board, depth, terminated, cols, vs[..n], runs[..n]) &&
    ColumnReport(file, board, depth, terminated, cols[n], vs[n], runs[n])
  }

  lemma ReportedSnoc(file: Option<seq<Book.SByte>>, board: Board, depth: int, terminated: bool,
                     cols: seq<Col>, vs: seq<Option<int>>, runs: seq<Run>, v: Option<int>, run: Run)
    requires |vs| < |cols| && |runs| == |vs| && Reported(file, board, depth, terminated, cols, vs, runs)
    requires ColumnReport(file, board, depth, terminated, cols[|vs|], v, run)
    ensures Reported(file, board, depth, terminated, cols, vs + [v], runs + [run])
  {
    assert (vs + [v])[..|vs|] == vs && (runs + [run])[..|runs|] == runs;
  }

  lemma {:induction false} ReportedAt(file: Option<seq<Book.SByte>>, board: Board, depth: int, terminated: bool,
                                      cols: seq<Col>, vs: seq<Option<int>>, runs: seq<Run>, i: nat)
    requires |vs| <= |cols| && |runs| == |vs| && Reported(file, board, depth, terminated, cols, vs, runs) && i < |vs|
    ensures ColumnReport(file, board, depth, terminated, cols[i], vs[i], runs[i])
  {
    var n := |vs| - 1;
    if i != n {
      ReportedAt(file, board, depth, terminated, cols, vs[..n], runs[..n], i);
      assert vs[..n][i] == vs[i] && runs[..n][i] == runs[i];
    }
  }

  lemma ReportedEach(file: Option<seq<Book.SByte>>, board: Board, depth: int, terminated: bool,
                     cols: seq<Col>, vs: seq<Option<int>>, runs: seq<Run>)
    requires |vs| <= |cols| && |runs| == |vs| && Reported(file, board, depth, terminated, cols, vs, runs)
    ensures forall i :: 0 <= i < |vs| ==> ColumnReport(file, board, depth, terminated, cols[i], vs[i], runs[i])
  {
    forall i | 0 <= i < |vs|
      ensures ColumnReport(file, board, depth, terminated, cols[i], vs[i], runs[i])
    {
      ReportedAt(file, board, depth, terminated, cols, vs, runs, i);
    }
  }

  /** The k-th column of the search order is playable and wins at once. */
  predicate WinsAt(board: Board, k: int)
    requires 0 <= k < COLUMN_COUNT
  {
    board.CanPlay(COLUMN_ORDER[k]) && board.IsWinningMove(COLUMN_ORDER[k]).Some?
  }

  /** The first position of the search order from `k` on whose column wins at once. */
  function FirstWinner(board: Board, k: nat): (r: Option<nat>)
    requires k <= COLUMN_COUNT
    decreases COLUMN_COUNT - k
    ensures r.Some? ==> k <= r.value < COLUMN_COUNT && WinsAt(board, r.value)
    ensures forall j :: k <= j < COLUMN_COUNT && (r.None? || j < r.value) ==> !WinsAt(board, j)
  {
    if k == COLUMN_COUNT then None
    else if WinsAt(board, k) then Some(k)
    else FirstWinner(board, k + 1)
  }

  /**
   * `best_move` of `bestMove` over the positions scored so far (None for
   * undefined): a later score replaces the best only when strictly greater.
   */
  function BestOf(scores: seq<Option<int>>): (r: Option<nat>)
    ensures r.Some? ==> r.value < |scores| && scores[r.value].Some?
  {
    if scores == [] then None
    else
      var n := |scores| - 1;
      var b := BestOf(scores[..n]);
      if scores[n].Some? && (b.None? || scores[n].value > scores[b.value].value) then Some(n)
      else b
  }

  /**
   * BestOf is the first position of a greatest score: none exactly when
   * no position has a score, and otherwise at least every score and
   * strictly above every score before it.
   */
  lemma {:induction false} BestOfIsFirstMaximum(scores: seq<Option<int>>)
    ensures var r := BestOf(scores);
      (r.None? <==> forall j :: 0 <= j < |scores| ==> scores[j].None?) &&
      (r.Some? ==> forall j :: 0 <= j < |scores| && scores[j].Some? ==> scores[j].value <= scores[r.value].value) &&
      (r.Some? ==> forall j :: 0 <= j < r.value && scores[j].Some? ==> scores[j].value < scores[r.value].value)
  {
    if scores != [] {
      var n := |scores| - 1;
      BestOfIsFirstMaximum(scores[..n]);
      assert forall j :: 0 <= j < n ==> scores[..n][j] == scores[j];
    }
  }

  // ---------------------------------------------------------------------
  // The solver's state and its searches.
  // ---------------------------------------------------------------------

  /** A result, or the exception a failed opening-book read raises. */
  datatype Result<T> = Ok(value: T) | Thrown

  /**
   * Lines 30-73 of `negamax`, before the book is read: a position where
   * every move loses at once scores LossScore, a full board 0; otherwise
   * the window is clamped to the reachable scores and then to the stored
   * bound, and the search is settled when it closes.
   */
  function Prelude(noMove: bool, full: bool, moves: int, alpha: int, beta: int, stored: Option<int>): Window
  {
    if noMove then Settled(LossScore(moves))
    else if full then Settled(0)
    else match ClampWindow(moves, alpha, beta)
      case Settled(s) => Settled(s)
      case Open(a, b) => TightenWindow(a, b, stored)
  }

  /**
   * The window left open by the prelude lies inside the caller's window,
   * inside the reachable scores, and inside the stored bound.
   */
  lemma PreludeNarrows(moves: int, alpha: int, beta: int, stored: Option<int>)
    requires alpha < beta
    ensures match Prelude(false, false, moves, alpha, beta, stored)
      case Open(a, b) =>
        alpha <= a < b <= beta && LowerLimit(moves) <= a && b <= UpperLimit(moves) &&
        (stored.Some? && stored.value > BOUND_LIMIT ==> DecodeLower(stored.value) <= a) &&
        (stored.Some? && stored.value <= BOUND_LIMIT ==> b <= DecodeUpper(stored.value))
      case Settled(s) => true
  {
  }

  /**
   * One call of `negamax` as it ran: the table entry it read for its
   * position (the only input it takes from outside its arguments), what it
   * returned, and which line after the prelude gave that.
   */
  datatype Trace = Node(stored: Option<int>, result: Result<int>, exit: Exit)

  /** Which line gave the result; a search keeps the calls it made, in order. */
  datatype Exit =
    | Settle
    | BookFault
    | BookHit
    | Halted
    | Searched(children: seq<Trace>)

  /** The score of one call seen from the caller: its result negated (a thrown call counts 0). */
  function ScoreOf(t: Trace): int
  {
    if t.result.Ok? then -t.result.value else 0
  }

  /** The scores the search saw, one per call in order. */
  function Scores(children: seq<Trace>): (s: seq<int>)
    ensures |s| == |children|
  {
    seq(|children|, i requires 0 <= i < |children| => ScoreOf(children[i]))
  }

  lemma ScoresSnoc(children: seq<Trace>, t: Trace)
    ensures Scores(children + [t]) == Scores(children) + [ScoreOf(t)]
  {
  }

  /** The recursion measure of the search: it stops once `depth` is negative. */
  function Height(depth: int): nat
  {
    if depth < 0 then 0 else depth + 1
  }

  /**
   * `t` is a run of `negamax(board, alpha, beta, depth)` with the book file
   * `file` and the early-stop flag `terminated`: the prelude, fed the
   * table entry `t.stored`, settles it, or the rest of the function
   * decides in the window the prelude left.
   */
  ghost predicate Explains(file: Option<seq<Book.SByte>>, board: Board, alpha: int, beta: int, depth: int,
                           terminated: bool, t: Trace)
    decreases Height(depth), 4, 0
  {
    Runs(file, board, alpha, beta, depth, terminated, t.stored, t.exit, t.result)
  }

  /** The fields of such a run: the table entry `stored` it read, how it ended, and its result `r`. */
  ghost predicate Runs(file: Option<seq<Book.SByte>>, board: Board, alpha: int, beta: int, depth: int,
                       terminated: bool, stored: Option<int>, exit: Exit, r: Result<int>)
    decreases Height(depth), 3, 0
  {
    match Prelude(board.PossibleNonLosingMoves() == 0, board.IsTie(), board.moves, alpha, beta, stored)
    case Settled(s) => exit == Settle && r == Ok(s)
    case Open(a, b) => Answers(file, board, a, b, depth, terminated, exit, r)
  }

  /**
   * Lines 75-89 in the open window (alpha, beta): a failing book read
   * throws, a book value other than 0 is the score, a stop request or an
   * exhausted depth returns alpha, and otherwise the candidate moves are
   * searched.  A book whose load throws throws on its first read whatever
   * the position; whether this read is the first is not tracked, so for
   * such a book a position deeper than the book may also throw.
   */
  ghost predicate Answers(file: Option<seq<Book.SByte>>, board: Board, alpha: int, beta: int, depth: int,
                          terminated: bool, exit: Exit, r: Result<int>)
    decreases Height(depth), 2, 0
  {
    var look := Book.Answered(file, board);
    if look.Fault? then exit == BookFault && r == Thrown
    else if Book.LoadThrows(file) && exit == BookFault then r == Thrown
    else if look.Hit? && look.value != 0 then exit == BookHit && r == Ok(look.value + MIN_SCORE - 1)
    else if terminated || depth < 0 then exit == Halted && r == Ok(alpha)
    else exit.Searched? && Searches(file, board, alpha, beta, depth, terminated, exit.children, r)
  }

  /**
   * Lines 83-104: the candidate moves of `board`, searched best first,
   * made the calls `children` and gave `r`.
   */
  ghost predicate Searches(file: Option<seq<Book.SByte>>, board: Board, alpha: int, beta: int, depth: int,
                           terminated: bool, children: seq<Trace>, r: Result<int>)
    requires depth >= 0
    decreases Height(depth), 1, 0
  {
    var order := SearchOrder(Candidates(board, board.PossibleNonLosingMoves()));
    Tried(file, board, order, alpha, beta, depth, terminated, children) &&
    SearchResult(alpha, beta, |order|, children, r)
  }

  /**
   * The calls of a search over `order`: the i-th plays the i-th move and
   * searches the opponent in the window (-beta, -alpha'), alpha' being the
   * best of alpha and the scores before it, one stone deeper.
   */
  ghost predicate Tried(file: Option<seq<Book.SByte>>, board: Board, order: seq<Entry>, alpha: int, beta: int,
                        depth: int, terminated: bool, children: seq<Trace>)
    requires depth >= 0
    decreases Height(depth), 0, |children|
  {
    children == [] ||
    var n := |children| - 1;
    Tried(file, board, order, alpha, beta, depth, terminated, children[..n]) &&
    n < |order| && board.Valid() && Playable(board, order[n].move) &&
    Explains(file, board.Play(order[n].move), -beta, -Raise(alpha, Scores(children[..n])), depth - 1,
             terminated, children[n])
  }

  lemma TriedSnoc(file: Option<seq<Book.SByte>>, board: Board, order: seq<Entry>, alpha: int, beta: int,
                  depth: int, terminated: bool, children: seq<Trace>, t: Trace)
    requires board.Valid() && depth >= 0
    requires Tried(file, board, order, alpha, beta, depth, terminated, children)
    requires |children| < |order| && Playable(board, order[|children|].move)
    requires Explains(file, board.Play(order[|children|].move), -beta, -Raise(alpha, Scores(children)), depth - 1,
                      terminated, t)
    ensures Tried(file, board, order, alpha, beta, depth, terminated, children + [t])
  {
    assert (children + [t])[..|children|] == children;
  }

  /**
   * The loop of lines 90-104 over `count` moves gave `r`: every score
   * before the last stayed below beta; a thrown call throws, a score
   * reaching beta is returned, and a loop that ran out of moves returns
   * the best of alpha and the scores.
   */
  predicate SearchResult(alpha: int, beta: int, count: nat, children: seq<Trace>, r: Result<int>)
  {
    var n, s := |children|, Scores(children);
    n <= count &&
    (forall i :: 0 <= i < n - 1 ==> children[i].result.Ok? && s[i] < beta) &&
    if n > 0 && children[n - 1].result.Thrown? then r == Thrown
    else if n > 0 && s[n - 1] >= beta then r == Ok(s[n - 1])
    else n == count && r == Ok(Raise(alpha, s))
  }

  /** The search stopped at a score reaching beta. */
  predicate CutOff(children: seq<Trace>, beta: int)
  {
    children != [] && children[|children| - 1].result.Ok? && Scores(children)[|children| - 1] >= beta
  }

  /**
   * A search that returned in an open window (alpha < beta) returned at
   * least alpha; it returned at least beta exactly when it cut, and then
   * the score that cut; otherwise it tried every move and returned the
   * greatest of alpha and their scores.
   */
  lemma SearchResultIsBest(alpha: int, beta: int, count: nat, children: seq<Trace>, v: int)
    requires alpha < beta && SearchResult(alpha, beta, count, children, Ok(v))
    ensures v >= alpha
    ensures v >= beta <==> CutOff(children, beta)
    ensures CutOff(children, beta) ==> v == Scores(children)[|children| - 1]
    ensures !CutOff(children, beta) ==>
      |children| == count && (forall i :: 0 <= i < |children| ==> children[i].result.Ok? && Scores(children)[i] <= v) &&
      (v == alpha || exists i :: 0 <= i < |children| && v == Scores(children)[i])
  {
    var s := Scores(children);
    RaiseIsMax(alpha, s);
  }

  /**
   * The state of the loop of lines 90-101 after the calls `children`: none
   * threw or reached beta, and `a` is the best of alpha and their scores.
   */
  predicate Running(alpha: int, beta: int, a: int, children: seq<Trace>)
  {
    a == Raise(alpha, Scores(children)) &&
    forall i :: 0 <= i < |children| ==> children[i].result.Ok? && Scores(children)[i] < beta
  }

  /** One more call: it throws, cuts, or the loop runs on with `a` raised to its score. */
  lemma RunningSnoc(alpha: int, beta: int, count: nat, a: int, children: seq<Trace>, t: Trace)
    requires Running(alpha, beta, a, children) && |children| < count
    ensures t.result.Thrown? ==> SearchResult(alpha, beta, count, children + [t], Thrown)
    ensures t.result.Ok? && -t.result.value >= beta ==>
      SearchResult(alpha, beta, count, children + [t], Ok(-t.result.value)) && CutOff(children + [t], beta)
    ensures t.result.Ok? && -t.result.value < beta ==>
      Running(alpha, beta, if -t.result.value > a then -t.result.value else a, children + [t])
  {
    ScoresSnoc(children, t);
    RaiseSnoc(alpha, Scores(children), ScoreOf(t));
  }

  /** A loop that ran out of moves returns `a`, without a cut. */
  lemma RunningDone(alpha: int, beta: int, a: int, children: seq<Trace>)
    requires Running(alpha, beta, a, children)
    ensures SearchResult(alpha, beta, |children|, children, Ok(a)) && !CutOff(children, beta)
  {
  }
  /** Before the first move: no call made, the best is alpha, and every move of the order can be played. */
  lemma TryStart(file: Option<seq<Book.SByte>>, board: Board, sorted: seq<Entry>, alpha: int, beta: int,
                 depth: int, terminated: bool)
    requires depth >= 0 && AllPlayable(board, sorted)
    ensures Tried(file, board, Reverse(sorted), alpha, beta, depth, terminated, [])
    ensures Running(alpha, beta, alpha, [])
    ensures AllPlayable(board, Reverse(sorted))
  {
    forall e | e in Reverse(sorted)
      ensures Playable(board, e.move)
    {
      var k :| 0 <= k < |Reverse(sorted)| && Reverse(sorted)[k] == e;
      assert sorted[|sorted| - 1 - k] in sorted;
    }
  }

  /**
   * The k-th move taken out of a sorter holding `sorted` is the k-th of the
   * search order; it can be played, and the window of its call is the best
   * of alpha and the scores so far.
   */
  lemma NextCall(board: Board, sorted: seq<Entry>, alpha: int, beta: int, a: int, children: seq<Trace>)
    requires |children| < |sorted| && AllPlayable(board, Reverse(sorted)) && Running(alpha, beta, a, children)
    ensures Reverse(sorted)[|children|] == sorted[|sorted| - 1 - |children|]
    ensures Playable(board, Reverse(sorted)[|children|].move)
    ensures a == Raise(alpha, Scores(children))
  {
    assert Reverse(sorted)[|children|] in Reverse(sorted);
  }


  /** The code `negamax` stores for the result `v` of a search: a lower bound after a cut, else an upper bound. */
  function BoundCode(children: seq<Trace>, beta: int, v: int): int
  {
    if CutOff(children, beta) then LowerCode(v) else UpperCode(v)
  }

  /**
   * The table entry of `board` after the call `t` in the window
   * (alpha, beta): the bound a finished search stored, else the entry the
   * call read.
   */
  ghost function StoredAfter(board: Board, alpha: int, beta: int, t: Trace): Option<int>
  {
    match Prelude(board.PossibleNonLosingMoves() == 0, board.IsTie(), board.moves, alpha, beta, t.stored)
    case Open(_, b) =>
      if t.exit.Searched? && t.result.Ok? then Some(BoundCode(t.exit.children, b, t.result.value)) else t.stored
    case Settled(_) => t.stored
  }

  /** The cells `add`ed to the sorter: the candidates of `possible`, in column order. */
  method CollectMoves(board: Board, possible: bv64) returns (moves: MoveSorter)
    ensures fresh(moves) && fresh(moves.entries)
    ensures moves.Valid() && moves.Contents() == InsertAll(Candidates(board, possible))
  {
    moves := new MoveSorter();
    for col := COLUMN_COUNT downto 0
      invariant fresh(moves) && fresh(moves.entries)
      invariant moves.Valid() && moves.Contents() == InsertAll(CandidatesFrom(board, possible, col))
    {
      var move, score := ScoredCandidate(board, possible, col);
      if move != 0 {
        ghost var before := CandidatesFrom(board, possible, col + 1);
        InsertAllLength(before);
        InsertAllSnoc(before, Entry(move, score));
        moves.Add(move, score);
      }
    }
  }

  /** One round of the loop: the column's candidate cell and, when there is one, its score. */
  method ScoredCandidate(board: Board, possible: bv64, col: int) returns (move: bv64, score: nat)
    requires 0 <= col < COLUMN_COUNT
    ensures move == 0 ==> CandidatesFrom(board, possible, col) == CandidatesFrom(board, possible, col + 1)
    ensures move != 0 ==> CandidatesFrom(board, possible, col) == CandidatesFrom(board, possible, col + 1) + [Entry(move, score)]
  {
    move := CandidateMove(possible, col);
    score := 0;
    if move != 0 {
      score := board.MoveScore(move);
    }
  }

  lemma RaiseSnoc(alpha: int, scores: seq<int>, s: int)
    ensures Raise(alpha, scores + [s]) == if s > Raise(alpha, scores) then s else Raise(alpha, scores)
  {
    assert (scores + [s])[..|scores|] == scores;
  }

  lemma InsertAllSnoc(es: seq<Entry>, e: Entry)
    ensures InsertAll(es + [e]) == Insert(InsertAll(es), e)
  {
    assert (es + [e])[..|es|] == es;
  }

  lemma InsertAllLength(es: seq<Entry>)
    ensures |InsertAll(es)| == |es|
  {
    InsertAllSortedPermutation(es);
    assert |InsertAll(es)| == |multiset(InsertAll(es))| == |multiset(es)|;
  }

  /**
   * The module state of solver.js: the transposition table of 8388593 keys,
   * the opening book and the early-termination flag.
   */
  class Solver {
    const table: Transposition.TranspositionTable
    const book: Book.OpeningBook
    var terminateEarly: bool

    ghost predicate Valid()
      reads this, table, book
    {
      table.Valid() && book.Valid() && table.maxSize == TABLE_SIZE
    }

    constructor (bookFile: Option<seq<Book.SByte>>)
      ensures Valid() && !terminateEarly
      ensures fresh(table) && fresh(book)
      ensures table.order == [] && book.file == bookFile && book.data.None?
    {
      table := new Transposition.TranspositionTable(TABLE_SIZE);
      book := new Book.OpeningBook(bookFile);
      terminateEarly := false;
    }

    /** `terminate(val)`: ask running searches to stop (or no longer to). */
    method Terminate(val: bool := true)
      requires Valid()
      modifies this
      ensures Valid() && terminateEarly == val
    {
      terminateEarly := val;
    }

    /** `isTerminated()`. */
    function IsTerminated(): bool
      reads this
    {
      terminateEarly
    }

    /**
     * `negamax(board, alpha, beta, depth)`: the score of `board` for the
     * mover, searched in the window (alpha, beta) to `depth` further stones.
     * The trace `t` records the run: the table entry it read for `board`,
     * and below it the calls it made, each with the entry it read.  Given
     * those entries, `Explains` fixes every step and the result; the entry
     * for `board` is left as it was unless a search stored its bound.
     */
    method Negamax(board: Board, alpha: int := -STARTING_MAX, beta: int := STARTING_MAX, depth: int := 8)
      returns (r: Result<int>, ghost t: Trace)
      requires Valid() && board.Valid() && Stacked(board.mask)
      modifies table, book
      decreases Height(depth), 4
      ensures Valid()
      ensures t.result == r && t.stored == old(table.Get(board.Key() as nat))
      ensures Explains(book.file, board, alpha, beta, depth, old(terminateEarly), t)
      ensures !t.exit.Searched? ==> table.order == old(table.order) && table.entries == old(table.entries)
      ensures r.Ok? ==> table.Get(board.Key() as nat) == StoredAfter(board, alpha, beta, t)
    {
      var possible := board.PossibleNonLosingMoves();
      var key := board.Key() as nat;
      var stored := table.Get(key);
      var pre := Prelude(possible == 0, board.IsTie(), board.moves, alpha, beta, stored);
      if pre.Settled? {
        return Ok(pre.score), Node(stored, Ok(pre.score), Settle);
      }
      SearchOrderPlayable(board, possible);
      ghost var exit;
      r, exit := BookThenSearch(board, possible, key, pre.alpha, pre.beta, depth);
      t := Node(stored, r, exit);
    }

    /** `getOpeningBook(board)` as the search sees it: the answer of the book file. */
    method ReadBook(board: Board) returns (val: Book.Lookup)
      requires Valid()
      modifies book
      ensures Valid()
      ensures old(book.data).None? && Book.LoadThrows(book.file) ==> val == Book.Fault
      ensures !(old(book.data).None? && Book.LoadThrows(book.file)) ==> val == Book.Answered(book.file, board)
    {
      val := book.GetOpeningBook(board);
    }

    /**
     * Lines 75-104 after the prelude left the window (alpha, beta) open:
     * as `Answers` states; only a search that returns changes the table,
     * storing its bound under `key`.
     */
    method BookThenSearch(board: Board, possible: bv64, key: nat, alpha: int, beta: int, depth: int)
      returns (r: Result<int>, ghost exit: Exit)
      requires Valid() && board.Valid() && Stacked(board.mask)
      requires possible == board.PossibleNonLosingMoves()
      requires AllPlayable(board, InsertAll(Candidates(board, possible)))
      modifies table, book
      decreases Height(depth), 3
      ensures Valid()
      ensures Answers(book.file, board, alpha, beta, depth, old(terminateEarly), exit, r)
      ensures !exit.Searched? ==> table.order == old(table.order) && table.entries == old(table.entries)
      ensures exit.Searched? && r.Ok? ==> table.Get(key) == Some(BoundCode(exit.children, beta, r.value))
    {
      hide Tried, Explains, Runs, SearchResult, CutOff, Running, Playable, AllPlayable, Stacked, Raise, Scores,
        Board.Valid, Board.Play, Board.Key, Key3Of, Book.Answered, Book.LoadThrows, InsertAll, Candidates, Board.PossibleNonLosingMoves,
        Solver.Valid;
      ghost var stop, file := terminateEarly, book.file;
      var val := ReadBook(board);
      assert stop == terminateEarly && file == book.file;
      assert val == Book.Answered(file, board) || (Book.LoadThrows(file) && val == Book.Fault);
      if val.Fault? {
        return Thrown, BookFault;
      }
      if val.Hit? && val.value != 0 {
        return Ok(val.value as int + MIN_SCORE - 1), BookHit;
      }
      if terminateEarly || depth < 0 {
        return Ok(alpha), Halted;
      }
      var moves := CollectMoves(board, possible);
      InsertAllLength(Candidates(board, possible));
      ghost var children;
      r, children := Search(board, moves, key, alpha, beta, depth, InsertAll(Candidates(board, possible)));
      assert stop == terminateEarly && file == book.file;
      assert Tried(file, board, SearchOrder(Candidates(board, possible)), alpha, beta, depth, stop, children);
      exit := Searched(children);
    }

    /**
     * `moves.getNext()` as the search uses it: the sorter holds a prefix of
     * `sorted`, and the next move is the last entry of that prefix, or 0
     * once the sorter is empty.
     */
    static method NextMove(moves: MoveSorter, ghost sorted: seq<Entry>) returns (next: bv64)
      requires moves.Valid() && moves.size <= |sorted| && moves.Contents() == sorted[..moves.size]
      requires forall e :: e in sorted ==> e.move != 0
      modifies moves
      ensures moves.Valid() && moves.size <= old(moves.size) && moves.Contents() == sorted[..moves.size]
      ensures next != 0 ==> moves.size + 1 == old(moves.size) && next == sorted[moves.size].move
      ensures next == 0 ==> moves.size == old(moves.size) == 0
    {
      ghost var n := moves.size;
      next := moves.GetNext();
      if n > 0 {
        assert sorted[n - 1] in sorted;
        assert sorted[..n][..n - 1] == sorted[..n - 1];
      }
    }

    /** `transposition_table.put(key, val)`, seen from the search: the value is stored under the key. */
    method Store(key: nat, val: int)
      requires Valid()
      modifies table
      ensures Valid() && table.Get(key) == Some(val)
    {
      table.Put(key, val);
    }

    /**
     * Lines 92-94: play the next move of `order` on a copy of the board and
     * negate the opponent's score, searched in the window (-beta, -alpha)
     * one stone deeper, `alpha` being the best of `first` and the scores so
     * far; the call joins the search's trace.
     */
    method ScoreMove(board: Board, move: bv64, alpha: int, beta: int, depth: int,
                     ghost order: seq<Entry>, ghost first: int, ghost children: seq<Trace>)
      returns (r: Result<int>, ghost child: Trace)
      requires Valid() && board.Valid() && Stacked(board.mask) && depth >= 0
      requires |children| < |order| && move == order[|children|].move && Playable(board, move)
      requires alpha == Raise(first, Scores(children))
      requires Tried(book.file, board, order, first, beta, depth, terminateEarly, children)
      modifies table, book
      decreases Height(depth), 0
      ensures Valid()
      ensures Tried(book.file, board, order, first, beta, depth, terminateEarly, children + [child])
      ensures r.Thrown? <==> child.result.Thrown?
      ensures r.Ok? ==> r.value == -child.result.value
    {
      hide Explains, Runs, Tried, Raise, Scores, Solver.Valid, Board.Valid, Board.Key, Key3Of;
      var next := board.Play(move);
      var s;
      s, child := Negamax(next, -beta, -alpha, depth - 1);
      TriedSnoc(book.file, board, order, first, beta, depth, terminateEarly, children, child);
      r := if s.Thrown? then Thrown else Ok(-s.value);
    }

    /**
     * Lines 83-104: try the candidate moves best first (`sorted` read from
     * the top); a score at or above beta is stored under `key` as a lower
     * bound and returned, otherwise the best score (at least alpha) is
     * stored as an upper bound and returned.
     */
    method Search(board: Board, moves: MoveSorter, key: nat, alpha: int, beta: int, depth: int, ghost sorted: seq<Entry>)
      returns (r: Result<int>, ghost children: seq<Trace>)
      requires Valid() && board.Valid() && Stacked(board.mask) && depth >= 0
      requires moves.Valid() && moves.Contents() == sorted
      requires AllPlayable(board, sorted)
      modifies table, book, moves
      decreases Height(depth), 2
      ensures Valid()
      ensures Tried(book.file, board, Reverse(sorted), alpha, beta, depth, old(terminateEarly), children)
      ensures SearchResult(alpha, beta, |sorted|, children, r)
      ensures r.Ok? ==> table.Get(key) == Some(BoundCode(children, beta, r.value))
    {
      assert forall e :: e in sorted ==> e.move != 0;
      var best, cut;
      best, cut, children := TryMoves(board, moves, alpha, beta, depth, sorted);
      if best.Thrown? {
        return Thrown, children;
      }
      if cut {
        Store(key, LowerCode(best.value));
      } else {
        Store(key, UpperCode(best.value));
      }
      return best, children;
    }

    /**
     * The loop of lines 90-101: take the moves best first and score each,
     * the window's alpha raised by the scores so far; stop at a thrown call
     * or at the first score reaching beta (a cut), otherwise keep the best
     * of alpha and the scores.
     */
    method TryMoves(board: Board, moves: MoveSorter, alpha: int, beta: int, depth: int, ghost sorted: seq<Entry>)
      returns (best: Result<int>, cut: bool, ghost children: seq<Trace>)
      requires Valid() && board.Valid() && Stacked(board.mask) && depth >= 0
      requires moves.Valid() && moves.Contents() == sorted
      requires AllPlayable(board, sorted)
      requires forall e :: e in sorted ==> e.move != 0
      modifies table, book, moves
      decreases Height(depth), 1
      ensures Valid()
      ensures Tried(book.file, board, Reverse(sorted), alpha, beta, depth, old(terminateEarly), children)
      ensures SearchResult(alpha, beta, |sorted|, children, best)
      ensures best.Ok? ==> (cut <==> CutOff(children, beta))
    {
      hide Tried, Explains, Runs, SearchResult, CutOff, Running, Playable, AllPlayable, Stacked, Raise, Scores, Board.Valid, Board.Play, Board.Key, Key3Of, Reverse, Solver.Valid;
      ghost var stop, file := terminateEarly, book.file;
      ghost var order := Reverse(sorted);
      var a := alpha;
      children := [];
      cut := false;
      TryStart(file, board, sorted, alpha, beta, depth, stop);
      var next := NextMove(moves, sorted);
      while next != 0
        invariant Valid() && moves.Valid() && moves.size <= |sorted| && moves.Contents() == sorted[..moves.size]
        invariant next != 0 ==> |children| + moves.size + 1 == |sorted| && next == sorted[moves.size].move
        invariant next == 0 ==> moves.size == 0 && |children| == |sorted|
        invariant terminateEarly == stop
        invariant Running(alpha, beta, a, children)
        invariant Tried(file, board, order, alpha, beta, depth, stop, children)
        decreases moves.size + (if next != 0 then 1 else 0)
      {
        NextCall(board, sorted, alpha, beta, a, children);
        label before:
        var s, child := ScoreMove(board, next, a, beta, depth, order, alpha, children);
        assert unchanged@before(moves, moves.entries);
        RunningSnoc(alpha, beta, |sorted|, a, children, child);
        children := children + [child];
        if s.Thrown? {
          return Thrown, false, children;
        }
        var score := s.value;
        if score >= beta {
          return Ok(score), true, children;
        }
        if score > a {
          a := score;
        }
        next := NextMove(moves, sorted);
      }
      RunningDone(alpha, beta, a, children);
      return Ok(a), false, children;
    }

    /**
     * `solve(board, depth)`: a win on the next stone scores WinScore;
     * otherwise null-window probes `negamax(board, med, med + 1, depth)` at
     * SplitPoint narrow [min, max] until it closes, and `min` is returned
     * (`Solved`).  The probes read and leave the table entry of `board` in
     * a chain, and when every probe agrees with an exact score in
     * [-21, 21], that score is the result.
     */
    method Solve(board: Board, depth: int := 8) returns (r: Result<int>, ghost run: Run)
      requires Valid() && board.Valid() && Stacked(board.mask)
      modifies table, book
      ensures Valid()
      ensures Solved(book.file, board, depth, old(terminateEarly), r, run)
      ensures |run.meds| == |run.traces|
      ensures Chained(board, run.meds, run.traces, old(table.Get(board.Key() as nat)))
      ensures r.Ok? ==> table.Get(board.Key() as nat) == LastStored(board, run.meds, run.traces, old(table.Get(board.Key() as nat)))
      ensures r.Ok? && !board.CanWinNext() ==>
        forall v :: -STARTING_MAX <= v <= STARTING_MAX && SoundProbes(v, run.meds, Values(run.traces)) ==> r.value == v
    {
      hide Explains, Runs, Answers, Searches, Tried, SearchResult, Playable, Stacked, Board.Valid, Board.Play,
        Board.Key, Key3Of, Book.Answered, Book.LoadThrows, Board.PossibleNonLosingMoves, Transposition.TranspositionTable.Valid,
        Book.OpeningBook.Valid, Probed, Chained, LastStored, Bounds, Values, Raise, Least, Lows, Highs, SoundProbes;
      ghost var first := table.Get(board.Key() as nat);
      ghost var stop, file := terminateEarly, book.file;
      run := Run([], []);
      ProbesStart(file, board, depth, stop, first);
      if board.CanWinNext() {
        return Ok(WinScore(board.moves)), run;
      }
      var min, max := -STARTING_MAX, STARTING_MAX;
      ghost var probes: seq<int> := [];
      while min < max
        invariant Valid() && |run.meds| == |run.traces| && probes == Values(run.traces)
        invariant |run.traces| + (if min < max then max - min else 0) <= 2 * STARTING_MAX
        invariant Bounds(run.meds, probes, min, max)
        invariant terminateEarly == stop && book.file == file
        invariant Probed(file, board, depth, stop, run.meds, run.traces)
        invariant run.traces != [] ==> run.traces[|run.traces| - 1].result.Ok?
        invariant Chained(board, run.meds, run.traces, first)
        invariant table.Get(board.Key() as nat) == LastStored(board, run.meds, run.traces, first)
        decreases max - min
      {
        var med := SplitPoint(min, max);
        ghost var t;
        var score;
        score, t := Negamax(board, med, med + 1, depth);
        ProbeRecorded(file, board, depth, stop, run.meds, run.traces, first, min, max, med, t);
        if score.Thrown? {
          run := Run(run.meds + [med], run.traces + [t]);
          return Thrown, run;
        }
        BoundsSnoc(run.meds, probes, min, max, med, score.value);
        run := Run(run.meds + [med], run.traces + [t]);
        probes := probes + [score.value];
        if score.value <= med {
          max := score.value;
        } else {
          min := score.value;
        }
      }
      BoundsDone(run.meds, probes, min, max);
      return Ok(min), run;
    }

    /**
     * `analyze(board, depth)`: per column, undefined (None) when it is full,
     * WinScore when it wins at once, otherwise minus the opponent's `solve`
     * after playing it, run as `runs[c]`.
     */
    method Analyze(board: Board, depth: int := 8) returns (r: Result<seq<Option<int>>>, ghost runs: seq<Run>)
      requires Valid() && board.Valid() && Stacked(board.mask)
      modifies table, book
      ensures Valid()
      ensures r.Ok? ==>
        |r.value| == COLUMN_COUNT == |runs| &&
        forall c: Col :: ColumnReport(book.file, board, depth, old(terminateEarly), c, r.value[c], runs[c])
    {
      hide ColumnReport, ReplyReport, Solved, Probed, Chained, LastStored, Explains, Runs, Answers, Searches, Tried,
        Board.Valid, Board.Play, Board.PlayCol, Board.CanPlay, Board.IsWinningMove, Board.CanWinNext, Board.Key, Key3Of,
        Stacked, Book.Answered, Board.PossibleNonLosingMoves, Transposition.TranspositionTable.Valid, Book.OpeningBook.Valid;
      ghost var stop, file := terminateEarly, book.file;
      var scores: seq<Option<int>> := [];
      runs := [];
      for col := 0 to COLUMN_COUNT
        invariant Valid() && |scores| == col == |runs| && terminateEarly == stop && book.file == file
        invariant Reported(file, board, depth, stop, COLUMNS, scores, runs)
      {
        var score;
        ghost var run;
        score, run := ColumnScore(board, col, depth);
        if score.Thrown? {
          return Thrown, runs;
        }
        ReportedSnoc(file, board, depth, stop, COLUMNS, scores, runs, score.value, run);
        scores, runs := scores + [score.value], runs + [run];
      }
      ReportedEach(file, board, depth, stop, COLUMNS, scores, runs);
      return Ok(scores), runs;
    }

    /**
     * One column of `analyze` and `bestMove`: None when the column is full,
     * WinScore when it wins at once, otherwise minus the opponent's `solve`,
     * which alone can throw.
     */
    method ColumnScore(board: Board, c: Col, depth: int) returns (r: Result<Option<int>>, ghost run: Run)
      requires Valid() && board.Valid() && Stacked(board.mask)
      modifies table, book
      ensures Valid()
      ensures r.Ok? ==> ColumnReport(book.file, board, depth, old(terminateEarly), c, r.value, run)
      ensures r.Thrown? ==>
        board.CanPlay(c) && board.IsWinningMove(c).None? &&
        Solved(book.file, board.PlayCol(c), depth, old(terminateEarly), Thrown, run)
    {
      run := Run([], []);
      if !board.CanPlay(c) {
        return Ok(None), run;
      }
      if board.IsWinningMove(c).Some? {
        return Ok(Some(WinScore(board.moves))), run;
      }
      var s;
      s, run := Reply(board, c, depth);
      r := if s.Thrown? then Thrown else Ok(Some(s.value));
    }

    /**
     * Lines 137-139 and 154-156: minus the opponent's `solve` after the
     * column is played.
     */
    method Reply(board: Board, c: Col, depth: int) returns (r: Result<int>, ghost run: Run)
      requires Valid() && board.Valid() && Stacked(board.mask)
      modifies table, book
      ensures Valid()
      ensures r.Ok? ==> ReplyReport(book.file, board, depth, old(terminateEarly), c, r.value, run)
      ensures r.Thrown? ==> Solved(book.file, board.PlayCol(c), depth, old(terminateEarly), Thrown, run)
    {
      var copy := board.PlayCol(c);
      var s;
      s, run := Solve(copy, depth);
      r := if s.Thrown? then Thrown else Ok(-s.value);
    }

    /**
     * `bestMove(board, depth)`: the first column of COLUMN_ORDER that wins at
     * once; otherwise the column of the first strictly greatest score
     * among the playable ones, or undefined (None) when none is playable.
     */
    method BestMove(board: Board, depth: int := 8) returns (r: Result<Option<Col>>, ghost scores: seq<Option<int>>, ghost runs: seq<Run>)
      requires Valid() && board.Valid() && Stacked(board.mask)
      modifies table, book
      ensures Valid()
      ensures r.Ok? && FirstWinner(board, 0).Some? ==> r.value == Some(COLUMN_ORDER[FirstWinner(board, 0).value])
      ensures r.Ok? && FirstWinner(board, 0).None? ==>
        |scores| == COLUMN_COUNT == |runs| &&
        (forall k :: 0 <= k < COLUMN_COUNT ==>
           ColumnReport(book.file, board, depth, old(terminateEarly), COLUMN_ORDER[k], scores[k], runs[k])) &&
        r.value == (var b := BestOf(scores); if b.Some? then Some(COLUMN_ORDER[b.value]) else None)
    {
      hide ColumnReport, ReplyReport, Solved, Probed, Chained, LastStored, Explains, Runs, Answers, Searches, Tried,
        Board.Valid, Board.Play, Board.PlayCol, Board.CanPlay, Board.IsWinningMove, Board.CanWinNext, Board.Key, Key3Of,
        Stacked, Book.Answered, Board.PossibleNonLosingMoves, Transposition.TranspositionTable.Valid, Book.OpeningBook.Valid;
      ghost var stop, file := terminateEarly, book.file;
      scores, runs := [], [];
      var bestMove: Option<Col> := None;
      var bestScore: Option<int> := None;
      for k := 0 to COLUMN_COUNT
        invariant Valid() && |scores| == k == |runs| && terminateEarly == stop && book.file == file
        invariant FirstWinner(board, 0) == FirstWinner(board, k)
        invariant Reported(file, board, depth, stop, COLUMN_ORDER, scores, runs)
        invariant var b := BestOf(scores);
          bestMove == (if b.Some? then Some(COLUMN_ORDER[b.value]) else None) &&
          bestScore == (if b.Some? then scores[b.value] else None)
      {
        var col := COLUMN_ORDER[k];
        if WinsAt(board, k) {
          return Ok(Some(col)), scores, runs;
        }
        var score;
        ghost var run;
        score, run := ColumnScore(board, col, depth);
        if score.Thrown? {
          return Thrown, scores, runs;
        }
        ReportedSnoc(file, board, depth, stop, COLUMN_ORDER, scores, runs, score.value, run);
        BestOfSnoc(scores, score.value);
        scores, runs := scores + [score.value], runs + [run];
        if score.value.Some? && (bestScore.None? || score.value.value > bestScore.value) {
          bestScore := score.value;
          bestMove := Some(col);
        }
      }
      ReportedEach(file, board, depth, stop, COLUMN_ORDER, scores, runs);
      return Ok(bestMove), scores, runs;
    }
  }
}
