/**
 * algorithm/move_sorter.js: a list of at most COLUMN_COUNT scored moves,
 * kept sorted by insertion so that the best-scored move comes out first.
 */
module MoveSorting {
  import opened Util

  /** Capacity of the sorter: one slot per column. */
  const CAPACITY: nat := 7

  /** A scored candidate move (a single-bit move mask of the bitboard). */
  datatype Entry = Entry(move: bv64, score: int)

  /** Scores never decrease along `s`: each entry scores at least every entry below it. */
  predicate SortedByScore(s: seq<Entry>)
    decreases |s|
  {
    |s| <= 1 ||
    (SortedByScore(s[..|s| - 1]) && forall i :: 0 <= i < |s| - 1 ==> s[i].score <= s[|s| - 1].score)
  }

  /** Sorted means that every entry scores at most every entry above it. */
  lemma {:induction false} SortedPairs(s: seq<Entry>)
    ensures SortedByScore(s) <==> forall i, j :: 0 <= i < j < |s| ==> s[i].score <= s[j].score
    decreases |s|
  {
    if |s| > 1 {
      var t := s[..|s| - 1];
      SortedPairs(t);
      assert forall i :: 0 <= i < |t| ==> t[i] == s[i];
    }
  }

  /** How many entries score at most `score`; in a sorted list they form a prefix. */
  function CountAtMost(s: seq<Entry>, score: int): (n: nat)
    ensures n <= |s|
  {
    if s == [] then 0
    else CountAtMost(s[..|s| - 1], score) + (if s[|s| - 1].score <= score then 1 else 0)
  }

  /**
   * Where `add` puts a new entry: above every entry whose score is at most the
   * new score (equal ones included) and below every strictly better one.
   */
  function Insert(s: seq<Entry>, e: Entry): seq<Entry>
  {
    var p := CountAtMost(s, e.score);
    s[..p] + [e] + s[p..]
  }

  /** The sorter's contents after adding `es` one by one to an empty sorter. */
  function InsertAll(es: seq<Entry>): seq<Entry>
  {
    if es == [] then [] else Insert(InsertAll(es[..|es| - 1]), es[|es| - 1])
  }

  lemma {:induction false} CountAtMostSplit(s: seq<Entry>, score: int, p: nat)
    requires p <= |s|
    requires forall i :: 0 <= i < p ==> s[i].score <= score
    requires forall i :: p <= i < |s| ==> s[i].score > score
    ensures CountAtMost(s, score) == p
  {
    if s != [] {
      var t := s[..|s| - 1];
      if p == |s| {
        CountAtMostSplit(t, score, p - 1);
      } else {
        CountAtMostSplit(t, score, p);
      }
    }
  }

  /** In a sorted list the entries scoring at most `score` are exactly the first CountAtMost. */
  lemma {:induction false} CountAtMostSorted(s: seq<Entry>, score: int)
    requires SortedByScore(s)
    ensures forall i :: 0 <= i < CountAtMost(s, score) ==> s[i].score <= score
    ensures forall i :: CountAtMost(s, score) <= i < |s| ==> s[i].score > score
  {
    if s != [] {
      var t := s[..|s| - 1];
      CountAtMostSorted(t, score);
      if s[|s| - 1].score <= score {
        assert CountAtMost(t, score) == |t|;
      }
    }
  }

  /** The new entry sits above every entry scoring at most as much and below every better one. */
  lemma InsertPlacement(s: seq<Entry>, e: Entry)
    requires SortedByScore(s)
    ensures var r := Insert(s, e); var p := CountAtMost(s, e.score);
      p < |r| && r[p] == e &&
      (forall i :: 0 <= i < p ==> r[i].score <= e.score) &&
      (forall i :: p < i < |r| ==> r[i].score > e.score)
  {
    CountAtMostSorted(s, e.score);
  }

  /** `add` keeps the list sorted. */
  lemma InsertSorted(s: seq<Entry>, e: Entry)
    requires SortedByScore(s)
    ensures SortedByScore(Insert(s, e))
  {
    InsertPlacement(s, e);
    SortedPairs(s);
    SortedPairs(Insert(s, e));
  }

  /** `add` loses and duplicates nothing: exactly the new entry is added. */
  lemma InsertPermutation(s: seq<Entry>, e: Entry)
    ensures multiset(Insert(s, e)) == multiset(s) + multiset{e}
    ensures |Insert(s, e)| == |s| + 1
  {
    var p := CountAtMost(s, e.score);
    assert s == s[..p] + s[p..];
  }

  /**
   * Adding entries one at a time keeps the list sorted and holds exactly the
   * added entries.
   */
  lemma {:induction false} InsertAllSortedPermutation(es: seq<Entry>)
    ensures SortedByScore(InsertAll(es))
    ensures multiset(InsertAll(es)) == multiset(es)
  {
    if es != [] {
      var init := es[..|es| - 1];
      InsertAllSortedPermutation(init);
      assert InsertAll(es) == Insert(InsertAll(init), es[|es| - 1]);
      InsertSorted(InsertAll(init), es[|es| - 1]);
      InsertPermutation(InsertAll(init), es[|es| - 1]);
      assert es == init + [es[|es| - 1]];
    }
  }

  /** `x` occurs strictly below `y` in `r` (closer to index 0, so taken out later). */
  predicate Below(r: seq<Entry>, x: Entry, y: Entry)
  {
    exists i, j :: 0 <= i < j < |r| && r[i] == x && r[j] == y
  }

  /** Insertion keeps the relative order of the entries already present. */
  lemma InsertKeepsOrder(s: seq<Entry>, e: Entry, x: Entry, y: Entry)
    requires Below(s, x, y)
    ensures Below(Insert(s, e), x, y)
  {
    var p := CountAtMost(s, e.score);
    var r := Insert(s, e);
    var i, j :| 0 <= i < j < |s| && s[i] == x && s[j] == y;
    var i' := if i < p then i else i + 1;
    var j' := if j < p then j else j + 1;
    assert r[i'] == x && r[j'] == y;
  }

  /** A new entry lands above every present entry with the same score. */
  lemma InsertAboveEqual(s: seq<Entry>, x: Entry, e: Entry)
    requires SortedByScore(s) && x in s && x.score == e.score
    ensures Below(Insert(s, e), x, e)
  {
    var i :| 0 <= i < |s| && s[i] == x;
    CountAtMostSorted(s, e.score);
    var p := CountAtMost(s, e.score);
    var r := Insert(s, e);
    assert i < p;
    assert r[i] == x;
    assert r[p] == e;
  }

  /**
   * Stability: of two entries with equal scores, the one added earlier ends
   * up below the one added later, so `getNext` returns the later one first.
   */
  lemma {:induction false} InsertAllStable(es: seq<Entry>, a: nat, b: nat)
    requires a < b < |es|
    requires es[a].score == es[b].score
    ensures Below(InsertAll(es), es[a], es[b])
  {
    var init := es[..|es| - 1];
    var last := es[|es| - 1];
    assert InsertAll(es) == Insert(InsertAll(init), last);
    if b < |es| - 1 {
      InsertAllStable(init, a, b);
      assert init[a] == es[a] && init[b] == es[b];
      InsertKeepsOrder(InsertAll(init), last, es[a], es[b]);
    } else {
      InsertAllSortedPermutation(init);
      assert es[a] == init[a];
      assert es[a] in multiset(InsertAll(init));
      InsertAboveEqual(InsertAll(init), es[a], last);
    }
  }

  /** The array holds `s` with `e` spliced in at `pos`. */
  lemma Spliced(s: seq<Entry>, e: Entry, pos: nat, a: array<Entry>)
    requires pos <= |s| < a.Length
    requires forall i :: 0 <= i < pos ==> a[i] == s[i]
    requires a[pos] == e
    requires forall i :: pos < i <= |s| ==> a[i] == s[i - 1]
    ensures a[..|s| + 1] == s[..pos] + [e] + s[pos..]
  {
    var t := s[..pos] + [e] + s[pos..];
    var r := a[..|s| + 1];
    forall i | 0 <= i < |r|
      ensures r[i] == t[i]
    {
      if i < pos {
        assert t[i] == s[i];
      } else if i > pos {
        assert t[i] == s[i - 1];
      }
    }
  }

  /** In a sorted list, the entries below one scoring at most `score` score at most `score` too. */
  lemma SortedBelow(s: seq<Entry>, pos: nat, score: int)
    requires SortedByScore(s) && pos <= |s|
    requires pos > 0 ==> s[pos - 1].score <= score
    ensures forall i :: 0 <= i < pos ==> s[i].score <= score
  {
    if pos > 0 {
      SortedPairs(s);
    }
  }

  /**
   * Shifting the entries above `pos` up by one and writing `e` at `pos`,
   * where `e` scores at least the entry below and less than every entry
   * above, is `Insert`.
   */
  lemma PlacedIsInsert(s: seq<Entry>, e: Entry, pos: nat, a: array<Entry>)
    requires SortedByScore(s) && pos <= |s| < a.Length
    requires forall i :: 0 <= i < pos ==> a[i] == s[i]
    requires a[pos] == e
    requires forall i :: pos < i <= |s| ==> a[i] == s[i - 1]
    requires pos > 0 ==> s[pos - 1].score <= e.score
    requires forall i :: pos <= i < |s| ==> s[i].score > e.score
    ensures a[..|s| + 1] == Insert(s, e) && SortedByScore(a[..|s| + 1])
  {
    SortedBelow(s, pos, e.score);
    CountAtMostSplit(s, e.score, pos);
    Spliced(s, e, pos, a);
    assert a[..|s| + 1] == Insert(s, e);
    InsertSorted(s, e);
  }

  /** The fixed-capacity insertion-sorted list of scored moves. */
  class MoveSorter {
    const entries: array<Entry>
    var size: nat

    ghost predicate Valid()
      reads this, entries
    {
      entries.Length == CAPACITY && size <= CAPACITY && SortedByScore(entries[..size])
    }

    /** The stored entries, lowest score first. */
    ghost function Contents(): seq<Entry>
      reads this, entries
      requires size <= entries.Length
    {
      entries[..size]
    }

    constructor ()
      ensures Valid() && fresh(entries)
      ensures size == 0 && Contents() == []
    {
      entries := new Entry[CAPACITY](_ => Entry(0, 0));
      size := 0;
    }

    /** `add(move, score)`: insert keeping the scores non-decreasing. */
    method Add(move: bv64, score: int)
      requires Valid() && size < CAPACITY
      modifies this, entries
      ensures Valid()
      ensures size == old(size) + 1
      ensures Contents() == Insert(old(Contents()), Entry(move, score))
    {
      ghost var s := entries[..size];
      var pos := ShiftAbove(score, s);
      entries[pos] := Entry(move, score);
      size := size + 1;
      PlacedIsInsert(s, Entry(move, score), pos, entries);
    }

    /**
     * The loop of `add`: move every entry above the last one scoring at most
     * `score` up by one slot, and return the slot left free.
     */
    method ShiftAbove(score: int, ghost s: seq<Entry>) returns (pos: nat)
      requires size < entries.Length && s == entries[..size]
      modifies entries
      ensures pos <= size
      ensures forall i :: 0 <= i < pos ==> entries[i] == s[i]
      ensures forall i :: pos < i <= size ==> entries[i] == s[i - 1]
      ensures pos > 0 ==> s[pos - 1].score <= score
      ensures forall i :: pos <= i < size ==> s[i].score > score
    {
      pos := size;
      while pos > 0 && entries[pos - 1].score > score
        invariant pos <= size
        invariant forall i :: 0 <= i < pos ==> entries[i] == s[i]
        invariant forall i :: pos < i <= size ==> entries[i] == s[i - 1]
        invariant forall i :: pos <= i < size ==> s[i].score > score
        decreases pos
      {
        entries[pos] := entries[pos - 1];
        pos := pos - 1;
      }
    }

    /** `getNext()`: take out the best-scored move; 0 when empty. */
    method GetNext() returns (m: bv64)
      requires Valid()
      modifies this
      ensures Valid()
      ensures old(size) == 0 ==> m == 0 && size == 0
      ensures old(size) > 0 ==> size == old(size) - 1 && Contents() == old(Contents())[..size]
      ensures old(size) > 0 ==> m == old(Contents())[size].move
      ensures old(size) > 0 ==> forall i :: 0 <= i < old(size) ==> old(Contents())[i].score <= old(Contents())[size].score
    {
      if size > 0 {
        assert entries[..size][..size - 1] == entries[..size - 1];
        size := size - 1;
        m := entries[size].move;
      } else {
        m := 0;
      }
    }

    /** `peekNext()`: the move `getNext` would return, leaving the sorter as it is. */
    method PeekNext() returns (m: bv64)
      requires Valid()
      ensures size == 0 ==> m == 0
      ensures size > 0 ==> m == Contents()[size - 1].move
      ensures size > 0 ==> forall i :: 0 <= i < size ==> Contents()[i].score <= Contents()[size - 1].score
    {
      if size > 0 {
        m := entries[size - 1].move;
      } else {
        m := 0;
      }
    }

    /** `peekNextScore()`: the score of that move, undefined when empty. */
    method PeekNextScore() returns (r: Option<int>)
      requires Valid()
      ensures r.None? <==> size == 0
      ensures r.Some? ==> r.value == Contents()[size - 1].score
      ensures r.Some? ==> forall i :: 0 <= i < size ==> Contents()[i].score <= r.value
    {
      if size > 0 {
        r := Some(entries[size - 1].score);
      } else {
        r := None;
      }
    }

    /** `reset()`: empty the sorter. */
    method Reset()
      requires Valid()
      modifies this
      ensures Valid() && size == 0 && Contents() == []
    {
      size := 0;
    }
  }
}
