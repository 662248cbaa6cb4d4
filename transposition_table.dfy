/**
 * algorithm/transposition_table.js: a JavaScript Map from the decimal text of
 * a position key to a stored bound, limited to `max_size` entries.
 *
 * A JavaScript Map remembers insertion order: `set` on a new key appends it,
 * `set` on a present key overwrites the value in place.  The model keeps that
 * order in `order` beside the key/value map `entries`.
 */
module Transposition {
  import opened Util

  function Digit(d: nat): (c: char)
    requires d < 10
    ensures '0' <= c <= '9' && c as int - '0' as int == d
  {
    ('0' as int + d) as char
  }

  /** `BigInteger.toString()`: the decimal digits of `n`, without leading zeros. */
  function DecimalString(n: nat): (s: string)
    ensures |s| >= 1
    ensures |s| == 1 <==> n < 10
    ensures forall i :: 0 <= i < |s| ==> '0' <= s[i] <= '9'
    ensures |s| > 1 ==> s[0] != '0'
  {
    if n < 10 then [Digit(n)] else DecimalString(n / 10) + [Digit(n % 10)]
  }

  /**
   * Keys are compared by their text, and the text determines the number:
   * two keys share a table entry exactly when they are numerically equal.
   */
  lemma {:induction false} DecimalStringInjective(m: nat, n: nat)
    ensures DecimalString(m) == DecimalString(n) <==> m == n
  {
    if DecimalString(m) == DecimalString(n) && m >= 10 && n >= 10 {
      var sm, sn := DecimalString(m), DecimalString(n);
      assert sm[..|sm| - 1] == DecimalString(m / 10);
      assert sn[..|sn| - 1] == DecimalString(n / 10);
      DecimalStringInjective(m / 10, n / 10);
      assert Digit(m % 10) == Digit(n % 10);
    }
  }

  predicate NoDuplicates(s: seq<string>)
  {
    forall i, j :: 0 <= i < j < |s| ==> s[i] != s[j]
  }

  /** The size-limited table. */
  class TranspositionTable {
    const maxSize: nat
    /** The stored keys, oldest first. */
    var order: seq<string>
    var entries: map<string, int>

    ghost predicate Valid()
      reads this
    {
      NoDuplicates(order) &&
      (forall k :: k in entries <==> k in order) &&
      |order| <= maxSize
    }

    constructor (size: nat)
      ensures Valid() && maxSize == size
      ensures order == [] && entries == map[]
    {
      maxSize := size;
      order := [];
      entries := map[];
    }

    /** `get(key)`: the value stored under the key's text, undefined when never stored. */
    function Get(key: nat): (r: Option<int>)
      reads this
      requires Valid()
      ensures r.Some? <==> DecimalString(key) in order
      ensures r.Some? ==> r.value == entries[DecimalString(key)]
    {
      var k := DecimalString(key);
      if k in entries then Some(entries[k]) else None
    }

    /**
     * `put(key, val)`: store the value and evict while the table is over its
     * limit.  Eviction removes the oldest key (see README, Findings: the
     * code as written names no key to delete).
     */
    method Put(key: nat, val: int)
      requires Valid()
      modifies this
      ensures Valid()
      ensures var k := DecimalString(key);
        if k in old(entries) || |old(order)| < maxSize then
          entries == old(entries)[k := val] &&
          order == (if k in old(entries) then old(order) else old(order) + [k])
        else
          order == (old(order) + [k])[1..] &&
          entries == old(entries)[k := val] - {(old(order) + [k])[0]}
      ensures maxSize >= 1 ==> Get(key) == Some(val)
      ensures DecimalString(key) in old(entries) ==> |order| == |old(order)|
      ensures |order| <= maxSize
      ensures DecimalString(key) in old(entries) || |old(order)| < maxSize ==>
        forall other: nat :: other != key ==> Get(other) == old(Get(other))
    {
      var k := DecimalString(key);
      var grown := k !in entries;
      entries := entries[k := val];
      if grown {
        order := order + [k];
      }
      ghost var before := order;
      ghost var full := entries;
      // `order` lists exactly the Map's keys, so its length is `entries.size`.
      while |order| > maxSize
        invariant NoDuplicates(order)
        invariant forall k' :: k' in entries <==> k' in order
        invariant |order| <= maxSize + 1
        invariant |order| == maxSize + 1 ==> order == before && entries == full
        invariant |order| <= maxSize ==>
          if |before| <= maxSize then order == before && entries == full
          else order == before[1..] && entries == full - {before[0]}
        decreases |order|
      {
        var oldest := order[0];
        entries := entries - {oldest};
        order := order[1..];
      }
      forall other: nat | other != key
        ensures DecimalString(other) != k
      {
        DecimalStringInjective(other, key);
      }
    }
  }

  /*
   * The eviction loop as written: `this.entries.keys()` is an iterator, and
   * indexing an iterator with `[0]` yields undefined, so each round asks the
   * Map to delete the key `undefined`.  Keys are strings, so nothing is
   * deleted.
   */

  /** The key the written loop deletes: never a stored text. */
  function EvictedKeyAsWritten(order: seq<string>): Option<string>
  {
    None
  }

  /** The order with `k` taken out. */
  function Without(order: seq<string>, k: string): seq<string>
  {
    if order == [] then []
    else (if order[0] == k then [] else [order[0]]) + Without(order[1..], k)
  }

  /** `Map.delete(key)`: the key `undefined` (None) matches no string key. */
  function Delete(order: seq<string>, entries: map<string, int>, key: Option<string>): (seq<string>, map<string, int>)
  {
    match key
    case None => (order, entries)
    case Some(k) => (Without(order, k), entries - {k})
  }

  /** One round of the written eviction loop on the Map's keys and values. */
  function EvictAsWritten(order: seq<string>, entries: map<string, int>): (seq<string>, map<string, int>)
  {
    Delete(order, entries, EvictedKeyAsWritten(order))
  }

  /** `n` rounds of the written eviction loop. */
  function EvictRoundsAsWritten(n: nat, order: seq<string>, entries: map<string, int>): (seq<string>, map<string, int>)
  {
    if n == 0 then (order, entries)
    else
      var (o, e) := EvictAsWritten(order, entries);
      EvictRoundsAsWritten(n - 1, o, e)
  }

  /**
   * The written `put` never returns once the table is over its limit: after
   * any number of rounds the Map still holds more than `max_size` keys.
   */
  lemma {:induction false} EvictAsWrittenMakesNoProgress(n: nat, order: seq<string>, entries: map<string, int>, maxSize: nat)
    requires |order| > maxSize
    ensures |EvictRoundsAsWritten(n, order, entries).0| > maxSize
    ensures EvictRoundsAsWritten(n, order, entries) == (order, entries)
  {
    if n > 0 {
      EvictAsWrittenMakesNoProgress(n - 1, order, entries, maxSize);
    }
  }

  /**
   * A concrete case: a table limited to one key that holds key 1 receives key 2.
   * The written loop then keeps both keys forever, while the corrected `put`
   * keeps only the newest.
   */
  lemma PutOverLimitAsWritten(n: nat)
    ensures var order := [DecimalString(1), DecimalString(2)];
      var entries := map[DecimalString(1) := 5, DecimalString(2) := 7];
      |EvictRoundsAsWritten(n, order, entries).0| == 2 > 1
  {
    var order := [DecimalString(1), DecimalString(2)];
    var entries := map[DecimalString(1) := 5, DecimalString(2) := 7];
    EvictAsWrittenMakesNoProgress(n, order, entries, 1);
  }

  method CorrectedPutOverLimit() returns (t: TranspositionTable)
    ensures t.Valid() && t.maxSize == 1
    ensures t.Get(1) == None && t.Get(2) == Some(7)
  {
    t := new TranspositionTable(1);
    t.Put(1, 5);
    t.Put(2, 7);
    DecimalStringInjective(1, 2);
  }
}
