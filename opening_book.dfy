/**
 * algorithm/opening_book.js: the 7x6 opening book of Pascal Pons' solver,
 * stored as a hash table of one-byte partial keys and one-byte values.
 *
 * The book blob is taken already decoded: a sequence of Java (signed) bytes,
 * or nothing when the book file cannot be read.
 */
module Book {
  import opened Util
  import Bitboard

  /** A Java `byte`. */
  type SByte = x: int | -128 <= x < 128

  /** `med(min, max)`: the midpoint, rounded down. */
  function Med(lo: nat, hi: nat): (r: nat)
    ensures lo <= hi ==> lo <= r <= hi
    ensures lo + 1 < hi ==> lo < r < hi
    ensures r + r == lo + hi || r + r + 1 == lo + hi
  {
    (lo + hi) / 2
  }

  /**
   * `has_factor(n, min, max)`: binary splitting of [min, max) looking for a
   * divisor of `n`, giving up on ranges whose least element squares past `n`.
   */
  function HasFactor(n: nat, lo: nat, hi: nat): bool
    requires lo >= 2
    decreases hi - lo
  {
    if lo * lo > n then false
    else if lo + 1 >= hi then n % lo == 0
    else HasFactor(n, lo, Med(lo, hi)) || HasFactor(n, Med(lo, hi), hi)
  }

  /** `d` divides `n`, lies in [lo, hi) and squares to at most `n`. */
  predicate SmallDivisorIn(n: nat, lo: nat, hi: nat, d: nat)
  {
    lo <= d < hi && d * d <= n && d > 0 && n % d == 0
  }

  lemma SquareMonotone(a: nat, b: nat)
    requires a <= b
    ensures a * a <= b * b
  {
    assert a * a <= a * b <= b * b;
  }

  /** `has_factor` searches exactly for a divisor d in [min, max) with d*d <= n. */
  lemma {:induction false} HasFactorSpec(n: nat, lo: nat, hi: nat)
    requires lo >= 2
    requires lo < hi || lo * lo > n
    ensures HasFactor(n, lo, hi) <==> exists d: nat :: SmallDivisorIn(n, lo, hi, d)
    decreases hi - lo
  {
    if lo * lo > n {
      forall d: nat | lo <= d
        ensures d * d > n
      {
        SquareMonotone(lo, d);
      }
    } else if lo + 1 >= hi {
      if n % lo == 0 {
        assert SmallDivisorIn(n, lo, hi, lo);
      }
    } else {
      var m := Med(lo, hi);
      HasFactorSpec(n, lo, m);
      HasFactorSpec(n, m, hi);
      if HasFactor(n, lo, m) {
        var d: nat :| SmallDivisorIn(n, lo, m, d);
        assert SmallDivisorIn(n, lo, hi, d);
      } else if HasFactor(n, m, hi) {
        var d: nat :| SmallDivisorIn(n, m, hi, d);
        assert SmallDivisorIn(n, lo, hi, d);
      }
      forall d: nat | SmallDivisorIn(n, lo, hi, d)
        ensures SmallDivisorIn(n, lo, m, d) || SmallDivisorIn(n, m, hi, d)
      {
      }
    }
  }

  /** `n` has a divisor strictly between 1 and itself. */
  predicate Composite(n: nat)
  {
    exists d: nat :: 2 <= d < n && n % d == 0
  }

  lemma Divides(n: nat, d: nat)
    requires d > 0 && n % d == 0
    ensures d * (n / d) == n
  {
  }

  lemma MulLeft(a: nat, b: nat, c: nat)
    requires a <= b
    ensures a * c <= b * c
  {
  }

  lemma MultipleMod(e: nat, d: nat)
    requires e > 0
    ensures (e * d) % e == 0
  {
    var q := (e * d) / e;
    var r := (e * d) % e;
    assert e * d == e * q + r;
    assert e * (d - q) == r;
    if d - q >= 1 {
      MulLeft(1, d - q, e);
    } else if d - q <= -1 {
      MulLeft(1, q - d, e);
      assert e * (q - d) == -r;
    }
  }

  /** The cofactor of a proper divisor is a proper divisor too, and one of the two squares to at most `n`. */
  lemma CofactorSmall(n: nat, d: nat)
    requires 2 <= d < n && n % d == 0
    ensures 2 <= n / d < n && n % (n / d) == 0
    ensures d * d <= n || (n / d) * (n / d) <= n
  {
    var e := n / d;
    Divides(n, d);
    assert d * e == n;
    MulLeft(2, d, e);
    assert e < n;
    MultipleMod(e, d);
    assert e * d == n;
    if d * d > n {
      if d <= e {
        MulLeft(d, e, d);
        assert false;
      }
      MulLeft(e, d, e);
      assert e * e <= d * e;
    }
  }

  /** `has_factor(n, 2, n)` holds exactly for the composite numbers. */
  lemma HasFactorIffComposite(n: nat)
    ensures HasFactor(n, 2, n) <==> Composite(n)
  {
    if n < 4 {
      assert !HasFactor(n, 2, n);
      if Composite(n) {
        var d: nat :| 2 <= d < n && n % d == 0;
        assert false;
      }
    } else {
      HasFactorSpec(n, 2, n);
      if Composite(n) {
        var d: nat :| 2 <= d < n && n % d == 0;
        CofactorSmall(n, d);
        if d * d <= n {
          assert SmallDivisorIn(n, 2, n, d);
        } else {
          assert SmallDivisorIn(n, 2, n, n / d);
        }
      }
      if HasFactor(n, 2, n) {
        var d: nat :| SmallDivisorIn(n, 2, n, d);
        assert 2 <= d < n && n % d == 0;
      }
    }
  }

  /**
   * `next_prime(n)`: the first m >= n that `has_factor` does not flag,
   * searching at most `fuel` candidates.
   */
  function NextPrime(n: nat, fuel: nat): (r: Option<nat>)
    ensures r.Some? ==> n <= r.value < n + fuel && !HasFactor(r.value, 2, r.value)
    ensures r.Some? ==> forall m :: n <= m < r.value ==> HasFactor(m, 2, m)
    ensures r.None? ==> forall m :: n <= m < n + fuel ==> HasFactor(m, 2, m)
    decreases fuel
  {
    if fuel == 0 then None
    else if HasFactor(n, 2, n) then NextPrime(n + 1, fuel - 1)
    else Some(n)
  }

  /** The first m >= n that is not composite, so a prime, or 0 or 1. */
  lemma NextPrimeIsLeastNonComposite(n: nat, fuel: nat)
    requires NextPrime(n, fuel).Some?
    ensures !Composite(NextPrime(n, fuel).value)
    ensures forall m :: n <= m < NextPrime(n, fuel).value ==> Composite(m)
  {
    var p := NextPrime(n, fuel).value;
    HasFactorIffComposite(p);
    forall m | n <= m < p
      ensures Composite(m)
    {
      HasFactorIffComposite(m);
    }
  }

  /** `index(key)`: the hash slot of a key. */
  function Index(key: nat, size: nat): (r: nat)
    requires size > 0
    ensures r < size
    ensures key < size ==> r == key
  {
    key % size
  }

  /** Java's `intValue()`: the low 32 bits read as a signed integer. */
  function ToInt32(x: int): (r: int)
    ensures -0x8000_0000 <= r < 0x8000_0000
    ensures (x - r) % 0x1_0000_0000 == 0
  {
    var low := x % 0x1_0000_0000;
    if low >= 0x8000_0000 then low - 0x1_0000_0000 else low
  }

  /** Java's `byteValue()`: the low 8 bits read as a signed byte. */
  function LowByte(x: int): (r: SByte)
    ensures (x - r) % 256 == 0
  {
    var low := x % 256;
    if low >= 128 then low - 256 else low
  }

  /** Reading a Java byte array from script: out-of-range indices give undefined. */
  function ByteAt(data: seq<SByte>, i: int): (r: Option<SByte>)
    ensures r.Some? <==> 0 <= i < |data|
    ensures r.Some? ==> r.value == data[i]
  {
    if 0 <= i < |data| then Some(data[i]) else None
  }

  /** The header test as written: rejects only when both widths differ from 1. */
  function WidthsRejectedAsWritten(keyBytes: Option<SByte>, valueBytes: Option<SByte>): bool
  {
    keyBytes != Some(1) && valueBytes != Some(1)
  }

  /** The header test the error message describes: both widths must be 1. */
  function WidthsRejected(keyBytes: Option<SByte>, valueBytes: Option<SByte>): (r: bool)
    ensures !r <==> keyBytes == Some(1) && valueBytes == Some(1)
  {
    keyBytes != Some(1) || valueBytes != Some(1)
  }

  /** A book with two-byte values passes the written check but not the intended one. */
  lemma WidthCheckAsWrittenAcceptsWideValues()
    ensures !WidthsRejectedAsWritten(Some(1), Some(2))
    ensures WidthsRejected(Some(1), Some(2))
  {
  }

  /** The written check accepts every header the intended one accepts, and more. */
  lemma WidthCheckAsWrittenIsWeaker(k: Option<SByte>, v: Option<SByte>)
    ensures WidthsRejectedAsWritten(k, v) ==> WidthsRejected(k, v)
    ensures !WidthsRejectedAsWritten(k, v) <==> k == Some(1) || v == Some(1)
  {
  }

  /** 2^k. */
  function Pow2(k: nat): (r: nat)
    ensures r >= 1
  {
    if k == 0 then 1 else 2 * Pow2(k - 1)
  }

  /**
   * `BigInteger.ONE.shiftLeft(log_size)` for a byte `log_size`: a negative
   * shift moves right.  (A missing byte is `undefined`, which `shiftLeft`
   * does not accept: see `LoadThrows`.)
   */
  function OneShifted(logSize: SByte): (r: nat)
    ensures logSize < 0 ==> r == 0
    ensures logSize >= 0 ==> r == Pow2(logSize)
  {
    if logSize >= 0 then Pow2(logSize) else 0
  }

  /**
   * `load` of the file `file` throws: the widths pass the check, but there
   * is no byte 5 to shift by, so `shiftLeft(undefined)` fails after `data`
   * and `depth` are set and before `size` is.
   */
  predicate LoadThrows(file: Option<seq<SByte>>)
  {
    file.Some? && !WidthsRejected(ByteAt(file.value, 3), ByteAt(file.value, 4)) && ByteAt(file.value, 5).None?
  }

  /** What a lookup gives: a stored byte, nothing, or an exception. */
  datatype Lookup = Miss | Hit(value: SByte) | Fault

  /**
   * The probe of `getOpeningBook` in a loaded book of `size` slots: the slot
   * is `key mod size` read as a Java int; it hits when the key byte stored
   * there is the low byte of `key`, and gives the value byte at the same
   * slot, when there is one.
   */
  function Probe(bytes: seq<SByte>, keyOffset: nat, valueOffset: nat, size: nat, key: nat): (r: Lookup)
    requires size > 0
    ensures r != Fault
    ensures var pos := ToInt32(Index(key, size));
      r.Hit? <==> ByteAt(bytes, keyOffset + pos) == Some(LowByte(key)) && ByteAt(bytes, valueOffset + pos).Some?
    ensures var pos := ToInt32(Index(key, size));
      r.Hit? ==> ByteAt(bytes, valueOffset + pos) == Some(r.value)
  {
    var pos := ToInt32(Index(key, size));
    if ByteAt(bytes, keyOffset + pos) == Some(LowByte(key)) then
      match ByteAt(bytes, valueOffset + pos)
      case Some(v) => Hit(v)
      case None => Miss
    else Miss
  }

  /**
   * What `getOpeningBook` answers for `board` once the book file `file` is
   * loaded: no file, or a position deeper than the book, is a miss; a
   * header whose widths are rejected, or that has no byte 5, leaves no
   * size, and a missing or zero
   * size makes the probe throw; otherwise the slot of the position's key
   * is probed, keys from byte 6 and values right after the `size` keys.
   */
  function Answered(file: Option<seq<SByte>>, board: Bitboard.Board): Lookup
  {
    match file
    case None => Miss
    case Some(bytes) =>
      var depth := ByteAt(bytes, 2);
      if depth.Some? && board.moves > depth.value then Miss
      else if WidthsRejected(ByteAt(bytes, 3), ByteAt(bytes, 4)) || ByteAt(bytes, 5).None? then Fault
      else
        var n := OneShifted(ByteAt(bytes, 5).value);
        match NextPrime(n, n + 1)
        case None => Fault
        case Some(size) =>
          if size == 0 then Fault
          else Probe(bytes, 6, 6 + size, size, Bitboard.Key3Of(board.current, board.mask))
  }

  /** The book's module state. */
  class OpeningBook {
    /** The decoded book file, or None when it cannot be read. */
    const file: Option<seq<SByte>>
    var data: Option<seq<SByte>>
    var depth: Option<SByte>
    var size: Option<nat>
    var keyOffset: nat
    var valueOffset: nat

    /**
     * Before the first load nothing is known and `depth` keeps its initial
     * -1; once loaded, `data` is the file and the header fields are the
     * ones `load` reads from it.
     */
    ghost predicate Valid()
      reads this
    {
      (data.None? ==> depth == Some(-1) && size.None?) &&
      (data.Some? ==> file == data && HeaderOf(data.value))
    }

    /** The header fields `load` sets from `bytes`. */
    ghost predicate HeaderOf(bytes: seq<SByte>)
      reads this
    {
      depth == ByteAt(bytes, 2) &&
      (WidthsRejected(ByteAt(bytes, 3), ByteAt(bytes, 4)) || ByteAt(bytes, 5).None? ==> size.None?) &&
      (!WidthsRejected(ByteAt(bytes, 3), ByteAt(bytes, 4)) && ByteAt(bytes, 5).Some? ==>
        var n := OneShifted(ByteAt(bytes, 5).value);
        size == NextPrime(n, n + 1) && keyOffset == 6 &&
        (size.Some? ==> valueOffset == 6 + size.value))
    }

    constructor (file: Option<seq<SByte>>)
      ensures Valid()
      ensures this.file == file
      ensures data == None && depth == Some(-1) && size == None
      ensures keyOffset == 0 && valueOffset == 0
    {
      this.file := file;
      data := None;
      depth := Some(-1);
      size := None;
      keyOffset := 0;
      valueOffset := 0;
    }

    /**
     * `load()`: read the header.  Depth is byte 2, the key and value widths
     * bytes 3 and 4, the log of the table size byte 5; keys start at byte 6
     * and values right after the `size` keys.  A header with other widths
     * is rejected after `data` and `depth` are already set; a header with
     * no byte 5 throws (`thrown`) at the same point.
     */
    method Load() returns (thrown: bool)
      requires Valid()
      modifies this
      ensures Valid()
      ensures thrown <==> LoadThrows(file)
      ensures file.None? ==>
        data == old(data) && depth == old(depth) && size == old(size) &&
        keyOffset == old(keyOffset) && valueOffset == old(valueOffset)
      ensures file.Some? ==> data == file && depth == ByteAt(file.value, 2)
      ensures file.Some? && (WidthsRejected(ByteAt(file.value, 3), ByteAt(file.value, 4)) || thrown) ==>
        size == old(size) && keyOffset == old(keyOffset) && valueOffset == old(valueOffset)
      ensures file.Some? && !WidthsRejected(ByteAt(file.value, 3), ByteAt(file.value, 4)) && !thrown ==>
        var n := OneShifted(ByteAt(file.value, 5).value);
        size == NextPrime(n, n + 1) && keyOffset == 6 &&
        (size.Some? ==> valueOffset == 6 + size.value)
    {
      thrown := false;
      if file.None? {
        return;
      }
      var bytes := file.value;
      data := Some(bytes);
      depth := ByteAt(bytes, 2);
      var keyBytes := ByteAt(bytes, 3);
      var valueBytes := ByteAt(bytes, 4);
      if WidthsRejected(keyBytes, valueBytes) {
        return;
      }
      var logSize := ByteAt(bytes, 5);
      if logSize.None? {
        return true;
      }
      var n := OneShifted(logSize.value);
      size := NextPrime(n, n + 1);
      keyOffset := 6;
      if size.Some? {
        valueOffset := 6 + size.value;
      }
    }

    /**
     * `getOpeningBook(board)`: load on first use, passing on a throw of the
     * load; positions deeper than the book are misses; otherwise the slot
     * `key3 mod size` hits when its key byte equals the low byte of `key3`.
     */
    method GetOpeningBook(board: Bitboard.Board) returns (r: Lookup)
      requires Valid()
      modifies this
      ensures Valid()
      ensures old(data).Some? ==>
        data == old(data) && depth == old(depth) && size == old(size) &&
        keyOffset == old(keyOffset) && valueOffset == old(valueOffset)
      ensures old(data).None? && file.None? ==> r == Miss
      ensures old(data).None? && LoadThrows(file) ==> r == Fault
      ensures !(old(data).None? && LoadThrows(file)) ==>
        (depth.Some? && board.moves > depth.value ==> r == Miss) &&
        (r == Fault <==> !(depth.Some? && board.moves > depth.value) && (size.None? || size.value == 0)) &&
        r == Answered(file, board)
      ensures !(depth.Some? && board.moves > depth.value) && data.Some? && size.Some? && size.value > 0 ==>
        r == Probe(data.value, keyOffset, valueOffset, size.value, Bitboard.Key3Of(board.current, board.mask))
    {
      if data.None? {
        var thrown := Load();
        if thrown {
          return Fault;
        }
      }
      if depth.Some? && board.moves > depth.value {
        return Miss;
      }
      var key := board.Key3();
      if size.None? || size.value == 0 {
        return Fault;
      }
      r := Probe(data.value, keyOffset, valueOffset, size.value, key);
    }
  }
}
