/**
 * The two clear-run searches over a map of 32-bit words.  Both step whole words
 * where they can and single bits where they must; each is proved to return what
 * the bit-by-bit searches of `Bits` return on the same map.
 *
 * A word is a natural number below 2^32; its bits and the bitwise operators on it
 * are defined from the low end up.
 */
module BitSearch {
  import opened Bits

  /** Bit `k` of `w`. */
  predicate TestBit(w: nat, k: nat) {
    if k == 0 then w % 2 == 1 else TestBit(w / 2, k - 1)
  }

  /** FillMaskUlong: the number whose `k` low bits are set. */
  function FillMask(k: nat): nat {
    if k == 0 then 0 else 2 * FillMask(k - 1) + 1
  }

  /** The low `n` bits of `a | b`. */
  function Or(a: nat, b: nat, n: nat): nat {
    if n == 0 then 0
    else 2 * Or(a / 2, b / 2, n - 1) + if a % 2 == 1 || b % 2 == 1 then 1 else 0
  }

  /** The low `n` bits of `a & b`. */
  function And(a: nat, b: nat, n: nat): nat {
    if n == 0 then 0
    else 2 * And(a / 2, b / 2, n - 1) + if a % 2 == 1 && b % 2 == 1 then 1 else 0
  }

  /** The low `n` bits of `~a`. */
  function Not(a: nat, n: nat): nat {
    if n == 0 then 0
    else 2 * Not(a / 2, n - 1) + 1 - a % 2
  }

  /** Every bit `[k, n)` of `w` equals `value`. */
  predicate Uniform(w: nat, k: nat, n: nat, value: bool) {
    forall j | k <= j < n :: TestBit(w, j) == value
  }

  /** Uniformity of the upper bits, one bit shorter. */
  lemma UniformShift(w: nat, k: nat, n: nat, value: bool)
    requires n > 0
    ensures Uniform(w, k, n, value) <==>
            (k > 0 || TestBit(w, 0) == value) && Uniform(w / 2, if k == 0 then 0 else k - 1, n - 1, value)
  {
    var k' := if k == 0 then 0 else k - 1;
    if Uniform(w, k, n, value) {
      forall i | k' <= i < n - 1 ensures TestBit(w / 2, i) == value {
        assert TestBit(w, i + 1) == TestBit(w / 2, i);
      }
    }
    if Uniform(w / 2, k', n - 1, value) && (k > 0 || TestBit(w, 0) == value) {
      forall j | k <= j < n ensures TestBit(w, j) == value {
        if j > 0 {
          assert TestBit(w, j) == TestBit(w / 2, j - 1);
        }
      }
    }
  }

  /** Or-ing in a low mask gives all ones exactly when the bits above it are all set. */
  lemma {:induction false} HighBitsSet(w: nat, k: nat, n: nat)
    requires k <= n
    ensures Or(w, FillMask(k), n) == FillMask(n) <==> Uniform(w, k, n, true)
  {
    if n > 0 {
      UniformShift(w, k, n, true);
      HighBitsSet(w / 2, if k == 0 then 0 else k - 1, n - 1);
    }
  }

  /** Masking it out gives zero exactly when they are all clear. */
  lemma {:induction false} HighBitsClear(w: nat, k: nat, n: nat)
    requires k <= n
    ensures And(w, Not(FillMask(k), n), n) == 0 <==> Uniform(w, k, n, false)
  {
    if n > 0 {
      UniformShift(w, k, n, false);
      HighBitsClear(w / 2, if k == 0 then 0 else k - 1, n - 1);
    }
  }

  /** The mirror image: the bits below the mask's edge. */
  lemma {:induction false} LowBitsSet(w: nat, k: nat, n: nat)
    requires k <= n
    ensures Or(w, Not(FillMask(k), n), n) == FillMask(n) <==> Uniform(w, 0, k, true)
  {
    if n > 0 && k > 0 {
      UniformShift(w, 0, k, true);
      LowBitsSet(w / 2, k - 1, n - 1);
    } else if n > 0 {
      LowBitsSet(w / 2, 0, n - 1);
    }
  }

  lemma {:induction false} LowBitsClear(w: nat, k: nat, n: nat)
    requires k <= n
    ensures And(w, FillMask(k), n) == 0 <==> Uniform(w, 0, k, false)
  {
    if n > 0 && k > 0 {
      UniformShift(w, 0, k, false);
      LowBitsClear(w / 2, k - 1, n - 1);
    } else if n > 0 {
      LowBitsClear(w / 2, 0, n - 1);
    }
  }

  const ALL_ONES: nat := FillMask(32)

  /** A map of `size` bits held in whole words. */
  ghost predicate WellFormed(words: seq<nat>, size: nat) {
    && size <= 32 * |words|
    && forall p | 0 <= p < |words| :: words[p] <= ALL_ONES
  }

  /** RtlCheckBit. */
  predicate CheckBit(words: seq<nat>, i: nat)
    requires i < 32 * |words|
  {
    TestBit(words[i / 32], i % 32)
  }

  /** The map as a sequence of bits. */
  ghost function BitsOf(words: seq<nat>, size: nat): (s: seq<bool>)
    requires size <= 32 * |words|
  {
    seq(size, i requires 0 <= i < size => CheckBit(words, i))
  }

  /** A whole word is all ones, or zero, exactly when its 32 bits are. */
  lemma {:induction false} WholeWord(w: nat, n: nat)
    requires w <= FillMask(n)
    ensures w == FillMask(n) <==> Uniform(w, 0, n, true)
    ensures w == 0 <==> Uniform(w, 0, n, false)
  {
    if n > 0 {
      UniformShift(w, 0, n, true);
      UniformShift(w, 0, n, false);
      WholeWord(w / 2, n - 1);
    }
  }

  /** Uniform bits of word `p`, read off the whole map. */
  lemma UniformInMap(words: seq<nat>, p: nat, lo: nat, hi: nat, value: bool)
    requires p < |words| && lo <= hi <= 32
    requires Uniform(words[p], lo, hi, value)
    ensures forall i | 32 * p + lo <= i < 32 * p + hi :: CheckBit(words, i) == value
  {
    forall i | 32 * p + lo <= i < 32 * p + hi ensures CheckBit(words, i) == value {
      assert i / 32 == p && i % 32 == i - 32 * p;
    }
  }

  /** A word that is not uniform holds a differing bit of the map. */
  lemma DifferingBit(words: seq<nat>, p: nat, lo: nat, hi: nat, value: bool) returns (i: nat)
    requires p < |words| && lo <= hi <= 32
    requires !Uniform(words[p], lo, hi, value)
    ensures 32 * p + lo <= i < 32 * p + hi && CheckBit(words, i) != value
  {
    var j :| lo <= j < hi && TestBit(words[p], j) != value;
    i := 32 * p + j;
    assert i / 32 == p && i % 32 == j;
  }

  /** The masked test that decides whether the search may leave the word of `at` at once. */
  predicate RestIsUniform(w: nat, k: nat, value: bool)
    requires k < 32
  {
    if value then Or(w, FillMask(k), 32) == ALL_ONES else And(w, Not(FillMask(k), 32), 32) == 0
  }

  /** The masked test for the bits of the word at and below (set) or strictly below (clear) `k`. */
  predicate LowIsUniform(w: nat, k: nat, value: bool)
    requires k < 32
  {
    if value then Or(w, Not(FillMask(k + 1), 32), 32) == ALL_ONES else And(w, FillMask(k), 32) == 0
  }

  predicate WholeIsUniform(w: nat, value: bool) {
    w == if value then ALL_ONES else 0
  }

  lemma {:induction false} RestSpec(w: nat, k: nat, value: bool)
    requires k < 32
    ensures RestIsUniform(w, k, value) <==> Uniform(w, k, 32, value)
  {
    HighBitsSet(w, k, 32);
    HighBitsClear(w, k, 32);
  }

  lemma {:induction false} LowSpec(w: nat, k: nat, value: bool)
    requires k < 32
    ensures LowIsUniform(w, k, value) <==> Uniform(w, 0, if value then k + 1 else k, value)
  {
    LowBitsSet(w, if value then k + 1 else k, 32);
    LowBitsClear(w, if value then k + 1 else k, 32);
  }

  lemma {:induction false} WholeSpec(w: nat, value: bool)
    requires w <= ALL_ONES
    ensures WholeIsUniform(w, value) <==> Uniform(w, 0, 32, value)
  {
    WholeWord(w, 32);
  }

  /** Bits `[lo, hi)` of the map all equal `value`. */
  ghost predicate Flat(words: seq<nat>, lo: int, hi: int, value: bool) {
    0 <= lo && hi <= 32 * |words| && forall i | lo <= i < hi :: CheckBit(words, i) == value
  }

  /** A flat stretch closed by a differing bit, or by the end of the map, is what the
      bit-by-bit search skips. */
  lemma FlatThenDiffers(words: seq<nat>, size: nat, at: nat, pos: nat, value: bool)
    requires at <= pos <= size <= 32 * |words|
    requires Flat(words, at, pos, value)
    requires pos < size ==> CheckBit(words, pos) != value
    ensures pos == FirstFrom(BitsOf(words, size), at, !value)
  {
    var s := BitsOf(words, size);
    assert forall i | 0 <= i < size :: s[i] == CheckBit(words, i);
  }

  /** The word steps of one half of the forward search: `hunk` is the word pointer, and the
      last word of the map is left to the bit steps. */
  method SkipWords(words: seq<nat>, last: nat, at: nat, hunk: nat, value: bool) returns (pos: nat, hunk': nat)
    requires forall p | 0 <= p < |words| :: words[p] <= ALL_ONES
    requires hunk <= last < |words|
    requires hunk != last ==> at / 32 == hunk
    ensures at <= pos && hunk <= hunk' <= last
    ensures pos == if hunk' == hunk then at else 32 * hunk'
    ensures hunk != last ==> Flat(words, at, pos, value)
    ensures hunk' != last ==> exists i :: pos <= i < 32 * hunk' + 32 && CheckBit(words, i) != value
  {
    pos, hunk' := at, hunk;
    if hunk' == last {
      return;
    }
    RestSpec(words[hunk'], pos % 32, value);
    if !RestIsUniform(words[hunk'], pos % 32, value) {
      ghost var i := DifferingBit(words, hunk', pos % 32, 32, value);
      return;
    }
    UniformInMap(words, hunk', pos % 32, 32, value);
    pos := pos + (32 - pos % 32);
    hunk' := hunk' + 1;
    while hunk' < last
      invariant hunk' <= last && pos == 32 * hunk' && at <= pos
      invariant Flat(words, at, pos, value)
    {
      WholeSpec(words[hunk'], value);
      if !WholeIsUniform(words[hunk'], value) {
        ghost var i := DifferingBit(words, hunk', 0, 32, value);
        return;
      }
      UniformInMap(words, hunk', 0, 32, value);
      hunk' := hunk' + 1;
      pos := pos + 32;
    }
  }

  /** The bit steps that close either half. */
  method SkipBits(words: seq<nat>, size: nat, at: nat, value: bool) returns (pos: nat)
    requires at <= size <= 32 * |words|
    ensures at <= pos <= size && Flat(words, at, pos, value)
    ensures pos < size ==> CheckBit(words, pos) != value
  {
    pos := at;
    while pos < size && CheckBit(words, pos) == value
      invariant at <= pos <= size && Flat(words, at, pos, value)
    {
      pos := pos + 1;
    }
  }

  /** Where the word pointer stands when the search is at `pos`. */
  ghost predicate Points(hunk: nat, pos: nat, last: nat) {
    hunk <= last && if hunk == last then 32 * last <= pos else pos / 32 == hunk
  }

  /** One half of the forward search: skip the bits equal to `value`, words first. */
  method Advance(words: seq<nat>, size: nat, at: nat, hunk: nat, value: bool) returns (pos: nat, hunk': nat)
    requires WellFormed(words, size) && at <= size && 0 < size
    requires Points(hunk, at, (size - 1) / 32)
    ensures pos == FirstFrom(BitsOf(words, size), at, !value)
    ensures Points(hunk', pos, (size - 1) / 32)
  {
    var stepped;
    stepped, hunk' := SkipWords(words, (size - 1) / 32, at, hunk, value);
    pos := SkipBits(words, size, stepped, value);
    FlatThenDiffers(words, size, at, pos, value);
  }

  /** RtlFindNextForwardRunClear: the first clear run at or after `from`. */
  method FindNextForwardRunClear(words: seq<nat>, size: nat, from: nat) returns (start: nat, count: nat)
    requires WellFormed(words, size)
    requires size == 0 || from < size
    ensures size == 0 ==> start == from && count == 0
    ensures size > 0 ==> start == FirstFrom(BitsOf(words, size), from, false)
    ensures size > 0 ==> start + count == FirstFrom(BitsOf(words, size), start, true)
  {
    if size == 0 {
      return from, 0;
    }
    var hunk, end;
    start, hunk := Advance(words, size, from, from / 32, true);
    end, hunk := Advance(words, size, start, hunk, false);
    count := end - start;
  }

  /** The masked test on the word of `at`, read off the map. */
  lemma LowFlat(words: seq<nat>, at: nat, value: bool)
    requires at < 32 * |words|
    requires !value ==> !CheckBit(words, at)
    ensures LowIsUniform(words[at / 32], at % 32, value) <==> Flat(words, 32 * (at / 32), at + 1, value)
  {
    var p, k := at / 32, if value then at % 32 + 1 else at % 32;
    LowSpec(words[p], at % 32, value);
    if Uniform(words[p], 0, k, value) {
      UniformInMap(words, p, 0, k, value);
    } else {
      var i := DifferingBit(words, p, 0, k, value);
    }
  }

  /** The word steps of one half of the backward search; the first word is left to the bit
      steps.  Positions go down to -1, which the search holds as MAXULONG (whose low five bits are
      31, as are those of -1 here). */
  method BackWords(words: seq<nat>, at: int, hunk: nat, value: bool) returns (pos: int, hunk': int)
    requires forall p | 0 <= p < |words| :: words[p] <= ALL_ONES
    requires -1 <= at && hunk < |words|
    requires at >= 0 ==> at / 32 == hunk && (!value ==> !CheckBit(words, at))
    requires at == -1 ==> !LowIsUniform(words[hunk], 31, value)
    ensures -1 <= pos <= at && -1 <= hunk' <= hunk && Flat(words, pos + 1, at + 1, value)
    ensures pos == if hunk' == hunk then at else 32 * hunk' + 31
    ensures hunk' > 0 && at >= 0 ==> !Flat(words, 32 * hunk', pos + 1, value)
    ensures hunk' == -1 ==> hunk == 0
    ensures at >= 0 ==> (hunk' == -1 <==> at < 32 && LowIsUniform(words[0], at, value))
  {
    pos, hunk' := at, hunk;
    if at >= 0 {
      LowFlat(words, at, value);
    }
    if !LowIsUniform(words[hunk], at % 32, value) {
      return;
    }
    pos := pos - (pos % 32 + 1);
    hunk' := hunk' - 1;
    while hunk' > 0
      invariant -1 <= hunk' < hunk && pos == 32 * hunk' + 31
      invariant hunk' == -1 ==> hunk == 0
      invariant Flat(words, pos + 1, at + 1, value)
    {
      WholeSpec(words[hunk'], value);
      if !WholeIsUniform(words[hunk'], value) {
        ghost var i := DifferingBit(words, hunk', 0, 32, value);
        return;
      }
      UniformInMap(words, hunk', 0, 32, value);
      hunk' := hunk' - 1;
      pos := pos - 32;
    }
  }

  /** All bits of the first word up to the index are set. */
  ghost predicate LeavesMap(words: seq<nat>, from: nat)
    requires from < 32 * |words|
  {
    from < 32 && Flat(words, 0, from + 1, true)
  }

  /** One half of the backward search: skip the bits equal to `value`, words first. */
  method Retreat(words: seq<nat>, at: int, hunk: nat, value: bool) returns (pos: int, hunk': int)
    requires forall p | 0 <= p < |words| :: words[p] <= ALL_ONES
    requires -1 <= at && hunk < |words|
    requires at >= 0 ==> at / 32 == hunk && (!value ==> !CheckBit(words, at))
    requires at == -1 ==> !LowIsUniform(words[hunk], 31, value)
    ensures -1 <= pos <= at && Flat(words, pos + 1, at + 1, value)
    ensures pos >= 0 ==> CheckBit(words, pos) != value && hunk' == pos / 32
    ensures pos == -1 && at >= 0 ==> -1 <= hunk' <= 0 && (hunk' == -1 ==> at < 32)
    ensures at >= 0 && value ==> (hunk' == -1 <==> LeavesMap(words, at))
  {
    pos, hunk' := BackWords(words, at, hunk, value);
    if 0 <= at < 32 {
      LowFlat(words, at, value);
    }
    ghost var stepped := pos;
    while pos != -1 && CheckBit(words, pos) == value
      invariant -1 <= pos <= stepped && Flat(words, pos + 1, stepped + 1, value)
    {
      pos := pos - 1;
    }
  }

  /** The bit-by-bit search backward, from a flat stretch and what closes it. */
  lemma FlatThenDiffersBackward(words: seq<nat>, size: nat, at: int, pos: int, value: bool)
    requires -1 <= pos <= at < size <= 32 * |words|
    requires Flat(words, pos + 1, at + 1, value)
    requires pos >= 0 ==> CheckBit(words, pos) != value
    ensures pos == LastFrom(BitsOf(words, size), at, !value)
  {
    var s := BitsOf(words, size);
    assert forall i | 0 <= i < size :: s[i] == CheckBit(words, i);
  }

  /** The first half of the backward search.  It leaves the word pointer before the map if and only if
      the index is in the first word and no bit at or below it is clear; the search would then read there. */
  method LastClear(words: seq<nat>, size: nat, from: nat) returns (end: int, hunk: int)
    requires WellFormed(words, size) && from < size
    ensures end == LastFrom(BitsOf(words, size), from, false)
    ensures -1 <= end <= from && (0 <= end ==> !CheckBit(words, end) && hunk == end / 32)
    ensures hunk == -1 <==> LeavesMap(words, from)
    ensures -1 <= hunk && (end == -1 ==> hunk <= 0)
  {
    end, hunk := Retreat(words, from, from / 32, true);
    FlatThenDiffersBackward(words, size, from, end, true);
  }

  lemma MaskIsPositive(k: nat)
    requires 0 < k
    ensures 1 <= FillMask(k)
  {
  }

  /** A map of one word whose first bit alone is set, searched from that bit. */
  method SearchLeavesMap() returns (end: int, hunk: int)
    ensures end == -1 && hunk == -1
  {
    hide FillMask;
    MaskIsPositive(32);
    assert CheckBit([1], 0);
    end, hunk := LastClear([1], 1, 0);
  }

  /** RtlFindLastBackwardRunClear: the last clear run at or before `from`. */
  method FindLastBackwardRunClear(words: seq<nat>, size: nat, from: nat) returns (start: nat, count: nat)
    requires WellFormed(words, size)
    requires size == 0 || (from < size && !LeavesMap(words, from))
    ensures size == 0 ==> start == from && count == 0
    ensures size > 0 ==> var end := LastFrom(BitsOf(words, size), from, false);
                         var stop := LastFrom(BitsOf(words, size), end, true);
                         start == stop + 1 && count == end - stop
  {
    if size == 0 {
      return from, 0;
    }
    var end, hunk := LastClear(words, size, from);
    if end == -1 {
      assert BitsOf(words, size)[0] == CheckBit(words, 0);
      LowSpec(words[hunk], 31, false);
      assert TestBit(words[0], 0);
    }
    var stop;
    stop, hunk := Retreat(words, end, hunk, false);
    FlatThenDiffersBackward(words, size, end, stop, false);
    start := stop + 1;
    count := end - stop;
  }
}
