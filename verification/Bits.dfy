/**
 * Bit maps as sequences of booleans (`true` is a set bit, i.e. an allocated
 * cluster), and the bit-by-bit searches every faster search is measured against.
 */
module Bits {

  /** The first index at or after `from` whose bit equals `value`, or `|s|`. */
  function FirstFrom(s: seq<bool>, from: nat, value: bool): (r: nat)
    requires from <= |s|
    ensures from <= r <= |s|
    ensures forall i | from <= i < r :: s[i] != value
    ensures r < |s| ==> s[r] == value
    decreases |s| - from
  {
    if from == |s| || s[from] == value then from else FirstFrom(s, from + 1, value)
  }

  /** The last index at or before `from` whose bit equals `value`, or -1. */
  function LastFrom(s: seq<bool>, from: int, value: bool): (r: int)
    requires -1 <= from < |s|
    ensures -1 <= r <= from
    ensures forall i | r < i <= from :: s[i] != value
    ensures 0 <= r ==> s[r] == value
    decreases from + 1
  {
    if from == -1 || s[from] == value then from else LastFrom(s, from - 1, value)
  }

  /** Every bit of `[lo, lo + n)` is clear (RtlAreBitsClear). */
  predicate Clear(s: seq<bool>, lo: int, n: int) {
    0 <= lo && 0 <= n && lo + n <= |s| && forall i | lo <= i < lo + n :: !s[i]
  }

  /** Every bit of `[lo, lo + n)` is set (RtlAreBitsSet). */
  predicate AllSet(s: seq<bool>, lo: int, n: int) {
    0 <= lo && 0 <= n && lo + n <= |s| && forall i | lo <= i < lo + n :: s[i]
  }

  /** The map with the bits of `[lo, lo + n)` replaced by `value` (RtlSetBits, RtlClearBits). */
  function Fill(s: seq<bool>, lo: int, n: int, value: bool): (r: seq<bool>)
    ensures |r| == |s|
    ensures forall i | 0 <= i < |s| :: r[i] == if lo <= i < lo + n then value else s[i]
  {
    seq(|s|, i requires 0 <= i < |s| => if lo <= i < lo + n then value else s[i])
  }

  /** How many bits are clear (RtlNumberOfClearBits). */
  function CountClear(s: seq<bool>): (r: nat)
    ensures r <= |s|
  {
    if s == [] then 0 else CountClear(s[..|s| - 1]) + if s[|s| - 1] then 0 else 1
  }

  lemma {:induction false} CountClearConcat(a: seq<bool>, b: seq<bool>)
    ensures CountClear(a + b) == CountClear(a) + CountClear(b)
  {
    if b == [] {
      assert a + b == a;
    } else {
      CountClearConcat(a, b[..|b| - 1]);
      assert (a + b)[..|a + b| - 1] == a + b[..|b| - 1];
    }
  }

  /** A map whose bits all equal `value` has no clear bit, or only clear bits. */
  lemma {:induction false} CountClearUniform(s: seq<bool>, value: bool)
    requires forall i | 0 <= i < |s| :: s[i] == value
    ensures CountClear(s) == if value then 0 else |s|
  {
    if s != [] {
      CountClearUniform(s[..|s| - 1], value);
    }
  }

  /** Overwriting a uniform range moves the clear count by exactly its length. */
  lemma {:induction false} CountClearFill(s: seq<bool>, lo: nat, n: nat, value: bool)
    requires lo + n <= |s|
    requires forall i | lo <= i < lo + n :: s[i] != value
    ensures CountClear(Fill(s, lo, n, value)) == CountClear(s) + (if value then 0 - n else n)
  {
    var r := Fill(s, lo, n, value);
    if n == 0 {
      assert r == s;
    } else {
      var last := |s| - 1;
      var m := if lo + n == |s| then n - 1 else n;
      CountClearFill(s[..last], lo, m, value);
      assert r[..last] == Fill(s[..last], lo, m, value);
    }
  }

  /** A clear bit of `s` that `hidden` does not cover exists as soon as there are more
      clear bits in `s` than elements in `hidden`. */
  lemma {:induction false} UncoveredClearBit(s: seq<bool>, hidden: set<int>)
    requires CountClear(s) > |hidden|
    ensures exists i :: 0 <= i < |s| && !s[i] && i !in hidden
  {
    var last := |s| - 1;
    var t := s[..last];
    if !s[last] && last !in hidden {
      return;
    }
    if CountClear(t) > |hidden| {
      UncoveredClearBit(t, hidden);
      var i :| 0 <= i < |t| && !t[i] && i !in hidden;
      assert !s[i];
    } else {
      UncoveredClearBit(t, hidden - {last});
      var i :| 0 <= i < |t| && !t[i] && i !in hidden - {last};
      assert !s[i];
    }
  }

  /** How many bits of `[lo, hi)` are clear. */
  function CountRange(s: seq<bool>, lo: nat, hi: nat): (r: nat)
    requires hi <= |s|
  {
    if hi <= lo then 0 else CountRange(s, lo, hi - 1) + if s[hi - 1] then 0 else 1
  }

  /** A page counted on its own. */
  lemma {:induction false} CountRangePage(s: seq<bool>, lo: nat, page: seq<bool>)
    requires lo + |page| <= |s| && forall i | 0 <= i < |page| :: page[i] == s[lo + i]
    ensures CountRange(s, lo, lo + |page|) == CountClear(page)
  {
    if page != [] {
      CountRangePage(s, lo, page[..|page| - 1]);
    }
  }

  /** The whole map counted as a range. */
  lemma CountRangeAll(s: seq<bool>)
    ensures CountRange(s, 0, |s|) == CountClear(s)
  {
    var t := s;
    assert forall i | 0 <= i < |t| :: t[i] == s[0 + i];
    CountRangePage(s, 0, t);
  }

  lemma {:induction false} CountRangeSplit(s: seq<bool>, lo: nat, mid: nat, hi: nat)
    requires lo <= mid <= hi <= |s|
    ensures CountRange(s, lo, hi) == CountRange(s, lo, mid) + CountRange(s, mid, hi)
  {
    if mid < hi {
      CountRangeSplit(s, lo, mid, hi - 1);
    }
  }
}
