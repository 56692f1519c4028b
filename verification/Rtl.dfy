/**
 * The run-time library's searches over one page of a bit map.  The library itself is not part
 * of the repository; these stand for what its callers rely on.
 */
module Rtl {
  import opened Bits

  /** A clear run that starts before the next gap ends lies between the gap's two ends. */
  lemma RunWithin(s: seq<bool>, at: nat, lo: int, n: int)
    requires at <= |s| && 0 < n
    ensures var start := FirstFrom(s, at, false);
            var end := FirstFrom(s, start, true);
            Clear(s, lo, n) && at <= lo < end ==> start <= lo && lo + n <= end
    ensures at < |s| && s[at] && Clear(s, lo, n) ==> lo + n <= at || at < lo
  {
    var start := FirstFrom(s, at, false);
    var end := FirstFrom(s, start, true);
    assert end == |s| || s[end];
    assert at <= lo < start ==> s[lo];
  }

  /** RtlFindLongestRunClear. */
  method FindLongestRunClear(s: seq<bool>) returns (count: nat, index: nat)
    ensures count == 0 ==> index == 0 && forall i | 0 <= i < |s| :: s[i]
    ensures count > 0 ==> Clear(s, index, count)
    ensures forall lo, n | Clear(s, lo, n) :: n <= count
  {
    count, index := 0, 0;
    var at := 0;
    while at < |s|
      invariant at <= |s|
      invariant count == 0 ==> index == 0 && forall i | 0 <= i < at :: s[i]
      invariant count > 0 ==> Clear(s, index, count)
      invariant at == |s| || at == 0 || s[at]
      invariant forall lo, n | Clear(s, lo, n) && lo + n <= at :: n <= count
    {
      var start := FirstFrom(s, at, false);
      var end := FirstFrom(s, start, true);
      forall lo, n | Clear(s, lo, n) && lo + n <= end
        ensures n <= if end - start > count then end - start else count
      {
        if n > 0 {
          RunWithin(s, at, lo, n);
        }
      }
      if end - start > count {
        count, index := end - start, start;
      }
      at := end;
    }
  }

  /** RtlFindClearBits: some clear run of the wanted length, looking from the hint on first. */
  method FindClearBits(s: seq<bool>, count: nat, hint: nat) returns (found: bool, index: nat)
    requires 0 < count
    ensures found ==> Clear(s, index, count)
    ensures !found ==> forall lo :: !Clear(s, lo, count)
  {
    if hint < |s| {
      found, index := FindClearBitsFrom(s, count, hint);
      if found {
        return;
      }
    }
    found, index := FindClearBitsFrom(s, count, 0);
  }

  method FindClearBitsFrom(s: seq<bool>, count: nat, from: nat) returns (found: bool, index: nat)
    requires 0 < count && from <= |s|
    ensures found ==> from <= index && Clear(s, index, count)
    ensures !found ==> forall lo | from <= lo :: !Clear(s, lo, count)
  {
    var at := from;
    while at < |s|
      invariant from <= at <= |s|
      invariant forall lo | from <= lo < at :: !Clear(s, lo, count)
    {
      var start := FirstFrom(s, at, false);
      var end := FirstFrom(s, start, true);
      if end - start >= count {
        return true, start;
      }
      forall lo | at <= lo < end ensures !Clear(s, lo, count) {
        RunWithin(s, at, lo, count);
      }
      at := end;
    }
    return false, 0;
  }
}
