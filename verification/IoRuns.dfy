/**
 * Planning the transfers of a compressed stream: which disk runs a read or a write of whole
 * compression units takes, and how many slots they need.  Offsets and lengths are in clusters.
 */
module IoRuns {
  import opened Units
  import Mcb

  const MAX_PARALLEL_IOS: nat := 8
  const UNUSED_LCN: int := Mcb.UNUSED_LCN

  /** One transfer: from the stream's cluster `vbo` and the disk's cluster `lbo`, to the buffer. */
  datatype IoRun = IoRun(vbo: int, lbo: int, offset: int, count: int)

  // ---------- what is transferred ----------

  /** Consecutive disk clusters. */
  function Clusters(lbo: int, count: int): (s: seq<int>)
    ensures |s| == if count > 0 then count else 0
  {
    if count <= 0 then [] else Clusters(lbo, count - 1) + [lbo + count - 1]
  }

  lemma {:induction false} ClustersSplit(lbo: int, a: int, b: int)
    requires 0 <= a && 0 <= b
    ensures Clusters(lbo, a + b) == Clusters(lbo, a) + Clusters(lbo + a, b)
    decreases b
  {
    if b > 0 {
      ClustersSplit(lbo, a, b - 1);
    }
  }

  /** The disk clusters of a stream's range, holes left out, in order. */
  function Present(lcnAt: int -> int, a: int, b: int): seq<int>
    decreases b - a
  {
    if b <= a then [] else Present(lcnAt, a, b - 1) + if lcnAt(b - 1) == UNUSED_LCN then [] else [lcnAt(b - 1)]
  }

  /** `extent` tells how far the clusters from `v` on run on alike. */
  ghost predicate Consistent(lcnAt: int -> int, extent: int -> int) {
    && (forall v :: 1 <= extent(v))
    && forall v, w {:trigger extent(v), lcnAt(w)} :: v <= w < v + extent(v) ==> lcnAt(w) == Follow(lcnAt(v), w - v)
  }

  function Follow(lcn: int, d: int): int { if lcn == UNUSED_LCN then UNUSED_LCN else lcn + d }

  /** A stream's layout: what a lookup finds. */
  ghost predicate Layout(lcnAt: int -> int, extent: int -> int) {
    Consistent(lcnAt, extent) && forall v :: lcnAt(v) >= UNUSED_LCN
  }

  lemma {:induction false} PresentMore(lcnAt: int -> int, extent: int -> int, a: int, v: int, count: int)
    requires Layout(lcnAt, extent) && a <= v && 0 <= count <= extent(v)
    ensures Present(lcnAt, a, v + count) ==
            Present(lcnAt, a, v) + if lcnAt(v) == UNUSED_LCN then [] else Clusters(lcnAt(v), count)
    decreases count
  {
    if count > 0 {
      PresentMore(lcnAt, extent, a, v, count - 1);
      assert lcnAt(v + count - 1) == Follow(lcnAt(v), count - 1);
    }
  }

  /** The disk clusters a list of transfers moves. */
  function Moved(rs: seq<IoRun>): seq<int> {
    if rs == [] then [] else Moved(rs[..|rs| - 1]) + Clusters(rs[|rs| - 1].lbo, rs[|rs| - 1].count)
  }

  /** Each transfer goes to the buffer where the one before it ends. */
  ghost predicate Packed(rs: seq<IoRun>) {
    rs == [] || (Packed(rs[..|rs| - 1]) && rs[|rs| - 1].offset == |Moved(rs[..|rs| - 1])| && 0 < rs[|rs| - 1].count)
  }

  lemma MovedSnoc(rs: seq<IoRun>, r: IoRun)
    ensures Moved(rs + [r]) == Moved(rs) + Clusters(r.lbo, r.count)
    ensures Packed(rs) && r.offset == |Moved(rs)| && 0 < r.count ==> Packed(rs + [r])
  {
    assert (rs + [r])[..|rs + [r]| - 1] == rs;
  }

  /** A transfer starts on a cluster of the stream, from `lowest` on, at the cluster's place on disk, and goes
      behind as many clusters of the buffer. */
  predicate Sits(r: IoRun, lcnAt: int -> int, lowest: int, clusters: int) {
    lowest <= r.vbo && r.lbo == lcnAt(r.vbo) != UNUSED_LCN && r.offset == clusters
  }

  /** Every transfer of a read goes behind the clusters present before its own. */
  ghost predicate Seated(rs: seq<IoRun>, lcnAt: int -> int, from: int) {
    forall i | 0 <= i < |rs| :: Sits(rs[i], lcnAt, from, |Present(lcnAt, from, rs[i].vbo)|)
  }

  /** No two transfers that follow each other could have been one. */
  ghost predicate Apart(rs: seq<IoRun>) {
    forall i | 1 <= i < |rs| :: rs[i].lbo != rs[i - 1].lbo + rs[i - 1].count
  }

  lemma ApartMore(rs: seq<IoRun>, r: IoRun, count: int)
    requires Apart(rs)
    ensures rs == [] || r.lbo != rs[|rs| - 1].lbo + rs[|rs| - 1].count ==> Apart(rs + [r])
    ensures rs != [] ==> Apart(Extended(rs, count))
  {
  }

  function Extended(rs: seq<IoRun>, count: int): (t: seq<IoRun>)
    requires rs != []
    ensures |t| == |rs|
  {
    var last := rs[|rs| - 1];
    rs[|rs| - 1 := last.(count := last.count + count)]
  }

  lemma MovedExtended(rs: seq<IoRun>, count: int)
    requires rs != [] && Packed(rs) && 0 < count
    ensures Packed(Extended(rs, count))
    ensures var last := rs[|rs| - 1]; Moved(Extended(rs, count)) == Moved(rs) + Clusters(last.lbo + last.count, count)
  {
    var last, t := rs[|rs| - 1], Extended(rs, count);
    assert t[..|t| - 1] == rs[..|rs| - 1];
    ClustersSplit(last.lbo, last.count, count);
    hide Clusters;
    var m, c, d := Moved(rs[..|rs| - 1]), Clusters(last.lbo, last.count), Clusters(last.lbo + last.count, count);
    assert m + (c + d) == m + c + d;
  }

  // ---------- the slots ----------

  /** From the penultimate slot of the default array on, all transfers start in one unit, each after the
      one before, and the last of them does not start on the unit's last cluster. */
  ghost predicate Slots(rs: seq<IoRun>, start: int, u: int)
    requires 0 < u
  {
    && (forall i | MAX_PARALLEL_IOS <= i < |rs| :: rs[i - 1].vbo < rs[i].vbo)
    && (forall i | MAX_PARALLEL_IOS - 1 <= i < |rs| :: Unit(rs[i].vbo, u) == Unit(rs[MAX_PARALLEL_IOS - 1].vbo, u))
    && (MAX_PARALLEL_IOS <= |rs| ==>
          var last := rs[|rs| - 1];
          && Unit(last.vbo + last.count, u) == Unit(last.vbo, u) && 0 < last.count && last.vbo + last.count <= start)
  }

  /** So there is always a slot left in the grown array. */
  lemma SlotsLeft(rs: seq<IoRun>, start: int, u: int)
    requires 0 < u && Slots(rs, start, u) && MAX_PARALLEL_IOS <= |rs|
    ensures |rs| <= u + MAX_PARALLEL_IOS - 2
  {
    var first, last := rs[MAX_PARALLEL_IOS - 1], rs[|rs| - 1];
    Ascending(rs, |rs| - 1);
    UnitBetween(last.vbo, last.vbo + 1, last.vbo + last.count, u);
    UnitSpan(first.vbo, last.vbo + 1, u);
  }

  lemma {:induction false} Ascending(rs: seq<IoRun>, i: int)
    requires MAX_PARALLEL_IOS - 1 <= i < |rs| && forall i | MAX_PARALLEL_IOS <= i < |rs| :: rs[i - 1].vbo < rs[i].vbo
    ensures rs[MAX_PARALLEL_IOS - 1].vbo + (i - (MAX_PARALLEL_IOS - 1)) <= rs[i].vbo
    decreases i
  {
    if MAX_PARALLEL_IOS <= i {
      Ascending(rs, i - 1);
    }
  }

  /** All transfers from the penultimate slot on start in one unit. */
  ghost predicate OneUnit(rs: seq<IoRun>, u: int)
    requires 0 < u
  {
    forall i | MAX_PARALLEL_IOS - 1 <= i < |rs| :: Unit(rs[i].vbo, u) == Unit(rs[MAX_PARALLEL_IOS - 1].vbo, u)
  }

  /** Whether the planner must stop before using a run at `start`: another unit than the last one's. */
  predicate NewUnit(rs: seq<IoRun>, start: int, u: int)
    requires 0 < u
  {
    |rs| > MAX_PARALLEL_IOS - 1 && Unit(start, u) != Unit(rs[|rs| - 1].vbo + rs[|rs| - 1].count - 1, u)
  }

  lemma SlotsNew(rs: seq<IoRun>, start: int, r: IoRun, u: int)
    requires 0 < u && Slots(rs, start, u) && r.vbo == start && 0 < r.count
    requires |rs| >= MAX_PARALLEL_IOS - 1 ==> !NewUnit(rs, start, u)
    ensures OneUnit(rs + [r], u)
    ensures |rs| < MAX_PARALLEL_IOS - 1 || Unit(start, u) == Unit(start + r.count, u) ==>
              Slots(rs + [r], start + r.count, u)
  {
    hide Unit;
    if MAX_PARALLEL_IOS <= |rs| {
      var last := rs[|rs| - 1];
      UnitBetween(last.vbo, last.vbo + last.count - 1, last.vbo + last.count, u);
    }
  }

  lemma SlotsExtend(rs: seq<IoRun>, start: int, count: int, u: int)
    requires 0 < u && rs != [] && Slots(rs, start, u) && 0 < count
    requires |rs| >= MAX_PARALLEL_IOS - 1 ==> !NewUnit(rs, start, u)
    ensures OneUnit(Extended(rs, count), u)
    ensures |rs| < MAX_PARALLEL_IOS - 1 || Unit(start, u) == Unit(start + count, u) ==>
              Slots(Extended(rs, count), start + count, u)
  {
    hide Unit;
    if MAX_PARALLEL_IOS <= |rs| {
      var last := rs[|rs| - 1];
      UnitBetween(last.vbo, last.vbo + last.count - 1, last.vbo + last.count, u);
      if Unit(start, u) == Unit(start + count, u) {
        UnitBetween(last.vbo, last.vbo + last.count + count, start + count, u);
      }
    }
  }

  /** The transfers so far move just the clusters present in `[from, start)`. */
  ghost predicate Planned(rs: seq<IoRun>, lcnAt: int -> int, from: int, start: int) {
    Packed(rs) && from <= start && Moved(rs) == Present(lcnAt, from, start) && Seated(rs, lcnAt, from) && Apart(rs)
  }

  lemma PlannedMeans(rs: seq<IoRun>, lcnAt: int -> int, from: int, start: int)
    requires Planned(rs, lcnAt, from, start)
    ensures Packed(rs) && from <= start && Moved(rs) == Present(lcnAt, from, start) && Seated(rs, lcnAt, from) &&
              Apart(rs)
  {
  }

  /** A run of its own. */
  lemma PlannedNew(rs: seq<IoRun>, lcnAt: int -> int, extent: int -> int, from: int, start: int, count: int)
    requires Layout(lcnAt, extent) && Planned(rs, lcnAt, from, start) && lcnAt(start) != UNUSED_LCN &&
               0 < count <= extent(start)
    requires rs == [] || lcnAt(start) != rs[|rs| - 1].lbo + rs[|rs| - 1].count
    ensures Planned(rs + [IoRun(start, lcnAt(start), |Moved(rs)|, count)], lcnAt, from, start + count)
  {
    hide Layout, Present, Clusters, Moved, Packed;
    ApartMore(rs, IoRun(start, lcnAt(start), |Moved(rs)|, count), 0);
    PresentMore(lcnAt, extent, from, start, count);
    MovedSnoc(rs, IoRun(start, lcnAt(start), |Moved(rs)|, count));
  }

  /** A run that goes on where the last one ends on disk, holes or not. */
  lemma PlannedExtend(rs: seq<IoRun>, lcnAt: int -> int, extent: int -> int, from: int, start: int, count: int)
    requires Layout(lcnAt, extent) && Planned(rs, lcnAt, from, start) && lcnAt(start) != UNUSED_LCN &&
               0 < count <= extent(start)
    requires rs != [] && lcnAt(start) == rs[|rs| - 1].lbo + rs[|rs| - 1].count
    ensures Planned(Extended(rs, count), lcnAt, from, start + count)
    ensures |Moved(Extended(rs, count))| == |Moved(rs)| + count
  {
    hide Layout, Present, Clusters, Moved, Packed;
    ApartMore(rs, rs[0], count);
    PresentMore(lcnAt, extent, from, start, count);
    MovedExtended(rs, count);
  }

  lemma PlannedHole(rs: seq<IoRun>, lcnAt: int -> int, extent: int -> int, from: int, start: int, count: int)
    requires Layout(lcnAt, extent) && Planned(rs, lcnAt, from, start) && lcnAt(start) == UNUSED_LCN &&
               0 < count <= extent(start)
    ensures Planned(rs, lcnAt, from, start + count)
  {
    hide Layout;
    PresentMore(lcnAt, extent, from, start, count);
  }

  // ---------- the array ----------

  /** The array grows once, when its default slots are used up. */
  method Grow(runs: array<IoRun>, n: nat, u: int) returns (grown: array<IoRun>)
    requires 0 < u && n <= runs.Length && (n == MAX_PARALLEL_IOS == runs.Length ==> 1 < u)
    ensures grown[..] == runs[..] || fresh(grown)
    ensures n <= grown.Length && grown[..n] == runs[..n]
    ensures if n == MAX_PARALLEL_IOS == runs.Length then grown.Length == u + MAX_PARALLEL_IOS - 1 && fresh(grown)
            else grown == runs
  {
    grown := runs;
    if n == MAX_PARALLEL_IOS && runs.Length == MAX_PARALLEL_IOS {
      grown := new IoRun[u + MAX_PARALLEL_IOS - 1](_ => IoRun(0, 0, 0, 0));
      var i := 0;
      while i < MAX_PARALLEL_IOS
        invariant 0 <= i <= MAX_PARALLEL_IOS && grown[..i] == runs[..i]
        modifies grown
      {
        grown[i] := runs[i];
        i := i + 1;
      }
    }
  }

  function Monus(a: int, b: int): int { if a > b then a - b else 0 }

  /** How much of a run may be used from the penultimate slot on: nothing in another unit, and only up
      to the last unit boundary of the run if it reaches one; in both cases the planner stops. */
  function Usable(n: nat, lastEnd: int, start: int, next: int, u: int): (r: (int, bool))
    requires 0 < u
  {
    if n < MAX_PARALLEL_IOS - 1 then (next, false)
    else if n > MAX_PARALLEL_IOS - 1 && Unit(start, u) != Unit(lastEnd - 1, u) then (0, true)
    else if Unit(start, u) != Unit(start + next, u) then (next - (start + next) % u, true)
    else (next, false)
  }

  lemma UsableFacts(rs: seq<IoRun>, lastEnd: int, start: int, next: int, u: int)
    requires 0 < u && 0 < next && Slots(rs, start, u)
    requires rs != [] ==> lastEnd == rs[|rs| - 1].vbo + rs[|rs| - 1].count
    ensures var (used, stop) := Usable(|rs|, lastEnd, start, next, u);
            && 0 <= used <= next && (used == next || stop) && (used == 0 ==> stop && |rs| >= MAX_PARALLEL_IOS)
            && (used != 0 && |rs| >= MAX_PARALLEL_IOS - 1 ==> !NewUnit(rs, start, u))
            && (!stop ==> |rs| < MAX_PARALLEL_IOS - 1 || Unit(start, u) == Unit(start + next, u))
            && OneUnit(rs, u) && (stop ==> |rs| >= MAX_PARALLEL_IOS - 1)
            && (used == 0 ==> Unit(start, u) != Unit(lastEnd - 1, u))
            && (stop && used != 0 ==> start + used == u * Unit(start + next, u))
    ensures MAX_PARALLEL_IOS <= |rs| ==> |rs| <= u + MAX_PARALLEL_IOS - 2
  {
    hide Unit;
    SlotsOneUnit(rs, start, u);
    if MAX_PARALLEL_IOS <= |rs| {
      SlotsLeft(rs, start, u);
    }
    if Unit(start, u) != Unit(start + next, u) {
      UnitCut(start, next, u);
    }
  }

  /** Why the planner breaks off: the next cluster lies in another unit than the last one planned, or the run is
      cut at its last unit boundary. */
  ghost predicate BreaksOff(rs: seq<IoRun>, start: int, next: int, used: int, u: int)
    requires 0 < u
  {
    && MAX_PARALLEL_IOS - 1 <= |rs|
    && if used == 0 then
         MAX_PARALLEL_IOS <= |rs| && Unit(start, u) != Unit(rs[|rs| - 1].vbo + rs[|rs| - 1].count - 1, u)
       else start + used == u * Unit(start + next, u)
  }

  /** What placing a run leaves behind. */
  ghost predicate Placed(rs: seq<IoRun>, lcnAt: int -> int, from: int, start: int, used: int, stop: bool, offset: int,
                         u: int)
    requires 0 < u
  {
    && Planned(rs, lcnAt, from, start + used) && |Moved(rs)| == offset + used
    && OneUnit(rs, u) && (!stop ==> Slots(rs, start + used, u))
  }

  lemma PlacedNew(rs: seq<IoRun>, lcnAt: int -> int, extent: int -> int, from: int, start: int, next: int, u: int)
    requires Layout(lcnAt, extent) && lcnAt(start) != UNUSED_LCN && 0 < next <= extent(start) && 0 < u
    requires Planned(rs, lcnAt, from, start) && Slots(rs, start, u)
    requires rs == [] || lcnAt(start) != rs[|rs| - 1].lbo + rs[|rs| - 1].count
    ensures var lastEnd := if rs == [] then 0 else rs[|rs| - 1].vbo + rs[|rs| - 1].count;
            var (used, stop) := Usable(|rs|, lastEnd, start, next, u);
            && (used == 0 ==> Placed(rs, lcnAt, from, start, 0, stop, |Moved(rs)|, u))
            && (used != 0 ==> Placed(rs + [IoRun(start, lcnAt(start), |Moved(rs)|, used)], lcnAt, from, start, used,
                                     stop, |Moved(rs)|, u))
            && 0 <= used <= next && (used == next || stop) && (used == 0 ==> |rs| >= MAX_PARALLEL_IOS)
            && (stop ==> |rs| >= MAX_PARALLEL_IOS - 1)
            && (stop ==> BreaksOff(if used == 0 then rs else rs + [IoRun(start, lcnAt(start), |Moved(rs)|, used)],
                                   start, next, used, u))
  {
    hide Layout, Unit, Planned, Slots, Usable, OneUnit, NewUnit, Moved;
    var lastEnd := if rs == [] then 0 else rs[|rs| - 1].vbo + rs[|rs| - 1].count;
    UsableFacts(rs, lastEnd, start, next, u);
    var (used, stop) := Usable(|rs|, lastEnd, start, next, u);
    if used != 0 {
      var r := IoRun(start, lcnAt(start), |Moved(rs)|, used);
      PlannedNew(rs, lcnAt, extent, from, start, used);
      SlotsNew(rs, start, r, u);
      MovedSnoc(rs, r);
    }
  }

  lemma PlacedExtended(rs: seq<IoRun>, lcnAt: int -> int, extent: int -> int, from: int, start: int, next: int, u: int)
    requires Layout(lcnAt, extent) && lcnAt(start) != UNUSED_LCN && 0 < next <= extent(start) && 0 < u
    requires Planned(rs, lcnAt, from, start) && Slots(rs, start, u)
    requires rs != [] && lcnAt(start) == rs[|rs| - 1].lbo + rs[|rs| - 1].count
    ensures var (used, stop) := Usable(|rs|, rs[|rs| - 1].vbo + rs[|rs| - 1].count, start, next, u);
            && (used == 0 ==> Placed(rs, lcnAt, from, start, 0, stop, |Moved(rs)|, u))
            && (used != 0 ==> Placed(Extended(rs, used), lcnAt, from, start, used, stop, |Moved(rs)|, u))
            && 0 <= used <= next && (used == next || stop) && (stop ==> |rs| >= MAX_PARALLEL_IOS - 1)
            && (stop ==> BreaksOff(if used == 0 then rs else Extended(rs, used), start, next, used, u))
  {
    hide Layout, Unit, Planned, Slots, Usable, OneUnit, NewUnit, Moved;
    var lastEnd := rs[|rs| - 1].vbo + rs[|rs| - 1].count;
    UsableFacts(rs, lastEnd, start, next, u);
    var (used, stop) := Usable(|rs|, lastEnd, start, next, u);
    if used != 0 {
      PlannedExtend(rs, lcnAt, extent, from, start, used);
      SlotsExtend(rs, start, used, u);
    }
  }

  lemma RoomLeft(rs: seq<IoRun>, start: int, u: int, slots: int)
    requires 0 < u && Slots(rs, start, u) && (slots == MAX_PARALLEL_IOS || slots == u + MAX_PARALLEL_IOS - 1)
    ensures |rs| == MAX_PARALLEL_IOS == slots ==> 1 < u
    ensures |rs| < MAX_PARALLEL_IOS || |rs| < u + MAX_PARALLEL_IOS - 1
  {
    if MAX_PARALLEL_IOS <= |rs| {
      SlotsLeft(rs, start, u);
    }
  }

  /** One allocated run of a read; `used` clusters of it are planned. */
  method PlaceRun(lcnAt: int -> int, extent: int -> int, from: int, start: int, next: int, u: int, offset: int,
                  given: array<IoRun>, n0: nat)
    returns (runs: array<IoRun>, n: nat, used: int, stop: bool)
    requires Layout(lcnAt, extent) && lcnAt(start) != UNUSED_LCN && 0 < next <= extent(start) && 0 < u &&
               n0 <= given.Length
    requires given.Length == MAX_PARALLEL_IOS || given.Length == u + MAX_PARALLEL_IOS - 1
    requires Planned(given[..n0], lcnAt, from, start) && Slots(given[..n0], start, u) && offset == |Moved(given[..n0])|
    modifies given
    ensures runs == given || fresh(runs)
    ensures n <= runs.Length && (runs.Length == MAX_PARALLEL_IOS || runs.Length == u + MAX_PARALLEL_IOS - 1)
    ensures 0 <= used <= next && (used == next || stop) && (used == 0 ==> 0 < n0)
    ensures Placed(runs[..n], lcnAt, from, start, used, stop, offset, u)
    ensures stop ==> BreaksOff(runs[..n], start, next, used, u)
  {
    hide Layout, Unit, Planned, Slots, Placed, Usable, Moved, BreaksOff;
    ghost var rs := given[..n0];
    runs, n := given, n0;
    var lastEnd := if n == 0 then 0 else runs[n - 1].vbo + runs[n - 1].count;
    used, stop := Usable(n, lastEnd, start, next, u).0, Usable(n, lastEnd, start, next, u).1;
    if n != 0 && lcnAt(start) == runs[n - 1].lbo + runs[n - 1].count {
      PlacedExtended(rs, lcnAt, extent, from, start, next, u);
      if used != 0 {
        runs[n - 1] := runs[n - 1].(count := runs[n - 1].count + used);
        assert runs[..n] == Extended(rs, used);
      }
    } else {
      PlacedNew(rs, lcnAt, extent, from, start, next, u);
      RoomLeft(rs, start, u, runs.Length);
      runs := Grow(runs, n, u);
      runs[n] := IoRun(start, lcnAt(start), offset, next);
      if n + 1 < runs.Length {
        runs[n + 1] := runs[n + 1].(count := 0);
      }
      assert runs[..n] == rs;
      if used != 0 {
        runs[n] := runs[n].(count := used);
        n := n + 1;
        assert runs[..n] == rs + [IoRun(start, lcnAt(start), offset, used)];
      }
    }
  }

  lemma SlotsOneUnit(rs: seq<IoRun>, start: int, u: int)
    requires 0 < u && Slots(rs, start, u)
    ensures OneUnit(rs, u)
    ensures forall later | start <= later :: Slots(rs, later, u)
  {
  }

  /** Nothing planned yet. */
  lemma PlannedNothing(lcnAt: int -> int, from: int, u: int)
    requires 0 < u
    ensures Planned([], lcnAt, from, from) && Slots([], from, u)
  {
  }

  lemma MonusAgain(wanted: int, a: int, b: int, clusterSize: nat)
    requires 0 <= a && 0 <= b && 0 <= wanted
    ensures Monus(Monus(wanted, a * clusterSize), b * clusterSize) == Monus(wanted, (a + b) * clusterSize)
  {
    assert a * clusterSize + b * clusterSize == (a + b) * clusterSize;
    assert 0 <= a * clusterSize && 0 <= b * clusterSize;
  }

  /** A read that ends before `limit` breaks off before a cluster of another unit than its last one, or at the
      last unit boundary of a run. */
  ghost predicate EndsEarly(rs: seq<IoRun>, lcnAt: int -> int, extent: int -> int, end: int, limit: int, u: int)
    requires 0 < u
  {
    && MAX_PARALLEL_IOS - 1 <= |rs|
    && ((MAX_PARALLEL_IOS <= |rs| && lcnAt(end) != UNUSED_LCN &&
         Unit(end, u) != Unit(rs[|rs| - 1].vbo + rs[|rs| - 1].count - 1, u)) ||
        CutAtBoundary(extent, end, limit, u))
  }

  ghost predicate CutAtBoundary(extent: int -> int, end: int, limit: int, u: int)
    requires 0 < u
  {
    exists s {:trigger extent(s)} :: s < end == u * Unit(if s + extent(s) < limit then s + extent(s) else limit, u)
  }

  lemma BrokenOff(rs: seq<IoRun>, lcnAt: int -> int, extent: int -> int, start: int, next: int, used: int, limit: int,
                  u: int)
    requires 0 < u && lcnAt(start) != UNUSED_LCN && BreaksOff(rs, start, next, used, u) && 0 <= used
    requires start + next == if start + extent(start) < limit then start + extent(start) else limit
    ensures EndsEarly(rs, lcnAt, extent, start + used, limit, u)
  {
    hide Unit;
  }

  /** The compressed read: the runs of `[from, end)`, where `end` is as far as they go.  `returned` is
      what is left of the caller's byte count. */
  method PlanRead(lcnAt: int -> int, extent: int -> int, from: int, total: nat, u: int, default: array<IoRun>,
                  wanted: nat, clusterSize: nat)
    returns (runs: array<IoRun>, n: nat, end: int, returned: int)
    requires Layout(lcnAt, extent) && 0 < u &&
               (default.Length == MAX_PARALLEL_IOS || default.Length == u + MAX_PARALLEL_IOS - 1)
    modifies default
    ensures n <= runs.Length && n <= u + MAX_PARALLEL_IOS - 1 && (runs == default || fresh(runs))
    ensures from <= end <= from + total && (0 < total ==> from < end)
    ensures end < from + total ==> EndsEarly(runs[..n], lcnAt, extent, end, from + total, u)
    ensures Planned(runs[..n], lcnAt, from, end) && OneUnit(runs[..n], u)
    ensures returned == Monus(wanted, (end - from) * clusterSize)
  {
    hide Layout, Unit, Planned, Slots, OneUnit, Moved, Monus, Placed, BreaksOff, EndsEarly;
    runs, n := default, 0;
    var start, left, offset := from, total as int, 0;
    returned := wanted;
    runs[0] := runs[0].(count := 0);
    PlannedNothing(lcnAt, from, u);
    MovedNothing();
    MonusZero(wanted, clusterSize);
    while left != 0
      invariant runs == default || fresh(runs)
      invariant n <= runs.Length && (runs.Length == MAX_PARALLEL_IOS || runs.Length == u + MAX_PARALLEL_IOS - 1)
      invariant from <= start && 0 <= left && start + left == from + total && (n == 0 || from < start)
      invariant Planned(runs[..n], lcnAt, from, start) && offset == |Moved(runs[..n])| && Slots(runs[..n], start, u)
      invariant returned == Monus(wanted, (start - from) * clusterSize)
      decreases left
    {
      LayoutExtent(lcnAt, extent, start);
      SlotsOneUnit(runs[..n], start, u);
      var next, stop := if extent(start) >= left then left else extent(start), false;
      if lcnAt(start) != UNUSED_LCN {
        ghost var whole := next;
        runs, n, next, stop := PlaceRun(lcnAt, extent, from, start, next, u, offset, runs, n);
        if stop {
          BrokenOff(runs[..n], lcnAt, extent, start, whole, next, from + total, u);
        }
        PlacedMeans(runs[..n], lcnAt, from, start, next, stop, offset, u);
        offset := offset + next;
      } else {
        PlannedHole(runs[..n], lcnAt, extent, from, start, next);
      }
      MonusAgain(wanted, start - from, next, clusterSize);
      returned := Monus(returned, next * clusterSize);
      start, left := start + next, left - next;
      if stop {
        return runs, n, start, returned;
      }
    }
    SlotsOneUnit(runs[..n], start, u);
    end := start;
  }

  lemma PlacedMeans(rs: seq<IoRun>, lcnAt: int -> int, from: int, start: int, used: int, stop: bool, offset: int,
                    u: int)
    requires 0 < u && Placed(rs, lcnAt, from, start, used, stop, offset, u)
    ensures Planned(rs, lcnAt, from, start + used) && |Moved(rs)| == offset + used
    ensures OneUnit(rs, u) && (!stop ==> Slots(rs, start + used, u))
  {
  }

  lemma MovedNothing()
    ensures Moved([]) == []
  {
  }

  lemma MonusZero(wanted: nat, clusterSize: nat)
    ensures Monus(wanted, 0 * clusterSize) == wanted
  {
  }

  lemma LayoutExtent(lcnAt: int -> int, extent: int -> int, v: int)
    requires Layout(lcnAt, extent)
    ensures 1 <= extent(v)
  {
  }

  // ---------- compressed writes ----------

  ghost predicate Allocated(lcnAt: int -> int, base: int, count: int) {
    forall w | base <= w < base + count :: lcnAt(w) != UNUSED_LCN
  }

  /** Where units of a stream go on disk: the first `compressed(k)` clusters of each unit. */
  function Stored(lcnAt: int -> int, compressed: int -> int, u: int, a: int, b: int): seq<int>
    decreases b - a
  {
    if b <= a then []
    else Stored(lcnAt, compressed, u, a, b - 1) + Present(lcnAt, (b - 1) * u, (b - 1) * u + compressed(b - 1))
  }

  /** The transfers move what was planned before, and the clusters of `[base, at)`. */
  ghost predicate Storing(rs: seq<IoRun>, done: seq<int>, lcnAt: int -> int, base: int, at: int) {
    Packed(rs) && base <= at && Moved(rs) == done + Present(lcnAt, base, at)
  }

  lemma StoringNew(rs: seq<IoRun>, done: seq<int>, lcnAt: int -> int, extent: int -> int, base: int, at: int,
                   count: int)
    requires Layout(lcnAt, extent) && Storing(rs, done, lcnAt, base, at) && lcnAt(at) != UNUSED_LCN &&
               0 < count <= extent(at)
    ensures Storing(rs + [IoRun(at, lcnAt(at), |Moved(rs)|, count)], done, lcnAt, base, at + count)
    ensures |Moved(rs + [IoRun(at, lcnAt(at), |Moved(rs)|, count)])| == |Moved(rs)| + count
  {
    hide Layout, Present, Clusters, Moved, Packed;
    PresentMore(lcnAt, extent, base, at, count);
    MovedSnoc(rs, IoRun(at, lcnAt(at), |Moved(rs)|, count));
    var p, c := Present(lcnAt, base, at), Clusters(lcnAt(at), count);
    assert done + p + c == done + (p + c);
  }

  lemma StoringExtend(rs: seq<IoRun>, done: seq<int>, lcnAt: int -> int, extent: int -> int, base: int, at: int,
                      count: int)
    requires Layout(lcnAt, extent) && Storing(rs, done, lcnAt, base, at) && lcnAt(at) != UNUSED_LCN &&
               0 < count <= extent(at)
    requires rs != [] && lcnAt(at) == rs[|rs| - 1].lbo + rs[|rs| - 1].count
    ensures Storing(Extended(rs, count), done, lcnAt, base, at + count)
    ensures |Moved(Extended(rs, count))| == |Moved(rs)| + count
  {
    hide Layout, Present, Clusters, Moved, Packed, Extended;
    PresentMore(lcnAt, extent, base, at, count);
    MovedExtended(rs, count);
    var p, c := Present(lcnAt, base, at), Clusters(lcnAt(at), count);
    assert done + p + c == done + (p + c);
  }

  /** The transfers of a unit so far: those of `given` start where they did, new ones start on a cluster of the
      unit and go as far behind `offset` as it lies behind the unit's first, and none could be merged. */
  ghost predicate Seating(rs: seq<IoRun>, given: seq<IoRun>, lcnAt: int -> int, base: int, at: int, offset: int) {
    && |given| <= |rs| && Apart(rs)
    && (forall i | 0 <= i < |given| :: rs[i] == given[i].(count := rs[i].count))
    && forall i | |given| <= i < |rs| :: Sits(rs[i], lcnAt, base, offset + (rs[i].vbo - base)) && rs[i].vbo < at
  }

  lemma SeatingMore(rs: seq<IoRun>, given: seq<IoRun>, lcnAt: int -> int, base: int, at: int, offset: int, count: int)
    requires Seating(rs, given, lcnAt, base, at, offset) && base <= at && 0 < count && lcnAt(at) != UNUSED_LCN
    ensures rs != [] && lcnAt(at) == rs[|rs| - 1].lbo + rs[|rs| - 1].count ==>
              Seating(Extended(rs, count), given, lcnAt, base, at + count, offset)
    ensures rs == [] || lcnAt(at) != rs[|rs| - 1].lbo + rs[|rs| - 1].count ==>
              Seating(rs + [IoRun(at, lcnAt(at), offset + (at - base), count)], given, lcnAt, base, at + count, offset)
  {
    ApartMore(rs, IoRun(at, lcnAt(at), offset + (at - base), count), count);
    hide Apart;
  }

  lemma AllocatedAt(lcnAt: int -> int, base: int, count: int, w: int)
    requires Allocated(lcnAt, base, count) && base <= w < base + count
    ensures lcnAt(w) != UNUSED_LCN
  {
  }

  /** The transfers of a write of whole units: each starts on a cluster its unit's data took, and goes behind the
      clusters of the units before and those before it in its own. */
  ghost predicate SeatedInUnits(rs: seq<IoRun>, lcnAt: int -> int, compressed: int -> int, u: int, first: int, end: int)
    requires 0 < u
  {
    forall i | 0 <= i < |rs| ::
      var k := Unit(rs[i].vbo, u);
      && first <= k < end && rs[i].vbo < k * u + compressed(k)
      && Sits(rs[i], lcnAt, k * u, |Stored(lcnAt, compressed, u, first, k)| + (rs[i].vbo - k * u))
  }

  /** One more unit. */
  lemma SeatedMore(rs: seq<IoRun>, given: seq<IoRun>, lcnAt: int -> int, compressed: int -> int, u: int, first: int,
                   end: int)
    requires 0 < u && first <= end && 0 <= compressed(end) <= u
    requires SeatedInUnits(given, lcnAt, compressed, u, first, end)
    requires Seating(rs, given, lcnAt, end * u, end * u + compressed(end), |Stored(lcnAt, compressed, u, first, end)|)
    ensures SeatedInUnits(rs, lcnAt, compressed, u, first, end + 1) && Apart(rs)
  {
    hide Unit, Stored, Apart;
    forall i | 0 <= i < |rs|
      ensures var k := Unit(rs[i].vbo, u);
              && first <= k < end + 1 && rs[i].vbo < k * u + compressed(k)
              && Sits(rs[i], lcnAt, k * u, |Stored(lcnAt, compressed, u, first, k)| + (rs[i].vbo - k * u))
    {
      if i < |given| {
        assert rs[i] == given[i].(count := rs[i].count);
      } else {
        InUnit(rs[i].vbo, end, u);
      }
    }
  }

  lemma InUnit(v: int, k: int, u: int)
    requires 0 < u && k * u <= v < k * u + u
    ensures Unit(v, u) == k
  {
    var q := v / u;
    assert v == u * q + v % u;
    assert q < k ==> u * (q + 1) <= u * k;
    assert k < q ==> u * (k + 1) <= u * q;
  }

  /** Whether a run goes on where the last transfer ends on disk. */
  ghost predicate Merges(rs: seq<IoRun>, lcn: int) {
    rs != [] && lcn == rs[|rs| - 1].lbo + rs[|rs| - 1].count
  }

  /** A run of a write is merged or gets the next slot. */
  method Append(given: array<IoRun>, n0: nat, u: int, r: IoRun) returns (runs: array<IoRun>, n: nat)
    requires 0 < u && n0 <= given.Length && (n0 == MAX_PARALLEL_IOS == given.Length ==> 1 < u)
    requires (given.Length == MAX_PARALLEL_IOS || given.Length == u + MAX_PARALLEL_IOS - 1)
    requires n0 < u + MAX_PARALLEL_IOS - 1
    modifies given
    ensures runs == given || fresh(runs)
    ensures n <= runs.Length && (runs.Length == MAX_PARALLEL_IOS || runs.Length == u + MAX_PARALLEL_IOS - 1)
    ensures if Merges(old(given[..n0]), r.lbo) then n == n0 && runs[..n] == Extended(old(given[..n0]), r.count)
            else n == n0 + 1 && runs[..n] == old(given[..n0]) + [r]
  {
    hide Extended;
    ghost var rs := given[..n0];
    runs, n := given, n0;
    if n != 0 && r.lbo == runs[n - 1].lbo + runs[n - 1].count {
      runs[n - 1] := runs[n - 1].(count := runs[n - 1].count + r.count);
      ExtendedIs(rs, runs[..n], r.count);
    } else {
      runs := Grow(runs, n, u);
      runs[n] := r;
      n := n + 1;
      assert runs[..n] == rs + [r];
    }
  }

  /** The runs of one compressed unit. */
  method PlanUnit(lcnAt: int -> int, extent: int -> int, base: int, count: int, u: int, offset0: int,
                  given: array<IoRun>, n0: nat)
    returns (runs: array<IoRun>, n: nat, offset: int)
    requires Layout(lcnAt, extent) && 0 <= count <= u && 0 < u && Allocated(lcnAt, base, count)
    requires n0 <= MAX_PARALLEL_IOS - 1 &&
               (given.Length == MAX_PARALLEL_IOS || given.Length == u + MAX_PARALLEL_IOS - 1)
    requires Packed(given[..n0]) && Apart(given[..n0]) && offset0 == |Moved(given[..n0])|
    modifies given
    ensures runs == given || fresh(runs)
    ensures n <= runs.Length && (runs.Length == MAX_PARALLEL_IOS || runs.Length == u + MAX_PARALLEL_IOS - 1)
    ensures n <= n0 + count
    ensures Storing(runs[..n], Moved(old(given[..n0])), lcnAt, base, base + count) && offset == |Moved(runs[..n])|
    ensures offset == offset0 + count
    ensures Seating(runs[..n], old(given[..n0]), lcnAt, base, base + count, offset0)
  {
    hide Layout, Storing, Moved, Packed, Seating, Apart, Allocated, Extended;
    ghost var done := Moved(given[..n0]);
    runs, n, offset := given, n0, offset0;
    var at, left := base, count;
    StoringNothing(runs[..n], lcnAt, base);
    SeatingNothing(runs[..n], lcnAt, base, offset0);
    while left != 0
      invariant runs == given || fresh(runs)
      invariant n <= runs.Length && (runs.Length == MAX_PARALLEL_IOS || runs.Length == u + MAX_PARALLEL_IOS - 1)
      invariant 0 <= left && base <= at && at + left == base + count && n <= n0 + (at - base) &&
                  offset == offset0 + (at - base)
      invariant Storing(runs[..n], done, lcnAt, base, at) && offset == |Moved(runs[..n])|
      invariant Seating(runs[..n], old(given[..n0]), lcnAt, base, at, offset0)
      decreases left
    {
      LayoutExtent(lcnAt, extent, at);
      AllocatedAt(lcnAt, base, count, at);
      ghost var rs := runs[..n];
      var next := if extent(at) >= left then left else extent(at);
      SeatingMore(rs, old(given[..n0]), lcnAt, base, at, offset0, next);
      if Merges(rs, lcnAt(at)) {
        StoringExtend(rs, done, lcnAt, extent, base, at, next);
      } else {
        StoringNew(rs, done, lcnAt, extent, base, at, next);
      }
      runs, n := Append(runs, n, u, IoRun(at, lcnAt(at), offset, next));
      offset, at, left := offset + next, at + next, left - next;
    }
  }

  lemma ExtendedIs(rs: seq<IoRun>, t: seq<IoRun>, count: int)
    requires |t| == |rs| > 0 && t[..|t| - 1] == rs[..|rs| - 1]
    requires t[|t| - 1] == rs[|rs| - 1].(count := rs[|rs| - 1].count + count)
    ensures t == Extended(rs, count)
  {
    assert t == t[..|t| - 1] + [t[|t| - 1]];
  }

  lemma SeatingNothing(rs: seq<IoRun>, lcnAt: int -> int, base: int, offset: int)
    requires Apart(rs)
    ensures Seating(rs, rs, lcnAt, base, base, offset)
  {
  }

  lemma StoringNothing(rs: seq<IoRun>, lcnAt: int -> int, base: int)
    requires Packed(rs)
    ensures Storing(rs, Moved(rs), lcnAt, base, base)
  {
    assert Moved(rs) + [] == Moved(rs);
  }

  lemma StoringDone(rs: seq<IoRun>, lcnAt: int -> int, compressed: int -> int, u: int, a: int, b: int)
    requires a <= b && Storing(rs, Stored(lcnAt, compressed, u, a, b), lcnAt, b * u, b * u + compressed(b))
    ensures Packed(rs) && Moved(rs) == Stored(lcnAt, compressed, u, a, b + 1)
  {
  }

  /** The compressed write: the units `[first, end)`, each with the clusters its data took.  `lcnAt` is
      the map as it stands when a unit is planned, after its allocation was adjusted.  It stops before a
      unit for which there might be no slots, or no room in the buffer. */
  method PlanWrite(lcnAt: int -> int, extent: int -> int, compressed: int -> int, first: int, byteCount: nat,
                   unitBytes: nat, fileSize: int, compressedSize: nat, compressedStream: bool, u: int,
                   default: array<IoRun>)
    returns (runs: array<IoRun>, n: nat, end: int, left: int)
    requires Layout(lcnAt, extent) && 0 < u &&
               (default.Length == MAX_PARALLEL_IOS || default.Length == u + MAX_PARALLEL_IOS - 1)
    requires 0 < unitBytes && forall k :: 0 <= compressed(k) <= u && Allocated(lcnAt, k * u, compressed(k))
    modifies default
    ensures n <= runs.Length && n <= u + MAX_PARALLEL_IOS - 1 && (runs == default || fresh(runs))
    ensures first <= end && Packed(runs[..n]) && Moved(runs[..n]) == Stored(lcnAt, compressed, u, first, end)
    ensures SeatedInUnits(runs[..n], lcnAt, compressed, u, first, end) && Apart(runs[..n])
    ensures !compressedStream ==> |Moved(runs[..n])| <= compressedSize
    ensures left == Monus(byteCount, (end - first) * unitBytes) || (left == 0 && fileSize <= end * unitBytes)
    ensures left != 0 ==> MAX_PARALLEL_IOS <= n || (!compressedStream && compressedSize < |Moved(runs[..n])| + u)
    ensures first < end ==> (end - 1) * unitBytes < fileSize && 0 < Monus(byteCount, (end - 1 - first) * unitBytes)
  {
    hide Layout, Storing, Moved, Packed, Stored, Monus, Allocated, Seating, SeatedInUnits, Apart;
    runs, n, end, left := default, 0, first, byteCount;
    var offset, compressedOffset := 0, 0;
    StoredNothing(lcnAt, compressed, u, first);
    NothingSeated(lcnAt, compressed, u, first);
    MonusZero(byteCount, unitBytes);
    while left != 0 && n <= MAX_PARALLEL_IOS - 1 && (compressedOffset + u <= compressedSize || compressedStream)
      invariant runs == default || fresh(runs)
      invariant n <= runs.Length && (runs.Length == MAX_PARALLEL_IOS || runs.Length == u + MAX_PARALLEL_IOS - 1)
      invariant first <= end && 0 <= left == Monus(byteCount, (end - first) * unitBytes)
      invariant compressedOffset == offset && (!compressedStream ==> offset <= compressedSize)
      invariant Packed(runs[..n]) && offset == |Moved(runs[..n])| &&
                  Moved(runs[..n]) == Stored(lcnAt, compressed, u, first, end)
      invariant SeatedInUnits(runs[..n], lcnAt, compressed, u, first, end) && Apart(runs[..n])
      invariant first < end ==> (end - 1) * unitBytes < fileSize && 0 < Monus(byteCount, (end - 1 - first) * unitBytes)
      decreases left
    {
      if fileSize - end * unitBytes <= 0 {
        left := 0;
        break;
      }
      ghost var given := runs[..n];
      var count := compressed(end);
      compressedOffset := compressedOffset + count;
      runs, n, offset := PlanUnit(lcnAt, extent, end * u, count, u, offset, runs, n);
      StoringDone(runs[..n], lcnAt, compressed, u, first, end);
      SeatedMore(runs[..n], given, lcnAt, compressed, u, first, end);
      MonusAgain(byteCount, end - first, 1, unitBytes);
      left := Less(left, unitBytes);
      end := end + 1;
    }
  }

  /** One unit less to write. */
  function Less(left: int, unitBytes: nat): (r: int)
    requires 0 < left && 0 < unitBytes
    ensures 0 <= r < left && r == Monus(left, 1 * unitBytes)
  {
    if left > unitBytes then left - unitBytes else 0
  }

  lemma NothingSeated(lcnAt: int -> int, compressed: int -> int, u: int, first: int)
    requires 0 < u
    ensures SeatedInUnits([], lcnAt, compressed, u, first, first) && Apart([])
  {
  }

  lemma StoredNothing(lcnAt: int -> int, compressed: int -> int, u: int, first: int)
    ensures Moved([]) == Stored(lcnAt, compressed, u, first, first) == [] && Packed([])
  {
  }
}
