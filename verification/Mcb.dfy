/**
 * Map control blocks: the run lists that map virtual to logical clusters.  A LARGE_MCB is an
 * ascending list of disjoint runs; an NTFS_MCB adds the end of the loaded range, past which a
 * lookup misses instead of reporting a hole.
 */
module Mcb {

  /** The LCN of a cluster that is not mapped. */
  const UNUSED_LCN: int := -1

  datatype Run = Run(vcn: int, lcn: int, count: int) {
    function End(): int { vcn + count }
    predicate Covers(v: int) { vcn <= v < vcn + count }
  }

  /** What a lookup reports: a run or a hole with the clusters left in it, or nothing. */
  datatype Found = Hit(lcn: int, count: int) | Miss

  /** Runs are real, non-empty, ascending and disjoint, and start at or after `floor`. */
  ghost predicate Ordered(m: seq<Run>, floor: int) {
    m != [] ==> floor <= m[0].vcn && 0 <= m[0].lcn && 0 < m[0].count && Ordered(m[1..], m[0].End())
  }

  ghost predicate Valid(m: seq<Run>) { Ordered(m, 0) }

  /** The LCN mapped at `v`. */
  function At(m: seq<Run>, v: int): int {
    if m == [] then UNUSED_LCN
    else if m[0].Covers(v) then m[0].lcn + (v - m[0].vcn)
    else At(m[1..], v)
  }

  predicate Mapped(m: seq<Run>, v: int) { At(m, v) != UNUSED_LCN }

  lemma {:induction false} OrderedWeaken(m: seq<Run>, floor: int, floor': int)
    requires Ordered(m, floor) && floor' <= floor
    ensures Ordered(m, floor')
  {
  }

  lemma {:induction false} AtBelow(m: seq<Run>, floor: int, v: int)
    requires Ordered(m, floor) && v < floor
    ensures At(m, v) == UNUSED_LCN
  {
    if m != [] {
      AtBelow(m[1..], m[0].End(), v);
    }
  }

  lemma {:induction false} AtRange(m: seq<Run>, floor: int, v: int)
    requires Ordered(m, floor)
    ensures Mapped(m, v) ==> floor <= v && 0 <= At(m, v)
  {
    if m != [] && !m[0].Covers(v) {
      AtRange(m[1..], m[0].End(), v);
    }
  }

  /** Every run of the list is what `At` reads. */
  lemma {:induction false} AtRun(m: seq<Run>, floor: int, i: nat)
    requires Ordered(m, floor) && i < |m|
    ensures floor <= m[i].vcn && 0 <= m[i].lcn && 0 < m[i].count
    ensures forall v | m[i].Covers(v) :: At(m, v) == m[i].lcn + (v - m[i].vcn)
  {
    if i > 0 {
      AtRun(m[1..], m[0].End(), i - 1);
      assert m[1..][i - 1] == m[i];
    }
  }

  /** FsRtlLookupLargeMcbEntry: the run or hole at `v`, or a miss past the last run. */
  function Lookup(m: seq<Run>, v: int): (r: Found) {
    if m == [] then Miss
    else if v < m[0].vcn then Hit(UNUSED_LCN, m[0].vcn - v)
    else if v < m[0].End() then Hit(m[0].lcn + (v - m[0].vcn), m[0].End() - v)
    else Lookup(m[1..], v)
  }

  /** What a lookup says about the map from `v` on. */
  ghost predicate Describes(m: seq<Run>, v: int, r: Found) {
    match r
    case Hit(lcn, count) =>
      && 0 < count
      && (lcn == UNUSED_LCN || 0 <= lcn)
      && (forall k | v <= k < v + count :: At(m, k) == if lcn == UNUSED_LCN then UNUSED_LCN else lcn + (k - v))
      && (lcn == UNUSED_LCN ==> Mapped(m, v + count))
    case Miss => forall k | v <= k :: At(m, k) == UNUSED_LCN
  }

  lemma {:induction false} LookupDescribes(m: seq<Run>, floor: int, v: int)
    requires Ordered(m, floor)
    ensures Describes(m, v, Lookup(m, v))
  {
    if m == [] {
    } else if v < m[0].vcn {
      forall k | v <= k < m[0].vcn ensures At(m, k) == UNUSED_LCN {
        AtBelow(m[1..], m[0].End(), k);
      }
    } else if v >= m[0].End() {
      LookupDescribes(m[1..], m[0].End(), v);
      assert forall k | v <= k :: At(m, k) == At(m[1..], k);
    }
  }

  /** No cluster of `[vcn, vcn + count)` is mapped. */
  ghost predicate Hole(m: seq<Run>, vcn: int, count: int) {
    forall v | vcn <= v < vcn + count :: At(m, v) == UNUSED_LCN
  }

  /** Some run of the list meets the range. */
  predicate Overlaps(m: seq<Run>, vcn: int, count: int) {
    m != [] && ((m[0].vcn < vcn + count && vcn < m[0].End()) || Overlaps(m[1..], vcn, count))
  }

  lemma {:induction false} OverlapsMeans(m: seq<Run>, floor: int, vcn: int, count: int)
    requires Ordered(m, floor) && 0 < count
    ensures Overlaps(m, vcn, count) <==> !Hole(m, vcn, count)
  {
    if m != [] {
      OverlapsMeans(m[1..], m[0].End(), vcn, count);
      if m[0].vcn < vcn + count && vcn < m[0].End() {
        assert Mapped(m, if vcn <= m[0].vcn then m[0].vcn else vcn);
      } else {
        forall v | vcn <= v < vcn + count ensures At(m, v) == At(m[1..], v) {
        }
      }
    }
  }

  /** `b` continues `a` in both cluster spaces. */
  predicate Joins(a: Run, b: Run) { a.End() == b.vcn && a.lcn + a.count == b.lcn }

  function Join(a: Run, b: Run): Run { Run(a.vcn, a.lcn, a.count + b.count) }

  /** FsRtlAddLargeMcbEntry into a hole: the run takes its place in order and merges with
      neighbours it continues. */
  function Add(m: seq<Run>, r: Run): seq<Run> {
    if m == [] then [r]
    else if m[0].End() <= r.vcn then
      if Joins(m[0], r) then Add(m[1..], Join(m[0], r)) else [m[0]] + Add(m[1..], r)
    else if Joins(r, m[0]) then [Join(r, m[0])] + m[1..]
    else [r] + m
  }

  /** A hole in front of a run that starts below its end leaves the run wholly behind it. */
  lemma HoleBeforeFirst(m: seq<Run>, floor: int, r: Run)
    requires Ordered(m, floor) && m != [] && 0 < r.count && Hole(m, r.vcn, r.count)
    ensures m[0].End() <= r.vcn || r.End() <= m[0].vcn
  {
    if m[0].End() > r.vcn && r.End() > m[0].vcn {
      assert At(m, if r.vcn <= m[0].vcn then m[0].vcn else r.vcn) != UNUSED_LCN;
      assert false;
    }
  }

  lemma {:induction false} AddOrdered(m: seq<Run>, floor: int, r: Run)
    requires Ordered(m, floor) && floor <= r.vcn && 0 <= r.lcn && 0 < r.count
    requires Hole(m, r.vcn, r.count)
    ensures Ordered(Add(m, r), floor)
  {
    if m != [] {
      HoleBeforeFirst(m, floor, r);
      if m[0].End() <= r.vcn {
        HoleInTail(m, r);
        if Joins(m[0], r) {
          forall v | m[0].vcn <= v < m[0].End() ensures At(m[1..], v) == UNUSED_LCN {
            AtBelow(m[1..], m[0].End(), v);
          }
          OrderedWeaken(m[1..], m[0].End(), floor);
          AddOrdered(m[1..], floor, Join(m[0], r));
        } else {
          AddOrdered(m[1..], m[0].End(), r);
        }
      }
    }
  }

  lemma HoleInTail(m: seq<Run>, r: Run)
    requires m != [] && m[0].End() <= r.vcn && Hole(m, r.vcn, r.count)
    ensures Hole(m[1..], r.vcn, r.count)
  {
    forall v | r.vcn <= v < r.vcn + r.count ensures At(m[1..], v) == UNUSED_LCN {
      assert At(m, v) == At(m[1..], v);
    }
  }

  /** Adding a run to a hole maps the hole and nothing else. */
  lemma {:induction false} AddAt(m: seq<Run>, floor: int, r: Run, v: int)
    requires Ordered(m, floor) && floor <= r.vcn && 0 <= r.lcn && 0 < r.count
    requires Hole(m, r.vcn, r.count)
    ensures At(Add(m, r), v) == if r.Covers(v) then r.lcn + (v - r.vcn) else At(m, v)
  {
    if m != [] {
      HoleBeforeFirst(m, floor, r);
      if m[0].End() <= r.vcn {
        HoleInTail(m, r);
        if Joins(m[0], r) {
          forall u | m[0].vcn <= u < m[0].End() ensures At(m[1..], u) == UNUSED_LCN {
            AtBelow(m[1..], m[0].End(), u);
          }
          OrderedWeaken(m[1..], m[0].End(), floor);
          AddAt(m[1..], floor, Join(m[0], r), v);
        } else {
          AddAt(m[1..], m[0].End(), r, v);
        }
      }
    }
  }

  /** The part of a run outside `[vcn, vcn + count)`. */
  function Pieces(r: Run, vcn: int, count: int): seq<Run> {
    if r.End() <= vcn || vcn + count <= r.vcn then [r]
    else
      (if r.vcn < vcn then [Run(r.vcn, r.lcn, vcn - r.vcn)] else []) +
      (if vcn + count < r.End()
       then [Run(vcn + count, r.lcn + (vcn + count - r.vcn), r.End() - (vcn + count))] else [])
  }

  /** FsRtlRemoveLargeMcbEntry: the range becomes a hole. */
  function Remove(m: seq<Run>, vcn: int, count: int): seq<Run> {
    if m == [] then [] else Pieces(m[0], vcn, count) + Remove(m[1..], vcn, count)
  }

  /** Prefixing up to two ordered runs. */
  lemma OrderedPrefix(p: seq<Run>, t: seq<Run>, floor: int, mid: int)
    requires |p| <= 2 && Ordered(p, floor) && Ordered(t, mid) && floor <= mid
    requires p != [] ==> p[|p| - 1].End() <= mid
    ensures Ordered(p + t, floor)
  {
    if p == [] {
      assert p + t == t;
      OrderedWeaken(t, mid, floor);
    } else if |p| == 1 {
      assert (p + t)[1..] == t;
      OrderedWeaken(t, mid, p[0].End());
    } else {
      assert (p + t)[1..] == [p[1]] + t && ([p[1]] + t)[1..] == t;
      OrderedWeaken(t, mid, p[1].End());
    }
  }

  lemma {:induction false} RemoveOrdered(m: seq<Run>, floor: int, vcn: int, count: int)
    requires Ordered(m, floor) && 0 <= count
    ensures Ordered(Remove(m, vcn, count), floor)
  {
    if m != [] {
      RemoveOrdered(m[1..], m[0].End(), vcn, count);
      OrderedPrefix(Pieces(m[0], vcn, count), Remove(m[1..], vcn, count), floor, m[0].End());
    }
  }

  lemma {:induction false} AtConcat(p: seq<Run>, t: seq<Run>, v: int)
    requires forall i | 0 <= i < |p| :: 0 <= p[i].lcn
    ensures At(p + t, v) == if At(p, v) != UNUSED_LCN then At(p, v) else At(t, v)
  {
    if p == [] {
      assert p + t == t;
    } else {
      assert (p + t)[1..] == p[1..] + t;
      AtConcat(p[1..], t, v);
    }
  }

  /** What is left of a run maps what it mapped. */
  lemma PiecesAt(r: Run, vcn: int, count: int, v: int)
    requires 0 <= r.lcn && 0 <= count
    ensures At(Pieces(r, vcn, count), v) ==
            if r.Covers(v) && !(vcn <= v < vcn + count) then r.lcn + (v - r.vcn) else UNUSED_LCN
    ensures forall i | 0 <= i < |Pieces(r, vcn, count)| :: 0 <= Pieces(r, vcn, count)[i].lcn
  {
    var p := Pieces(r, vcn, count);
    if |p| == 2 {
      assert p == [p[0]] + [p[1]];
      AtConcat([p[0]], [p[1]], v);
    }
  }

  /** Removing a range unmaps it and nothing else. */
  lemma {:induction false} RemoveAt(m: seq<Run>, floor: int, vcn: int, count: int, v: int)
    requires Ordered(m, floor) && 0 <= count
    ensures At(Remove(m, vcn, count), v) == if vcn <= v < vcn + count then UNUSED_LCN else At(m, v)
  {
    if m != [] {
      RemoveAt(m[1..], m[0].End(), vcn, count, v);
      PiecesAt(m[0], vcn, count, v);
      AtConcat(Pieces(m[0], vcn, count), Remove(m[1..], vcn, count), v);
      if m[0].Covers(v) && vcn <= v < vcn + count {
        AtBelow(m[1..], m[0].End(), v);
      }
    }
  }
}
