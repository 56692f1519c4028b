/**
 * The allocation state of a volume as a value, the transitions the cluster allocator makes
 * on it, and the invariant they all keep.  `Allocator` runs these transitions in place.
 */
module Volume {
  import opened Bits
  import opened Mcb

  /** Streams are told apart by number; these two are special to the allocator. */
  type Scb = nat
  const MFT_SCB: Scb := 0
  const BAD_CLUSTER_SCB: Scb := 8

  const BITS_PER_PAGE: nat := 0x8000

  /** A recently deallocated list: the clusters themselves and the separate running count. */
  datatype Recent = Recent(runs: seq<Run>, count: int)

  /** What never changes on a mounted volume. */
  datatype Geometry = Geometry(total: nat, bootClusters: nat, zoneStart: nat) {
    /** The MFT zone's end before any reduction: an eighth of the volume, rounded to 32 bits. */
    function FullZoneEnd(): (r: nat)
      ensures zoneStart + total / 8 <= r < zoneStart + total / 8 + 32 && r % 32 == 0
    {
      RoundUp32(zoneStart + total / 8)
    }

    /** The conditions under which the page walks of the allocator make progress. */
    predicate Sound() {
      && zoneStart % 32 == 0
      && FullZoneEnd() <= total
      && 0 < bootClusters <= BITS_PER_PAGE && bootClusters <= total
    }
  }

  function RoundUp32(n: nat): (r: nat)
    ensures n <= r < n + 32 && r % 32 == 0
  {
    n + 31 - (n + 31) % 32
  }

  datatype State = State(
    geo: Geometry,
    bits: seq<bool>,            // the volume bitmap
    free: int,                  // Vcb->FreeClusters
    cache: seq<Run>,            // Vcb->FreeSpaceMcb
    prior: Recent, active: Recent,
    deallocated: int,           // Vcb->DeallocatedClusters
    zoneEnd: int,
    reduced: bool, reload: bool,
    hint: int,
    mcbs: map<Scb, seq<Run>>)

  /** The cluster was freed too recently to be handed out again. */
  predicate InRecent(s: State, l: int) {
    Mapped(s.prior.runs, l) || Mapped(s.active.runs, l)
  }

  /** What the searches take for free: clear, not recently freed, and outside the first 8K. */
  predicate Usable(s: State, l: int)
    requires |s.bits| == s.geo.total
  {
    s.geo.bootClusters <= l < s.geo.total && !s.bits[l] && !InRecent(s, l)
  }

  /** Every cluster of the run is usable. */
  ghost predicate UsableRun(s: State, lcn: int, n: int)
    requires |s.bits| == s.geo.total
  {
    forall l | lcn <= l < lcn + n :: Usable(s, l)
  }

  /** The list maps clusters to themselves. */
  ghost predicate Identity(m: seq<Run>) {
    forall l {:trigger At(m, l)} :: Mapped(m, l) ==> At(m, l) == l
  }

  function TotalCount(m: seq<Run>): int {
    if m == [] then 0 else m[0].count + TotalCount(m[1..])
  }

  ghost predicate RecentOk(r: Recent) {
    && Valid(r.runs) && Identity(r.runs)
    && 0 <= TotalCount(r.runs) <= r.count
  }

  /** No cluster is mapped twice, by two streams or by one. */
  ghost predicate NoCrossLinks(mcbs: map<Scb, seq<Run>>) {
    forall a, u, b, v | a in mcbs && b in mcbs && Mapped(mcbs[a], u) && At(mcbs[a], u) == At(mcbs[b], v) ::
      a == b && u == v
  }

  /** Each stream's mappings, seen one at a time. */
  ghost predicate StreamsOk(s: State)
    requires |s.bits| == s.geo.total
  {
    && (forall a | a in s.mcbs :: Valid(s.mcbs[a]))
    && (forall a, v | a in s.mcbs && Mapped(s.mcbs[a], v) ::
          0 <= At(s.mcbs[a], v) < s.geo.total && s.bits[At(s.mcbs[a], v)])
    && (forall a, v | a in s.mcbs && a != BAD_CLUSTER_SCB && Mapped(s.mcbs[a], v) ::
          !InRecent(s, At(s.mcbs[a], v)))
    && (BAD_CLUSTER_SCB in s.mcbs ==> Identity(s.mcbs[BAD_CLUSTER_SCB]))
  }

  /** The free-run cache under-approximates the truth. */
  ghost predicate CacheOk(s: State)
    requires |s.bits| == s.geo.total
  {
    forall l {:trigger At(s.cache, l)} :: Mapped(s.cache, l) ==> Usable(s, l)
  }

  /** What every operation keeps.  While `reload` is set the count and the cache are not to be trusted
      until the bitmap is scanned again. */
  ghost predicate Inv(s: State) {
    && s.geo.Sound() && |s.bits| == s.geo.total
    && Valid(s.cache) && Identity(s.cache)
    && RecentOk(s.prior) && RecentOk(s.active)
    && s.deallocated == s.prior.count + s.active.count
    && s.geo.zoneStart <= s.zoneEnd <= s.geo.total && s.zoneEnd % 32 == 0
    && 0 <= s.hint <= s.geo.total
    && StreamsOk(s) && NoCrossLinks(s.mcbs)
    && (!s.reload ==> s.free == CountClear(s.bits) && CacheOk(s))
  }

  ghost predicate BootAllocated(s: State)
    requires |s.bits| == s.geo.total
  {
    forall l | 0 <= l < s.geo.bootClusters && l < s.geo.total :: s.bits[l]
  }

  // ---------- transitions ----------

  /** A run of clusters leaves the free space and becomes part of a stream. */
  function Claim(s: State, a: Scb, vcn: int, lcn: int, n: nat): State
    requires a in s.mcbs
  {
    s.(bits := Fill(s.bits, lcn, n, true), free := s.free - n, cache := Remove(s.cache, lcn, n),
       mcbs := s.mcbs[a := Add(s.mcbs[a], Run(vcn, lcn, n))])
  }

  /** When a run may become part of a stream. */
  ghost predicate Claimable(s: State, a: Scb, vcn: int, lcn: int, n: nat) {
    && Inv(s) && a in s.mcbs && 0 <= vcn && 0 < n
    && Hole(s.mcbs[a], vcn, n) && Clear(s.bits, lcn, n)
    && if a == BAD_CLUSTER_SCB then vcn == lcn else forall l | lcn <= l < lcn + n :: !InRecent(s, l)
  }

  lemma ClaimAt(s: State, a: Scb, vcn: int, lcn: int, n: nat, v: int)
    requires Claimable(s, a, vcn, lcn, n)
    ensures At(Claim(s, a, vcn, lcn, n).mcbs[a], v) ==
            if vcn <= v < vcn + n then lcn + (v - vcn) else At(s.mcbs[a], v)
  {
    AddAt(s.mcbs[a], 0, Run(vcn, lcn, n), v);
  }

  lemma ClaimStreams(s: State, a: Scb, vcn: int, lcn: int, n: nat)
    requires Claimable(s, a, vcn, lcn, n)
    ensures StreamsOk(Claim(s, a, vcn, lcn, n))
  {
    var t := Claim(s, a, vcn, lcn, n);
    AddOrdered(s.mcbs[a], 0, Run(vcn, lcn, n));
    forall b, v | b in t.mcbs && Mapped(t.mcbs[b], v)
      ensures 0 <= At(t.mcbs[b], v) < t.geo.total && t.bits[At(t.mcbs[b], v)]
      ensures b != BAD_CLUSTER_SCB ==> !InRecent(t, At(t.mcbs[b], v))
      ensures b == BAD_CLUSTER_SCB ==> At(t.mcbs[b], v) == v
    {
      if b == a {
        ClaimAt(s, a, vcn, lcn, n, v);
      }
      assert InRecent(t, At(t.mcbs[b], v)) == InRecent(s, At(t.mcbs[b], v));
    }
  }

  lemma ClaimNoCrossLinks(s: State, a: Scb, vcn: int, lcn: int, n: nat)
    requires Claimable(s, a, vcn, lcn, n)
    ensures NoCrossLinks(Claim(s, a, vcn, lcn, n).mcbs)
  {
    var t := Claim(s, a, vcn, lcn, n);
    forall b, u, c, v | b in t.mcbs && c in t.mcbs && Mapped(t.mcbs[b], u) && At(t.mcbs[b], u) == At(t.mcbs[c], v)
      ensures b == c && u == v
    {
      ClaimAt(s, a, vcn, lcn, n, u);
      ClaimAt(s, a, vcn, lcn, n, v);
      assert Mapped(s.mcbs[b], u) ==> s.bits[At(s.mcbs[b], u)];
      assert Mapped(s.mcbs[c], v) ==> s.bits[At(s.mcbs[c], v)];
    }
  }

  /** Taking a range out of the cache. */
  lemma CacheRemove(m: seq<Run>, lcn: int, n: nat)
    requires Valid(m) && Identity(m)
    ensures Valid(Remove(m, lcn, n)) && Identity(Remove(m, lcn, n))
    ensures forall l {:trigger At(Remove(m, lcn, n), l)} ::
              At(Remove(m, lcn, n), l) == if lcn <= l < lcn + n then UNUSED_LCN else At(m, l)
  {
    RemoveOrdered(m, 0, lcn, n);
    forall l ensures At(Remove(m, lcn, n), l) == if lcn <= l < lcn + n then UNUSED_LCN else At(m, l) {
      RemoveAt(m, 0, lcn, n, l);
    }
  }

  lemma ClaimKeepsInv(s: State, a: Scb, vcn: int, lcn: int, n: nat)
    requires Claimable(s, a, vcn, lcn, n)
    ensures Inv(Claim(s, a, vcn, lcn, n))
  {
    var t := Claim(s, a, vcn, lcn, n);
    ClaimStreams(s, a, vcn, lcn, n);
    ClaimNoCrossLinks(s, a, vcn, lcn, n);
    CountClearFill(s.bits, lcn, n, true);
    CacheRemove(s.cache, lcn, n);
    if !s.reload {
      forall l | Mapped(t.cache, l) ensures Usable(t, l) {
        assert Mapped(s.cache, l);
      }
    }
  }

  /** FsRtlAddLargeMcbEntry on a recently deallocated list, whose result is not looked at: an
      overlapping run is refused, and counted all the same. */
  function Remember(r: Recent, lcn: int, n: nat): Recent {
    Recent(if Overlaps(r.runs, lcn, n) then r.runs else Add(r.runs, Run(lcn, lcn, n)), r.count + n)
  }

  /** A run of clusters leaves a stream, becomes free space, and is held back for a while. */
  function Release(s: State, a: Scb, vcn: int, lcn: int, n: nat): State
    requires a in s.mcbs
  {
    var free := s.free + n;
    var grow := s.reduced && s.geo.total / 8 < free;
    s.(active := Remember(s.active, lcn, n), deallocated := s.deallocated + n,
       bits := Fill(s.bits, lcn, n, false), free := free,
       reduced := s.reduced && !grow, zoneEnd := if grow then s.geo.FullZoneEnd() else s.zoneEnd,
       mcbs := s.mcbs[a := Remove(s.mcbs[a], vcn, n)])
  }

  /** The run is mapped by the stream, cluster by cluster. */
  ghost predicate Releasable(s: State, a: Scb, vcn: int, lcn: int, n: nat) {
    && Inv(s) && a in s.mcbs && 0 < n && 0 <= lcn
    && forall v | vcn <= v < vcn + n :: At(s.mcbs[a], v) == lcn + (v - vcn)
  }

  lemma {:induction false} TotalCountAdd(m: seq<Run>, r: Run)
    ensures TotalCount(Add(m, r)) == TotalCount(m) + r.count
  {
    if m != [] && m[0].End() <= r.vcn {
      TotalCountAdd(m[1..], if Joins(m[0], r) then Join(m[0], r) else r);
    }
  }

  /** Remembering a run adds it to the list if it was in a hole of it, and nothing else. */
  lemma RememberAt(r: Recent, lcn: int, n: nat, l: int)
    requires RecentOk(r) && 0 <= lcn && 0 < n
    ensures At(Remember(r, lcn, n).runs, l) ==
            if lcn <= l < lcn + n && Hole(r.runs, lcn, n) then l else At(r.runs, l)
  {
    OverlapsMeans(r.runs, 0, lcn, n);
    if Hole(r.runs, lcn, n) {
      AddAt(r.runs, 0, Run(lcn, lcn, n), l);
    }
  }

  lemma RememberOk(r: Recent, lcn: int, n: nat)
    requires RecentOk(r) && 0 <= lcn && 0 < n
    ensures RecentOk(Remember(r, lcn, n))
  {
    var t := Remember(r, lcn, n);
    OverlapsMeans(r.runs, 0, lcn, n);
    if Hole(r.runs, lcn, n) {
      AddOrdered(r.runs, 0, Run(lcn, lcn, n));
      TotalCountAdd(r.runs, Run(lcn, lcn, n));
    }
    forall l | Mapped(t.runs, l) ensures At(t.runs, l) == l {
      RememberAt(r, lcn, n, l);
    }
  }

  lemma ReleaseInRecent(s: State, a: Scb, vcn: int, lcn: int, n: nat, l: int)
    requires Releasable(s, a, vcn, lcn, n)
    ensures InRecent(Release(s, a, vcn, lcn, n), l) <==>
            InRecent(s, l) || (lcn <= l < lcn + n && Hole(s.active.runs, lcn, n))
  {
    RememberAt(s.active, lcn, n, l);
  }

  lemma ReleaseAt(s: State, a: Scb, vcn: int, lcn: int, n: nat, v: int)
    requires Releasable(s, a, vcn, lcn, n)
    ensures At(Release(s, a, vcn, lcn, n).mcbs[a], v) ==
            if vcn <= v < vcn + n then UNUSED_LCN else At(s.mcbs[a], v)
  {
    RemoveAt(s.mcbs[a], 0, vcn, n, v);
  }

  /** The released clusters were mapped once, and their bits were set. */
  lemma ReleasedClusters(s: State, a: Scb, vcn: int, lcn: int, n: nat)
    requires Releasable(s, a, vcn, lcn, n)
    ensures AllSet(s.bits, lcn, n)
    ensures forall b, v | b in s.mcbs && lcn <= At(s.mcbs[b], v) < lcn + n :: b == a && vcn <= v < vcn + n
    ensures a != BAD_CLUSTER_SCB ==> forall l | lcn <= l < lcn + n :: !InRecent(s, l)
  {
    forall l | lcn <= l < lcn + n
      ensures 0 <= l < s.geo.total && s.bits[l]
      ensures a != BAD_CLUSTER_SCB ==> !InRecent(s, l)
      ensures forall b, v | b in s.mcbs && At(s.mcbs[b], v) == l :: b == a && vcn <= v < vcn + n
    {
      assert At(s.mcbs[a], vcn + (l - lcn)) == l;
    }
    assert At(s.mcbs[a], vcn + n - 1) == lcn + n - 1;
  }

  lemma ReleaseStreams(s: State, a: Scb, vcn: int, lcn: int, n: nat)
    requires Releasable(s, a, vcn, lcn, n)
    ensures StreamsOk(Release(s, a, vcn, lcn, n))
  {
    var t := Release(s, a, vcn, lcn, n);
    RemoveOrdered(s.mcbs[a], 0, vcn, n);
    ReleasedClusters(s, a, vcn, lcn, n);
    forall b, v | b in t.mcbs && Mapped(t.mcbs[b], v)
      ensures 0 <= At(t.mcbs[b], v) < t.geo.total && t.bits[At(t.mcbs[b], v)]
      ensures b != BAD_CLUSTER_SCB ==> !InRecent(t, At(t.mcbs[b], v))
      ensures b == BAD_CLUSTER_SCB ==> At(t.mcbs[b], v) == v
    {
      ReleaseAt(s, a, vcn, lcn, n, v);
      assert At(t.mcbs[b], v) == At(s.mcbs[b], v);
      ReleaseInRecent(s, a, vcn, lcn, n, At(t.mcbs[b], v));
    }
  }

  lemma ReleaseNoCrossLinks(s: State, a: Scb, vcn: int, lcn: int, n: nat)
    requires Releasable(s, a, vcn, lcn, n)
    ensures NoCrossLinks(Release(s, a, vcn, lcn, n).mcbs)
  {
    var t := Release(s, a, vcn, lcn, n);
    forall b, u, c, v | b in t.mcbs && c in t.mcbs && Mapped(t.mcbs[b], u) && At(t.mcbs[b], u) == At(t.mcbs[c], v)
      ensures b == c && u == v
    {
      ReleaseAt(s, a, vcn, lcn, n, u);
      ReleaseAt(s, a, vcn, lcn, n, v);
    }
  }

  lemma ReleaseCache(s: State, a: Scb, vcn: int, lcn: int, n: nat)
    requires Releasable(s, a, vcn, lcn, n) && CacheOk(s)
    ensures CacheOk(Release(s, a, vcn, lcn, n))
  {
    var t := Release(s, a, vcn, lcn, n);
    ReleasedClusters(s, a, vcn, lcn, n);
    forall l | Mapped(t.cache, l) ensures Usable(t, l) {
      assert Usable(s, l);
      ReleaseInRecent(s, a, vcn, lcn, n, l);
    }
  }

  /** Releasing keeps the invariant. */
  lemma ReleaseKeepsInv(s: State, a: Scb, vcn: int, lcn: int, n: nat)
    requires Releasable(s, a, vcn, lcn, n)
    ensures Inv(Release(s, a, vcn, lcn, n))
  {
    ReleaseStreams(s, a, vcn, lcn, n);
    ReleaseNoCrossLinks(s, a, vcn, lcn, n);
    ReleasedClusters(s, a, vcn, lcn, n);
    RememberOk(s.active, lcn, n);
    if !s.reload {
      CountClearFill(s.bits, lcn, n, false);
      ReleaseCache(s, a, vcn, lcn, n);
    }
  }

  /** What was released may not be handed out again until a checkpoint drops it from the list. */
  lemma ReleasedAreHeldBack(s: State, a: Scb, vcn: int, lcn: int, n: nat, l: int)
    requires Releasable(s, a, vcn, lcn, n) && lcn <= l < lcn + n && a != BAD_CLUSTER_SCB
    ensures Mapped(Release(s, a, vcn, lcn, n).active.runs, l)
    ensures InRecent(Release(s, a, vcn, lcn, n), l) && !Usable(Release(s, a, vcn, lcn, n), l)
  {
    ReleasedClusters(s, a, vcn, lcn, n);
    forall k | lcn <= k < lcn + n ensures At(s.active.runs, k) == UNUSED_LCN {
      assert !InRecent(s, k);
    }
    RememberAt(s.active, lcn, n, l);
  }

  // ---------- the free-run cache ----------

  const CACHE_MAXIMUM_PAIRS := 8192
  const CACHE_TRIM_TO_PAIRS := 6144

  /** A LARGE_MCB stores a pair for each run and for each hole in front of one. */
  function PairCount(m: seq<Run>, floor: int): nat {
    if m == [] then 0 else (if floor < m[0].vcn then 2 else 1) + PairCount(m[1..], m[0].End())
  }

  /** The runs among the first `pairs` pairs. */
  function KeepPairs(m: seq<Run>, floor: int, pairs: nat): seq<Run> {
    if m == [] then []
    else
      var used := if floor < m[0].vcn then 2 else 1;
      if pairs < used then [] else [m[0]] + KeepPairs(m[1..], m[0].End(), pairs - used)
  }

  function Trim(m: seq<Run>): seq<Run> {
    if PairCount(m, 0) > CACHE_MAXIMUM_PAIRS then KeepPairs(m, 0, CACHE_TRIM_TO_PAIRS) else m
  }

  /** Trimming only forgets. */
  lemma {:induction false} KeepPairsAt(m: seq<Run>, floor: int, pairs: nat, l: int)
    requires Ordered(m, floor)
    ensures At(KeepPairs(m, floor, pairs), l) == At(m, l) || At(KeepPairs(m, floor, pairs), l) == UNUSED_LCN
  {
    if m != [] {
      var used := if floor < m[0].vcn then 2 else 1;
      if pairs >= used {
        KeepPairsAt(m[1..], m[0].End(), pairs - used, l);
      }
    }
  }

  lemma {:induction false} KeepPairsOrdered(m: seq<Run>, floor: int, pairs: nat)
    requires Ordered(m, floor)
    ensures Ordered(KeepPairs(m, floor, pairs), floor)
  {
    if m != [] {
      var used := if floor < m[0].vcn then 2 else 1;
      if pairs >= used {
        KeepPairsOrdered(m[1..], m[0].End(), pairs - used);
      }
    }
  }

  /** NtfsAddCachedRun with a free run: trim, then add, clearing the range first if it overlaps. */
  function CacheAdd(m: seq<Run>, lcn: int, n: nat): seq<Run> {
    var t := Trim(m);
    Add(if Overlaps(t, lcn, n) then Remove(t, lcn, n) else t, Run(lcn, lcn, n))
  }

  lemma TrimOk(m: seq<Run>)
    requires Valid(m) && Identity(m)
    ensures Valid(Trim(m)) && Identity(Trim(m))
  {
    KeepPairsOrdered(m, 0, CACHE_TRIM_TO_PAIRS);
    forall l | Mapped(Trim(m), l) ensures At(Trim(m), l) == l {
      KeepPairsAt(m, 0, CACHE_TRIM_TO_PAIRS, l);
    }
  }

  /** The cache after an insertion holds the new range, and otherwise nothing it did not hold. */
  lemma CacheAddAt(m: seq<Run>, lcn: int, n: nat, l: int)
    requires Valid(m) && Identity(m) && 0 <= lcn && 0 < n
    ensures lcn <= l < lcn + n ==> Mapped(CacheAdd(m, lcn, n), l)
    ensures Mapped(CacheAdd(m, lcn, n), l) ==>
              At(CacheAdd(m, lcn, n), l) == l && (lcn <= l < lcn + n || Mapped(m, l))
    ensures Valid(CacheAdd(m, lcn, n))
  {
    var t := Trim(m);
    TrimOk(m);
    OverlapsMeans(t, 0, lcn, n);
    CacheRemove(t, lcn, n);
    var u := if Overlaps(t, lcn, n) then Remove(t, lcn, n) else t;
    forall v | lcn <= v < lcn + n ensures At(u, v) == UNUSED_LCN {
    }
    AddOrdered(u, 0, Run(lcn, lcn, n));
    AddAt(u, 0, Run(lcn, lcn, n), l);
    if Mapped(u, l) {
      assert At(u, l) == At(t, l);
      KeepPairsAt(m, 0, CACHE_TRIM_TO_PAIRS, l);
    }
  }

  lemma {:induction false} KeepPairsCount(m: seq<Run>, floor: int, pairs: nat)
    ensures PairCount(KeepPairs(m, floor, pairs), floor) <= pairs && KeepPairs(m, floor, pairs) <= m
    ensures pairs < PairCount(m, floor) ==> pairs <= PairCount(KeepPairs(m, floor, pairs), floor) + 1
  {
    if m != [] {
      var used := if floor < m[0].vcn then 2 else 1;
      if pairs >= used {
        KeepPairsCount(m[1..], m[0].End(), pairs - used);
        assert m == [m[0]] + m[1..];
        assert ([m[0]] + KeepPairs(m[1..], m[0].End(), pairs - used))[1..] ==
                 KeepPairs(m[1..], m[0].End(), pairs - used);
      }
    }
  }

  /** An insertion forgets nothing unless the cache has more than 8192 pairs; then it is first cut down to as
      many of its first runs as 6144 pairs hold. */
  lemma CacheAddForgets(m: seq<Run>, lcn: int, n: nat, l: int)
    requires Valid(m) && Identity(m) && 0 <= lcn && 0 < n
    ensures PairCount(m, 0) <= 8192 && Mapped(m, l) ==> Mapped(CacheAdd(m, lcn, n), l)
    ensures PairCount(m, 0) <= 8192 ==> Trim(m) == m
    ensures 8192 < PairCount(m, 0) ==> Trim(m) <= m && 6143 <= PairCount(Trim(m), 0) <= 6144
  {
    KeepPairsCount(m, 0, CACHE_TRIM_TO_PAIRS);
    if PairCount(m, 0) <= 8192 && !(lcn <= l < lcn + n) {
      OverlapsMeans(m, 0, lcn, n);
      CacheRemove(m, lcn, n);
      var u := if Overlaps(m, lcn, n) then Remove(m, lcn, n) else m;
      forall v | lcn <= v < lcn + n ensures At(u, v) == UNUSED_LCN {
      }
      AddAt(u, 0, Run(lcn, lcn, n), l);
    } else if PairCount(m, 0) <= 8192 {
      CacheAddAt(m, lcn, n, l);
    }
  }

  lemma CacheAddOk(m: seq<Run>, lcn: int, n: nat)
    requires Valid(m) && Identity(m) && 0 <= lcn && 0 < n
    ensures Valid(CacheAdd(m, lcn, n)) && Identity(CacheAdd(m, lcn, n))
  {
    forall l ensures Mapped(CacheAdd(m, lcn, n), l) ==> At(CacheAdd(m, lcn, n), l) == l {
      CacheAddAt(m, lcn, n, l);
    }
    CacheAddAt(m, lcn, n, 0);
  }

  /** Caching a usable run keeps the cache an under-approximation. */
  lemma CacheAddKeepsOk(s: State, lcn: int, n: nat)
    requires |s.bits| == s.geo.total && Valid(s.cache) && Identity(s.cache)
    requires 0 <= lcn && 0 < n && CacheOk(s) && UsableRun(s, lcn, n)
    ensures CacheOk(s.(cache := CacheAdd(s.cache, lcn, n)))
  {
    var t := s.(cache := CacheAdd(s.cache, lcn, n));
    forall l | Mapped(t.cache, l) ensures Usable(t, l) {
      CacheAddAt(s.cache, lcn, n, l);
      assert Usable(s, l);
    }
  }

  // ---------- checkpoints ----------

  /** The part of a checkpoint that lets recently freed clusters go: the prior list is emptied;
      then the active list is emptied on a clean volume and becomes the prior list otherwise. */
  function Checkpoint(s: State, clean: bool): State {
    var s1 := if s.prior.count != 0
              then s.(deallocated := s.deallocated - s.prior.count, prior := Recent([], 0)) else s;
    if s1.active.count == 0 then s1
    else if clean then s1.(deallocated := s1.deallocated - s1.active.count, active := Recent([], 0))
    else s1.(prior := s1.active, active := s1.prior)
  }

  /** Shrinking the recently deallocated lists keeps the invariant. */
  lemma ForgetKeepsInv(s: State, t: State)
    requires Inv(s) && t == s.(prior := t.prior, active := t.active, deallocated := t.prior.count + t.active.count)
    requires RecentOk(t.prior) && RecentOk(t.active)
    requires forall l {:trigger InRecent(t, l)} :: InRecent(t, l) ==> InRecent(s, l)
    ensures Inv(t)
  {
    forall a, v | a in t.mcbs && a != BAD_CLUSTER_SCB && Mapped(t.mcbs[a], v) ensures !InRecent(t, At(t.mcbs[a], v)) {
      assert !InRecent(s, At(s.mcbs[a], v));
    }
    if !s.reload {
      forall l | Mapped(t.cache, l) ensures Usable(t, l) {
        assert Usable(s, l);
      }
    }
  }

  lemma CheckpointKeepsInv(s: State, clean: bool)
    requires Inv(s)
    ensures Inv(Checkpoint(s, clean))
    ensures forall l {:trigger InRecent(Checkpoint(s, clean), l)} ::
              InRecent(Checkpoint(s, clean), l) ==> InRecent(s, l)
  {
    assert RecentOk(Recent([], 0));
    hide StreamsOk, NoCrossLinks, CacheOk, Valid, Identity, CountClear;
    ForgetKeepsInv(s, Checkpoint(s, clean));
  }

  /** A checkpoint goes on holding back what was in the active list, unless the volume is clean, and lets go
      what was only in the prior one; then nothing is in the active list. */
  lemma CheckpointLets(s: State, clean: bool, l: int)
    requires Inv(s)
    ensures var t := Checkpoint(s, clean);
            && (InRecent(t, l) <==> !clean && Mapped(s.active.runs, l)) && !Mapped(t.active.runs, l)
            && t.deallocated == (if clean then 0 else s.active.count)
            && t == s.(prior := t.prior, active := t.active, deallocated := t.deallocated)
  {
    EmptyWhenCountIsZero(s.prior, l);
    EmptyWhenCountIsZero(s.active, l);
    assert !Mapped([], l);
  }

  /** What was in the active list of `s0`, seen after `checkpoints` of them, `clean` ones among them or not:
      it is still there before the first one, and is still held back before the second. */
  ghost predicate Held(s0: State, s: State, checkpoints: nat, clean: bool) {
    forall l {:trigger Mapped(s0.active.runs, l)} :: Mapped(s0.active.runs, l) && !clean ==>
      (checkpoints == 0 ==> Mapped(s.active.runs, l)) && (checkpoints <= 1 ==> InRecent(s, l))
  }

  /** The lists only grow. */
  ghost predicate RemembersMore(s: State, t: State) {
    t.prior == s.prior && forall l {:trigger Mapped(t.active.runs, l)} :: Mapped(s.active.runs, l) ==>
        Mapped(t.active.runs, l)
  }

  lemma HeldOn(s0: State, s: State, t: State, checkpoints: nat, clean: bool)
    requires Held(s0, s, checkpoints, clean) && RemembersMore(s, t)
    ensures Held(s0, t, checkpoints, clean)
  {
    forall l | Mapped(s0.active.runs, l) && !clean && checkpoints <= 1 ensures InRecent(t, l) {
      assert InRecent(s, l);
    }
  }

  lemma HeldOver(s0: State, s: State, checkpoints: nat, clean: bool, thisClean: bool)
    requires Inv(s) && Held(s0, s, checkpoints, clean)
    ensures Held(s0, Checkpoint(s, thisClean), checkpoints + 1, clean || thisClean)
  {
    hide Inv, Checkpoint;
    forall l | Mapped(s0.active.runs, l) && !clean && !thisClean && checkpoints == 0
      ensures InRecent(Checkpoint(s, thisClean), l)
    {
      CheckpointLets(s, thisClean, l);
    }
  }

  // ---------- counting ----------

  ghost function Interval(lo: int, n: nat): (r: set<int>)
    ensures forall l :: l in r <==> lo <= l < lo + n
    ensures |r| == n
  {
    if n == 0 then {} else Interval(lo, n - 1) + {lo + n - 1}
  }

  lemma SubsetSize(a: set<int>, b: set<int>)
    requires a <= b
    ensures |a| <= |b|
  {
    assert b == a + (b - a);
  }

  ghost function MappedWithin(m: seq<Run>, n: nat): set<int> { set l | 0 <= l < n && Mapped(m, l) }

  /** A list covers no more clusters than its runs count. */
  lemma {:induction false} MappedWithinSize(m: seq<Run>, floor: int, n: nat)
    requires Ordered(m, floor)
    ensures 0 <= TotalCount(m) && |MappedWithin(m, n)| <= TotalCount(m)
  {
    if m != [] {
      MappedWithinSize(m[1..], m[0].End(), n);
      SubsetSize(MappedWithin(m, n), Interval(m[0].vcn, m[0].count) + MappedWithin(m[1..], n));
    } else {
      assert MappedWithin(m, n) == {};
    }
  }

  /** A list whose count is zero has no runs. */
  lemma EmptyWhenCountIsZero(r: Recent, l: int)
    requires RecentOk(r)
    ensures r.count == 0 ==> !Mapped(r.runs, l)
  {
    if r.runs != [] {
      MappedWithinSize(r.runs[1..], r.runs[0].End(), 0);
    }
  }

  /** Admission suffices: while more clusters are free than are held back, one is usable. */
  lemma UsableExists(s: State)
    requires Inv(s) && BootAllocated(s) && CountClear(s.bits) > s.deallocated
    ensures exists l :: Usable(s, l)
  {
    var p, a := MappedWithin(s.prior.runs, s.geo.total), MappedWithin(s.active.runs, s.geo.total);
    MappedWithinSize(s.prior.runs, 0, s.geo.total);
    MappedWithinSize(s.active.runs, 0, s.geo.total);
    assert |p + a| <= |p| + |a|;
    UncoveredClearBit(s.bits, p + a);
    var l :| 0 <= l < |s.bits| && !s.bits[l] && l !in p + a;
    assert Usable(s, l);
  }

  // ---------- holes ----------

  /** How many of the `n` clusters from `lo` on are not mapped. */
  function HoleCount(m: seq<Run>, lo: int, n: int): (r: nat)
    ensures r <= if n < 0 then 0 else n
  {
    if n <= 0 then 0 else HoleCount(m, lo, n - 1) + if Mapped(m, lo + n - 1) then 0 else 1
  }

  lemma {:induction false} HoleCountSplit(m: seq<Run>, lo: int, k: nat, n: nat)
    requires k <= n
    ensures HoleCount(m, lo, n) == HoleCount(m, lo, k) + HoleCount(m, lo + k, n - k)
    decreases n
  {
    if k < n {
      HoleCountSplit(m, lo, k, n - 1);
    }
  }

  lemma {:induction false} HoleCountUniform(m: seq<Run>, lo: int, n: nat, mapped: bool)
    requires forall v | lo <= v < lo + n :: Mapped(m, v) == mapped
    ensures HoleCount(m, lo, n) == if mapped then 0 else n
  {
    if n > 0 {
      HoleCountUniform(m, lo, n - 1, mapped);
    }
  }

  lemma {:induction false} HoleCountZero(m: seq<Run>, lo: int, n: nat)
    requires HoleCount(m, lo, n) == 0
    ensures forall v | lo <= v < lo + n :: Mapped(m, v)
  {
    if n > 0 {
      HoleCountZero(m, lo, n - 1);
    }
  }

  lemma {:induction false} HoleCountSame(m: seq<Run>, m': seq<Run>, lo: int, n: nat)
    requires forall v | lo <= v < lo + n :: Mapped(m, v) == Mapped(m', v)
    ensures HoleCount(m, lo, n) == HoleCount(m', lo, n)
  {
    if n > 0 {
      HoleCountSame(m, m', lo, n - 1);
    }
  }

  /** A stretch of uniform clusters in front of the rest. */
  lemma HoleCountPeel(m: seq<Run>, lo: int, k: nat, n: nat, mapped: bool)
    requires k <= n && forall v | lo <= v < lo + k :: Mapped(m, v) == mapped
    ensures HoleCount(m, lo, n) == (if mapped then 0 else k) + HoleCount(m, lo + k, n - k)
  {
    HoleCountSplit(m, lo, k, n);
    HoleCountUniform(m, lo, k, mapped);
  }

  // ---------- filling the holes of a range ----------

  /** A request to map `[start, start + required)`, and up to `start + desired` if that is easy. */
  datatype Request = Request(a: Scb, start: nat, required: nat, desired: nat)

  /** Everything of the control block that an allocation leaves alone. */
  ghost predicate SameElsewhere(s0: State, s: State, a: Scb) {
    && a in s0.mcbs && a in s.mcbs && s.mcbs == s0.mcbs[a := s.mcbs[a]]
    && s.geo == s0.geo && s.prior == s0.prior && s.active == s0.active && s.deallocated == s0.deallocated
    && |s.bits| == |s0.bits| && (forall l | 0 <= l < |s0.bits| && s0.bits[l] :: s.bits[l])
  }

  /** The stream keeps every mapping it had, and gains some only in the requested range. */
  ghost predicate MapGrows(m0: seq<Run>, m: seq<Run>, q: Request) {
    && (forall v {:trigger At(m, v)} {:trigger At(m0, v)} :: Mapped(m0, v) ==> At(m, v) == At(m0, v))
    && (forall v {:trigger At(m, v)} :: Mapped(m, v) && !Mapped(m0, v) ==> q.start <= v < q.start + q.desired)
  }

  /** How many of the required clusters from `cursor` on are still holes. */
  function StillRequired(m: seq<Run>, q: Request, cursor: int): nat {
    HoleCount(m, cursor, q.start + q.required - cursor)
  }

  /** Where an allocation from state `s0` stands: everything below the cursor is mapped,
      `remaining` counts the holes from there to the desired end, the free count has dropped by
      what was mapped, and the space for what is still required is set aside. */
  ghost predicate Filling(s0: State, s: State, q: Request, cursor: nat, remaining: int) {
    && !s.reload && SameElsewhere(s0, s, q.a)
    && MapGrows(s0.mcbs[q.a], s.mcbs[q.a], q)
    && q.start <= cursor <= q.start + q.desired
    && (forall v | q.start <= v < cursor :: Mapped(s.mcbs[q.a], v))
    && remaining == HoleCount(s.mcbs[q.a], cursor, q.start + q.desired - cursor)
    && s0.free - s.free == HoleCount(s0.mcbs[q.a], q.start, q.desired) - remaining
    && (StillRequired(s.mcbs[q.a], q, cursor) > 0 ==>
          && StillRequired(s.mcbs[q.a], q, cursor) + s.deallocated <= s.free
          && s0.free - s.free == StillRequired(s0.mcbs[q.a], q, q.start) - StillRequired(s.mcbs[q.a], q, cursor))
  }

  /** The cache, the zone and the hint are not part of the picture. */
  lemma FillingIgnores(s0: State, s: State, t: State, q: Request, cursor: nat, remaining: int)
    requires Filling(s0, s, q, cursor, remaining)
    requires t == s.(cache := t.cache, zoneEnd := t.zoneEnd, reduced := t.reduced, hint := t.hint)
    ensures Filling(s0, t, q, cursor, remaining)
  {
  }

  /** Admission establishes the picture. */
  lemma FillStart(s: State, q: Request)
    requires !s.reload && q.a in s.mcbs
    requires HoleCount(s.mcbs[q.a], q.start, q.required) + s.deallocated <= s.free
    ensures Filling(s, s, q, q.start, HoleCount(s.mcbs[q.a], q.start, q.desired))
  {
  }

  /** A hole at or past the cursor, with nothing but mapped clusters in between. */
  ghost predicate NextHole(m: seq<Run>, cursor: int, vcn: int, n: int, end: int) {
    cursor <= vcn && 0 < n && vcn + n <= end && Hole(m, vcn, n) && forall v | cursor <= v < vcn :: Mapped(m, v)
  }

  /** `m'` maps what `m` maps, and the range. */
  ghost predicate Gains(m: seq<Run>, m': seq<Run>, vcn: int, n: int) {
    forall v {:trigger Mapped(m', v)} {:trigger Mapped(m, v)} :: Mapped(m', v) == (Mapped(m, v) || vcn <= v < vcn + n)
  }

  /** Filling (the front of) the next hole moves the hole count by exactly what was filled. */
  lemma FillCounts(m: seq<Run>, m': seq<Run>, cursor: nat, vcn: int, n: nat, end: int)
    requires NextHole(m, cursor, vcn, n, end)
    requires Gains(m, m', vcn, n)
    ensures HoleCount(m, cursor, end - cursor) == n + HoleCount(m', vcn + n, end - (vcn + n))
  {
    HoleCountPeel(m, cursor, vcn - cursor, end - cursor, true);
    HoleCountPeel(m, vcn, n, end - vcn, false);
    HoleCountSame(m, m', vcn + n, end - (vcn + n));
  }

  /** What is still required, after filling a hole that may reach past the required end. */
  lemma FillRequired(m: seq<Run>, m': seq<Run>, q: Request, cursor: nat, vcn: int, n: nat)
    requires NextHole(m, cursor, vcn, n, vcn + n)
    requires Gains(m, m', vcn, n)
    ensures StillRequired(m', q, vcn + n) > 0 ==>
              StillRequired(m, q, cursor) == n + StillRequired(m', q, vcn + n)
  {
    if vcn + n < q.start + q.required {
      FillCounts(m, m', cursor, vcn, n, q.start + q.required);
    }
  }

  /** A usable run may be taken for any hole. */
  lemma UsableIsClaimable(s: State, a: Scb, vcn: nat, lcn: nat, n: nat)
    requires Inv(s) && a in s.mcbs && a != BAD_CLUSTER_SCB && 0 < n
    requires Hole(s.mcbs[a], vcn, n) && UsableRun(s, lcn, n)
    ensures Claimable(s, a, vcn, lcn, n)
  {
    assert Usable(s, lcn + n - 1);
    forall l | lcn <= l < lcn + n ensures !s.bits[l] && !InRecent(s, l) {
      assert Usable(s, l);
    }
  }

  /** The stream's map across one step. */
  lemma FillStepMap(s0: State, s: State, q: Request, cursor: nat, vcn: nat, lcn: nat, n: nat)
    requires Claimable(s, q.a, vcn, lcn, n) && SameElsewhere(s0, s, q.a)
    requires MapGrows(s0.mcbs[q.a], s.mcbs[q.a], q)
    requires q.start <= cursor && NextHole(s.mcbs[q.a], cursor, vcn, n, q.start + q.desired)
    ensures MapGrows(s0.mcbs[q.a], Claim(s, q.a, vcn, lcn, n).mcbs[q.a], q)
    ensures Gains(s.mcbs[q.a], Claim(s, q.a, vcn, lcn, n).mcbs[q.a], vcn, n)
    ensures SameElsewhere(s0, Claim(s, q.a, vcn, lcn, n), q.a)
  {
    var m0, m, m' := s0.mcbs[q.a], s.mcbs[q.a], Claim(s, q.a, vcn, lcn, n).mcbs[q.a];
    forall v
      ensures Mapped(m', v) == (Mapped(m, v) || vcn <= v < vcn + n)
      ensures Mapped(m0, v) ==> At(m', v) == At(m0, v)
      ensures Mapped(m', v) && !Mapped(m0, v) ==> q.start <= v < q.start + q.desired
    {
      ClaimAt(s, q.a, vcn, lcn, n, v);
      assert Mapped(m0, v) ==> At(m, v) == At(m0, v);
    }
  }

  /** The counts across one step. */
  lemma FillStepCounts(s0: State, s: State, t: State, q: Request, cursor: nat, remaining: int, vcn: nat, n: nat)
    requires Filling(s0, s, q, cursor, remaining) && SameElsewhere(s0, t, q.a) && t.free == s.free - n && !t.reload
    requires NextHole(s.mcbs[q.a], cursor, vcn, n, q.start + q.desired)
    requires MapGrows(s0.mcbs[q.a], t.mcbs[q.a], q) && Gains(s.mcbs[q.a], t.mcbs[q.a], vcn, n)
    ensures Filling(s0, t, q, vcn + n, remaining - n)
  {
    var m, m' := s.mcbs[q.a], t.mcbs[q.a];
    FillCounts(m, m', cursor, vcn, n, q.start + q.desired);
    FillRequired(m, m', q, cursor, vcn, n);
  }

  /** One step of the allocation loop. */
  lemma FillStep(s0: State, s: State, q: Request, cursor: nat, remaining: int, vcn: nat, lcn: nat, n: nat)
    requires Claimable(s, q.a, vcn, lcn, n) && Filling(s0, s, q, cursor, remaining)
    requires NextHole(s.mcbs[q.a], cursor, vcn, n, q.start + q.desired)
    ensures Filling(s0, Claim(s, q.a, vcn, lcn, n), q, vcn + n, remaining - n)
  {
    FillStepMap(s0, s, q, cursor, vcn, lcn, n);
    FillStepCounts(s0, s, Claim(s, q.a, vcn, lcn, n), q, cursor, remaining, vcn, n);
  }

  /** What a filling in progress says at a glance. */
  lemma FillingFacts(s0: State, s: State, q: Request, cursor: nat, remaining: int)
    requires Inv(s) && Filling(s0, s, q, cursor, remaining)
    ensures q.a in s.mcbs && Valid(s.mcbs[q.a]) && |s.bits| == s.geo.total == s0.geo.total == |s0.bits|
    ensures 0 <= remaining && q.start <= cursor <= q.start + q.desired
  {
  }

  /** What a filling amounts to when it stops. */
  lemma FillingDone(s0: State, s: State, q: Request, cursor: nat, remaining: int)
    requires Filling(s0, s, q, cursor, remaining)
    ensures SameElsewhere(s0, s, q.a) && MapGrows(s0.mcbs[q.a], s.mcbs[q.a], q) && !s.reload
    ensures forall v | q.start <= v < cursor :: Mapped(s.mcbs[q.a], v)
    ensures s0.free - s.free == HoleCount(s0.mcbs[q.a], q.start, q.desired) - HoleCount(s.mcbs[q.a], q.start, q.desired)
  {
    HoleCountPeel(s.mcbs[q.a], q.start, cursor - q.start, q.desired, true);
  }

  /** When a filling stops before a required hole, what it took is what is required no more. */
  lemma FillingLeft(s0: State, s: State, q: Request, cursor: nat, remaining: int, got: nat)
    requires Filling(s0, s, q, cursor, remaining)
    requires cursor <= q.start + got && got < q.required && !Mapped(s.mcbs[q.a], q.start + got)
    requires forall v | cursor <= v < q.start + got :: Mapped(s.mcbs[q.a], v)
    ensures s0.free - s.free ==
            HoleCount(s0.mcbs[q.a], q.start, q.required) - HoleCount(s.mcbs[q.a], q.start + got, q.required - got)
  {
    var m := s.mcbs[q.a];
    HoleCountPeel(m, cursor, q.start + got - cursor, q.start + q.required - cursor, true);
    if StillRequired(m, q, cursor) == 0 {
      HoleCountZero(m, cursor, q.start + q.required - cursor);
    }
  }

  /** What the next hole says about a filling in progress. */
  lemma TurnFacts(s0: State, s: State, q: Request, cursor: nat, remaining: int, vcn: nat, n: nat)
    requires Inv(s) && Filling(s0, s, q, cursor, remaining)
    requires NextHole(s.mcbs[q.a], cursor, vcn, n, q.start + q.desired)
    ensures |s0.bits| == s0.geo.total && n <= remaining
    ensures BootAllocated(s0) ==> BootAllocated(s)
    ensures vcn >= q.start + q.required ==> forall v | q.start <= v < q.start + q.required :: Mapped(s.mcbs[q.a], v)
  {
    HoleCountPeel(s.mcbs[q.a], cursor, vcn - cursor, q.start + q.desired - cursor, true);
    HoleCountPeel(s.mcbs[q.a], vcn, n, q.start + q.desired - vcn, false);
  }

  /** While a required hole is being filled, something is usable: the search cannot come back
      empty-handed for it. */
  lemma RequiredHoleIsServed(s0: State, s: State, q: Request, cursor: nat, remaining: int, vcn: nat)
    requires Inv(s) && Filling(s0, s, q, cursor, remaining) && BootAllocated(s)
    requires cursor <= vcn < q.start + q.required && !Mapped(s.mcbs[q.a], vcn)
    ensures exists l :: Usable(s, l)
  {
    if StillRequired(s.mcbs[q.a], q, cursor) == 0 {
      HoleCountZero(s.mcbs[q.a], cursor, q.start + q.required - cursor);
    }
    UsableExists(s);
  }

  // ---------- emptying a range ----------

  /** Where a deallocation from state `s0` stands: below the cursor nothing of the range is mapped
      any more, the freed clusters are counted and (unless they were bad) in the active list, the MFT
      zone has grown back if it had been reduced and an eighth of the volume became free, and everything
      else is as it was. */
  ghost predicate Emptying(s0: State, s: State, a: Scb, start: int, cursor: int)
    requires |s.bits| == s.geo.total
  {
    && a in s0.mcbs && a in s.mcbs && s.mcbs == s0.mcbs[a := s.mcbs[a]]
    && s.geo == s0.geo && s.cache == s0.cache && s.hint == s0.hint && s.reload == s0.reload && start <= cursor
    && (forall v {:trigger At(s.mcbs[a], v)} {:trigger At(s0.mcbs[a], v)} ::
          At(s.mcbs[a], v) == if start <= v < cursor then UNUSED_LCN else At(s0.mcbs[a], v))
    && s.free - s0.free == cursor - start - HoleCount(s0.mcbs[a], start, cursor - start) ==
         s.deallocated - s0.deallocated
    && s.reduced == (s0.reduced && !(s0.free < s.free && s.geo.total / 8 < s.free))
    && s.zoneEnd == (if s.reduced == s0.reduced then s0.zoneEnd else s.geo.FullZoneEnd())
    && RemembersMore(s0, s)
    && (forall v {:trigger At(s0.mcbs[a], v)} :: start <= v < cursor && Mapped(s0.mcbs[a], v) ==>
          && 0 <= At(s0.mcbs[a], v) < s.geo.total && !s.bits[At(s0.mcbs[a], v)]
          && (a != BAD_CLUSTER_SCB ==> Mapped(s.active.runs, At(s0.mcbs[a], v))))
  }

  lemma EmptyStart(s: State, a: Scb, start: int)
    requires |s.bits| == s.geo.total && a in s.mcbs
    ensures Emptying(s, s, a, start, start)
  {
  }

  /** Passing a hole. */
  lemma EmptySkip(s0: State, s: State, a: Scb, start: int, cursor: int, n: nat)
    requires |s.bits| == s.geo.total && Emptying(s0, s, a, start, cursor) && Hole(s.mcbs[a], cursor, n)
    ensures Emptying(s0, s, a, start, cursor + n)
  {
    forall v | cursor <= v < cursor + n ensures At(s0.mcbs[a], v) == UNUSED_LCN {
      assert At(s.mcbs[a], v) == At(s0.mcbs[a], v);
    }
    HoleCountSplit(s0.mcbs[a], start, cursor - start, cursor + n - start);
    HoleCountUniform(s0.mcbs[a], cursor, n, false);
  }

  /** The lists across the release of a run at the cursor. */
  lemma EmptyStepLists(s0: State, s: State, a: Scb, start: int, cursor: int, lcn: int, n: nat)
    requires Releasable(s, a, cursor, lcn, n) && Emptying(s0, s, a, start, cursor)
    ensures RemembersMore(s0, Release(s, a, cursor, lcn, n))
  {
    hide Remove;
    var t := Release(s, a, cursor, lcn, n);
    forall l | Mapped(s0.active.runs, l) ensures Mapped(t.active.runs, l) {
      assert Mapped(s.active.runs, l);
      RememberAt(s.active, lcn, n, l);
    }
  }

  /** The stream's map and one of its clusters across it. */
  lemma EmptyStepAt(s0: State, s: State, a: Scb, start: int, cursor: int, lcn: int, n: nat, v: int)
    requires Releasable(s, a, cursor, lcn, n) && Emptying(s0, s, a, start, cursor)
    ensures var t := Release(s, a, cursor, lcn, n);
            && At(t.mcbs[a], v) == (if start <= v < cursor + n then UNUSED_LCN else At(s0.mcbs[a], v))
            && (start <= v < cursor + n && Mapped(s0.mcbs[a], v) ==>
                  && 0 <= At(s0.mcbs[a], v) < t.geo.total && !t.bits[At(s0.mcbs[a], v)]
                  && (a != BAD_CLUSTER_SCB ==> Mapped(t.active.runs, At(s0.mcbs[a], v))))
  {
    hide Remove, Remember, NoCrossLinks, StreamsOk;
    var t := Release(s, a, cursor, lcn, n);
    ReleasedClusters(s, a, cursor, lcn, n);
    ReleaseAt(s, a, cursor, lcn, n, v);
    if cursor <= v < cursor + n {
      assert At(s.mcbs[a], v) == At(s0.mcbs[a], v) == lcn + (v - cursor);
      if a != BAD_CLUSTER_SCB {
        ReleasedAreHeldBack(s, a, cursor, lcn, n, lcn + (v - cursor));
      }
    } else if start <= v < cursor && Mapped(s0.mcbs[a], v) && a != BAD_CLUSTER_SCB {
      RememberAt(s.active, lcn, n, At(s0.mcbs[a], v));
    }
  }

  /** The counts and the zone across it. */
  lemma EmptyStepCounts(s0: State, s: State, a: Scb, start: int, cursor: int, lcn: int, n: nat)
    requires Releasable(s, a, cursor, lcn, n) && Emptying(s0, s, a, start, cursor)
    ensures var t := Release(s, a, cursor, lcn, n);
            && a in t.mcbs && t.mcbs == s0.mcbs[a := t.mcbs[a]]
            && t.geo == s0.geo && t.cache == s0.cache && t.hint == s0.hint && t.reload == s0.reload
            && t.free - s0.free == cursor + n - start - HoleCount(s0.mcbs[a], start, cursor + n - start) ==
                 t.deallocated - s0.deallocated
            && t.reduced == (s0.reduced && !(s0.free < t.free && t.geo.total / 8 < t.free))
            && t.zoneEnd == (if t.reduced == s0.reduced then s0.zoneEnd else t.geo.FullZoneEnd())
  {
    hide Inv, Remove, Remember, HoleCount, Geometry.FullZoneEnd, Fill;
    forall v | cursor <= v < cursor + n ensures Mapped(s0.mcbs[a], v) {
      assert At(s.mcbs[a], v) == At(s0.mcbs[a], v);
    }
    HoleCountSplit(s0.mcbs[a], start, cursor - start, cursor + n - start);
    HoleCountUniform(s0.mcbs[a], cursor, n, true);
  }

  /** Releasing the run at the cursor. */
  lemma EmptyStep(s0: State, s: State, a: Scb, start: int, cursor: int, lcn: int, n: nat)
    requires Releasable(s, a, cursor, lcn, n) && Emptying(s0, s, a, start, cursor)
    ensures Emptying(s0, Release(s, a, cursor, lcn, n), a, start, cursor + n)
  {
    assert |s.bits| == s.geo.total && start <= cursor;
    var t := Release(s, a, cursor, lcn, n);
    assert |t.bits| == |s.bits| && t.geo == s.geo;
    EmptyStepCounts(s0, s, a, start, cursor, lcn, n);
    EmptyStepLists(s0, s, a, start, cursor, lcn, n);
    hide Inv, Remove, Remember, HoleCount, Geometry.FullZoneEnd, Fill, RemembersMore, Release;
    forall v
      ensures At(t.mcbs[a], v) == if start <= v < cursor + n then UNUSED_LCN else At(s0.mcbs[a], v)
      ensures start <= v < cursor + n && Mapped(s0.mcbs[a], v) ==>
                && 0 <= At(s0.mcbs[a], v) < t.geo.total && !t.bits[At(s0.mcbs[a], v)]
                && (a != BAD_CLUSTER_SCB ==> Mapped(t.active.runs, At(s0.mcbs[a], v)))
    {
      EmptyStepAt(s0, s, a, start, cursor, lcn, n, v);
    }
  }
}
