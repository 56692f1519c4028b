/**
 * The cluster allocator: the volume control block, its paged bitmap, the free-run cache, the
 * recently deallocated lists and the streams' maps, changed in place.
 */
module Allocator {
  import opened Bits
  import opened Mcb
  import opened Rtl
  import opened Volume

  const MAXULONG: int := 0xffff_ffff
  const MFT_EXTEND_GRANULARITY: int := 16
  const MAXIMUM_RUNS_AT_ONCE: nat := 128

  datatype Status = Success | DiskFull | LogFileFull | DiskCorrupt

  /** One list's part of NtfsAddRecentlyDeallocated: set the page's bits that it covers.  The
      scan stops at the first run past the page, which relies on the list being in order. */
  method BiasWith(m: seq<Run>, base: nat, page: seq<bool>) returns (r: seq<bool>)
    requires Valid(m) && Identity(m)
    ensures |r| == |page|
    ensures forall i | 0 <= i < |page| :: r[i] == (page[i] || Mapped(m, base + i))
  {
    r := page;
    var last := base + |page| - 1;
    var i := 0;
    ghost var floor := 0;
    while i < |m|
      invariant 0 <= i <= |m| && |r| == |page| && Ordered(m[i..], floor)
      invariant forall l :: Mapped(m, l) && floor <= l ==> Mapped(m[i..], l)
      invariant forall l :: Mapped(m[i..], l) ==> Mapped(m, l)
      invariant forall j | 0 <= j < |page| ::
                  r[j] == (page[j] || (Mapped(m, base + j) && !Mapped(m[i..], base + j)))
    {
      var run := m[i];
      var rest := m[i + 1..];
      assert m[i..][1..] == rest;
      AtRun(m, 0, i);
      assert Mapped(m, run.vcn);
      if run.vcn == run.lcn {
        var ending := run.lcn + run.count - 1;
        if ending < base {
        } else if last < run.lcn {
          forall l | l < run.vcn ensures !Mapped(m[i..], l) {
            AtBelow(m[i..], run.vcn, l);
          }
          return;
        } else {
          var startingBit := if run.lcn < base then 0 else run.lcn - base;
          var endingBit := if ending > last then |page| - 1 else ending - base;
          r := Fill(r, startingBit, endingBit - startingBit + 1, true);
        }
      }
      forall l | run.Covers(l) ensures !Mapped(rest, l) {
        AtBelow(rest, run.End(), l);
      }
      floor := run.End();
      i := i + 1;
    }
  }

  /** NtfsScanMcbForRealClusterCount: how many clusters of the range are not mapped. */
  method ScanMcbForRealClusterCount(m: seq<Run>, startingVcn: nat, endingVcn: int) returns (freeCount: nat)
    requires Valid(m) && startingVcn <= endingVcn + 1
    ensures freeCount == HoleCount(m, startingVcn, endingVcn + 1 - startingVcn)
  {
    var count := endingVcn - startingVcn + 1;
    var vcn := startingVcn;
    while vcn <= endingVcn
      invariant startingVcn <= vcn
      invariant if vcn <= endingVcn
                then count - (endingVcn + 1 - vcn) + HoleCount(m, vcn, endingVcn + 1 - vcn) ==
                     HoleCount(m, startingVcn, endingVcn + 1 - startingVcn)
                else count == HoleCount(m, startingVcn, endingVcn + 1 - startingVcn)
    {
      LookupDescribes(m, 0, vcn);
      var left := endingVcn + 1 - vcn;
      match Lookup(m, vcn)
      case Miss =>
        HoleCountUniform(m, vcn, left, false);
        break;
      case Hit(lcn, size) =>
        var runSize := size;
        if lcn != UNUSED_LCN {
          if runSize > endingVcn - vcn + 1 {
            runSize := endingVcn - vcn + 1;
          }
          count := count - runSize;
        }
        HoleCountPeel(m, vcn, if runSize < left then runSize else left, left, lcn != UNUSED_LCN);
        vcn := vcn + runSize;
    }
    freeCount := count;
  }

  /** NtfsGetNextHoleToFill: the first hole of the range, as far as it reaches in the range, and
      the cluster that the one before it is mapped to. */
  method GetNextHoleToFill(m: seq<Run>, startingVcn: nat, endingVcn: int)
    returns (found: bool, vcn: nat, count: nat, precedingLcn: int)
    requires Valid(m)
    ensures found ==> startingVcn <= vcn && 0 < count && vcn + count <= endingVcn + 1
    ensures found ==> Hole(m, vcn, count) && forall v | startingVcn <= v < vcn :: Mapped(m, v)
    ensures found ==> vcn + count == endingVcn + 1 || Mapped(m, vcn + count)
    ensures found ==> precedingLcn == if vcn == 0 then UNUSED_LCN else At(m, vcn - 1)
    ensures !found ==> forall v | startingVcn <= v <= endingVcn :: Mapped(m, v)
  {
    found, vcn, count, precedingLcn := false, startingVcn, 0, UNUSED_LCN;
    while vcn <= endingVcn
      invariant startingVcn <= vcn
      invariant forall v | startingVcn <= v < vcn :: Mapped(m, v)
    {
      var r := Lookup(m, vcn);
      LookupDescribes(m, 0, vcn);
      if r.Hit? && r.lcn != UNUSED_LCN {
        assert forall v | vcn <= v < vcn + r.count :: At(m, v) == r.lcn + (v - vcn);
        vcn := vcn + r.count;
      } else {
        var maximumRunSize := endingVcn - vcn + 1;
        count := if r.Miss? || r.count > maximumRunSize then maximumRunSize else r.count;
        found := true;
        if vcn != 0 {
          LookupDescribes(m, 0, vcn - 1);
          var before := Lookup(m, vcn - 1);
          precedingLcn := if before.Hit? then before.lcn else UNUSED_LCN;
          assert At(m, vcn - 1) == precedingLcn;
        }
        return;
      }
    }
  }

  /** A part of a page of the bitmap. */
  lemma CountPart(bits: seq<bool>, base: nat, raw: seq<bool>, x: nat, y: nat)
    requires base <= x <= y <= base + |raw| <= |bits| && forall i | 0 <= i < |raw| :: raw[i] == bits[base + i]
    ensures var page := raw[x - base..y - base];
            CountRange(bits, x, y) == CountClear(page) && forall i | 0 <= i < |page| :: page[i] == bits[x + i]
  {
    var page := raw[x - base..y - base];
    assert forall i | 0 <= i < y - x :: page[i] == raw[x - base + i] == bits[base + (x - base + i)];
    CountRangePage(bits, x, page);
  }

  /** The bitmap page holding `lcn`: its first cluster. */
  function PageBase(lcn: nat): (r: nat)
    ensures r <= lcn < r + BITS_PER_PAGE && OnPage(r)
  {
    lcn - lcn % BITS_PER_PAGE
  }

  /** A page of the bitmap starts here. */
  predicate OnPage(lcn: nat) { lcn % BITS_PER_PAGE == 0 }

  /** One past the last cluster of the bitmap page holding `lcn`. */
  function PageEnd(lcn: nat, total: nat): (r: nat)
    requires lcn <= total
    ensures r <= total && lcn <= r && (lcn < total ==> lcn < r)
    ensures PageBase(lcn) <= r <= PageBase(lcn) + BITS_PER_PAGE
    ensures r == total || OnPage(r)
  {
    if PageBase(lcn) + BITS_PER_PAGE < total then PageBase(lcn) + BITS_PER_PAGE else total
  }

  /** The part of the invariant the page walks rest on. */
  ghost predicate Walkable(s: State) {
    && s.geo.Sound() && |s.bits| == s.geo.total
    && RecentOk(s.prior) && RecentOk(s.active)
    && s.geo.zoneStart <= s.zoneEnd <= s.geo.total && s.zoneEnd % 32 == 0
  }

  /** The page's set bits are the clusters that may not be handed out. */
  ghost predicate BiasOf(s: State, base: nat, page: seq<bool>)
    requires |s.bits| == s.geo.total
  {
    forall i | 0 <= i < |page| :: page[i] <==> !Usable(s, base + i)
  }

  /** The cache is in order and under-approximates the truth. */
  ghost predicate CacheGood(s: State) {
    s.geo.Sound() && |s.bits| == s.geo.total && Valid(s.cache) && Identity(s.cache) && CacheOk(s)
  }

  /** No cluster of `[lo, hi)` may be handed out. */
  ghost predicate NoneUsable(s: State, lo: int, hi: int)
    requires |s.bits| == s.geo.total
  {
    forall l | lo <= l < hi :: !Usable(s, l)
  }

  // ---------- what a scan caches ----------

  /** A free run as it is put into the cache. */
  datatype Extent = Extent(lcn: nat, count: nat)

  /** The cache after these insertions, from nothing. */
  ghost function CacheOf(added: seq<Extent>): seq<Run> {
    if added == [] then [] else CacheAdd(CacheOf(added[..|added| - 1]), added[|added| - 1].lcn,
                                         added[|added| - 1].count)
  }

  /** What a page gives the cache: only clear runs, a longest one among them, the one that ends the page, and the
      one that starts it if the page before ended clear. */
  ghost predicate PageAdded(page: seq<bool>, base: nat, previousFree: bool, more: seq<Extent>)
    requires 0 < |page|
  {
    && (forall r | r in more :: 0 < r.count && Clear(page, r.lcn - base, r.count))
    && ((forall i | 0 <= i < |page| :: page[i]) ||
        exists r | r in more :: forall lo, n | Clear(page, lo, n) :: n <= r.count)
    && (!page[|page| - 1] ==> exists r | r in more :: r.lcn + r.count == base + |page|)
    && (previousFree && !page[0] ==> exists r | r in more :: r.lcn == base)
  }

  ghost predicate Among(added: seq<Extent>, l: int) {
    exists r | r in added :: r.lcn <= l < r.lcn + r.count
  }

  /** A longest usable run of the page at `base` was put into the cache, if anything of it is usable. */
  ghost predicate LongestAdded(s: State, base: nat, added: seq<Extent>)
    requires |s.bits| == s.geo.total && base < s.geo.total
  {
    || NoneUsable(s, base, PageEnd(base, s.geo.total))
    || exists r | r in added :: IsLongest(s, base, PageEnd(base, s.geo.total), r)
  }

  ghost predicate IsLongest(s: State, lo: int, hi: int, r: Extent)
    requires |s.bits| == s.geo.total
  {
    && 0 < r.count && lo <= r.lcn && r.lcn + r.count <= hi
    && forall l, n | lo <= l && l + n <= hi && UsableRun(s, l, n) :: n <= r.count
  }

  /** The scan has passed the clusters before `upto`: it put only usable runs into the cache, a longest one of
      each page, and the clusters on both sides of a page boundary if both are usable. */
  ghost predicate Scanned(s: State, added: seq<Extent>, upto: nat)
    requires |s.bits| == s.geo.total && upto <= s.geo.total
  {
    && (forall r | r in added :: 0 < r.count && UsableRun(s, r.lcn, r.count))
    && (forall base: nat | base < upto && OnPage(base) :: LongestAdded(s, base, added))
    && (forall c: nat | 0 < c <= upto :: EndAdded(s, added, c))
    && forall c: nat | 0 < c < upto :: StartAdded(s, added, c)
  }

  /** A usable cluster before the end of a page was put into the cache. */
  ghost predicate EndAdded(s: State, added: seq<Extent>, c: nat)
    requires |s.bits| == s.geo.total && 0 < c
  {
    (OnPage(c) || c == s.geo.total) && Usable(s, c - 1) ==> Among(added, c - 1)
  }

  /** And so was a usable one at the start of a page, if the one before it is usable. */
  ghost predicate StartAdded(s: State, added: seq<Extent>, c: nat)
    requires |s.bits| == s.geo.total && 0 < c
  {
    OnPage(c) && Usable(s, c - 1) && Usable(s, c) ==> Among(added, c)
  }

  /** The cache after reading ahead at a cluster: the same if the cluster is cached; with the run from the cluster to
      the next that is not usable or the end of the page; or else with a longest run of the page, if any. */
  ghost predicate ReadsAhead(s: State, lcn: nat, cache: seq<Run>)
    requires |s.bits| == s.geo.total && lcn < s.geo.total
  {
    if Mapped(s.cache, lcn) then cache == s.cache
    else if Usable(s, lcn) then exists n: nat :: AddsUpTo(s, lcn, n, cache)
    else if NoneUsable(s, PageBase(lcn), PageEnd(lcn, s.geo.total)) then cache == s.cache
    else exists r: Extent ::
           IsLongest(s, PageBase(lcn), PageEnd(lcn, s.geo.total), r) && cache == CacheAdd(s.cache, r.lcn, r.count)
  }

  ghost predicate AddsUpTo(s: State, lcn: nat, n: nat, cache: seq<Run>)
    requires |s.bits| == s.geo.total && lcn < s.geo.total
  {
    && 0 < n && UsableRun(s, lcn, n) && (lcn + n == PageEnd(lcn, s.geo.total) || !Usable(s, lcn + n))
    && cache == CacheAdd(s.cache, lcn, n)
  }

  /** The cache holds what a scan of the whole volume puts into it. */
  ghost predicate Refilled(s: State, cache: seq<Run>)
    requires |s.bits| == s.geo.total
  {
    exists added :: cache == CacheOf(added) && Scanned(s, added, s.geo.total)
  }

  class Vcb {
    const geo: Geometry
    const bitmap: array<bool>
    var freeClusters: int
    var freeSpaceMcb: seq<Run>
    var priorDeallocated: Recent
    var activeDeallocated: Recent
    var deallocatedClusters: int
    var mftZoneEnd: int
    var reducedMft: bool
    var reloadFreeClusters: bool
    var lastBitmapHint: int
    var mcbs: map<Scb, seq<Run>>

    /** The control block as a value. */
    ghost function Now(): (s: State)
      reads this, bitmap
      ensures |s.bits| == bitmap.Length
    {
      State(geo, bitmap[..], freeClusters, freeSpaceMcb, priorDeallocated, activeDeallocated,
            deallocatedClusters, mftZoneEnd, reducedMft, reloadFreeClusters, lastBitmapHint, mcbs)
    }

    /** NtfsInitializeClusterAllocation: nothing is recently freed, the bitmap is scanned, the hint
        is the first cached free run, and the MFT zone is an eighth of the volume. */
    constructor Mount(geo: Geometry, bits: seq<bool>, mcbs: map<Scb, seq<Run>>)
      requires geo.Sound() && |bits| == geo.total && StreamsOk(Mounted(geo, bits, mcbs)) && NoCrossLinks(mcbs)
      ensures Inv(Now()) && !reloadFreeClusters && fresh(bitmap)
      ensures Now().geo == geo && Now().bits == bits && Now().mcbs == mcbs
      ensures lastBitmapHint == (if freeSpaceMcb != [] then freeSpaceMcb[0].lcn else 0) &&
                mftZoneEnd == geo.FullZoneEnd()
      ensures priorDeallocated == activeDeallocated == Recent([], 0) && deallocatedClusters == 0 && !reducedMft
    {
      this.geo := geo;
      bitmap := new bool[|bits|](i requires 0 <= i < |bits| => bits[i]);
      freeClusters, freeSpaceMcb := 0, [];
      priorDeallocated, activeDeallocated, deallocatedClusters := Recent([], 0), Recent([], 0), 0;
      mftZoneEnd, reducedMft, reloadFreeClusters := geo.FullZoneEnd(), false, true;
      lastBitmapHint := 0;
      this.mcbs := mcbs;
      new;
      assert bitmap[..] == bits;
      ghost var s := Now();
      MountedInv(geo, bits, mcbs);
      var ok := ScanEntireBitmap();
      BookkeepingKeepsInv(s, Now());
      if freeSpaceMcb != [] {
        hide Inv;
        CachedRun(Now(), 0);
        assert Usable(Now(), freeSpaceMcb[0].lcn);
        HintKeepsInv(Now(), freeSpaceMcb[0].lcn);
        lastBitmapHint := freeSpaceMcb[0].lcn;
      }
    }

    /** NtfsMapPageInBitmap: the bitmap page holding `lcn`. */
    method MapPageInBitmap(lcn: nat) returns (base: nat, page: seq<bool>)
      requires lcn <= geo.total == bitmap.Length
      ensures base == PageBase(lcn) && page == bitmap[base..PageEnd(lcn, geo.total)]
    {
      base := PageBase(lcn);
      page := bitmap[base..PageEnd(lcn, geo.total)];
    }

    /** A mapped page after NtfsAddRecentlyDeallocated: its set bits are the clusters that may
        not be handed out. */
    method MapBiasedPage(lcn: nat) returns (base: nat, page: seq<bool>)
      requires Walkable(Now()) && lcn <= geo.total
      ensures base == PageBase(lcn) && base + |page| == PageEnd(lcn, geo.total)
      ensures BiasOf(Now(), base, page)
    {
      var raw;
      base, raw := MapPageInBitmap(lcn);
      page := AddRecentlyDeallocated(priorDeallocated, activeDeallocated, geo.bootClusters, base, raw);
      ghost var s := Now();
      assert forall i | 0 <= i < |page| :: raw[i] == s.bits[base + i];
      BiasMeansUsable(s, base, raw, page);
    }

    /** NtfsAllocateBitmapRun: set a run of bits, page by page, refusing bits that are already
        set (the volume is corrupt); the pages before the refused one stay set. */
    method AllocateBitmapRun(startingLcn: nat, clusterCount: nat) returns (ok: bool)
      requires bitmap.Length == geo.total && startingLcn + clusterCount <= geo.total
      modifies bitmap
      ensures ok <==> Clear(old(bitmap[..]), startingLcn, clusterCount)
      ensures ok ==> bitmap[..] == Fill(old(bitmap[..]), startingLcn, clusterCount, true)
      ensures !ok ==> exists done | 0 <= done < clusterCount ::
                Clear(old(bitmap[..]), startingLcn, done) &&
                    bitmap[..] == Fill(old(bitmap[..]), startingLcn, done, true)
    {
      ghost var was := bitmap[..];
      var lcn, left := startingLcn, clusterCount;
      while left > 0
        invariant 0 <= left && lcn + left == startingLcn + clusterCount && startingLcn <= lcn
        invariant Clear(was, startingLcn, lcn - startingLcn)
        invariant bitmap[..] == Fill(was, startingLcn, lcn - startingLcn, true)
        decreases left
      {
        var pageEnd := PageEnd(lcn, geo.total);
        var bitsToSet := if left <= pageEnd - lcn then left else pageEnd - lcn;
        assert forall i | lcn <= i < lcn + bitsToSet :: bitmap[i] == was[i];
        if exists i | lcn <= i < lcn + bitsToSet :: bitmap[i] {
          assert 0 <= lcn - startingLcn < clusterCount;
          return false;
        }
        forall i | lcn <= i < lcn + bitsToSet {
          bitmap[i] := true;
        }
        left := left - bitsToSet;
        lcn := lcn + bitsToSet;
      }
      assert lcn - startingLcn == clusterCount;
      return true;
    }

    /** NtfsFreeBitmapRun: the converse. */
    method FreeBitmapRun(startingLcn: nat, clusterCount: nat) returns (ok: bool)
      requires bitmap.Length == geo.total && startingLcn + clusterCount <= geo.total
      modifies bitmap
      ensures ok <==> AllSet(old(bitmap[..]), startingLcn, clusterCount)
      ensures ok ==> bitmap[..] == Fill(old(bitmap[..]), startingLcn, clusterCount, false)
      ensures !ok ==> exists done | 0 <= done < clusterCount ::
                AllSet(old(bitmap[..]), startingLcn, done) &&
                    bitmap[..] == Fill(old(bitmap[..]), startingLcn, done, false)
    {
      ghost var was := bitmap[..];
      var lcn, left := startingLcn, clusterCount;
      while left > 0
        invariant 0 <= left && lcn + left == startingLcn + clusterCount && startingLcn <= lcn
        invariant AllSet(was, startingLcn, lcn - startingLcn)
        invariant bitmap[..] == Fill(was, startingLcn, lcn - startingLcn, false)
        decreases left
      {
        var pageEnd := PageEnd(lcn, geo.total);
        var bitsToClear := if left <= pageEnd - lcn then left else pageEnd - lcn;
        assert forall i | lcn <= i < lcn + bitsToClear :: bitmap[i] == was[i];
        if exists i | lcn <= i < lcn + bitsToClear :: !bitmap[i] {
          assert 0 <= lcn - startingLcn < clusterCount;
          return false;
        }
        forall i | lcn <= i < lcn + bitsToClear {
          bitmap[i] := false;
        }
        left := left - bitsToClear;
        lcn := lcn + bitsToClear;
      }
      assert lcn - startingLcn == clusterCount;
      return true;
    }

    /** NtfsAddCachedRun with a free run.  Cluster 0 can never be free. */
    method AddFreeRun(lcn: nat, count: nat) returns (ok: bool)
      modifies `freeSpaceMcb
      ensures ok <==> lcn != 0
      ensures ok ==> Now() == old(Now()).(cache := CacheAdd(old(freeSpaceMcb), lcn, count))
      ensures !ok ==> Now() == old(Now())
    {
      if lcn == 0 {
        return false;
      }
      var trimmed := Trim(freeSpaceMcb);
      if Overlaps(trimmed, lcn, count) {
        trimmed := Remove(trimmed, lcn, count);
      }
      freeSpaceMcb := Add(trimmed, Run(lcn, lcn, count));
      return true;
    }

    /** NtfsAddCachedRun with an allocated run. */
    method RemoveFreeRun(lcn: nat, count: nat)
      modifies `freeSpaceMcb
      ensures Now() == old(Now()).(cache := Remove(old(freeSpaceMcb), lcn, count))
    {
      freeSpaceMcb := Remove(freeSpaceMcb, lcn, count);
    }

    /** Taking a run for a stream: out of the cache first, then in the bitmap, the count and the
        stream's map. */
    method TakeRun(a: Scb, vcn: nat, lcn: nat, count: nat) returns (ok: bool)
      requires bitmap.Length == geo.total && a in mcbs && Clear(bitmap[..], lcn, count)
      modifies this, bitmap
      ensures ok && Now() == Claim(old(Now()), a, vcn, lcn, count)
    {
      RemoveFreeRun(lcn, count);
      ok := AllocateBitmapRun(lcn, count);
      freeClusters := freeClusters - count;
      mcbs := mcbs[a := Add(mcbs[a], Run(vcn, lcn, count))];
    }

    /** Giving a run of a stream back: remembered as recently freed, cleared in the bitmap,
        counted, and out of the stream's map.  The MFT zone grows back once an eighth of the
        volume is free. */
    method GiveRun(a: Scb, vcn: nat, lcn: nat, count: nat) returns (ok: bool)
      requires bitmap.Length == geo.total && a in mcbs && AllSet(bitmap[..], lcn, count)
      modifies this, bitmap
      ensures ok && Now() == Release(old(Now()), a, vcn, lcn, count)
      ensures reducedMft == (old(reducedMft) && freeClusters <= geo.total / 8)
      ensures mftZoneEnd == if reducedMft == old(reducedMft) then old(mftZoneEnd) else geo.FullZoneEnd()
    {
      hide Remember, Remove;
      activeDeallocated := Remember(activeDeallocated, lcn, count);
      deallocatedClusters := deallocatedClusters + count;
      ok := FreeBitmapRun(lcn, count);
      freeClusters := freeClusters + count;
      if reducedMft && geo.total / 8 < freeClusters {
        reducedMft := false;
        mftZoneEnd := geo.FullZoneEnd();
      }
      mcbs := mcbs[a := Remove(mcbs[a], vcn, count)];
    }

    /** A biased page without what lies before the cluster. */
    method MapBiasedPageFrom(at: nat) returns (page: seq<bool>)
      requires Walkable(Now()) && at <= geo.total
      ensures at + |page| == PageEnd(at, geo.total) && BiasOf(Now(), at, page)
    {
      assert |Now().bits| == geo.total;
      hide Walkable, BiasOf, Usable, OnPage, PageBase, PageEnd;
      var base;
      base, page := MapBiasedPage(at);
      if base != at {
        BiasTail(Now(), base, page, at - base);
        page := page[at - base..];
      }
    }

    /** One pass of the search: the longest usable run of the first page of `[from, to)` that has
        one.  A pass that does not start on a page boundary skips the start of its first page. */
    method ScanPages(from: nat, to: nat) returns (lcn: nat, count: nat)
      requires Walkable(Now()) && to <= geo.total
      ensures count > 0 ==> from <= lcn && UsableRun(Now(), lcn, count)
      ensures count == 0 ==> NoneUsable(Now(), from, to)
      ensures count > 0 ==> LongestOnFirst(Now(), from, lcn, count)
    {
      assert |Now().bits| == geo.total;
      hide Usable, Walkable, LongestOnFirst, OnPage, BiasOf, UsableRun, NoneUsable, PageEnd, PageBase, Clear;
      var at := from;
      NoneUsableMore(Now(), from, from, from);
      while at < to
        invariant from <= at && (at <= geo.total || at == from) && (at < to && at != from ==> OnPage(at))
        invariant NoneUsable(Now(), from, at)
      {
        var page := MapBiasedPageFrom(at);
        var index;
        count, index := FindLongestRunClear(page);
        PageRun(Now(), at, page, index, count);
        if count != 0 {
          lcn := index + at;
          LongestOfPage(Now(), at, page, count);
          FirstPage(Now(), from, at, at + |page|, lcn, count);
          return;
        }
        NoneUsableMore(Now(), from, at, at + |page|);
        at := at + |page|;
      }
      NoneUsableMore(Now(), from, at, to);
      return 0, 0;
    }

    /** The hint's own page: a run of the wanted length if there is one, the longest run otherwise.
        The MFT zone at the start of the page is skipped unless the hint lies in it. */
    method SearchHintPage(numberToFind: int, hint: nat) returns (lcn: nat, count: nat, next: nat)
      requires Walkable(Now()) && hint <= geo.total && 0 < numberToFind
      ensures next == PageEnd(hint, geo.total)
      ensures count > 0 ==> UsableRun(Now(), lcn, count)
      ensures Best(Now(), HintFrom(hint, mftZoneEnd), next, numberToFind, count)
      ensures count > 0 ==> HintFrom(hint, mftZoneEnd) <= lcn && lcn + count <= next
    {
      assert |Now().bits| == geo.total;
      hide Walkable, Usable, UsableRun, OnPage, BiasOf, Best, PageBase, PageEnd, HintFrom;
      var base, page := MapBiasedPage(hint);
      next := base + |page|;
      if base < mftZoneEnd && hint > mftZoneEnd {
        BiasTail(Now(), base, page, mftZoneEnd - base);
        page := page[mftZoneEnd - base..];
        base := mftZoneEnd;
      }
      lcn, count := SearchPage(base, page, numberToFind, hint - base);
    }

    /** A biased page, from the hint on first. */
    method SearchPage(base: nat, page: seq<bool>, numberToFind: int, at: nat) returns (lcn: nat, count: nat)
      requires bitmap.Length == geo.total && BiasOf(Now(), base, page) && 0 < numberToFind
      ensures count > 0 ==> UsableRun(Now(), lcn, count) && base <= lcn && lcn + count <= base + |page|
      ensures Best(Now(), base, base + |page|, numberToFind, count)
    {
      hide Usable, UsableRun, BiasOf, Best;
      var wanted := if numberToFind > MAXULONG then MAXULONG else numberToFind;
      var found, index := FindClearBits(page, wanted, at);
      PageRun(Now(), base, page, index, wanted);
      WantedIsBest(Now(), base, base + |page|, numberToFind, wanted);
      if found {
        return index + base, wanted;
      }
      count, index := FindLongestRunClear(page);
      PageRun(Now(), base, page, index, count);
      LongestOfPage(Now(), base, page, count);
      LongestIsBest(Now(), base, base + |page|, numberToFind, count);
      lcn := index + base;
    }

    /** NtfsFindFreeBitmapRun: the hint's page, the rest of the disk after it, the disk from the
        end of the MFT zone up to it, and last the zone and what lies before it.  Whatever it
        returns is usable, it comes back empty only if nothing is, and it reports the zone only
        when nothing outside the zone is left. */
    method FindFreeBitmapRun(numberToFind: int, hint: nat) returns (fromZone: bool, lcn: nat, count: nat)
      requires Walkable(Now()) && hint <= geo.total && 0 < numberToFind
      ensures count > 0 ==> UsableRun(Now(), lcn, count)
      ensures count == 0 ==> forall l :: !Usable(Now(), l)
      ensures var lo, hi := HintFrom(hint, mftZoneEnd), PageEnd(hint, geo.total);
              PassOf(Now(), lo, hi, numberToFind, fromZone, lcn, count)
      ensures fromZone ==> count > 0 && lcn + count <= mftZoneEnd && NoneUsable(Now(), mftZoneEnd, geo.total)
    {
      fromZone := false;
      var next;
      lcn, count, next := SearchHintPage(numberToFind, hint);
      if count != 0 {
        assert Usable(Now(), lcn) && HintFrom(hint, mftZoneEnd) <= lcn < next;
        return;
      }
      NothingBest(Now(), HintFrom(hint, mftZoneEnd), next, numberToFind);
      lcn, count := ScanPages(next, geo.total);
      if count != 0 {
        assert Usable(Now(), lcn) && next <= lcn < geo.total;
        return;
      }
      lcn, count := ScanPages(mftZoneEnd, next);
      if count != 0 {
        assert Usable(Now(), lcn);
        return;
      }
      lcn, count := ScanPages(0, mftZoneEnd);
      fromZone := count != 0;
      assert count > 0 ==> Usable(Now(), lcn + count - 1);
    }

    // ---------- the free-run cache ----------

    /** Caching a usable run.  The check against cluster 0 never trips. */
    method CacheUsableRun(lcn: nat, count: nat) returns (ok: bool)
      requires CacheGood(Now()) && 0 < count && UsableRun(Now(), lcn, count)
      modifies `freeSpaceMcb
      ensures ok && CacheGood(Now()) && Now() == old(Now()).(cache := CacheAdd(old(freeSpaceMcb), lcn, count))
    {
      assert Usable(Now(), lcn);
      CacheAddKeepsOk(Now(), lcn, count);
      CacheAddOk(freeSpaceMcb, lcn, count);
      ok := AddFreeRun(lcn, count);
    }

    /** NtfsReadAheadCachedBitmap: cache the free run at a cluster, or the longest one of its page,
        unless the cluster is cached already. */
    method ReadAheadCachedBitmap(lcn: nat) returns (ok: bool)
      requires Walkable(Now()) && CacheGood(Now()) && lcn < geo.total
      modifies `freeSpaceMcb
      ensures ok && CacheGood(Now()) && Now() == old(Now()).(cache := freeSpaceMcb)
      ensures Usable(Now(), lcn) ==> Mapped(freeSpaceMcb, lcn)
      ensures ReadsAhead(old(Now()), lcn, freeSpaceMcb)
    {
      LookupDescribes(freeSpaceMcb, 0, lcn);
      hide OnPage, PageBase, PageEnd, UsableRun, Usable, ReadsAhead, BiasOf, CacheAdd;
      var hit := Lookup(freeSpaceMcb, lcn);
      if hit.Hit? && hit.lcn != UNUSED_LCN {
        assert Mapped(freeSpaceMcb, lcn);
        AheadCached(Now(), lcn);
        return true;
      }
      var base, page := MapBiasedPage(lcn);
      var index: nat := lcn - base;
      var size: nat;
      if !page[index] {
        size := FirstFrom(page, index, true) - index;
        AheadFree(Now(), lcn, base, page, size);
        ok := CacheUsableRun(lcn, size);
        return;
      }
      size, index := FindLongestRunClear(page);
      ok := true;
      AheadTaken(Now(), lcn, base, page, index, size);
      if size != 0 {
        ok := CachePageRun(base, page, index, size);
      }
    }

    /** Caching a clear run of a biased page. */
    method CachePageRun(base: nat, page: seq<bool>, index: nat, count: nat) returns (ok: bool)
      requires CacheGood(Now()) && BiasOf(Now(), base, page) && 0 < count && Clear(page, index, count)
      modifies `freeSpaceMcb
      ensures ok && CacheGood(Now()) && Now() == old(Now()).(cache := freeSpaceMcb) && BiasOf(Now(), base, page)
      ensures freeSpaceMcb == CacheAdd(old(freeSpaceMcb), base + index, count)
    {
      PageRun(Now(), base, page, index, count);
      ok := CacheUsableRun(base + index, count);
      BiasIgnoresCache(old(Now()), Now(), base, page);
    }

    /** Caching one run of a page during a scan. */
    method CacheExtent(base: nat, page: seq<bool>, index: nat, count: nat, ghost added: seq<Extent>,
                       ghost more: seq<Extent>)
      returns (ok: bool, ghost run: seq<Extent>)
      requires CacheGood(Now()) && BiasOf(Now(), base, page) && 0 < count && Clear(page, index, count)
      requires freeSpaceMcb == CacheOf(added + more)
      modifies `freeSpaceMcb
      ensures ok && CacheGood(Now()) && Now() == old(Now()).(cache := freeSpaceMcb) && BiasOf(Now(), base, page)
      ensures run == [Extent(base + index, count)] && AtMostOne(page, base, run)
      ensures freeSpaceMcb == CacheOf(added + (more + run))
    {
      hide CacheGood, BiasOf, CacheOf;
      ok := CachePageRun(base, page, index, count);
      run := [Extent(base + index, count)];
      CacheOfMore(added, more, run[0]);
    }

    /** What NtfsScanEntireBitmap takes from one page: its longest free run, the run at its start if
        the page before it ended free, and the run at its end.  Reports whether it ends free. */
    method CachePage(base: nat, page: seq<bool>, previousFree: bool, ghost added: seq<Extent>)
      returns (ok: bool, endsFree: bool, ghost more: seq<Extent>)
      requires CacheGood(Now()) && 0 < |page| && BiasOf(Now(), base, page) && freeSpaceMcb == CacheOf(added)
      modifies `freeSpaceMcb
      ensures ok && CacheGood(Now()) && Now() == old(Now()).(cache := freeSpaceMcb)
      ensures freeSpaceMcb == CacheOf(added + more) && PageAdded(page, base, previousFree, more)
      ensures endsFree <==> !page[|page| - 1]
    {
      hide CacheGood, BiasOf, CacheOf, PageAdded, AtMostOne;
      var size, run := FindLongestRunClear(page);
      ok, more := true, [];
      assert added + more == added;
      ghost var longest, first, last: seq<Extent> := [], [], [];
      NoneIsAtMostOne(page, base);
      if size > 0 {
        ok, longest := CacheExtent(base, page, run, size, added, more);
        more := more + longest;
      }
      if previousFree && run != 0 && !page[0] {
        var stop := FirstFrom(page, 0, true);
        ok, first := CacheExtent(base, page, 0, stop, added, more);
        more := more + first;
      }
      if run + size == |page| {
        endsFree := true;
      } else {
        endsFree := !page[|page| - 1];
        if endsFree {
          var stop := LastFrom(page, |page| - 1, true);
          ok, last := CacheExtent(base, page, stop + 1, |page| - 1 - stop, added, more);
          more := more + last;
        }
      }
      AddedFromPage(page, base, previousFree, longest, first, last);
      assert more == longest + first + last;
    }

    /** How many clusters of a page are free. */
    method FreeInPage(lcn: nat) returns (count: nat, next: nat)
      requires Walkable(Now()) && lcn < geo.total && OnPage(lcn)
      ensures next == PageEnd(lcn, geo.total) && count == CountRange(Now().bits, lcn, next)
    {
      var base, raw := MapPageInBitmap(lcn);
      next := base + |raw|;
      count := CountClear(raw);
      CountRangePage(Now().bits, lcn, raw);
    }

    /** NtfsScanEntireBitmap, one page: cache some of its free runs. */
    method CacheScannedPage(lcn: nat, previousFree: bool, ghost was: State, ghost added: seq<Extent>)
      returns (ok: bool, endsFree: bool, ghost added': seq<Extent>)
      requires Walkable(Now()) && CacheGood(Now()) && lcn < geo.total && OnPage(lcn)
      requires |was.bits| == was.geo.total && Now() == was.(free := freeClusters, cache := freeSpaceMcb)
      requires freeSpaceMcb == CacheOf(added) && Scanned(was, added, lcn)
      requires previousFree <==> 0 < lcn && Usable(was, lcn - 1)
      modifies `freeSpaceMcb
      ensures ok && CacheGood(Now()) && Now() == old(Now()).(cache := freeSpaceMcb)
      ensures freeSpaceMcb == CacheOf(added') && Scanned(was, added', PageEnd(lcn, geo.total))
      ensures endsFree <==> Usable(was, PageEnd(lcn, geo.total) - 1)
    {
      PageStart(lcn);
      hide Scanned, CacheOf, PageAdded, PageEnd, PageBase, Usable, BiasOf, CacheGood, Walkable, OnPage, PageScanned;
      var base, page := MapBiasedPage(lcn);
      BiasIgnoresRest(Now(), was, base, page);
      ghost var more;
      ok, endsFree, more := CachePage(base, page, previousFree, added);
      PageIsScanned(was, added, more, lcn, page, previousFree);
      ScannedMore(was, added, more, lcn, page);
      added' := added + more;
    }

    /** The same page, counted and cached. */
    method ScanPage(lcn: nat, previousFree: bool, ghost was: State, ghost added: seq<Extent>)
      returns (ok: bool, endsFree: bool, next: nat, ghost added': seq<Extent>)
      requires Walkable(Now()) && CacheGood(Now()) && lcn < geo.total && OnPage(lcn)
      requires |was.bits| == was.geo.total && Now() == was.(free := freeClusters, cache := freeSpaceMcb)
      requires freeSpaceMcb == CacheOf(added) && Scanned(was, added, lcn)
      requires previousFree <==> 0 < lcn && Usable(was, lcn - 1)
      modifies `freeSpaceMcb, `freeClusters
      ensures ok && Walkable(Now()) && CacheGood(Now()) && next == PageEnd(lcn, geo.total)
      ensures freeClusters == old(freeClusters) + CountRange(Now().bits, lcn, next)
      ensures Now() == was.(free := freeClusters, cache := freeSpaceMcb)
      ensures freeSpaceMcb == CacheOf(added') && Scanned(was, added', next)
      ensures endsFree <==> Usable(was, next - 1)
    {
      hide Scanned, CacheOf, CountRange, CountClear, PageEnd, Usable, CacheGood, Walkable, OnPage;
      ghost var s := Now();
      var count;
      count, next := FreeInPage(lcn);
      freeClusters := freeClusters + count;
      CacheIgnores(s, Now());
      WalkableIgnores(s, Now());
      ok, endsFree, added' := CacheScannedPage(lcn, previousFree, was, added);
      WalkableIgnores(s, Now());
    }

    /** NtfsScanEntireBitmap, its loop over the pages. */
    method ScanAllPages() returns (ok: bool, ghost added: seq<Extent>)
      requires Walkable(Now()) && CacheGood(Now()) && freeClusters == 0 && freeSpaceMcb == []
      modifies `freeSpaceMcb, `freeClusters
      ensures ok && CacheGood(Now()) && freeSpaceMcb == CacheOf(added) && Scanned(old(Now()), added, geo.total)
      ensures Now() == old(Now()).(free := CountClear(old(Now()).bits), cache := freeSpaceMcb)
    {
      ghost var was := Now();
      assert CountRange(was.bits, 0, 0) == 0 && OnPage(0);
      NothingScanned(was);
      hide Walkable, CacheGood, CountClear, CountRange, PageEnd, OnPage, Scanned, CacheOf, Usable;
      ok, added := true, [];
      var previousFree := false;
      var lcn := 0;
      while lcn < geo.total
        invariant 0 <= lcn <= geo.total && (lcn == geo.total || OnPage(lcn))
        invariant ok && Walkable(Now()) && CacheGood(Now())
        invariant Now() == was.(free := CountRange(was.bits, 0, lcn), cache := freeSpaceMcb)
        invariant freeSpaceMcb == CacheOf(added) && Scanned(was, added, lcn)
        invariant previousFree <==> 0 < lcn && Usable(was, lcn - 1)
      {
        var next;
        ok, previousFree, next, added := ScanPage(lcn, previousFree, was, added);
        CountRangeSplit(was.bits, 0, lcn, next);
        lcn := next;
      }
      CountRangeAll(was.bits);
    }

    /** NtfsScanEntireBitmap: recount the free clusters and refill the cache from nothing. */
    method ScanEntireBitmap() returns (ok: bool)
      requires Walkable(Now())
      modifies `freeSpaceMcb, `freeClusters, `reloadFreeClusters
      ensures ok && CacheGood(Now()) && Refilled(old(Now()), freeSpaceMcb)
      ensures Now() == old(Now()).(free := CountClear(old(Now()).bits), cache := freeSpaceMcb, reload := false)
    {
      hide Walkable, CacheGood, CountClear, Scanned, CacheOf;
      ghost var was := Now();
      freeSpaceMcb := [];
      freeClusters := 0;
      WalkableIgnores(was, Now());
      NothingCached(Now());
      ghost var start, added := Now(), [];
      ok, added := ScanAllPages();
      ScannedIgnores(start, was, added);
      ghost var s := Now();
      reloadFreeClusters := false;
      CacheIgnores(s, Now());
    }

    // ---------- choosing a run ----------

    /** NtfsReduceMftZone's view of one page: the part of the zone from `lcn` on, and how many of
        its clusters are free. */
    method MapZonePage(lcn: nat) returns (page: seq<bool>, count: nat)
      requires Walkable(Now()) && lcn < mftZoneEnd
      ensures 0 < |page| && lcn + |page| <= mftZoneEnd
      ensures forall i | 0 <= i < |page| :: page[i] == Now().bits[lcn + i]
      ensures count == CountRange(Now().bits, lcn, lcn + |page|)
    {
      assert lcn < mftZoneEnd <= geo.total == bitmap.Length;
      hide RecentOk, Walkable, CountRange, CountClear, PageBase, PageEnd, OnPage;
      var base, raw := MapPageInBitmap(lcn);
      var end := base + |raw|;
      if end > mftZoneEnd {
        end := mftZoneEnd;
      }
      page := raw[lcn - base..end - base];
      ghost var bits := Now().bits;
      assert forall i | 0 <= i < |raw| :: raw[i] == bits[base + i];
      count := CountClear(page);
      CountPart(bits, base, raw, lcn, end);
    }

    /** The first half of NtfsReduceMftZone: count the zone's free clusters. */
    method CountZone() returns (count: nat)
      requires Walkable(Now())
      ensures count == CountRange(Now().bits, geo.zoneStart, mftZoneEnd)
    {
      count := 0;
      var lcn := geo.zoneStart;
      while lcn < mftZoneEnd
        invariant geo.zoneStart <= lcn <= mftZoneEnd
        invariant count == CountRange(Now().bits, geo.zoneStart, lcn)
      {
        var page, free := MapZonePage(lcn);
        CountRangeSplit(Now().bits, geo.zoneStart, lcn, lcn + |page|);
        count := count + free;
        lcn := lcn + |page|;
      }
    }

    /** The second half: the cluster at which the target number of free clusters is reached. */
    method FindSplit(target: nat) returns (split: nat)
      requires Walkable(Now()) && 0 < target <= CountRange(Now().bits, geo.zoneStart, mftZoneEnd)
      ensures geo.zoneStart <= split < mftZoneEnd && !bitmap[split]
      ensures CountRange(Now().bits, geo.zoneStart, split) == target - 1
    {
      var count := 0;
      var lcn := geo.zoneStart;
      while true
        invariant geo.zoneStart <= lcn <= mftZoneEnd
        invariant count == CountRange(Now().bits, geo.zoneStart, lcn) < target
        decreases mftZoneEnd - lcn
      {
        var page, free := MapZonePage(lcn);
        CountRangeSplit(Now().bits, geo.zoneStart, lcn, lcn + |page|);
        if count + free >= target {
          var offset := FindClearInPage(page, count, target, Now().bits, geo.zoneStart, lcn);
          return lcn + offset;
        }
        count := count + free;
        lcn := lcn + |page|;
      }
    }

    /** NtfsReduceMftZone: end the zone at the cluster, rounded up, where half of its free clusters
        lie below; leave it alone if the volume or the zone has few. */
    method ReduceMftZone() returns (reduced: bool)
      requires Walkable(Now())
      modifies `mftZoneEnd, `reducedMft
      ensures reduced <==> old(freeClusters) >= 4 * MFT_EXTEND_GRANULARITY &&
                           CountRange(old(Now()).bits, geo.zoneStart, old(mftZoneEnd)) >= 4 * MFT_EXTEND_GRANULARITY
      ensures Now() == old(Now()).(zoneEnd := mftZoneEnd, reduced := old(reducedMft) || reduced)
      ensures !reduced ==> mftZoneEnd == old(mftZoneEnd)
      ensures reduced ==> HalvesZone(old(Now()), mftZoneEnd)
      ensures Walkable(Now()) && mftZoneEnd <= old(mftZoneEnd)
    {
      hide CountRange, RecentOk;
      if freeClusters < 4 * MFT_EXTEND_GRANULARITY {
        return false;
      }
      var count := CountZone();
      if count < 4 * MFT_EXTEND_GRANULARITY {
        return false;
      }
      var split := FindSplit(count / 2);
      SplitEndsZone(Now(), split);
      ghost var end := RoundUp32(split);
      assert HalvesZone(Now(), end);
      mftZoneEnd := RoundUp32(split);
      reducedMft := true;
      return true;
    }

    /** NtfsIsLcnInCachedFreeRun. */
    method IsLcnInCachedFreeRun(lcn: int) returns (found: bool, start: nat, count: nat)
      requires CacheGood(Now())
      ensures found <==> Mapped(freeSpaceMcb, lcn)
      ensures found ==> 0 < count && start <= lcn < start + count && UsableRun(Now(), start, count)
    {
      found, start, count := false, 0, 0;
      var i := 0;
      while i < |freeSpaceMcb|
        invariant 0 <= i <= |freeSpaceMcb|
        invariant Mapped(freeSpaceMcb, lcn) <==> Mapped(freeSpaceMcb[i..], lcn)
      {
        var run := freeSpaceMcb[i];
        CachedRun(Now(), i);
        assert freeSpaceMcb[i..][1..] == freeSpaceMcb[i + 1..];
        if run.Covers(lcn) {
          return true, run.lcn, run.count;
        }
        i := i + 1;
      }
    }

    /** The cached run to use when nothing precedes the hole: the first one that is larger than
        what remains to be filled, or else the largest, leaving the MFT zone alone. */
    method PickCachedRun(remaining: nat) returns (found: bool, lcn: nat, count: nat)
      requires CacheGood(Now()) && Walkable(Now())
      ensures found ==> 0 < count && UsableRun(Now(), lcn, count)
      ensures Picks(freeSpaceMcb, geo.zoneStart, mftZoneEnd, remaining, found, lcn, count)
      ensures found ==> !(geo.zoneStart <= lcn < mftZoneEnd)
    {
      assert bitmap.Length == geo.total;
      hide CacheGood, Walkable, UsableRun;
      found, lcn, count := false, 0, 0;
      ghost var best := 0;
      var runIndex := 0;
      while runIndex < |freeSpaceMcb|
        invariant 0 <= runIndex <= |freeSpaceMcb| && !found
        invariant forall j | 0 <= j < runIndex ::
                    Offer(freeSpaceMcb[j], geo.zoneStart, mftZoneEnd).1 <= count <= remaining
        invariant count > 0 ==> UsableRun(Now(), lcn, count) && 0 <= best < runIndex
        invariant count > 0 ==> !(geo.zoneStart <= lcn < mftZoneEnd)
        invariant count > 0 ==> Offer(freeSpaceMcb[best], geo.zoneStart, mftZoneEnd) == (lcn as int, count as int)
        invariant count <= remaining
      {
        OfferIsUsable(Now(), runIndex);
        var foundLcn, foundCount := freeSpaceMcb[runIndex].lcn, freeSpaceMcb[runIndex].count;
        if geo.zoneStart <= foundLcn < mftZoneEnd {
          foundCount := foundCount - (mftZoneEnd - foundLcn);
          foundLcn := mftZoneEnd;
        }
        if foundCount > remaining {
          return true, foundLcn, foundCount;
        } else if foundCount > count {
          lcn, count, best := foundLcn, foundCount, runIndex;
        }
        runIndex := runIndex + 1;
      }
      found := count > 0;
    }

    /** The search of the bitmap itself, which may take the MFT zone back for user files. */
    method SearchBitmap(a: Scb, toFill: nat, precedingLcn: int) returns (found: bool, lcn: nat, count: nat)
      requires Walkable(Now()) && 0 < toFill && -1 <= precedingLcn <= geo.total
      requires 0 <= lastBitmapHint <= geo.total
      modifies `mftZoneEnd, `reducedMft
      ensures Now() == old(Now()).(zoneEnd := mftZoneEnd, reduced := reducedMft) && Walkable(Now())
      ensures found ==> 0 < count && UsableRun(Now(), lcn, count)
      ensures !found ==> forall l :: !Usable(Now(), l)
      ensures mftZoneEnd != old(mftZoneEnd) || reducedMft != old(reducedMft) ==>
                a != MFT_SCB && reducedMft && NoneUsable(old(Now()), old(mftZoneEnd), geo.total) &&
                HalvesZone(old(Now()), mftZoneEnd)
      ensures var hint := if precedingLcn != UNUSED_LCN then precedingLcn
                          else if geo.zoneStart <= lastBitmapHint < old(mftZoneEnd) then old(mftZoneEnd)
                              else lastBitmapHint;
              var lo, hi := HintFrom(hint, old(mftZoneEnd)), PageEnd(hint, geo.total);
              !NoneUsable(old(Now()), lo, hi) ==>
                found && lo <= lcn && lcn + count <= hi && Best(old(Now()), lo, hi, toFill, count)
    {
      var hint := precedingLcn;
      if precedingLcn == UNUSED_LCN {
        hint := lastBitmapHint;
        if geo.zoneStart <= hint < mftZoneEnd {
          hint := mftZoneEnd;
        }
      }
      var fromZone;
      fromZone, lcn, count := FindFreeBitmapRun(toFill, hint);
      if count != 0 && fromZone && a != MFT_SCB {
        var reduced := ReduceMftZone();
        if reduced {
          fromZone, lcn, count := FindFreeBitmapRun(toFill, mftZoneEnd);
        }
      }
      found := count != 0;
    }

    /** The cache's answer for a hole: the run right after the cluster before it, or any cached run. */
    method PickFromCache(precedingLcn: int, remaining: nat) returns (found: bool, lcn: nat, count: nat)
      requires Walkable(Now()) && CacheGood(Now()) && -1 <= precedingLcn < geo.total
      requires 0 <= precedingLcn ==> bitmap[precedingLcn]
      ensures found ==> 0 < count && UsableRun(Now(), lcn, count)
      ensures 0 <= precedingLcn ==> (found <==> Mapped(freeSpaceMcb, precedingLcn + 1))
      ensures 0 <= precedingLcn && found ==> lcn == precedingLcn + 1
      ensures precedingLcn == UNUSED_LCN ==>
                Picks(freeSpaceMcb, geo.zoneStart, mftZoneEnd, remaining, found, lcn, count)
    {
      if precedingLcn != UNUSED_LCN {
        found, lcn, count := IsLcnInCachedFreeRun(precedingLcn + 1);
        assert found && lcn <= precedingLcn ==> Usable(Now(), precedingLcn);
      } else {
        found, lcn, count := PickCachedRun(remaining);
      }
    }

    /** One hole of an allocation: choose a run for it.  A hole with a cluster before it goes
        after that cluster if the cache says so; any other takes a cached run; failing that, the
        bitmap is searched, unless what is required has been allocated already. */
    method ChooseRun(a: Scb, cursor: nat, endingVcn: int, toFill: nat, precedingLcn: int, remaining: nat)
      returns (choice: Choice)
      requires Walkable(Now()) && CacheGood(Now()) && 0 < toFill <= remaining
      requires -1 <= precedingLcn < geo.total && 0 <= lastBitmapHint <= geo.total
      requires 0 <= precedingLcn ==> bitmap[precedingLcn]
      modifies `mftZoneEnd, `reducedMft
      ensures Now() == old(Now()).(zoneEnd := mftZoneEnd, reduced := reducedMft)
      ensures Walkable(Now()) && CacheGood(Now())
      ensures mftZoneEnd != old(mftZoneEnd) || reducedMft != old(reducedMft) ==>
                a != MFT_SCB && reducedMft && NoneUsable(old(Now()), old(mftZoneEnd), geo.total)
      ensures 0 <= precedingLcn && Mapped(freeSpaceMcb, precedingLcn + 1) ==>
                choice.Chosen? && choice.lcn == precedingLcn + 1
      ensures choice.Chosen? ==> 0 < choice.count <= toFill && UsableRun(Now(), choice.lcn, choice.count)
      ensures choice.GiveUp? ==> cursor > endingVcn
      ensures choice.NoSpace? ==> cursor <= endingVcn && forall l :: !Usable(Now(), l)
    {
      assert bitmap.Length == geo.total;
      hide NoneUsable, Walkable, CacheGood, UsableRun, Usable;
      var found, lcn, count := PickFromCache(precedingLcn, remaining);
      ghost var s := Now();
      if !found {
        if cursor > endingVcn {
          return GiveUp;
        }
        found, lcn, count := SearchBitmap(a, toFill, precedingLcn);
        CacheIgnores(s, Now());
        if !found {
          return NoSpace;
        }
      }
      if count > remaining {
        count := remaining;
      }
      if count > toFill {
        count := toFill;
      }
      choice := Chosen(lcn, count);
    }

    // ---------- allocating ----------

    /** The first half of a turn of the allocation loop: choose a run for the hole. */
    method SelectRun(ghost s0: State, ghost q: Request, a: Scb, cursor: nat, endingVcn: int, vcn: nat, toFill: nat,
                     precedingLcn: int, remaining: nat)
      returns (choice: Choice)
      requires Inv(Now()) && Filling(s0, Now(), q, cursor, remaining) && q.a == a
      requires cursor <= vcn && !Mapped(mcbs[a], vcn) && 0 < toFill <= remaining
      requires precedingLcn == if vcn == 0 then UNUSED_LCN else At(mcbs[a], vcn - 1)
      requires endingVcn == q.start + q.required - 1
      modifies `mftZoneEnd, `reducedMft
      ensures Inv(Now()) && Filling(s0, Now(), q, cursor, remaining)
      ensures choice.Chosen? ==> 0 < choice.count <= toFill && UsableRun(Now(), choice.lcn, choice.count)
      ensures choice.GiveUp? ==> cursor > endingVcn
      ensures choice.NoSpace? && BootAllocated(old(Now())) ==> vcn > endingVcn
      ensures 0 <= precedingLcn && Mapped(freeSpaceMcb, precedingLcn + 1) ==>
                choice.Chosen? && choice.lcn == precedingLcn + 1
    {
      ghost var s := Now();
      PrecedingIsInRange(s, a, vcn);
      choice := ChooseRun(a, cursor, endingVcn, toFill, precedingLcn, remaining);
      BookkeepingKeepsInv(s, Now());
      FillingIgnores(s0, s, Now(), q, cursor, remaining);
      if choice.NoSpace? && BootAllocated(s) && vcn <= endingVcn {
        RequiredHoleIsServed(s0, Now(), q, cursor, remaining, vcn);
        assert false;
      }
    }

    /** The second half: take the run, and move the hint if it was used. */
    method CommitRun(a: Scb, vcn: nat, precedingLcn: int, lcn: nat, count: nat)
      requires bitmap.Length == geo.total && a in mcbs && Clear(bitmap[..], lcn, count)
      modifies this, bitmap
      ensures Now() == Step(old(Now()), a, vcn, lcn, count, precedingLcn == UNUSED_LCN)
    {
      var ok := TakeRun(a, vcn, lcn, count);
      if precedingLcn == UNUSED_LCN {
        lastBitmapHint := lcn;
      }
    }

    /** One turn of the allocation loop. */
    method FillHole(ghost s0: State, ghost q: Request, a: Scb, cursor: nat, endingVcn: int, vcn: nat, toFill: nat,
                    precedingLcn: int, remaining: nat)
      returns (choice: Choice)
      requires Inv(Now()) && Filling(s0, Now(), q, cursor, remaining) && q.a == a != BAD_CLUSTER_SCB && a in mcbs
      requires NextHole(mcbs[a], cursor, vcn, toFill, q.start + q.desired) && toFill <= remaining
      requires precedingLcn == if vcn == 0 then UNUSED_LCN else At(mcbs[a], vcn - 1)
      requires endingVcn == q.start + q.required - 1
      modifies this, bitmap
      ensures Inv(Now())
      ensures choice.Chosen? ==> 0 < choice.count <= toFill
      ensures choice.Chosen? ==> Filling(s0, Now(), q, vcn + choice.count, remaining - choice.count)
      ensures !choice.Chosen? ==> Filling(s0, Now(), q, cursor, remaining) && mcbs == old(mcbs)
      ensures choice.GiveUp? ==> cursor > endingVcn
      ensures choice.NoSpace? && BootAllocated(old(Now())) ==> vcn > endingVcn
      ensures 0 <= precedingLcn && Mapped(old(freeSpaceMcb), precedingLcn + 1) ==>
                choice.Chosen? && choice.lcn == precedingLcn + 1
      ensures choice.Chosen? ==> At(mcbs[a], vcn) == choice.lcn
      ensures choice.Chosen? ==> TakenOut(old(freeSpaceMcb), freeSpaceMcb, choice.lcn, choice.count)
      ensures lastBitmapHint ==
              if choice.Chosen? && precedingLcn == UNUSED_LCN then choice.lcn else old(lastBitmapHint)
    {
      hide Inv, Filling, TakenOut;
      choice := SelectRun(s0, q, a, cursor, endingVcn, vcn, toFill, precedingLcn, remaining);
      if choice.Chosen? {
        RunTakenOut(Now(), choice.lcn, choice.count);
        HoleFront(mcbs[a], cursor, vcn, toFill, choice.count, q.start + q.desired);
        StepKeeps(s0, Now(), q, cursor, remaining, vcn, choice.lcn, choice.count, precedingLcn == UNUSED_LCN);
        CommitRun(a, vcn, precedingLcn, choice.lcn, choice.count);
      }
    }

    /** Reloading the counts and the cache, if they are flagged as out of date. */
    method Refresh() returns (ok: bool)
      requires Inv(Now())
      modifies `freeSpaceMcb, `freeClusters, `reloadFreeClusters
      ensures ok && Inv(Now()) && !reloadFreeClusters && bitmap.Length == geo.total
      ensures Now() == old(Now()).(free := CountClear(old(Now()).bits), cache := freeSpaceMcb, reload := false)
      ensures if old(reloadFreeClusters) then Refilled(old(Now()), freeSpaceMcb) else freeSpaceMcb == old(freeSpaceMcb)
    {
      hide Refilled;
      ok := true;
      if reloadFreeClusters {
        ghost var s := Now();
        ok := ScanEntireBitmap();
        BookkeepingKeepsInv(s, Now());
      }
    }

    /** The allocation loop: fill holes in order until there are none, the limit of runs is reached,
        or only wishes are left and the cache has nothing for them. */
    method FillHoles(ghost s0: State, ghost q: Request, a: Scb, startingVcn: nat, allocateAll: bool, endingVcn: int,
                     desiredEndingVcn: int, desired: nat)
      returns (full: bool, tookSome: bool, gotAHole: bool, cursor: nat, ahead: int, ghost turns: nat)
      requires Inv(Now()) && a in mcbs && a != BAD_CLUSTER_SCB
      requires q.a == a && q.start == startingVcn
      requires endingVcn == q.start + q.required - 1 && desiredEndingVcn == q.start + q.desired - 1
      requires Filling(s0, Now(), q, startingVcn, desired)
      modifies this, bitmap
      ensures Inv(Now()) && a in mcbs
      ensures exists remaining :: Filling(s0, Now(), q, cursor, remaining)
      ensures !gotAHole ==> forall v | cursor <= v <= desiredEndingVcn :: Mapped(mcbs[a], v)
      ensures !full && q.required > 0 && q.desired > 0 ==> cursor > startingVcn || !gotAHole
      ensures !full && allocateAll && gotAHole ==> cursor > endingVcn
      ensures full && BootAllocated(s0) ==>
                q.required < q.desired && forall v | startingVcn <= v <= endingVcn :: Mapped(mcbs[a], v)
      ensures !tookSome ==> mcbs == old(mcbs) && !gotAHole
      ensures !allocateAll ==> turns <= MAXIMUM_RUNS_AT_ONCE
      ensures !full && gotAHole ==> cursor > endingVcn || (!allocateAll && turns == MAXIMUM_RUNS_AT_ONCE)
    {
      hide Inv, Filling, NextHole, BootAllocated, Valid;
      full, tookSome, gotAHole, cursor, ahead := false, false, true, startingVcn, -1;
      var remaining: int := desired;
      var loopCount := 0;
      turns := 0;
      while allocateAll || loopCount < MAXIMUM_RUNS_AT_ONCE
        invariant Inv(Now()) && a in mcbs
        invariant Filling(s0, Now(), q, cursor, remaining)
        invariant turns == loopCount && (!allocateAll ==> loopCount <= MAXIMUM_RUNS_AT_ONCE)
        invariant gotAHole && (loopCount > 0 ==> cursor > startingVcn && tookSome)
        invariant loopCount == 0 ==> !tookSome && mcbs == old(mcbs)
        decreases remaining
      {
        FillingFacts(s0, Now(), q, cursor, remaining);
        var vcn, toFill, precedingLcn;
        gotAHole, vcn, toFill, precedingLcn := GetNextHoleToFill(mcbs[a], cursor, desiredEndingVcn);
        if !gotAHole {
          return;
        }
        tookSome := true;
        NextHoleFound(mcbs[a], cursor, vcn, toFill, desiredEndingVcn + 1);
        TurnFacts(s0, Now(), q, cursor, remaining, vcn, toFill);
        var choice := FillHole(s0, q, a, cursor, endingVcn, vcn, toFill, precedingLcn, remaining);
        match choice
        case NoSpace =>
          full := true;
          return;
        case GiveUp =>
          ahead := *;  // the numbers of some cached run that was looked at and not taken
          return;
        case Chosen(lcn, count) =>
          ahead := lcn + count;
          cursor := vcn + count;
          remaining := remaining - count;
          loopCount := loopCount + 1;
          turns := turns + 1;
          FillingFacts(s0, Now(), q, cursor, remaining);
      }
    }

    /** The tail of NtfsAllocateClusters: how much of the range ended up mapped. */
    method Achieved(m: seq<Run>, startingVcn: nat, desired: nat, gotAHole: bool, ghost cursor: nat) returns (got: nat)
      requires Valid(m) && startingVcn <= cursor && forall v | startingVcn <= v < cursor :: Mapped(m, v)
      requires !gotAHole ==> forall v | cursor <= v < startingVcn + desired :: Mapped(m, v)
      ensures got <= desired && forall v | startingVcn <= v < startingVcn + got :: Mapped(m, v)
      ensures got == desired || (cursor <= startingVcn + got && !Mapped(m, startingVcn + got))
      ensures !gotAHole ==> got == desired
    {
      got := desired;
      if gotAHole {
        var found, vcn, count, precedingLcn := GetNextHoleToFill(m, startingVcn, startingVcn + desired - 1);
        if found {
          assert !Mapped(m, vcn);
          got := vcn - startingVcn;
        }
      }
    }

    /** The read-ahead after an allocation. */
    method ReadAhead(ahead: int)
      requires Inv(Now()) && !reloadFreeClusters
      modifies `freeSpaceMcb
      ensures Inv(Now()) && Now() == old(Now()).(cache := freeSpaceMcb)
      ensures if 0 <= ahead < geo.total then ReadsAhead(old(Now()), ahead, freeSpaceMcb)
              else freeSpaceMcb == old(freeSpaceMcb)
    {
      hide ReadsAhead;
      if 0 <= ahead < geo.total {
        ghost var s := Now();
        var ok := ReadAheadCachedBitmap(ahead);
        BookkeepingKeepsInv(s, Now());
      }
    }

    /** NtfsAllocateClusters, once the request is let in. */
    method AllocateAdmitted(a: Scb, startingVcn: nat, allocateAll: bool, clusterCount: nat, desired: nat)
      returns (full: bool, tookSome: bool, got: nat)
      requires Inv(Now()) && !reloadFreeClusters && a in mcbs && a != BAD_CLUSTER_SCB
      requires HoleCount(mcbs[a], startingVcn, clusterCount) + deallocatedClusters <= freeClusters
      modifies this, bitmap
      ensures Inv(Now()) && !reloadFreeClusters && SameElsewhere(old(Now()), Now(), a)
      ensures MapGrows(old(mcbs[a]), mcbs[a], Request(a, startingVcn, clusterCount, desired))
      ensures old(freeClusters) - freeClusters ==
              HoleCount(old(mcbs[a]), startingVcn, desired) - HoleCount(mcbs[a], startingVcn, desired)
      ensures !full ==> got <= desired && forall v | startingVcn <= v < startingVcn + got :: Mapped(mcbs[a], v)
      ensures !full && 0 < clusterCount && 0 < desired ==> 0 < got
      ensures !full && allocateAll ==> got == desired || clusterCount <= got
      ensures !full && !tookSome ==> got == desired && mcbs == old(mcbs)
      ensures full && BootAllocated(old(Now())) ==>
                clusterCount < desired && forall v | startingVcn <= v < startingVcn + clusterCount :: Mapped(mcbs[a], v)
      ensures !full && got < clusterCount && got < desired ==>
                old(freeClusters) - freeClusters ==
                HoleCount(old(mcbs[a]), startingVcn, clusterCount) -
                HoleCount(mcbs[a], startingVcn + got, clusterCount - got)
    {
      hide Inv, Filling, HoleCount, SameElsewhere, MapGrows, Valid, BootAllocated;
      ghost var q := Request(a, startingVcn, clusterCount, desired);
      ghost var s0 := Now();
      FillStart(s0, q);
      FillingFacts(s0, s0, q, startingVcn, HoleCount(mcbs[a], startingVcn, desired));
      var remaining := ScanMcbForRealClusterCount(mcbs[a], startingVcn, startingVcn + desired - 1);
      var gotAHole, cursor, ahead;
      ghost var turns;
      full, tookSome, gotAHole, cursor, ahead, turns :=
        FillHoles(s0, q, a, startingVcn, allocateAll, startingVcn + clusterCount - 1, startingVcn + desired - 1,
                  remaining);
      ghost var left :| Filling(s0, Now(), q, cursor, left);
      FillingFacts(s0, Now(), q, cursor, left);
      FillingDone(s0, Now(), q, cursor, left);
      got := 0;
      if !full {
        got := Achieved(mcbs[a], startingVcn, desired, gotAHole, cursor);
        if got < clusterCount && got < desired {
          FillingLeft(s0, Now(), q, cursor, left, got);
        }
        if tookSome {
          ghost var s := Now();
          ReadAhead(ahead);
          FillingIgnores(s0, s, Now(), q, cursor, left);
          FillingDone(s0, Now(), q, cursor, left);
        }
      }
    }

    /** NtfsAllocateClusters without its defragmenting entry.  It keeps every invariant of the
        volume, changes no mapping, never meets a bit that is already set, and maps what it says it
        maps; once a request is let in, it can only be refused after everything required is mapped. */
    method AllocateClusters(a: Scb, startingVcn: nat, allocateAll: bool, clusterCount: nat, desired: nat,
                            limits: Limits)
      returns (status: Status, tookSome: bool, got: nat)
      requires Inv(Now()) && a in mcbs && a != BAD_CLUSTER_SCB
      modifies this, bitmap
      ensures Inv(Now()) && a in mcbs && SameElsewhere(old(Now()), Now(), a)
      ensures MapGrows(old(mcbs[a]), mcbs[a], Request(a, startingVcn, clusterCount, desired))
      ensures freeClusters == CountClear(old(Now()).bits) -
                              (HoleCount(old(mcbs[a]), startingVcn, desired) - HoleCount(mcbs[a], startingVcn, desired))
      ensures status == Success ==>
                got <= desired && forall v | startingVcn <= v < startingVcn + got :: Mapped(mcbs[a], v)
      ensures status == Success && 0 < clusterCount && 0 < desired ==> 0 < got
      ensures status == Success && allocateAll ==> got == desired || clusterCount <= got
      ensures status == Success && !tookSome ==> got == desired && mcbs == old(mcbs)
      ensures status != DiskCorrupt
      ensures var admitted := Admit(old(Now()), Request(a, startingVcn, clusterCount, desired), limits);
              && (admitted != Success ==> status == admitted && mcbs == old(mcbs) && Now().bits == old(Now()).bits)
              && (admitted == Success ==> status == Success || status == DiskFull)
              && (admitted == Success && status == DiskFull && BootAllocated(old(Now())) ==>
                    clusterCount < desired &&
                    forall v | startingVcn <= v < startingVcn + clusterCount :: Mapped(mcbs[a], v))
      ensures var free, count := CountClear(old(Now()).bits), HoleCount(old(mcbs[a]), startingVcn, clusterCount);
              var full := count + limits.irpDeallocated > free ||
                          (limits.checkReserved && count + limits.reservedElsewhere > free);
              && (full ==> status == DiskFull && mcbs == old(mcbs))
              && (!full && free < old(deallocatedClusters) + count ==> status == LogFileFull && mcbs == old(mcbs))
              && (status == LogFileFull ==> !full && free < old(deallocatedClusters) + count)
      ensures !reloadFreeClusters
      ensures status == Success && got < clusterCount && got < desired ==>
                CountClear(old(Now()).bits) - freeClusters ==
                HoleCount(old(mcbs[a]), startingVcn, clusterCount) -
                HoleCount(mcbs[a], startingVcn + got, clusterCount - got)
    {
      hide Inv, HoleCount, CountClear, Valid;
      tookSome, got := false, 0;
      ghost var s := Now();
      var ok := Refresh();
      ghost var s0 := Now();
      StreamIsValid(s0, a);
      var count := ScanMcbForRealClusterCount(mcbs[a], startingVcn, startingVcn + clusterCount - 1);
      if count + limits.irpDeallocated > freeClusters {
        status := DiskFull;
      } else if limits.checkReserved && count + limits.reservedElsewhere > freeClusters {
        status := DiskFull;
      } else if freeClusters < deallocatedClusters + count {
        status := LogFileFull;
      } else {
        var full;
        full, tookSome, got := AllocateAdmitted(a, startingVcn, allocateAll, clusterCount, desired);
        status := if full then DiskFull else Success;
      }
    }

    /** NtfsAddAllocation's loop: allocate in as many turns as the limit on runs makes necessary.
        The caller's own freed clusters count only in the first turn; a checkpoint ends each.  A request
        that is let in ends with all that is required mapped, and succeeds if nothing more was wished for:
        no later turn is refused. */
    method AddAllocation(a: Scb, startingVcn: nat, userData: bool, clusterCount: nat, desired: nat, limits: Limits)
      returns (status: Status)
      requires Inv(Now()) && a in mcbs && a != BAD_CLUSTER_SCB && clusterCount <= desired
      modifies this, bitmap
      ensures Inv(Now())
      ensures Added(old(Now()), Now(), Request(a, startingVcn, clusterCount, desired), limits, status)
    {
      hide Inv, HoleCount, CountClear, Valid, Admit, BootAllocated, SameElsewhere, MapGrows, Adding, Added;
      ghost var s0, q := Now(), Request(a, startingVcn, clusterCount, desired);
      var vcn, count, wanted, limit := startingVcn, clusterCount, desired, limits;
      AddingStart(s0, q, limits);
      while true
        invariant Inv(Now()) && a in mcbs && 0 <= count <= wanted
        invariant Adding(s0, Now(), q, limits, Request(a, vcn, count, wanted), limit)
        decreases count
      {
        ghost var s1, r := Now(), Request(a, vcn, count, wanted);
        var tookSome, got;
        status, tookSome, got := AllocateClusters(a, vcn, !userData, count, wanted, limit);
        if status != Success {
          AddingEnd(s0, s1, Now(), q, limits, r, limit, status);
          return;
        }
        if !tookSome {
          got := count;
        }
        if got < count {
          AddingTurn(s0, s1, Now(), q, limits, r, limit, got);
          vcn := vcn + got;
          count := count - got;
          wanted := count;
          limit := limit.(irpDeallocated := 0);
        } else {
          AddingEnd(s0, s1, Now(), q, limits, r, limit, status);
          return;
        }
      }
    }

    /** NtfsDeallocateClusters: everything mapped in the range is given back, run by run. */
    method DeallocateClusters(a: Scb, startingVcn: nat, endingVcn: int) returns (status: Status, gaveSome: bool)
      requires Inv(Now()) && a in mcbs
      modifies this, bitmap
      ensures status == Success && Inv(Now()) && !reloadFreeClusters
      ensures Emptying(old(Now()).(free := CountClear(old(Now()).bits), cache := freeSpaceMcb, reload := false),
                       Now(), a,
                       startingVcn, if endingVcn < startingVcn then startingVcn else endingVcn + 1)
      ensures !gaveSome ==> forall v | startingVcn <= v <= endingVcn :: !Mapped(old(mcbs[a]), v)
      ensures RemembersMore(old(Now()), Now()) && mcbs.Keys == old(mcbs.Keys)
    {
      hide Inv, Emptying, HoleCount, CountClear, Valid, RemembersMore;
      status, gaveSome := Success, false;
      var ok := Refresh();
      ghost var s0 := Now();
      StreamIsValid(s0, a);
      EmptyStart(s0, a, startingVcn);
      EmptyingRemembers(old(Now()), s0, s0, a, startingVcn, startingVcn);
      var vcn := startingVcn;
      while vcn <= endingVcn
        invariant startingVcn <= vcn && a in mcbs && |Now().bits| == geo.total
        invariant Inv(Now()) && Emptying(s0, Now(), a, startingVcn, vcn) && freeSpaceMcb == s0.cache
        invariant RemembersMore(old(Now()), Now()) && mcbs.Keys == old(mcbs.Keys)
        invariant if endingVcn < startingVcn then vcn == startingVcn else vcn <= endingVcn + 1
        invariant !reloadFreeClusters
        invariant !gaveSome ==> mcbs == old(mcbs) && forall v | startingVcn <= v < vcn :: !Mapped(mcbs[a], v)
      {
        StreamIsValid(Now(), a);
        LookupDescribes(mcbs[a], 0, vcn);
        match Lookup(mcbs[a], vcn)
        case Miss =>
          EmptySkip(s0, Now(), a, startingVcn, vcn, endingVcn + 1 - vcn);
          return;
        case Hit(lcn, size) =>
          var count := size;
          if lcn != UNUSED_LCN {
            if vcn + count > endingVcn {
              count := endingVcn - vcn + 1;
            }
            RunIsReleasable(Now(), a, vcn, lcn, count);
            EmptyStep(s0, Now(), a, startingVcn, vcn, lcn, count);
            ReleaseKeepsInv(Now(), a, vcn, lcn, count);
            ok := GiveRun(a, vcn, lcn, count);
            gaveSome := true;
            vcn := vcn + count;
            EmptyingRemembers(old(Now()), s0, Now(), a, startingVcn, vcn);
          } else {
            var skip := if vcn + count > endingVcn then endingVcn + 1 - vcn else count;
            EmptySkip(s0, Now(), a, startingVcn, vcn, skip);
            vcn := vcn + skip;
          }
      }
    }

    /** NtfsAddBadCluster: the cluster is set in the bitmap and mapped to itself in the bad cluster
        file.  A cluster that is in use already is reported as corruption. */
    method AddBadCluster(lcn: nat) returns (status: Status)
      requires Inv(Now()) && BAD_CLUSTER_SCB in mcbs && lcn < geo.total
      modifies this, bitmap
      ensures status == Success || status == DiskCorrupt
      ensures status == Success <==> !old(bitmap[lcn])
      ensures status == Success ==> Now() == Claim(old(Now()), BAD_CLUSTER_SCB, lcn, lcn, 1)
      ensures status == DiskCorrupt ==> Now() == old(Now()).(cache := freeSpaceMcb)
      ensures Inv(Now()) && TakenOut(old(freeSpaceMcb), freeSpaceMcb, lcn, 1)
      ensures status == Success ==>
                bitmap[lcn] && freeClusters == old(freeClusters) - 1 && At(mcbs[BAD_CLUSTER_SCB], lcn) == lcn
    {
      RunTakenOut(Now(), lcn, 1);
      hide TakenOut, Remove, Add, Claimable;
      if bitmap[lcn] {
        ghost var s := Now();
        UncacheKeepsInv(s, lcn, 1);
        RemoveFreeRun(lcn, 1);
        var ok := AllocateBitmapRun(lcn, 1);
        assert s.bits[lcn];
        return DiskCorrupt;
      }
      BadClusterIsClaimable(Now(), lcn);
      ClaimKeepsInv(Now(), BAD_CLUSTER_SCB, lcn, lcn, 1);
      ClaimAt(Now(), BAD_CLUSTER_SCB, lcn, lcn, 1, lcn);
      var ok := TakeRun(BAD_CLUSTER_SCB, lcn, lcn, 1);
      return Success;
    }

    /** A checkpoint's release of recently freed clusters.  On a volume that is not clean it goes on holding
        back what was in the active list, and lets go what was only in the prior one; on a clean one it lets
        all go. */
    method TakeCheckpoint(clean: bool)
      requires Inv(Now())
      modifies `priorDeallocated, `activeDeallocated, `deallocatedClusters
      ensures Inv(Now()) && Now() == Checkpoint(old(Now()), clean)
      ensures forall l :: InRecent(Now(), l) <==> !clean && Mapped(old(activeDeallocated.runs), l)
      ensures forall l :: !Mapped(activeDeallocated.runs, l)
      ensures deallocatedClusters == if clean then 0 else old(activeDeallocated.count)
    {
      ghost var s := Now();
      CheckpointKeepsInv(s, clean);
      forall l
        ensures InRecent(Checkpoint(s, clean), l) <==> !clean && Mapped(s.active.runs, l)
        ensures !Mapped(Checkpoint(s, clean).active.runs, l)
      {
        CheckpointLets(s, clean, l);
      }
      CheckpointLets(s, clean, 0);
      hide Inv;
      if priorDeallocated.count != 0 {
        deallocatedClusters := deallocatedClusters - priorDeallocated.count;
        priorDeallocated := Recent([], 0);
      }
      if activeDeallocated.count != 0 {
        if clean {
          deallocatedClusters := deallocatedClusters - activeDeallocated.count;
          activeDeallocated := Recent([], 0);
        } else {
          priorDeallocated, activeDeallocated := activeDeallocated, priorDeallocated;
        }
      }
    }

    /** Any run of operations on a mounted volume keeps the invariant: no cluster is cross-linked or
        lost from the count, and the cache never claims too much.  A raised status ends one
        operation and the next begins.  And what was in the active list is held back, and so not usable,
        until the run has taken two checkpoints, or one of a clean volume. */
    method Replay(ops: seq<Operation>)
      requires Inv(Now()) && forall i | 0 <= i < |ops| :: ops[i].Addresses(mcbs.Keys, geo.total)
      modifies this, bitmap
      ensures Inv(Now()) && mcbs.Keys == old(mcbs.Keys)
      ensures Held(old(Now()), Now(), Checkpoints(ops), HasClean(ops))
    {
      hide Inv, HoleCount, CountClear, Admit, MapGrows, Held, Checkpoints, HasClean, RemembersMore, Emptying;
      ghost var s0 := Now();
      HeldAtFirst(s0);
      assert ops[..0] == [];
      for i := 0 to |ops|
        invariant Inv(Now()) && mcbs.Keys == old(mcbs.Keys)
        invariant Held(s0, Now(), Checkpoints(ops[..i]), HasClean(ops[..i]))
      {
        ghost var s := Now();
        CheckpointsSnoc(ops, i);
        match ops[i]
        case LogCheckpoint(clean) =>
          HeldOver(s0, s, Checkpoints(ops[..i]), HasClean(ops[..i]), clean);
          TakeCheckpoint(clean);
        case _ =>
          Perform(ops[i]);
          HeldOn(s0, s, Now(), Checkpoints(ops[..i]), HasClean(ops[..i]));
      }
      assert ops[..|ops|] == ops;
    }

    /** One operation other than a checkpoint. */
    method Perform(op: Operation)
      requires Inv(Now()) && op.Addresses(mcbs.Keys, geo.total) && !op.LogCheckpoint?
      modifies this, bitmap
      ensures Inv(Now()) && mcbs.Keys == old(mcbs.Keys) && RemembersMore(old(Now()), Now())
    {
      ghost var s := Now();
      RemembersItself(s);
      hide Inv, HoleCount, CountClear, Admit, MapGrows, Emptying, RemembersMore;
      match op
      case Allocate(a, startingVcn, all, count, desired, limits) =>
        var status, tookSome, got := AllocateClusters(a, startingVcn, all, count, desired, limits);
        SameRemembers(s, Now());
      case Extend(a, startingVcn, userData, count, more, limits) =>
        var status := AddAllocation(a, startingVcn, userData, count, count + more, limits);
        SameRemembers(s, Now());
      case Deallocate(a, startingVcn, endingVcn) =>
        var status, gaveSome := DeallocateClusters(a, startingVcn, endingVcn);
      case AddBad(lcn) =>
        var status := AddBadCluster(lcn);
        SameRemembers(s, Now());
      case FlagCounts =>
        FlagForReload();
        SameRemembers(s, Now());
      case Rescan =>
        FlagForReload();
        var ok := Refresh();
        SameRemembers(s, Now());
    }

    /** Set the reload flag, as a volume purge does: the count and the cache are not to be trusted. */
    method FlagForReload()
      requires Inv(Now())
      modifies `reloadFreeClusters
      ensures Inv(Now()) && Now() == old(Now()).(reload := true)
    {
      ghost var s := Now();
      reloadFreeClusters := true;
      assert forall l {:trigger InRecent(Now(), l)} :: InRecent(Now(), l) == InRecent(s, l);
    }
  }

  /** The operations of a run. */
  datatype Operation =
    | Allocate(a: Scb, startingVcn: nat, all: bool, count: nat, desired: nat, limits: Limits)
    | Extend(a: Scb, startingVcn: nat, userData: bool, count: nat, more: nat, limits: Limits)
    | Deallocate(a: Scb, startingVcn: nat, endingVcn: int)
    | AddBad(lcn: nat)
    | LogCheckpoint(clean: bool)
    | FlagCounts
    | Rescan
  {
    /** The operation names a stream of the volume, or a cluster of it. */
    predicate Addresses(streams: set<Scb>, total: nat) {
      match this
      case Allocate(a, _, _, _, _, _) => a in streams && a != BAD_CLUSTER_SCB
      case Extend(a, _, _, _, _, _) => a in streams && a != BAD_CLUSTER_SCB
      case Deallocate(a, _, _) => a in streams
      case AddBad(lcn) => BAD_CLUSTER_SCB in streams && lcn < total
      case _ => true
    }
  }

  /** A volume at mount, before its bitmap is scanned. */
  function Mounted(geo: Geometry, bits: seq<bool>, mcbs: map<Scb, seq<Run>>): State {
    State(geo, bits, 0, [], Recent([], 0), Recent([], 0), 0, geo.FullZoneEnd(), false, true, 0, mcbs)
  }

  lemma MountedInv(geo: Geometry, bits: seq<bool>, mcbs: map<Scb, seq<Run>>)
    requires geo.Sound() && |bits| == geo.total && StreamsOk(Mounted(geo, bits, mcbs)) && NoCrossLinks(mcbs)
    ensures Inv(Mounted(geo, bits, mcbs))
  {
    assert RecentOk(Recent([], 0));
  }

  /** The invariant has models: a volume of 64 clusters with its first one allocated, and room for more. */
  lemma SomeVolume()
    ensures exists s :: Inv(s) && !s.reload && BootAllocated(s) && Usable(s, 1) && Walkable(s) && CacheGood(s)
  {
    var bits := seq(64, i => i == 0);
    var mounted := Mounted(Geometry(64, 1, 0), bits, map[]);
    var s := mounted.(free := CountClear(bits), reload := false);
    MountedInv(s.geo, bits, map[]);
    assert Walkable(s) && s.bits[0] && !s.bits[1] && At([], 1) == UNUSED_LCN;
    NothingCached(s);
    BookkeepingKeepsInv(mounted, s);
  }

  /** Taking a range out of the cache keeps the invariant. */
  lemma UncacheKeepsInv(s: State, lcn: nat, n: nat)
    requires Inv(s)
    ensures Inv(s.(cache := Remove(s.cache, lcn, n)))
  {
    var t := s.(cache := Remove(s.cache, lcn, n));
    CacheRemove(s.cache, lcn, n);
    assert forall l {:trigger InRecent(t, l)} :: InRecent(t, l) == InRecent(s, l);
    if !s.reload {
      forall l | Mapped(t.cache, l) ensures Usable(t, l) {
        assert Mapped(s.cache, l) && Usable(s, l);
      }
    }
  }

  /** Where a walk over the bitmap's pages stands after `n` steps. */
  function WalkAfter(n: nat, total: nat): (r: nat)
    ensures r <= total
  {
    if n == 0 then 0 else PageEnd(WalkAfter(n - 1, total), total)
  }

  lemma {:induction false} WalkProgress(n: nat, total: nat)
    ensures n <= WalkAfter(n, total) || WalkAfter(n, total) == total
  {
    if n > 0 {
      WalkProgress(n - 1, total);
    }
  }

  /** The zone must not reach past the volume: the walk from the start of the disk to the end of
      the zone ends exactly if it does not.  Mounting rounds the zone's end up and does not clamp
      it, so this is a condition on the volume (`Geometry.Sound`). */
  lemma ZoneWalkEnds(total: nat, zoneEnd: nat)
    ensures (exists n :: WalkAfter(n, total) >= zoneEnd) <==> zoneEnd <= total
  {
    if zoneEnd <= total {
      WalkProgress(total, total);
      assert WalkAfter(total, total) >= zoneEnd;
    }
  }

  /** A volume of 1000 clusters whose MFT starts at cluster 900 is mounted with such a zone. */
  lemma ZoneMayOverrun()
    ensures var g := Geometry(1000, 1, 896); g.zoneStart == 900 - 900 % 32 && g.FullZoneEnd() > g.total
    ensures forall n :: WalkAfter(n, 1000) < Geometry(1000, 1, 896).FullZoneEnd()
  {
    ZoneWalkEnds(1000, Geometry(1000, 1, 896).FullZoneEnd());
  }

  /** A bad cluster that is clear in the bitmap may be claimed: it is mapped nowhere. */
  lemma BadClusterIsClaimable(s: State, lcn: nat)
    requires Inv(s) && BAD_CLUSTER_SCB in s.mcbs && lcn < s.geo.total && !s.bits[lcn]
    ensures Claimable(s, BAD_CLUSTER_SCB, lcn, lcn, 1)
  {
    var m := s.mcbs[BAD_CLUSTER_SCB];
    assert Mapped(m, lcn) ==> At(m, lcn) == lcn;
  }

  /** A looked-up run, cut to the range, may be released. */
  lemma RunIsReleasable(s: State, a: Scb, vcn: int, lcn: int, n: nat)
    requires Inv(s) && a in s.mcbs && 0 < n && 0 <= lcn
    requires forall v | vcn <= v < vcn + n :: At(s.mcbs[a], v) == lcn + (v - vcn)
    ensures Releasable(s, a, vcn, lcn, n) && AllSet(s.bits, lcn, n)
    ensures |Release(s, a, vcn, lcn, n).bits| == s.geo.total
  {
    ReleasedClusters(s, a, vcn, lcn, n);
  }

  /** Growth over two allocations in a row. */
  lemma GrowsAgain(s0: State, s1: State, s2: State, q: Request, r: Request)
    requires SameElsewhere(s0, s1, q.a) && SameElsewhere(s1, s2, q.a) && r.a == q.a
    requires MapGrows(s0.mcbs[q.a], s1.mcbs[q.a], q) && MapGrows(s1.mcbs[q.a], s2.mcbs[q.a], r)
    requires q.start <= r.start && r.start + r.desired <= q.start + q.desired
    ensures SameElsewhere(s0, s2, q.a) && MapGrows(s0.mcbs[q.a], s2.mcbs[q.a], q)
    ensures forall v | Mapped(s1.mcbs[q.a], v) :: Mapped(s2.mcbs[q.a], v)
  {
    var m0, m1, m2 := s0.mcbs[q.a], s1.mcbs[q.a], s2.mcbs[q.a];
    forall v
      ensures Mapped(m0, v) ==> At(m2, v) == At(m0, v)
      ensures Mapped(m2, v) && !Mapped(m0, v) ==> q.start <= v < q.start + q.desired
      ensures Mapped(m1, v) ==> Mapped(m2, v)
    {
      assert Mapped(m0, v) ==> At(m1, v) == At(m0, v);
      assert Mapped(m1, v) ==> At(m2, v) == At(m1, v);
    }
  }

  lemma StreamIsValid(s: State, a: Scb)
    requires Inv(s) && a in s.mcbs
    ensures Valid(s.mcbs[a])
  {
  }

  /** What the caller brings to an allocation: clusters freed earlier in its own transaction, and, if
      reservations count against it, the volume's reserved clusters less the stream's reserved bytes.  That
      difference is taken of unlike units; `Reservation.ReservedElsewhere` says when that is no matter. */
  datatype Limits = Limits(irpDeallocated: nat, checkReserved: bool, reservedElsewhere: int)

  /** Whether a request is let in, judged on the true number of free clusters. */
  function Admit(s: State, q: Request, limits: Limits): Status
    requires q.a in s.mcbs
  {
    var free := CountClear(s.bits);
    var count := HoleCount(s.mcbs[q.a], q.start, q.required);
    if count + limits.irpDeallocated > free then DiskFull
    else if limits.checkReserved && count + limits.reservedElsewhere > free then DiskFull
    else if free < s.deallocated + count then LogFileFull
    else Success
  }

  /** An allocation sets no bit of the boot clusters free. */
  lemma BootStays(s: State, t: State, a: Scb)
    requires Inv(s) && SameElsewhere(s, t, a) && |t.bits| == t.geo.total
    ensures BootAllocated(s) ==> BootAllocated(t)
  {
  }

  /** What is left of an admitted request is admitted: the free clusters went down by what is required no
      more. */
  lemma StillAdmitted(s: State, t: State, q: Request, r: Request, limits: Limits, limits': Limits)
    requires Inv(s) && Inv(t) && !t.reload && q.a in s.mcbs && r.a in t.mcbs && t.deallocated == s.deallocated
    requires Admit(s, q, limits) == Success
    requires limits' == limits.(irpDeallocated := 0)
    requires CountClear(s.bits) - t.free ==
               HoleCount(s.mcbs[q.a], q.start, q.required) - HoleCount(t.mcbs[r.a], r.start, r.required)
    ensures Admit(t, r, limits') == Success
  {
    hide HoleCount, CountClear;
  }

  /** What a request for a range comes to: other streams and mappings are as they were; a request that is
      not let in changes nothing; one that is let in ends with all that is required mapped, and can only
      be refused for what it wished for beyond that. */
  ghost predicate Added(s0: State, s: State, q: Request, limits: Limits, status: Status) {
    && SameElsewhere(s0, s, q.a) && MapGrows(s0.mcbs[q.a], s.mcbs[q.a], q) && status != DiskCorrupt
    && (status == Success ==> MappedIn(s.mcbs[q.a], q.start, q.required))
    && (Admit(s0, q, limits) != Success ==> status == Admit(s0, q, limits) && s.mcbs == s0.mcbs)
    && (Admit(s0, q, limits) == Success && |s0.bits| == s0.geo.total && BootAllocated(s0) ==>
          && (status == Success || (status == DiskFull && q.required < q.desired))
          && MappedIn(s.mcbs[q.a], q.start, q.required))
  }

  ghost predicate MappedIn(m: seq<Run>, start: int, n: int) { forall v | start <= v < start + n :: Mapped(m, v) }

  /** Where the loop of a request stands: `r` is what is left of it, and is let in as it was. */
  ghost predicate Adding(s0: State, s: State, q: Request, limits: Limits, r: Request, limit: Limits) {
    && SameElsewhere(s0, s, q.a) && MapGrows(s0.mcbs[q.a], s.mcbs[q.a], q) && r.a == q.a
    && q.start <= r.start && r.required <= r.desired && r.start + r.required == q.start + q.required
    && r.start + r.desired <= q.start + q.desired && MappedIn(s.mcbs[q.a], q.start, r.start - q.start)
    && Admit(s, r, limit) == Admit(s0, q, limits)
    && ((r == q && s.mcbs == s0.mcbs) || (r.desired == r.required && Admit(s0, q, limits) == Success))
  }

  lemma AddingStart(s: State, q: Request, limits: Limits)
    requires q.a in s.mcbs && q.required <= q.desired
    ensures Adding(s, s, q, limits, q, limits)
  {
  }

  /** Another turn. */
  lemma AddingTurn(s0: State, s: State, t: State, q: Request, limits: Limits, r: Request, limit: Limits, got: nat)
    requires Inv(s) && Inv(t) && !t.reload && Adding(s0, s, q, limits, r, limit) && 0 < got < r.required
    requires SameElsewhere(s, t, q.a) && MapGrows(s.mcbs[q.a], t.mcbs[q.a], r) && MappedIn(t.mcbs[q.a], r.start, got)
    requires CountClear(s.bits) - t.free ==
             HoleCount(s.mcbs[q.a], r.start, r.required) - HoleCount(t.mcbs[q.a], r.start + got, r.required - got)
    requires Admit(s, r, limit) == Success
    ensures Adding(s0, t, q, limits, Request(q.a, r.start + got, r.required - got, r.required - got),
                   limit.(irpDeallocated := 0))
  {
    hide HoleCount, CountClear, Inv, Admit;
    GrowsAgain(s0, s, t, q, r);
    StillAdmitted(s, t, r, Request(q.a, r.start + got, r.required - got, r.required - got), limit,
                  limit.(irpDeallocated := 0));
  }

  /** The last turn. */
  lemma AddingEnd(s0: State, s: State, t: State, q: Request, limits: Limits, r: Request, limit: Limits, status: Status)
    requires Inv(s) && Inv(s0) && Adding(s0, s, q, limits, r, limit) && status != DiskCorrupt
    requires SameElsewhere(s, t, q.a) && MapGrows(s.mcbs[q.a], t.mcbs[q.a], r)
    requires Admit(s, r, limit) != Success ==> status == Admit(s, r, limit) && t.mcbs == s.mcbs
    requires Admit(s, r, limit) == Success ==> status == Success || status == DiskFull
    requires Admit(s, r, limit) == Success && status == DiskFull && BootAllocated(s) ==>
               r.required < r.desired && MappedIn(t.mcbs[q.a], r.start, r.required)
    requires status == Success ==> MappedIn(t.mcbs[q.a], r.start, r.required)
    ensures Added(s0, t, q, limits, status)
  {
    hide HoleCount, CountClear, Admit;
    GrowsAgain(s0, s, t, q, r);
    BootStays(s0, s, q.a);
  }

  /** What one turn of the allocation loop does to the volume. */
  function Step(s: State, a: Scb, vcn: nat, lcn: nat, n: nat, hinted: bool): State
    requires a in s.mcbs
  {
    var t := Claim(s, a, vcn, lcn, n);
    if hinted then t.(hint := lcn) else t
  }

  /** A turn keeps the invariant and moves the allocation on. */
  lemma StepKeeps(s0: State, s: State, q: Request, cursor: nat, remaining: int, vcn: nat, lcn: nat, n: nat,
                  hinted: bool)
    requires Inv(s) && Filling(s0, s, q, cursor, remaining) && q.a != BAD_CLUSTER_SCB
    requires NextHole(s.mcbs[q.a], cursor, vcn, n, q.start + q.desired) && UsableRun(s, lcn, n)
    ensures Clear(s.bits, lcn, n)
    ensures Inv(Step(s, q.a, vcn, lcn, n, hinted))
    ensures Filling(s0, Step(s, q.a, vcn, lcn, n, hinted), q, vcn + n, remaining - n)
    ensures At(Step(s, q.a, vcn, lcn, n, hinted).mcbs[q.a], vcn) == lcn
  {
    UsableIsClaimable(s, q.a, vcn, lcn, n);
    ClaimAt(s, q.a, vcn, lcn, n, vcn);
    ClaimKeepsInv(s, q.a, vcn, lcn, n);
    FillStep(s0, s, q, cursor, remaining, vcn, lcn, n);
    HintKeepsInv(Claim(s, q.a, vcn, lcn, n), lcn);
  }

  lemma HintKeepsInv(s: State, lcn: nat)
    requires Inv(s) && lcn <= s.geo.total
    ensures Inv(s.(hint := lcn))
  {
    var t := s.(hint := lcn);
    assert forall l {:trigger InRecent(t, l)} :: InRecent(t, l) == InRecent(s, l);
    if !s.reload {
      CacheIgnores(s, t);
      BookkeepingKeepsInv(s, t);
    }
  }

  /** The cluster mapped before a hole is on the volume, and set. */
  lemma PrecedingIsInRange(s: State, a: Scb, vcn: nat)
    requires |s.bits| == s.geo.total && StreamsOk(s) && a in s.mcbs
    ensures -1 <= At(s.mcbs[a], vcn - 1) < s.geo.total
    ensures 0 <= At(s.mcbs[a], vcn - 1) ==> s.bits[At(s.mcbs[a], vcn - 1)]
    ensures vcn == 0 ==> At(s.mcbs[a], vcn - 1) == UNUSED_LCN
  {
    assert Mapped(s.mcbs[a], vcn - 1) ==> At(s.mcbs[a], vcn - 1) < s.geo.total;
    if vcn == 0 {
      AtBelow(s.mcbs[a], 0, -1);
    }
  }

  lemma NextHoleFound(m: seq<Run>, cursor: int, vcn: int, n: int, end: int)
    requires cursor <= vcn && 0 < n && vcn + n <= end && Hole(m, vcn, n)
    requires forall v | cursor <= v < vcn :: Mapped(m, v)
    ensures NextHole(m, cursor, vcn, n, end)
  {
  }

  /** The front of the next hole is the next hole. */
  lemma HoleFront(m: seq<Run>, cursor: int, vcn: int, n: int, k: int, end: int)
    requires NextHole(m, cursor, vcn, n, end) && 0 < k <= n
    ensures NextHole(m, cursor, vcn, k, end)
  {
  }

  /** What came of looking for a run. */
  datatype Choice = Chosen(lcn: nat, count: nat) | GiveUp | NoSpace

  /** Rounding up stays below an aligned bound. */
  lemma RoundUpBelow(n: nat, end: int)
    requires n < end && end % 32 == 0
    ensures RoundUp32(n) <= end
  {
  }

  /** Ending the zone at such a cluster leaves it a zone. */
  lemma SplitEndsZone(s: State, split: nat)
    requires Walkable(s) && s.geo.zoneStart <= split < s.zoneEnd && !s.bits[split]
    ensures RoundUp32(split) <= s.zoneEnd
    ensures Walkable(s.(zoneEnd := RoundUp32(split), reduced := true))
  {
    hide CountRange, RecentOk;
    RoundUpBelow(split, s.zoneEnd);
  }

  /** A cached run without its part in the MFT zone, if it starts there. */
  function Offer(run: Run, zoneStart: int, zoneEnd: int): (int, int) {
    if zoneStart <= run.lcn < zoneEnd then (zoneEnd, run.count - (zoneEnd - run.lcn)) else (run.lcn, run.count)
  }

  /** The first offer larger than what remains, or else the first of the largest; nothing if no cached
      run reaches out of the zone. */
  ghost predicate Picks(cache: seq<Run>, zoneStart: int, zoneEnd: int, remaining: int, found: bool, lcn: int,
                        count: int) {
    if found then
      exists i :: 0 <= i < |cache| && Offer(cache[i], zoneStart, zoneEnd) == (lcn, count) &&
        if count > remaining then forall j | 0 <= j < i :: Offer(cache[j], zoneStart, zoneEnd).1 <= remaining
        else forall j | 0 <= j < |cache| :: Offer(cache[j], zoneStart, zoneEnd).1 <= count
    else forall j | 0 <= j < |cache| :: Offer(cache[j], zoneStart, zoneEnd).1 <= 0
  }

  lemma OfferIsUsable(s: State, i: nat)
    requires CacheGood(s) && Walkable(s) && i < |s.cache|
    ensures var (lcn, count) := Offer(s.cache[i], s.geo.zoneStart, s.zoneEnd);
            && 0 <= lcn && UsableRun(s, lcn, count) && !(s.geo.zoneStart <= lcn < s.zoneEnd)
            && lcn + count == s.cache[i].lcn + s.cache[i].count && (lcn == s.cache[i].lcn || lcn == s.zoneEnd)
  {
    hide RecentOk;
    CachedRun(s, i);
  }

  /** Every cached run is usable. */
  lemma CachedRun(s: State, i: nat)
    requires CacheGood(s) && i < |s.cache|
    ensures 0 < s.cache[i].count && 0 <= s.cache[i].lcn == s.cache[i].vcn
    ensures UsableRun(s, s.cache[i].lcn, s.cache[i].count)
  {
    AtRun(s.cache, 0, i);
    assert Mapped(s.cache, s.cache[i].vcn);
    forall l | s.cache[i].Covers(l) ensures Usable(s, l) {
      assert Mapped(s.cache, l);
    }
  }

  /** The bit walk inside the page that holds the split point. */
  method FindClearInPage(page: seq<bool>, before: nat, target: nat, ghost bits: seq<bool>, ghost lo: nat,
                         ghost lcn: nat)
    returns (offset: nat)
    requires lo <= lcn && lcn + |page| <= |bits| && forall i | 0 <= i < |page| :: page[i] == bits[lcn + i]
    requires before == CountRange(bits, lo, lcn) < target <= CountRange(bits, lo, lcn + |page|)
    ensures offset < |page| && !page[offset] && CountRange(bits, lo, lcn + offset) == target - 1
  {
    offset := 0;
    var count := before;
    while true
      invariant offset <= |page| && count == CountRange(bits, lo, lcn + offset) < target
      decreases |page| - offset
    {
      if !page[offset] {
        count := count + 1;
        if count == target {
          return;
        }
      }
      offset := offset + 1;
    }
  }

  /** The zone may end at `end`: half of its free clusters lie up to the cluster that rounds up to it. */
  ghost predicate HalvesZone(s: State, end: int)
    requires s.geo.zoneStart <= s.zoneEnd <= |s.bits|
  {
    exists split: nat :: s.geo.zoneStart <= split < s.zoneEnd && !s.bits[split] && end == RoundUp32(split) &&
      CountRange(s.bits, s.geo.zoneStart, split) + 1 == CountRange(s.bits, s.geo.zoneStart, s.zoneEnd) / 2
  }

  /** Counts, the zone and the hint do not enter into what is usable. */
  lemma CacheIgnores(s: State, t: State)
    requires CacheGood(s)
    requires t == s.(free := t.free, reload := t.reload, zoneEnd := t.zoneEnd, reduced := t.reduced, hint := t.hint)
    ensures CacheGood(t)
  {
    forall l | Mapped(t.cache, l) ensures Usable(t, l) {
      assert Usable(s, l);
    }
  }

  /** Changing only the bookkeeping beside the bitmap, the lists and the streams keeps the
      invariant, as long as what is changed is in order again. */
  lemma BookkeepingKeepsInv(s: State, t: State)
    requires Inv(s) && Walkable(t) && 0 <= t.hint <= t.geo.total && CacheGood(t)
    requires t == s.(free := t.free, cache := t.cache, reload := t.reload,
                     zoneEnd := t.zoneEnd, reduced := t.reduced, hint := t.hint)
    requires !t.reload ==> t.free == CountClear(t.bits)
    ensures Inv(t)
  {
    assert forall l {:trigger InRecent(t, l)} :: InRecent(t, l) == InRecent(s, l);
  }

  lemma WalkableIgnores(s: State, t: State)
    requires Walkable(s) && t == s.(free := t.free, cache := t.cache, reload := t.reload)
    ensures Walkable(t)
  {
  }

  /** An empty cache is good. */
  lemma NothingCached(s: State)
    requires Walkable(s) && s.cache == []
    ensures CacheGood(s)
  {
    forall l ensures !Mapped(s.cache, l) {
    }
  }

  /** The cache does not enter into what is usable. */
  lemma BiasIgnoresCache(s: State, t: State, base: nat, page: seq<bool>)
    requires |s.bits| == s.geo.total && BiasOf(s, base, page) && t == s.(cache := t.cache)
    ensures BiasOf(t, base, page)
  {
    forall i | 0 <= i < |page| ensures page[i] <==> !Usable(t, base + i) {
      assert Usable(t, base + i) == Usable(s, base + i);
    }
  }

  lemma BiasIgnoresRest(s: State, t: State, base: nat, page: seq<bool>)
    requires |s.bits| == s.geo.total && BiasOf(s, base, page) && s == t.(free := s.free, cache := s.cache)
    ensures BiasOf(t, base, page)
  {
    forall i | 0 <= i < |page| ensures page[i] <==> !Usable(t, base + i) {
      assert Usable(t, base + i) == Usable(s, base + i);
    }
  }

  ghost predicate AtMostOne(page: seq<bool>, base: nat, rs: seq<Extent>) {
    |rs| <= 1 && (rs != [] ==> 0 < rs[0].count && Clear(page, rs[0].lcn - base, rs[0].count))
  }

  lemma NoneIsAtMostOne(page: seq<bool>, base: nat)
    ensures AtMostOne(page, base, [])
  {
  }

  /** A longest run, or none; the run at the start, unless it is the longest or not asked for; and the run at the
      end, unless it is the longest. */
  lemma AddedFromPage(page: seq<bool>, base: nat, previousFree: bool, longest: seq<Extent>, first: seq<Extent>,
                      last: seq<Extent>)
    requires 0 < |page| && AtMostOne(page, base, longest) && AtMostOne(page, base, first) && AtMostOne(page, base, last)
    requires longest == [] ==> forall i | 0 <= i < |page| :: page[i]
    requires longest != [] ==> forall lo, n | Clear(page, lo, n) :: n <= longest[0].count
    requires previousFree && !page[0] ==> (first != [] && first[0].lcn == base) || longest[0].lcn == base
    requires !page[|page| - 1] ==>
               (last != [] && last[0].lcn + last[0].count == base + |page|) ||
               longest[0].lcn + longest[0].count == base + |page|
    ensures PageAdded(page, base, previousFree, longest + first + last)
  {
    hide Clear;
    var all := longest + first + last;
    forall r | r in all ensures 0 < r.count && Clear(page, r.lcn - base, r.count) {
      assert r in longest || r in first || r in last;
      if r in longest {
        assert r == longest[0];
      } else if r in first {
        assert r == first[0];
      } else {
        assert r == last[0];
      }
    }
    if longest != [] {
      assert longest[0] in all;
    }
    if first != [] {
      assert first[0] in all;
    }
    if last != [] {
      assert last[0] in all;
    }
  }

  lemma CacheOfMore(added: seq<Extent>, more: seq<Extent>, r: Extent)
    ensures CacheOf(added + (more + [r])) == CacheAdd(CacheOf(added + more), r.lcn, r.count)
  {
    var a := added + (more + [r]);
    assert a[..|a| - 1] == added + more;
  }

  lemma {:induction false} AddedOk(added: seq<Extent>)
    requires forall r | r in added :: 0 < r.count
    ensures Valid(CacheOf(added)) && Identity(CacheOf(added))
  {
    if added != [] {
      var before, last := added[..|added| - 1], added[|added| - 1];
      assert last in added;
      AddedOk(before);
      CacheAddOk(CacheOf(before), last.lcn, last.count);
    }
  }

  /** As long as the cache does not fill up, it holds just what was put into it. */
  lemma {:induction false} AddedStay(added: seq<Extent>, l: int)
    requires forall r | r in added :: 0 < r.count
    requires forall k | 0 <= k < |added| :: PairCount(CacheOf(added[..k]), 0) <= 8192
    ensures Mapped(CacheOf(added), l) <==> Among(added, l)
  {
    if added != [] {
      var before, last := added[..|added| - 1], added[|added| - 1];
      assert CacheOf(added) == CacheAdd(CacheOf(before), last.lcn, last.count);
      hide CacheOf, CacheAdd, PairCount, Mapped, Valid, Identity;
      forall k | 0 <= k < |before| ensures PairCount(CacheOf(before[..k]), 0) <= 8192 {
        assert before[..k] == added[..k];
      }
      AddedStay(before, l);
      AddedOk(before);
      AmongSnoc(before, last, l);
      assert added == before + [last] && last in added && added[..|before|] == before;
      CacheAddAt(CacheOf(before), last.lcn, last.count, l);
      CacheAddForgets(CacheOf(before), last.lcn, last.count, l);
    }
  }

  lemma AmongSnoc(added: seq<Extent>, r: Extent, l: int)
    ensures Among(added + [r], l) <==> Among(added, l) || r.lcn <= l < r.lcn + r.count
  {
    assert forall x :: x in added + [r] <==> x in added || x == r;
  }

  lemma AheadCached(s: State, lcn: nat)
    requires |s.bits| == s.geo.total && lcn < s.geo.total && Mapped(s.cache, lcn)
    ensures ReadsAhead(s, lcn, s.cache)
  {
  }

  /** The cluster is free: the run from it on is cached. */
  lemma AheadFree(s: State, lcn: nat, base: nat, page: seq<bool>, size: nat)
    requires |s.bits| == s.geo.total && lcn < s.geo.total && base == PageBase(lcn) && !Mapped(s.cache, lcn)
    requires BiasOf(s, base, page) && base + |page| == PageEnd(lcn, s.geo.total) && lcn - base < |page|
    requires !page[lcn - base] && size == FirstFrom(page, lcn - base, true) - (lcn - base) && CacheGood(s)
    ensures 0 < size && UsableRun(s, lcn, size) && ReadsAhead(s, lcn, CacheAdd(s.cache, lcn, size))
    ensures Mapped(CacheAdd(s.cache, lcn, size), lcn)
  {
    hide PageEnd, PageBase, FirstFrom, Clear, OnPage, BiasOf, UsableRun, CacheOk, Usable, ReadsAhead, CacheAdd;
    var at := lcn - base;
    RunFrom(page, at, size);
    CacheAddAt(s.cache, lcn, size, lcn);
    PageRun(s, base, page, at, size);
    BiasAt(s, base, page, at);
    if at + size < |page| {
      BiasAt(s, base, page, at + size);
    }
    RunIsCached(s, lcn, size, base + |page|);
  }

  lemma RunFrom(page: seq<bool>, at: nat, size: nat)
    requires at < |page| && !page[at] && size == FirstFrom(page, at, true) - at
    ensures 0 < size && Clear(page, at, size) && (at + size == |page| || page[at + size])
  {
  }

  lemma BiasAt(s: State, base: nat, page: seq<bool>, at: nat)
    requires |s.bits| == s.geo.total && BiasOf(s, base, page) && at < |page|
    ensures page[at] <==> !Usable(s, base + at)
  {
  }

  lemma RunIsCached(s: State, lcn: nat, size: nat, end: nat)
    requires |s.bits| == s.geo.total && lcn < s.geo.total && !Mapped(s.cache, lcn) && Usable(s, lcn)
    requires 0 < size && UsableRun(s, lcn, size) && end == PageEnd(lcn, s.geo.total)
    requires lcn + size == end || !Usable(s, lcn + size)
    ensures ReadsAhead(s, lcn, CacheAdd(s.cache, lcn, size))
  {
    hide Usable, UsableRun, CacheAdd, PageEnd, PageBase, Mapped;
    assert AddsUpTo(s, lcn, size, CacheAdd(s.cache, lcn, size));
  }

  /** It is not: a longest run of its page is. */
  lemma AheadTaken(s: State, lcn: nat, base: nat, page: seq<bool>, index: nat, size: nat)
    requires |s.bits| == s.geo.total && lcn < s.geo.total && base == PageBase(lcn) && !Mapped(s.cache, lcn)
    requires BiasOf(s, base, page) && base + |page| == PageEnd(lcn, s.geo.total) && lcn - base < |page|
    requires page[lcn - base] && if size == 0 then forall i | 0 <= i < |page| :: page[i] else Clear(page, index, size)
    requires forall lo, n | Clear(page, lo, n) :: n <= size
    ensures !Usable(s, lcn)
    ensures ReadsAhead(s, lcn, if size == 0 then s.cache else CacheAdd(s.cache, base + index, size))
  {
    assert !Usable(s, base + (lcn - base));
    PageRun(s, base, page, index, size);
    hide CacheAdd, Mapped, PageEnd, PageBase;
    if size != 0 {
      assert !page[index] && Usable(s, base + index);
      LongestOfPage(s, base, page, size);
      assert IsLongest(s, base, base + |page|, Extent(base + index, size));
    }
  }

  /** A run taken out of the cache: the rest stays. */
  ghost predicate TakenOut(m: seq<Run>, r: seq<Run>, lcn: int, n: int) {
    forall l {:trigger Mapped(r, l)} {:trigger Mapped(m, l)} ::
      Mapped(r, l) <==> Mapped(m, l) && !(lcn <= l < lcn + n)
  }

  lemma RunTakenOut(s: State, lcn: int, n: nat)
    requires Inv(s)
    ensures TakenOut(s.cache, Remove(s.cache, lcn, n), lcn, n)
  {
    CacheRemove(s.cache, lcn, n);
  }

  lemma NothingScanned(s: State)
    requires |s.bits| == s.geo.total
    ensures Scanned(s, [], 0) && CacheOf([]) == []
  {
  }

  lemma ScannedIgnores(s: State, t: State, added: seq<Extent>)
    requires |s.bits| == s.geo.total && Scanned(s, added, s.geo.total)
    requires t == s.(free := t.free, cache := t.cache, reload := t.reload)
    ensures Scanned(t, added, t.geo.total)
  {
    UsableIgnores(s, t);
    hide Usable, OnPage, PageEnd;
    forall base: nat | base < t.geo.total && OnPage(base) ensures LongestAdded(t, base, added) {
      assert LongestAdded(s, base, added);
      if r :| r in added && IsLongest(s, base, PageEnd(base, s.geo.total), r) {
        assert IsLongest(t, base, PageEnd(base, s.geo.total), r);
      }
    }
    forall c: nat | 0 < c <= t.geo.total ensures EndAdded(t, added, c) {
      assert EndAdded(s, added, c);
    }
    forall c: nat | 0 < c < t.geo.total ensures StartAdded(t, added, c) {
      assert StartAdded(s, added, c);
    }
  }

  lemma UsableIgnores(s: State, t: State)
    requires |s.bits| == s.geo.total && t == s.(free := t.free, cache := t.cache, reload := t.reload)
    ensures forall l :: Usable(s, l) <==> Usable(t, l)
    ensures forall l, n :: UsableRun(s, l, n) <==> UsableRun(t, l, n)
  {
  }

  /** What one page adds to a scan. */
  ghost predicate PageScanned(s: State, added: seq<Extent>, more: seq<Extent>, at: nat, page: seq<bool>) {
    && |s.bits| == s.geo.total && at < s.geo.total && OnPage(at) && at + |page| == PageEnd(at, s.geo.total)
    && 0 < |page| && BiasOf(s, at, page) && Scanned(s, added, at)
    && PageAdded(page, at, 0 < at && Usable(s, at - 1), more)
  }

  lemma PageIsScanned(s: State, added: seq<Extent>, more: seq<Extent>, at: nat, page: seq<bool>, previousFree: bool)
    requires |s.bits| == s.geo.total && at < s.geo.total && OnPage(at) && at + |page| == PageEnd(at, s.geo.total)
    requires 0 < |page| && BiasOf(s, at, page) && Scanned(s, added, at) && PageAdded(page, at, previousFree, more)
    requires previousFree <==> 0 < at && Usable(s, at - 1)
    ensures PageScanned(s, added, more, at, page)
  {
    hide BiasOf, Scanned, PageAdded, PageEnd, OnPage, Usable;
  }

  lemma LongestMore(s: State, added: seq<Extent>, more: seq<Extent>, at: nat, page: seq<bool>, base: nat)
    requires PageScanned(s, added, more, at, page) && base < at + |page| && OnPage(base)
    ensures LongestAdded(s, base, added + more)
  {
    hide LongestAdded, Usable, BiasOf, PageAdded;
    if base < at {
      LongestStays(s, base, added, more);
    } else {
      PagesApart(at, base, s.geo.total);
      LongestTaken(s, added, more, at, page);
    }
  }

  lemma EndMore(s: State, added: seq<Extent>, more: seq<Extent>, at: nat, page: seq<bool>, c: nat)
    requires PageScanned(s, added, more, at, page) && 0 < c <= at + |page|
    ensures EndAdded(s, added + more, c)
  {
    hide LongestAdded, Usable, PageAdded, Among;
    if (OnPage(c) || c == s.geo.total) && Usable(s, c - 1) {
      if c <= at {
        assert EndAdded(s, added, c);
        AmongMore(added, more, c - 1);
      } else {
        PagesApart(at, c, s.geo.total);
        BiasAt(s, at, page, |page| - 1);
        LastAmong(added, more, at, page, 0 < at && Usable(s, at - 1));
      }
    }
  }

  lemma StartMore(s: State, added: seq<Extent>, more: seq<Extent>, at: nat, page: seq<bool>, c: nat)
    requires PageScanned(s, added, more, at, page) && 0 < c < at + |page|
    ensures StartAdded(s, added + more, c)
  {
    hide LongestAdded, Usable, PageAdded, Among;
    if OnPage(c) && Usable(s, c - 1) && Usable(s, c) {
      if c < at {
        assert StartAdded(s, added, c);
        AmongMore(added, more, c);
      } else {
        PagesApart(at, c, s.geo.total);
        BiasAt(s, at, page, 0);
        FirstAmong(added, more, at, page);
      }
    }
  }

  /** One more page scanned. */
  lemma ScannedMore(s: State, added: seq<Extent>, more: seq<Extent>, at: nat, page: seq<bool>)
    requires PageScanned(s, added, more, at, page)
    ensures Scanned(s, added + more, at + |page|)
    ensures Usable(s, at + |page| - 1) <==> !page[|page| - 1]
  {
    MoreIsUsable(s, more, at, page, 0 < at && Usable(s, at - 1));
    BiasAt(s, at, page, |page| - 1);
    assert forall r :: r in added + more <==> r in added || r in more;
    hide Usable, OnPage, BiasOf, PageAdded, LongestAdded, UsableRun, EndAdded, StartAdded;
    forall base: nat | base < at + |page| && OnPage(base) ensures LongestAdded(s, base, added + more) {
      LongestMore(s, added, more, at, page, base);
    }
    forall c: nat | 0 < c <= at + |page| ensures EndAdded(s, added + more, c) {
      EndMore(s, added, more, at, page, c);
    }
    forall c: nat | 0 < c < at + |page| ensures StartAdded(s, added + more, c) {
      StartMore(s, added, more, at, page, c);
    }
  }

  lemma MoreIsUsable(s: State, more: seq<Extent>, at: nat, page: seq<bool>, previousFree: bool)
    requires |s.bits| == s.geo.total && 0 < |page| && BiasOf(s, at, page) && PageAdded(page, at, previousFree, more)
    ensures forall r | r in more :: 0 < r.count && UsableRun(s, r.lcn, r.count)
  {
    forall r | r in more ensures 0 < r.count && UsableRun(s, r.lcn, r.count) {
      PageRun(s, at, page, r.lcn - at, r.count);
    }
  }

  lemma LastAmong(added: seq<Extent>, more: seq<Extent>, at: nat, page: seq<bool>, previousFree: bool)
    requires 0 < |page| && PageAdded(page, at, previousFree, more) && !page[|page| - 1]
    ensures Among(added + more, at + |page| - 1)
  {
    var r :| r in more && r.lcn + r.count == at + |page|;
    assert r in added + more;
  }

  lemma FirstAmong(added: seq<Extent>, more: seq<Extent>, at: nat, page: seq<bool>)
    requires 0 < |page| && PageAdded(page, at, true, more) && !page[0]
    ensures Among(added + more, at)
  {
    var r :| r in more && r.lcn == at;
    assert r in added + more;
  }

  lemma AmongMore(added: seq<Extent>, more: seq<Extent>, l: int)
    requires Among(added, l)
    ensures Among(added + more, l)
  {
    var r :| r in added && r.lcn <= l < r.lcn + r.count;
    assert r in added + more;
  }

  lemma LongestStays(s: State, base: nat, added: seq<Extent>, more: seq<Extent>)
    requires |s.bits| == s.geo.total && base < s.geo.total && LongestAdded(s, base, added)
    ensures LongestAdded(s, base, added + more)
  {
    if r :| r in added && IsLongest(s, base, PageEnd(base, s.geo.total), r) {
      assert r in added + more;
    }
  }

  lemma LongestTaken(s: State, added: seq<Extent>, more: seq<Extent>, at: nat, page: seq<bool>)
    requires |s.bits| == s.geo.total && at < s.geo.total && at + |page| == PageEnd(at, s.geo.total) && 0 < |page|
    requires BiasOf(s, at, page) && exists previousFree :: PageAdded(page, at, previousFree, more)
    ensures LongestAdded(s, at, added + more)
  {
    hide Usable, PageEnd;
    if forall i | 0 <= i < |page| :: page[i] {
      PageRun(s, at, page, 0, 0);
    } else {
      var r :| r in more && forall lo, n | Clear(page, lo, n) :: n <= r.count;
      LongestOfPage(s, at, page, r.count);
      assert r in added + more && IsLongest(s, at, at + |page|, r);
    }
  }

  /** Between the start and the end of a page no page starts. */
  lemma PagesApart(at: nat, c: nat, total: nat)
    requires OnPage(at) && at < total && at <= c <= PageEnd(at, total) && (OnPage(c) || c == total)
    ensures c == at || c == PageEnd(at, total)
  {
  }

  /** A clear run of a biased page is usable, and a page without one has nothing usable. */
  lemma PageRun(s: State, base: nat, page: seq<bool>, index: nat, count: nat)
    requires |s.bits| == s.geo.total
    requires BiasOf(s, base, page)
    ensures Clear(page, index, count) ==> UsableRun(s, base + index, count)
    ensures (forall i | 0 <= i < |page| :: page[i]) ==> NoneUsable(s, base, base + |page|)
  {
    if Clear(page, index, count) {
      forall l | base + index <= l < base + index + count ensures Usable(s, l) {
        assert !page[l - base];
      }
    }
    if forall i | 0 <= i < |page| :: page[i] {
      forall l | base <= l < base + |page| ensures !Usable(s, l) {
        assert page[l - base];
      }
    }
  }

  /** Where the search of the hint's page starts: past the MFT zone if the hint lies past it. */
  function HintFrom(hint: nat, zoneEnd: int): (r: nat)
    ensures r <= hint
    ensures PageBase(hint) < zoneEnd < hint ==> r == zoneEnd
    ensures !(PageBase(hint) < zoneEnd < hint) ==> r == PageBase(hint)
  {
    if PageBase(hint) < zoneEnd && hint > zoneEnd then zoneEnd else PageBase(hint)
  }

  /** A run taken from `from` on: nothing before its page is usable, and no usable run of the page is longer. */
  ghost predicate LongestOnFirst(s: State, from: int, lcn: nat, count: nat)
    requires |s.bits| == s.geo.total
  {
    && lcn < s.geo.total && NoneUsable(s, from, PageBase(lcn))
    && forall l, n | from <= l && PageBase(lcn) <= l && l + n <= PageEnd(lcn, s.geo.total) && UsableRun(s, l, n) ::
         n <= count
  }

  lemma PageStart(lcn: nat)
    requires OnPage(lcn)
    ensures PageBase(lcn) == lcn
  {
  }

  lemma OnePage(at: nat, lcn: nat, total: nat)
    requires at <= lcn < total && lcn < PageEnd(at, total)
    ensures PageBase(lcn) == PageBase(at) && PageEnd(lcn, total) == PageEnd(at, total) &&
              (OnPage(at) ==> PageBase(at) == at)
  {
  }

  lemma NoneUsableMore(s: State, from: int, at: int, next: int)
    requires |s.bits| == s.geo.total && (NoneUsable(s, from, at) || at <= from)
    ensures NoneUsable(s, at, next) ==> NoneUsable(s, from, next)
    ensures next <= at ==> NoneUsable(s, from, next)
  {
  }

  lemma FirstPage(s: State, from: nat, at: nat, end: nat, lcn: nat, count: nat)
    requires |s.bits| == s.geo.total && NoneUsable(s, from, at) && from <= at < s.geo.total &&
               (at == from || OnPage(at))
    requires end == PageEnd(at, s.geo.total) && at <= lcn && lcn + count <= end && 0 < count
    requires forall l, n | at <= l && l + n <= end && UsableRun(s, l, n) :: n <= count
    ensures LongestOnFirst(s, from, lcn, count)
  {
    OnePage(at, lcn, s.geo.total);
    hide OnPage, UsableRun, Usable;
  }

  /** As long as was wanted, or as long as any usable run of `[lo, hi)`. */
  ghost predicate Best(s: State, lo: int, hi: int, wanted: int, count: int)
    requires |s.bits| == s.geo.total
  {
    || count == (if wanted > MAXULONG then MAXULONG else wanted)
    || forall l, n | lo <= l && l + n <= hi && UsableRun(s, l, n) :: n <= count
  }

  /** Which pass a run was found in: the hint's page if anything there is usable, else the disk behind it if
      anything there is, else what lies before it outside the MFT zone, and last the zone. */
  ghost predicate PassOf(s: State, lo: int, hi: int, wanted: int, fromZone: bool, lcn: nat, count: nat)
    requires |s.bits| == s.geo.total
  {
    if !NoneUsable(s, lo, hi) then !fromZone && Best(s, lo, hi, wanted, count) && lo <= lcn && 0 < count &&
        lcn + count <= hi
    else if !NoneUsable(s, hi, s.geo.total) then !fromZone && hi <= lcn && LongestOnFirst(s, hi, lcn, count)
    else if !NoneUsable(s, s.zoneEnd, hi) then !fromZone && s.zoneEnd <= lcn && LongestOnFirst(s, s.zoneEnd, lcn, count)
    else (fromZone <==> 0 < count) && (0 < count ==> LongestOnFirst(s, 0, lcn, count))
  }

  lemma WantedIsBest(s: State, lo: int, hi: int, wanted: int, count: int)
    requires |s.bits| == s.geo.total && count == if wanted > MAXULONG then MAXULONG else wanted
    ensures Best(s, lo, hi, wanted, count)
  {
  }

  lemma LongestIsBest(s: State, lo: int, hi: int, wanted: int, count: int)
    requires |s.bits| == s.geo.total && forall l, n | lo <= l && l + n <= hi && UsableRun(s, l, n) :: n <= count
    ensures Best(s, lo, hi, wanted, count)
  {
  }

  /** What is left of a biased page. */
  lemma BiasTail(s: State, base: nat, page: seq<bool>, d: nat)
    requires |s.bits| == s.geo.total && BiasOf(s, base, page) && d <= |page|
    ensures BiasOf(s, base + d, page[d..])
  {
    forall i | 0 <= i < |page[d..]| ensures page[d..][i] <==> !Usable(s, base + d + i) {
      assert page[d + i] <==> !Usable(s, base + (d + i));
    }
  }

  lemma LongestOfPage(s: State, base: nat, page: seq<bool>, count: nat)
    requires |s.bits| == s.geo.total && BiasOf(s, base, page) && forall lo, n | Clear(page, lo, n) :: n <= count
    ensures forall l, n | base <= l && l + n <= base + |page| && UsableRun(s, l, n) :: n <= count
  {
    forall l, n | base <= l && l + n <= base + |page| && UsableRun(s, l, n) ensures n <= count {
      if n > 0 {
        forall i | l - base <= i < l - base + n ensures !page[i] {
          assert Usable(s, base + i);
        }
        assert Clear(page, l - base, n);
      }
    }
  }

  /** If the longest usable run is empty, nothing is usable. */
  lemma NothingBest(s: State, lo: int, hi: int, wanted: int)
    requires |s.bits| == s.geo.total && Best(s, lo, hi, wanted, 0) && 0 < wanted
    ensures NoneUsable(s, lo, hi)
  {
    forall l | lo <= l < hi ensures !Usable(s, l) {
      if Usable(s, l) {
        assert UsableRun(s, l, 1);
      }
    }
  }

  /** The bias is exactly what makes a cluster unusable. */
  lemma BiasMeansUsable(s: State, base: nat, raw: seq<bool>, page: seq<bool>)
    requires |s.bits| == s.geo.total && |page| == |raw| && base + |raw| <= s.geo.total
    requires s.geo.bootClusters <= BITS_PER_PAGE && base % BITS_PER_PAGE == 0
    requires forall i | 0 <= i < |raw| :: raw[i] == s.bits[base + i]
    requires forall i | 0 <= i < |page| :: Biased(s.prior, s.active, s.geo.bootClusters, base, raw, page, i)
    ensures BiasOf(s, base, page)
  {
    forall i | 0 <= i < |page| ensures page[i] <==> !Usable(s, base + i) {
      assert Biased(s.prior, s.active, s.geo.bootClusters, base, raw, page, i);
    }
  }

  /** Bit `i` of a biased page: set in the bitmap, in either list, or among the first 8K. */
  ghost predicate Biased(prior: Recent, active: Recent, boot: nat, base: nat, raw: seq<bool>, page: seq<bool>, i: nat)
    requires i < |raw| == |page|
  {
    page[i] == (raw[i] || (base == 0 && i < boot) || Mapped(prior.runs, base + i) || Mapped(active.runs, base + i))
  }

  /** NtfsAddRecentlyDeallocated, on a private copy of the page. */
  method AddRecentlyDeallocated(prior: Recent, active: Recent, boot: nat, base: nat, raw: seq<bool>)
    returns (page: seq<bool>)
    requires RecentOk(prior) && RecentOk(active)
    ensures |page| == |raw|
    ensures forall i | 0 <= i < |page| :: Biased(prior, active, boot, base, raw, page, i)
  {
    page := raw;
    if base == 0 {
      page := Fill(page, 0, boot, true);
    }
    forall l ensures prior.count == 0 ==> !Mapped(prior.runs, l) {
      EmptyWhenCountIsZero(prior, l);
    }
    if prior.count != 0 {
      page := BiasWith(prior.runs, base, page);
    }
    forall l ensures active.count == 0 ==> !Mapped(active.runs, l) {
      EmptyWhenCountIsZero(active, l);
    }
    if active.count != 0 {
      page := BiasWith(active.runs, base, page);
    }
  }

  lemma RemembersItself(s: State)
    ensures RemembersMore(s, s)
  {
  }

  lemma SameRemembers(s: State, t: State)
    requires t.prior == s.prior && t.active == s.active
    ensures RemembersMore(s, t)
  {
  }

  /** A deallocation after a reload. */
  lemma EmptyingRemembers(s: State, s0: State, t: State, a: Scb, start: int, cursor: int)
    requires |t.bits| == t.geo.total && Emptying(s0, t, a, start, cursor) && s0.prior == s.prior &&
               s0.active == s.active
    ensures RemembersMore(s, t)
  {
  }

  /** How many checkpoints a run takes, and whether one of them is of a clean volume. */
  function Checkpoints(ops: seq<Operation>): nat {
    if ops == [] then 0 else Checkpoints(ops[..|ops| - 1]) + if ops[|ops| - 1].LogCheckpoint? then 1 else 0
  }

  function HasClean(ops: seq<Operation>): bool {
    ops != [] && (HasClean(ops[..|ops| - 1]) || (ops[|ops| - 1].LogCheckpoint? && ops[|ops| - 1].clean))
  }

  lemma CheckpointsSnoc(ops: seq<Operation>, i: nat)
    requires i < |ops|
    ensures Checkpoints(ops[..i + 1]) == Checkpoints(ops[..i]) + if ops[i].LogCheckpoint? then 1 else 0
    ensures HasClean(ops[..i + 1]) == (HasClean(ops[..i]) || (ops[i].LogCheckpoint? && ops[i].clean))
  {
    assert ops[..i + 1][..i] == ops[..i];
  }

  lemma HeldAtFirst(s: State)
    ensures Held(s, s, Checkpoints([]), HasClean([]))
  {
    forall l | Mapped(s.active.runs, l) ensures InRecent(s, l) {
    }
  }
}
