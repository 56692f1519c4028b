/**
 * Clusters set aside for compressed streams: a bit for each reserved compression unit of a stream, a
 * byte count in the stream, and a cluster count in the volume for the streams that may be written.
 */
module Reservation {
  import opened Units

  /** The number of set bits. */
  function SetBits(s: seq<bool>): (r: nat)
    ensures r <= |s|
  {
    if s == [] then 0 else SetBits(s[..|s| - 1]) + if s[|s| - 1] then 1 else 0
  }

  lemma {:induction false} SetBitsUpdate(s: seq<bool>, b: nat, value: bool)
    requires b < |s| && s[b] != value
    ensures SetBits(s[b := value]) == SetBits(s) + if value then 1 else -1
  {
    var t := s[b := value];
    if b == |s| - 1 {
      assert t[..|t| - 1] == s[..|s| - 1];
    } else {
      SetBitsUpdate(s[..|s| - 1], b, value);
      assert t[..|t| - 1] == s[..|s| - 1][b := value];
    }
  }

  /** Growth adds clear bits. */
  function Zeros(n: nat): (r: seq<bool>)
    ensures |r| == n && forall i | 0 <= i < n :: !r[i]
  {
    if n == 0 then [] else Zeros(n - 1) + [false]
  }

  lemma {:induction false} SetBitsGrown(s: seq<bool>, n: nat)
    ensures SetBits(s + Zeros(n)) == SetBits(s)
  {
    if n == 0 {
      assert s + Zeros(0) == s;
    } else {
      SetBitsGrown(s, n - 1);
      var t := s + Zeros(n);
      assert t[..|t| - 1] == s + Zeros(n - 1);
    }
  }

  // ---------- streams ----------

  /** A data stream; the bitmap is empty until something is reserved. */
  datatype Stream = Stream(bits: seq<bool>, total: int, unitBytes: nat, unitClusters: nat, allocationSize: nat,
                           totalAllocated: nat, writeAccess: bool)

  /** The stream's byte count is its set bits times the compression unit. */
  ghost predicate Sound(st: Stream, clusterSize: nat) {
    && 0 < clusterSize && 0 < st.unitClusters && st.unitBytes == clusterSize * st.unitClusters
    && st.total == st.unitBytes * SetBits(st.bits) && |st.bits| % 64 == 0
  }

  /** What the stream counts for in the volume. */
  ghost function Share(st: Stream): int {
    if st.writeAccess then st.unitClusters * SetBits(st.bits) else 0
  }

  ghost function Sum(ss: seq<Stream>): int {
    if ss == [] then 0 else Sum(ss[..|ss| - 1]) + Share(ss[|ss| - 1])
  }

  lemma {:induction false} SumUpdate(ss: seq<Stream>, i: nat, st: Stream)
    requires i < |ss|
    ensures Sum(ss[i := st]) == Sum(ss) - Share(ss[i]) + Share(st)
  {
    var t := ss[i := st];
    if i == |ss| - 1 {
      assert t[..|t| - 1] == ss[..|ss| - 1];
    } else {
      SumUpdate(ss[..|ss| - 1], i, st);
      assert t[..|t| - 1] == ss[..|ss| - 1][i := st];
    }
  }

  lemma {:induction false} SumBounds(ss: seq<Stream>, i: nat)
    requires i < |ss|
    ensures 0 <= Share(ss[i]) <= Sum(ss)
  {
    SumNonnegative(ss[..|ss| - 1]);
    if i < |ss| - 1 {
      SumBounds(ss[..|ss| - 1], i);
    }
  }

  lemma {:induction false} SumNonnegative(ss: seq<Stream>)
    ensures 0 <= Sum(ss)
  {
    if ss != [] {
      SumNonnegative(ss[..|ss| - 1]);
    }
  }

  /** The books balance: every stream is sound, and the volume's count is the sum over the streams
      with write access. */
  ghost predicate Balanced(ss: seq<Stream>, total: int, clusterSize: nat) {
    (forall i | 0 <= i < |ss| :: Sound(ss[i], clusterSize)) && total == Sum(ss)
  }

  // ---------- steps that keep the books ----------

  lemma Times(u: int, k: int)
    ensures u * (k + 1) == u * k + u && u * (k - 1) == u * k - u
  {
  }

  /** Any change of one stream, booked with the difference of its shares. */
  lemma Booked(ss: seq<Stream>, total: int, clusterSize: nat, i: nat, st: Stream)
    requires Balanced(ss, total, clusterSize) && i < |ss| && Sound(st, clusterSize)
    ensures Balanced(ss[i := st], total - Share(ss[i]) + Share(st), clusterSize)
  {
    hide Sound, Share;
    SumUpdate(ss, i, st);
  }

  function WithBit(st: Stream, b: nat, value: bool): Stream
    requires b < |st.bits|
  {
    st.(bits := st.bits[b := value], total := st.total + if value then st.unitBytes else 0 - st.unitBytes)
  }

  /** What one unit counts for in the volume. */
  function Weight(st: Stream): int { if st.writeAccess then st.unitClusters else 0 }

  lemma BitBooked(ss: seq<Stream>, total: int, clusterSize: nat, i: nat, b: nat, value: bool)
    requires Balanced(ss, total, clusterSize) && i < |ss| && b < |ss[i].bits| && ss[i].bits[b] != value
    ensures var change := if value then Weight(ss[i]) else 0 - Weight(ss[i]);
            Balanced(ss[i := WithBit(ss[i], b, value)], total + change, clusterSize)
  {
    var st := ss[i];
    SetBitsUpdate(st.bits, b, value);
    Times(st.unitBytes, SetBits(st.bits));
    Times(st.unitClusters, SetBits(st.bits));
    Booked(ss, total, clusterSize, i, WithBit(st, b, value));
  }

  lemma GrowthBooked(ss: seq<Stream>, total: int, clusterSize: nat, i: nat, n: nat)
    requires Balanced(ss, total, clusterSize) && i < |ss| && (|ss[i].bits| + n) % 64 == 0
    ensures Balanced(ss[i := ss[i].(bits := ss[i].bits + Zeros(n))], total, clusterSize)
  {
    SetBitsGrown(ss[i].bits, n);
    Booked(ss, total, clusterSize, i, ss[i].(bits := ss[i].bits + Zeros(n)));
  }

  /** Bytes to clusters, rounded up. */
  function ClustersFromBytes(bytes: int, clusterSize: nat): int
    requires 0 < clusterSize
  {
    (bytes + clusterSize - 1) / clusterSize
  }

  lemma RoundsExactly(a: int, clusterSize: nat)
    requires 0 < clusterSize
    ensures ClustersFromBytes(clusterSize * a, clusterSize) == a
  {
    var x := clusterSize * a + clusterSize - 1;
    assert x == clusterSize * (x / clusterSize) + x % clusterSize;
    assert clusterSize * (a - x / clusterSize) + clusterSize - 1 == x % clusterSize;
    var d := a - x / clusterSize;
    assert d >= 1 ==> clusterSize * d >= clusterSize;
    assert d <= -1 ==> clusterSize * d <= 0 - clusterSize;
  }

  /** A sound stream's byte count is a whole number of clusters. */
  lemma TotalInClusters(st: Stream, clusterSize: nat)
    requires Sound(st, clusterSize)
    ensures ClustersFromBytes(st.total, clusterSize) == st.unitClusters * SetBits(st.bits)
  {
    var k := SetBits(st.bits);
    assert st.total == clusterSize * (st.unitClusters * k);
    RoundsExactly(st.unitClusters * k, clusterSize);
  }

  // ---------- what other streams have reserved ----------

  /** The test before an allocation, as it is made: from the volume's clusters the stream's bytes are taken. */
  predicate RefusedByBytes(st: Stream, total: int, count: int, freeClusters: int) {
    count + total - st.total > freeClusters
  }

  /** The test in clusters. */
  predicate RefusedByClusters(st: Stream, total: int, count: int, freeClusters: int) {
    count + total - st.unitClusters * SetBits(st.bits) > freeClusters
  }

  /** The test as made never refuses more than the one in clusters; the two are the same for every request if
      and only if the stream has nothing reserved, or a cluster is a byte. */
  lemma ReservedElsewhere(st: Stream, clusterSize: nat, total: int)
    requires Sound(st, clusterSize)
    ensures forall count, free | RefusedByBytes(st, total, count, free) :: RefusedByClusters(st, total, count, free)
    ensures (forall count, free :: RefusedByBytes(st, total, count, free) == RefusedByClusters(st, total, count, free))
            <==> SetBits(st.bits) == 0 || clusterSize == 1
  {
    var k := st.unitClusters * SetBits(st.bits);
    TotalIsMore(st, clusterSize);
    if SetBits(st.bits) != 0 && clusterSize != 1 {
      assert RefusedByClusters(st, total, 0, total - k - 1) && !RefusedByBytes(st, total, 0, total - k - 1);
    }
  }

  /** The bytes of a reservation against its clusters. */
  lemma TotalIsMore(st: Stream, clusterSize: nat)
    requires Sound(st, clusterSize)
    ensures st.unitClusters * SetBits(st.bits) <= st.total
    ensures st.unitClusters * SetBits(st.bits) == st.total <==> SetBits(st.bits) == 0 || clusterSize == 1
  {
    Product(clusterSize, st.unitClusters, SetBits(st.bits));
    Scaled(clusterSize, st.unitClusters * SetBits(st.bits));
  }

  lemma Product(c: nat, u: nat, n: nat)
    requires 0 < u
    ensures c * u * n == c * (u * n) && 0 <= u * n && (u * n == 0 <==> n == 0)
  {
    if n != 0 {
      assert u * n >= n;
    }
  }

  lemma Scaled(c: nat, k: nat)
    requires 0 < c
    ensures k <= c * k && (c * k == k <==> k == 0 || c == 1)
  {
    if 1 < c {
      assert c * k == k + (c - 1) * k && (c - 1) * k >= k;
    }
  }

  /** A stream with one unit of 16 clusters of 4096 bytes reserved, others with 100 clusters, and 110 free: a
      request for 20 is let in, which leaves the others less than they reserved. */
  lemma LetInTooMuch()
    ensures var st := Stream([true] + Zeros(63), 0x1_0000, 0x1_0000, 16, 0, 0, true);
            Sound(st, 4096) && !RefusedByBytes(st, 116, 20, 110) && RefusedByClusters(st, 116, 20, 110)
  {
    SetBitsGrown([true], 63);
    assert SetBits([true]) == 1 + SetBits([]) == 1;
  }

  // ---------- sizes ----------

  /** The size of a new bitmap: it covers the range and the stream, rounded up to whole quadwords. */
  function NewSize(offset: nat, count: nat, allocationSize: nat, unitBytes: nat): int
    requires 0 < unitBytes
  {
    var size := if offset + count < allocationSize then allocationSize else offset + count;
    (Unit(size, unitBytes) + 64) / 64 * 64
  }

  /** Growth always covers the last bit of the range. */
  lemma GrowthCovers(offset: nat, count: nat, allocationSize: nat, unitBytes: nat)
    requires 0 < unitBytes && 0 < count
    ensures Unit(offset + count - 1, unitBytes) < NewSize(offset, count, allocationSize, unitBytes)
    ensures var end, stream := Unit(offset + count, unitBytes), Unit(allocationSize, unitBytes);
            var size := NewSize(offset, count, allocationSize, unitBytes);
            size % 64 == 0 && end < size && stream < size && (size <= end + 64 || size <= stream + 64)
    ensures 0 <= Unit(offset, unitBytes) <= Unit(offset + count - 1, unitBytes)
  {
    var size := if offset + count < allocationSize then allocationSize else offset + count;
    UnitMonotone(offset + count - 1, size, unitBytes);
    UnitMonotone(offset, offset + count - 1, unitBytes);
    UnitMonotone(offset + count, size, unitBytes);
    UnitMonotone(allocationSize, size, unitBytes);
    var q := Unit(size, unitBytes);
    assert q < (q + 64) / 64 * 64;
  }

  // ---------- the volume ----------

  /** A unit of the bitmap that is reserved; units past its end are not. */
  predicate IsSet(st: Stream, k: int) {
    0 <= k < |st.bits| && st.bits[k]
  }

  /** How many units of `[first, stop)` are not reserved. */
  function Fresh(st: Stream, first: int, stop: int): (n: nat)
    ensures first <= stop ==> n <= stop - first
    decreases stop - first
  {
    if stop <= first then 0 else Fresh(st, first, stop - 1) + if IsSet(st, stop - 1) then 0 else 1
  }

  /** What is known of a volume and a stream when units are asked for: the clusters promised so far and those
      free, the largest transfer, and whether the volume is restarting. */
  datatype Books = Books(st: Stream, total: int, freeClusters: int, maximumIo: nat, restarting: bool)

  /** One more unit may be reserved when `n` have been since the books were read: the promised clusters with
      a surcharge of one in 0x100, and the unit, are fewer than the free ones; or the stream has reserved what
      it may still have to allocate, a largest transfer, a unit, and a surcharge; or it is not written. */
  ghost predicate MayReserve(b: Books, n: int) {
    var promised, bytes := b.total + b.st.unitClusters * n, b.st.total + b.st.unitBytes * n;
    var unallocated := if b.restarting then 0 else b.st.allocationSize - b.st.totalAllocated;
    || !b.st.writeAccess
    || promised + promised / 0x100 + b.st.unitClusters < b.freeClusters
    || bytes >= unallocated + b.maximumIo + b.st.unitBytes + b.st.total / 0x100
  }

  /** Every unit of `[first, stop)` that was not reserved passed in its turn. */
  ghost predicate AllPassed(b: Books, first: int, stop: int) {
    forall k | first <= k < stop && !IsSet(b.st, k) :: MayReserve(b, Fresh(b.st, first, k))
  }

  /** The counts when `n` units more are reserved. */
  ghost predicate Counts(b: Books, n: int, st: Stream, total: int) {
    && st.total == b.st.total + b.st.unitBytes * n
    && total == b.total + if b.st.writeAccess then b.st.unitClusters * n else 0
  }

  lemma CountsMore(b: Books, n: int, st: Stream, total: int, k: nat)
    requires Counts(b, n, st, total) && st.unitBytes == b.st.unitBytes && k < |st.bits|
    ensures Counts(b, n + 1, WithBit(st, k, true), total + if b.st.writeAccess then b.st.unitClusters else 0)
  {
    Times(b.st.unitBytes, n);
    Times(b.st.unitClusters, n);
  }

  ghost predicate IsWorst(b: Books, worst: int) {
    worst == b.st.allocationSize + b.maximumIo + b.st.unitBytes -
             (if b.restarting then b.st.allocationSize else b.st.totalAllocated) + b.st.total / 0x100
  }

  lemma IsWorstOf(st: Stream, total: int, freeClusters: int, maximumIo: nat, restarting: bool)
    ensures IsWorst(Books(st, total, freeClusters, maximumIo, restarting),
                    st.allocationSize + maximumIo + st.unitBytes -
                    (if restarting then st.allocationSize else st.totalAllocated) + st.total / 0x100)
  {
  }

  /** The test as it is made, from the counts so far. */
  lemma TestMeans(b: Books, n: int, st: Stream, total: int, worst: int)
    requires Counts(b, n, st, total) && st.unitClusters == b.st.unitClusters && st.writeAccess == b.st.writeAccess
    requires IsWorst(b, worst)
    ensures MayReserve(b, n) <==>
            !(total + total / 0x100 + st.unitClusters >= b.freeClusters && st.total < worst && st.writeAccess)
  {
  }

  /** One more unit that was reserved, or that passed. */
  lemma PassedMore(b: Books, first: int, k: int)
    requires AllPassed(b, first, k) && first <= k && (IsSet(b.st, k) || MayReserve(b, Fresh(b.st, first, k)))
    ensures AllPassed(b, first, k + 1)
    ensures Fresh(b.st, first, k + 1) == Fresh(b.st, first, k) + if IsSet(b.st, k) then 0 else 1
  {
    hide MayReserve;
  }

  lemma NoneYet(b: Books, st: Stream, first: int)
    requires st.total == b.st.total
    ensures AllPassed(b, first, first) && Fresh(b.st, first, first) == 0 && Counts(b, 0, st, b.total)
  {
  }

  /** The last unit that was not reserved before, and how many there are before it. */
  lemma {:induction false} LastFresh(st: Stream, first: int, stop: int) returns (k: int)
    requires Fresh(st, first, stop) != 0
    ensures first <= k < stop && !IsSet(st, k) && Fresh(st, first, k) == Fresh(st, first, stop) - 1
    decreases stop - first
  {
    k := stop - 1;
    if IsSet(st, k) {
      k := LastFresh(st, first, k);
    }
  }

  /** The clusters promised stay below the free ones, with the surcharge for all but the last unit, unless the
      stream without that unit has reserved its worst case. */
  lemma NotOverpromised(b: Books, first: int, stop: int, st: Stream, total: int)
    requires AllPassed(b, first, stop) && Counts(b, Fresh(b.st, first, stop), st, total)
    requires b.st.writeAccess && Fresh(b.st, first, stop) != 0
    ensures var before := total - b.st.unitClusters;
            var unallocated := if b.restarting then 0 else b.st.allocationSize - b.st.totalAllocated;
            || total + before / 0x100 < b.freeClusters
            || st.total >= unallocated + b.maximumIo + 2 * b.st.unitBytes + b.st.total / 0x100
  {
    var k := LastFresh(b.st, first, stop);
    var n := Fresh(b.st, first, k);
    Times(b.st.unitClusters, n);
    Times(b.st.unitBytes, n);
    assert MayReserve(b, n);
  }

  /** The stream with the bits of `[first, stop)` made `value`: its bitmap may have grown, all other bits
      are as they were, and new ones are clear. */
  ghost predicate Changed(a: Stream, b: Stream, first: int, stop: int, value: bool) {
    && b == a.(bits := b.bits, total := b.total) && |a.bits| <= |b.bits|
    && forall k | 0 <= k < |b.bits| :: b.bits[k] == if first <= k < stop then value else k < |a.bits| && a.bits[k]
  }

  /** A new bitmap covers the range up to `end` and the stream, in whole quadwords, and no more than that. */
  ghost predicate JustCovers(st: Stream, size: int, end: nat)
    requires 0 < st.unitBytes
  {
    && size % 64 == 0 && Unit(end, st.unitBytes) < size && Unit(st.allocationSize, st.unitBytes) < size
    && (size <= Unit(end, st.unitBytes) + 64 || size <= Unit(st.allocationSize, st.unitBytes) + 64)
  }

  /** The units of a byte range are reserved up to `stop`, which is past the last of them on success. */
  ghost predicate RangeReserved(a: Stream, b: Stream, offset: nat, count: nat, stop: int, ok: bool)
    requires 0 < a.unitBytes
  {
    var first, last := Unit(offset, a.unitBytes), Unit(offset + count - 1, a.unitBytes);
    && 0 <= first <= stop <= last + 1 && Changed(a, b, first, stop, true) &&
         (ok ==> stop == last + 1 && last < |b.bits|)
  }

  lemma ChangedMore(a: Stream, b: Stream, first: int, k: nat, value: bool)
    requires Changed(a, b, first, k, value) && first <= k < |b.bits|
    ensures Changed(a, if b.bits[k] == value then b else WithBit(b, k, value), first, k + 1, value)
  {
  }

  /** A range, and whether there is pool for a larger bitmap. */
  datatype Asked = Asked(offset: nat, count: nat, poolLeft: bool)

  /** What a request does: the units from the first to `stop` are reserved, each passed in its turn if it was not
      reserved before, and the counts have grown by as many; the bitmap has grown just if it did not reach the
      last unit.  A refused request lacked pool to grow, or stopped at a unit that did not pass. */
  ghost predicate Reserved(b: Books, st: Stream, total: int, asked: Asked, ok: bool, stop: int)
    requires 0 < b.st.unitBytes
  {
    var first, last := Unit(asked.offset, b.st.unitBytes), Unit(asked.offset + asked.count - 1, b.st.unitBytes);
    && AllPassed(b, first, stop) && Counts(b, Fresh(b.st, first, stop), st, total)
    && (last < |b.st.bits| ==> |st.bits| == |b.st.bits|)
    && (|b.st.bits| <= last && asked.poolLeft ==> JustCovers(b.st, |st.bits|, asked.offset + asked.count))
    && (!ok ==>
          if |b.st.bits| <= last && !asked.poolLeft then st == b.st && stop == first
          else stop <= last && !IsSet(b.st, stop) && !MayReserve(b, Fresh(b.st, first, stop)))
  }

  lemma ReservedNothing(b: Books, st: Stream, total: int, asked: Asked)
    requires 0 < b.st.unitBytes && st == b.st && total == b.total && !asked.poolLeft
    requires |b.st.bits| <= Unit(asked.offset + asked.count - 1, b.st.unitBytes) && 0 < asked.count
    ensures Reserved(b, st, total, asked, false, Unit(asked.offset, b.st.unitBytes))
    ensures RangeReserved(b.st, st, asked.offset, asked.count, Unit(asked.offset, b.st.unitBytes), false)
  {
    GrowthCovers(asked.offset, asked.count, st.allocationSize, st.unitBytes);
    hide Unit, MayReserve, JustCovers;
    NoneYet(b, st, Unit(asked.offset, b.st.unitBytes));
  }

  lemma ReservedUpTo(b: Books, size: int, st: Stream, total: int, asked: Asked, first: int, last: int, ok: bool,
                     stop: int)
    requires 0 < b.st.unitBytes && first == Unit(asked.offset, b.st.unitBytes)
    requires last == Unit(asked.offset + asked.count - 1, b.st.unitBytes)
    requires 0 <= first <= stop <= last + 1 && (ok ==> stop == last + 1 && last < |st.bits|) && size == |st.bits|
    requires Changed(b.st, st, first, stop, true)
    requires AllPassed(b, first, stop) && Counts(b, Fresh(b.st, first, stop), st, total)
    requires last < |b.st.bits| ==> size == |b.st.bits|
    requires |b.st.bits| <= last ==> asked.poolLeft && JustCovers(b.st, size, asked.offset + asked.count)
    requires !ok ==> stop <= last && !IsSet(b.st, stop) && !MayReserve(b, Fresh(b.st, first, stop))
    ensures RangeReserved(b.st, st, asked.offset, asked.count, stop, ok) && Reserved(b, st, total, asked, ok, stop)
  {
    hide Unit, MayReserve, JustCovers, AllPassed, Counts, Changed, Fresh, IsSet;
  }

  lemma OnlyOne(s0: seq<Stream>, s1: seq<Stream>, s2: seq<Stream>, i: nat)
    requires i < |s0| == |s1| == |s2| && s1 == s0[i := s1[i]] && s2 == s1[i := s2[i]]
    ensures s2 == s0[i := s2[i]]
  {
  }

  lemma ChangedAt(a: Stream, b: Stream, first: int, k: nat)
    requires Changed(a, b, first, k, true) && k < |b.bits|
    ensures b == a.(bits := b.bits, total := b.total) && (b.bits[k] <==> IsSet(a, k))
  {
  }

  class Volume {
    const clusterSize: nat
    const maximumIo: nat
    var streams: seq<Stream>
    var totalReserved: int
    var freeClusters: int

    ghost predicate Valid()
      reads this
    {
      Balanced(streams, totalReserved, clusterSize)
    }

    constructor (clusterSize: nat, maximumIo: nat, freeClusters: int)
      ensures Valid() && streams == [] && totalReserved == 0 && this.clusterSize == clusterSize &&
                this.maximumIo == maximumIo && this.freeClusters == freeClusters
    {
      this.clusterSize, this.maximumIo, this.freeClusters, streams, totalReserved :=
          clusterSize, maximumIo, freeClusters, [], 0;
    }

    /** Set or clear one bit of a stream that is not `value` yet, with both counts. */
    method Book(i: nat, b: nat, value: bool)
      requires Valid() && i < |streams| && b < |streams[i].bits| && streams[i].bits[b] != value
      modifies this`streams, this`totalReserved
      ensures Valid() && streams == old(streams)[i := WithBit(old(streams[i]), b, value)]
      ensures totalReserved == old(totalReserved) +
                               if value then Weight(old(streams[i])) else 0 - Weight(old(streams[i]))
    {
      BitBooked(streams, totalReserved, clusterSize, i, b, value);
      var st := streams[i];
      streams := streams[i := st.(bits := st.bits[b := value])];
      streams := streams[i := streams[i].(total := if value then st.total + st.unitBytes else st.total - st.unitBytes)];
      if st.writeAccess {
        totalReserved := if value then totalReserved + st.unitClusters else totalReserved - st.unitClusters;
      }
      assert streams == old(streams)[i := WithBit(old(streams[i]), b, value)];
    }

    /** A larger bitmap, if the last bit is not in the old one. */
    method Grow(i: nat, offset: nat, count: nat, poolLeft: bool) returns (ok: bool)
      requires Valid() && i < |streams| && 0 < count && 0 < streams[i].unitBytes
      modifies this`streams
      ensures Valid() && |streams| == |old(streams)| && streams == old(streams)[i := streams[i]]
      ensures Changed(old(streams[i]), streams[i], 0, 0, true) && streams[i].total == old(streams[i]).total
      ensures var last := Unit(offset + count - 1, old(streams[i]).unitBytes);
              && (ok <==> last < |old(streams[i]).bits| || poolLeft)
              && (!ok || last < |old(streams[i]).bits| ==> streams == old(streams))
              && (ok ==> last < |streams[i].bits|)
              && (ok && |old(streams[i]).bits| <= last ==>
                    JustCovers(old(streams[i]), |streams[i].bits|, offset + count))
    {
      hide Unit, NewSize, Balanced;
      var st := streams[i];
      var last := Unit(offset + count - 1, st.unitBytes);
      GrowthCovers(offset, count, st.allocationSize, st.unitBytes);
      ok := true;
      if |st.bits| <= last {
        if !poolLeft {
          return false;
        }
        var size := NewSize(offset, count, st.allocationSize, st.unitBytes);
        GrowthBooked(streams, totalReserved, clusterSize, i, size - |st.bits|);
        streams := streams[i := st.(bits := st.bits + Zeros(size - |st.bits|))];
      }
    }

    /** The units of `[first, last]` one by one, until one is refused. */
    method ReserveUnits(i: nat, first: nat, last: nat, worst: int, ghost b: Books) returns (ok: bool, ghost stop: int)
      requires Valid() && i < |streams| && first <= last < |streams[i].bits|
      requires IsWorst(b, worst) && b.freeClusters == freeClusters && b.total == totalReserved
      requires Changed(b.st, streams[i], first, first, true) && streams[i].total == b.st.total
      modifies this`streams, this`totalReserved
      ensures Valid() && |streams| == |old(streams)| && streams == old(streams)[i := streams[i]]
      ensures first <= stop <= last + 1 && (ok ==> stop == last + 1)
      ensures Changed(b.st, streams[i], first, stop, true) && |streams[i].bits| == |old(streams[i]).bits|
      ensures AllPassed(b, first, stop) && Counts(b, Fresh(b.st, first, stop), streams[i], totalReserved)
      ensures !ok ==> stop <= last && !IsSet(b.st, stop) && !MayReserve(b, Fresh(b.st, first, stop))
    {
      hide Balanced, Changed, Counts, MayReserve, AllPassed, Fresh, IsSet, IsWorst;
      NoneYet(b, streams[i], first);
      var bit: nat := first;
      while bit <= last
        invariant first <= bit <= last + 1 && Valid() && i < |streams| == |old(streams)|
        invariant streams == old(streams)[i := streams[i]] && |streams[i].bits| == |old(streams[i]).bits|
        invariant Changed(b.st, streams[i], first, bit, true)
        invariant AllPassed(b, first, bit) && Counts(b, Fresh(b.st, first, bit), streams[i], totalReserved)
      {
        ChangedAt(b.st, streams[i], first, bit);
        ChangedMore(b.st, streams[i], first, bit, true);
        TestMeans(b, Fresh(b.st, first, bit), streams[i], totalReserved, worst);
        if !streams[i].bits[bit] {
          if totalReserved + totalReserved / 0x100 + streams[i].unitClusters >= freeClusters &&
             streams[i].total < worst && streams[i].writeAccess {
            return false, bit;
          }
          CountsMore(b, Fresh(b.st, first, bit), streams[i], totalReserved, bit);
          Book(i, bit, true);
        }
        PassedMore(b, first, bit);
        bit := bit + 1;
      }
      return true, bit;
    }

    /** NtfsReserveClusters.  `stop` is the first unit that was not looked at: a refusal half way leaves
        what was reserved before it. */
    method ReserveClusters(i: nat, offset: nat, count: nat, poolLeft: bool, restarting: bool)
      returns (ok: bool, ghost stop: int)
      requires Valid() && i < |streams|
      modifies this`streams, this`totalReserved
      ensures Valid() && |streams| == |old(streams)| && streams == old(streams)[i := streams[i]]
      ensures count == 0 ==> ok && streams == old(streams) && totalReserved == old(totalReserved)
      ensures old(streams[i]).unitBytes > 0
      ensures 0 < count ==>
                RangeReserved(old(streams[i]), streams[i], offset, count, stop, ok)
      ensures 0 < count ==>
                Reserved(Books(old(streams[i]), old(totalReserved), freeClusters, maximumIo, restarting), streams[i],
                         totalReserved, Asked(offset, count, poolLeft), ok, stop)
    {
      hide Balanced, Sound;
      stop := 0;
      UnitIsPositive(streams, totalReserved, clusterSize, i);
      hide *;
      if count == 0 {
        return true, 0;
      }
      IsWorstOf(streams[i], totalReserved, freeClusters, maximumIo, restarting);
      GrowthCovers(offset, count, streams[i].allocationSize, streams[i].unitBytes);
      var first, last := Unit(offset, streams[i].unitBytes), Unit(offset + count - 1, streams[i].unitBytes);
      var worst := streams[i].allocationSize + maximumIo + streams[i].unitBytes -
                   (if restarting then streams[i].allocationSize else streams[i].totalAllocated) +
                   streams[i].total / 0x100;
      ghost var b := Books(streams[i], totalReserved, freeClusters, maximumIo, restarting);
      ghost var asked := Asked(offset, count, poolLeft);
      ok := Grow(i, offset, count, poolLeft);
      if !ok {
        ReservedNothing(b, streams[i], totalReserved, asked);
        return false, first;
      }
      Start(b.st, streams[i], first);
      ghost var before, size := streams, |streams[i].bits|;
      ok, stop := ReserveUnits(i, first, last, worst, b);
      OnlyOne(old(streams), before, streams, i);
      ReservedUpTo(b, size, streams[i], totalReserved, asked, first, last, ok, stop);
    }

    /** NtfsFreeReservedClusters: of the given range, or to the end of the stream if the count is zero. */
    method FreeReservedClusters(i: nat, offset: nat, count: nat)
      requires Valid() && i < |streams|
      modifies this`streams, this`totalReserved
      ensures Valid() && |streams| == |old(streams)| && streams == old(streams)[i := streams[i]]
      ensures var first := Unit(offset, old(streams[i]).unitBytes);
              var stop := if count == 0 then |streams[i].bits|
                          else Unit(offset + count - 1, old(streams[i]).unitBytes) + 1;
              |streams[i].bits| == |old(streams[i]).bits| && Changed(old(streams[i]), streams[i], first, stop, false)
    {
      UnitIsPositive(streams, totalReserved, clusterSize, i);
      ghost var st := streams[i];
      UnitMonotone(offset, offset, st.unitBytes);
      if count != 0 {
        UnitMonotone(offset, offset + count - 1, st.unitBytes);
      }
      hide Unit, Balanced, Weight;
      var first := Unit(offset, streams[i].unitBytes);
      var last := if count != 0 then Unit(offset + count - 1, streams[i].unitBytes) else 0xffff_ffff;
      if count == 0 || last >= |streams[i].bits| {
        last := |streams[i].bits| - 1;
      }
      var bit: nat := first;
      while bit <= last
        invariant first <= bit && Valid() && i < |streams| == |old(streams)| && last < |streams[i].bits|
        invariant streams == old(streams)[i := streams[i]] && |streams[i].bits| == |st.bits|
        invariant Changed(st, streams[i], first, bit, false) && (bit <= last + 1 || bit == first)
      {
        ChangedMore(st, streams[i], first, bit, false);
        if streams[i].bits[bit] {
          Book(i, bit, false);
        }
        bit := bit + 1;
      }
    }

    /** The first time a stream is opened for writing, what it has reserved is counted in the volume. */
    method SeeWriteAccess(i: nat) returns (ok: bool)
      requires Valid() && i < |streams|
      modifies this`streams, this`totalReserved
      ensures Valid() && |streams| == |old(streams)| && streams == old(streams)[i := streams[i]]
      ensures streams[i] == old(streams[i]).(writeAccess := streams[i].writeAccess) && (ok <==> streams[i].writeAccess)
      ensures var st := old(streams[i]);
              var k := st.unitClusters * SetBits(st.bits);
              && (ok <==> st.writeAccess || SetBits(st.bits) == 0 || old(totalReserved) + k <= freeClusters)
              && totalReserved == old(totalReserved) + if ok && !st.writeAccess then k else 0
    {
      ok := true;
      var st := streams[i];
      UnitIsPositive(streams, totalReserved, clusterSize, i);
      TotalInClusters(st, clusterSize);
      if !st.writeAccess {
        if st.total != 0 && ClustersFromBytes(st.total, clusterSize) + totalReserved > freeClusters {
          return false;
        }
        Booked(streams, totalReserved, clusterSize, i, st.(writeAccess := true));
        totalReserved := totalReserved + ClustersFromBytes(st.total, clusterSize);
        streams := streams[i := st.(writeAccess := true)];
      }
    }

    /** A stream is deleted: what it still has reserved goes back to the volume. */
    method DeleteStream(i: nat)
      requires Valid() && i < |streams|
      modifies this`streams, this`totalReserved
      ensures Valid() && streams == old(streams)[i := old(streams[i]).(bits := [], total := 0, writeAccess := false)]
      ensures var st := old(streams[i]);
              0 <= totalReserved ==
                old(totalReserved) - if st.writeAccess then st.unitClusters * SetBits(st.bits) else 0
    {
      var st := streams[i];
      UnitIsPositive(streams, totalReserved, clusterSize, i);
      TotalInClusters(st, clusterSize);
      SumBounds(streams, i);
      var gone := st.(bits := [], total := 0, writeAccess := false);
      assert SetBits([]) == 0;
      Booked(streams, totalReserved, clusterSize, i, gone);
      if st.total != 0 && st.writeAccess {
        totalReserved := totalReserved - ClustersFromBytes(st.total, clusterSize);
      }
      streams := streams[i := gone];
      SumNonnegative(streams);
    }

    /** A stream without reservations. */
    method OpenStream(unitClusters: nat, allocationSize: nat, totalAllocated: nat)
      requires Valid() && 0 < unitClusters && 0 < clusterSize
      modifies this`streams
      ensures Valid() && streams ==
                old(streams) + [Stream([], 0, clusterSize * unitClusters, unitClusters, allocationSize, totalAllocated,
                                       false)]
    {
      var st := Stream([], 0, clusterSize * unitClusters, unitClusters, allocationSize, totalAllocated, false);
      assert (streams + [st])[..|streams|] == streams;
      assert SetBits([]) == 0;
      streams := streams + [st];
    }

    /** Any sequence of calls, on any streams, while clusters come and go, leaves the books balanced. */
    method Replay(calls: seq<Call>)
      requires Valid() && 0 < clusterSize
      modifies this
      ensures Valid()
    {
      hide Balanced;
      for k := 0 to |calls|
        invariant Valid()
      {
        match calls[k] {
          case Open(unitClusters, allocationSize, totalAllocated) =>
            if 0 < unitClusters {
              OpenStream(unitClusters, allocationSize, totalAllocated);
            }
          case Reserve(i, offset, count, poolLeft, restarting) =>
            if i < |streams| {
              var _, _ := ReserveClusters(i, offset, count, poolLeft, restarting);
            }
          case Release(i, offset, count) =>
            if i < |streams| {
              FreeReservedClusters(i, offset, count);
            }
          case OpenForWrite(i) =>
            if i < |streams| {
              var _ := SeeWriteAccess(i);
            }
          case Delete(i) =>
            if i < |streams| {
              DeleteStream(i);
            }
          case Resize(i, allocationSize, totalAllocated) =>
            if i < |streams| {
              UnitIsPositive(streams, totalReserved, clusterSize, i);
              Booked(streams, totalReserved, clusterSize, i,
                     streams[i].(allocationSize := allocationSize, totalAllocated := totalAllocated));
              streams := streams[i := streams[i].(allocationSize := allocationSize, totalAllocated := totalAllocated)];
            }
          case Allocate(free) => freeClusters := free;
        }
      }
    }
  }

  /** What may happen to the reservations of a volume. */
  datatype Call =
    | Open(unitClusters: nat, allocationSize: nat, totalAllocated: nat)
    | Reserve(i: nat, offset: nat, count: nat, poolLeft: bool, restarting: bool)
    | Release(i: nat, offset: nat, count: nat)
    | OpenForWrite(i: nat)
    | Delete(i: nat)
    | Resize(i: nat, allocationSize: nat, totalAllocated: nat)
    | Allocate(free: int)

  lemma UnitIsPositive(ss: seq<Stream>, total: int, clusterSize: nat, i: nat)
    requires Balanced(ss, total, clusterSize) && i < |ss|
    ensures Sound(ss[i], clusterSize) && 0 < ss[i].unitBytes && (ss[i].total == 0 ==> Share(ss[i]) == 0)
  {
    var st := ss[i];
    assert clusterSize * st.unitClusters >= st.unitClusters;
    var k := SetBits(st.bits);
    if k >= 1 {
      assert st.unitBytes * k >= st.unitBytes;
    }
  }

  lemma Start(a: Stream, b: Stream, first: int)
    requires Changed(a, b, 0, 0, true)
    ensures Changed(a, b, first, first, true)
  {
  }
}
