/**
 * Mapping pairs: the compressed form in which a stream's run list is kept on disk.  One writer, one
 * size predictor, and three readers.
 */
module MappingPairs {
  import opened Mcb
  import opened Codec

  const MAXLONGLONG: int := 0x7fff_ffff_ffff_ffff
  const TWO_TO_THE_32: int := 0x1_0000_0000

  // ---------- run lists ----------

  predicate IsHole(r: Run) { r.lcn == UNUSED_LCN }

  /** Runs and holes that follow each other without a gap from `v` on. */
  ghost predicate Contiguous(es: seq<Run>, v: int) {
    es != [] ==>
      && es[0].vcn == v && 0 < es[0].count
      && (IsHole(es[0]) || 0 <= es[0].lcn < TWO_TO_THE_32)
      && Contiguous(es[1..], es[0].End())
  }

  /** One past the last cluster that a list starting at `v` describes. */
  function EndOf(es: seq<Run>, v: int): int {
    if es == [] then v else EndOf(es[1..], es[0].End())
  }

  function RunAt(r: Run, v: int): int {
    if IsHole(r) then UNUSED_LCN else r.lcn + (v - r.vcn)
  }

  /** The LCN a list gives for `v`. */
  function MapAt(es: seq<Run>, v: int): int {
    if es == [] then UNUSED_LCN else if es[0].Covers(v) then RunAt(es[0], v) else MapAt(es[1..], v)
  }

  /** What an NTFS_MCB enumerates: its runs with the holes between them, up to the end of its range. */
  function Entries(m: seq<Run>, floor: int, limit: int): seq<Run> {
    if m == [] then if floor < limit then [Run(floor, UNUSED_LCN, limit - floor)] else []
    else (if floor < m[0].vcn then [Run(floor, UNUSED_LCN, m[0].vcn - floor)] else []) +
         [m[0]] + Entries(m[1..], m[0].End(), limit)
  }

  /** One entry in front of a list. */
  lemma MapAtCons(r: Run, es: seq<Run>, v: int)
    ensures MapAt([r] + es, v) == if r.Covers(v) then RunAt(r, v) else MapAt(es, v)
    ensures 0 < r.count && (IsHole(r) || 0 <= r.lcn < TWO_TO_THE_32) && Contiguous(es, r.End()) ==>
              Contiguous([r] + es, r.vcn)
  {
    assert ([r] + es)[1..] == es;
  }

  /** The enumeration says what the map says. */
  lemma {:induction false} EntriesAt(m: seq<Run>, floor: int, limit: int, v: int)
    requires Ordered(m, floor) && forall i | 0 <= i < |m| :: m[i].lcn < TWO_TO_THE_32
    ensures Contiguous(Entries(m, floor, limit), floor)
    ensures floor <= v ==> MapAt(Entries(m, floor, limit), v) == At(m, v)
  {
    if m == [] {
      MapAtCons(Run(floor, UNUSED_LCN, limit - floor), [], v);
      assert [Run(floor, UNUSED_LCN, limit - floor)] + [] == [Run(floor, UNUSED_LCN, limit - floor)];
    } else {
      var rest := Entries(m[1..], m[0].End(), limit);
      EntriesAt(m[1..], m[0].End(), limit, v);
      MapAtCons(m[0], rest, v);
      if floor < m[0].vcn {
        var h := Run(floor, UNUSED_LCN, m[0].vcn - floor);
        assert Entries(m, floor, limit) == [h] + ([m[0]] + rest);
        MapAtCons(h, [m[0]] + rest, v);
        if h.Covers(v) {
          AtBelow(m, m[0].vcn, v);
        }
      } else {
        assert Entries(m, floor, limit) == [m[0]] + rest;
      }
    }
  }

  /** The entries from `v` on, the first one cut to start there. */
  function Tail(es: seq<Run>, v: int): seq<Run> {
    if es == [] then []
    else if v < es[0].End() then [Run(v, RunAt(es[0], v), es[0].End() - v)] + es[1..]
    else Tail(es[1..], v)
  }

  /** The part of a list from `v` up to `hi`, filled up with a hole if the list ends before. */
  function Window(es: seq<Run>, v: int, hi: int): seq<Run> {
    if hi <= v then []
    else if es == [] then if hi == MAXLONGLONG then [] else [Run(v, UNUSED_LCN, hi - v)]
    else [es[0].(count := if es[0].End() > hi then hi - v else es[0].count)] + Window(es[1..], es[0].End(), hi)
  }

  // ---------- the format ----------

  /** The LCN the next delta is taken from. */
  function NextLcn(r: Run, lcn: int): int { if IsHole(r) then lcn else r.lcn }

  function LcnSize(r: Run, lcn: int): nat { if IsHole(r) then 0 else ByteCount(r.lcn - lcn) }

  /** Counts and LCNs of 32 bits. */
  predicate Encodable(r: Run, lcn: int) {
    0 < r.count < TWO_TO_THE_32 && 0 <= lcn < TWO_TO_THE_32 && (IsHole(r) || 0 <= r.lcn < TWO_TO_THE_32)
  }

  /** A run: a byte with the two sizes, its length, and the distance of its LCN from the last one. */
  function EncodeRun(r: Run, lcn: int): seq<Byte>
    requires Encodable(r, lcn)
  {
    SizesAreSmall(r, lcn);
    var sizeV, sizeL := ByteCount(r.count), LcnSize(r, lcn);
    [sizeV + 16 * sizeL] + LE(r.count, sizeV) + LE(r.lcn - lcn, sizeL)
  }

  lemma FiveBytes(c: int)
    requires -TWO_TO_THE_32 < c < TWO_TO_THE_32
    ensures Least(c, ByteCount(c)) && 1 <= ByteCount(c) <= 5
  {
    hide ByteCount;
    assert Half(5) == 0x80_0000_0000;
    FitsMore(c, 5, 8);
    ByteCountIsLeast(c);
    if ByteCount(c) > 5 {
      FitsMore(c, 5, ByteCount(c) - 1);
    }
  }

  lemma SizesAreSmall(r: Run, lcn: int)
    requires Encodable(r, lcn)
    ensures 1 <= ByteCount(r.count) <= 5 && LcnSize(r, lcn) <= 5 && (LcnSize(r, lcn) == 0 <==> IsHole(r))
  {
    hide ByteCount;
    FiveBytes(r.count);
    if !IsHole(r) {
      FiveBytes(r.lcn - lcn);
    }
  }

  /** A list whose runs are all of 32 bits. */
  ghost predicate Small(rs: seq<Run>, v: int) {
    0 <= v && Contiguous(rs, v) && EndOf(rs, v) < TWO_TO_THE_32
  }

  lemma {:induction false} EndOfGrows(rs: seq<Run>, v: int)
    requires Contiguous(rs, v)
    ensures v <= EndOf(rs, v) && (rs != [] ==> v < EndOf(rs, v))
  {
    if rs != [] {
      EndOfGrows(rs[1..], rs[0].End());
    }
  }

  lemma SmallHead(rs: seq<Run>, v: int, lcn: int)
    requires Small(rs, v) && rs != [] && 0 <= lcn < TWO_TO_THE_32
    ensures Encodable(rs[0], lcn) && Small(rs[1..], rs[0].End()) && 0 <= NextLcn(rs[0], lcn) < TWO_TO_THE_32
    ensures rs[0].vcn == v && rs[0].End() < TWO_TO_THE_32
  {
    hide ByteCount;
    EndOfGrows(rs[1..], rs[0].End());
  }

  /** The pairs of a list, without the terminating zero. */
  ghost function Body(rs: seq<Run>, v: int, lcn: int): seq<Byte>
    requires Small(rs, v) && 0 <= lcn < TWO_TO_THE_32
    decreases rs
  {
    if rs == [] then []
    else
      SmallHead(rs, v, lcn);
      EncodeRun(rs[0], lcn) + Body(rs[1..], rs[0].End(), NextLcn(rs[0], lcn))
  }

  /** The array built for a list. */
  ghost function Encode(rs: seq<Run>, v: int): seq<Byte>
    requires Small(rs, v)
  {
    Body(rs, v, 0) + [0]
  }

  // ---------- the readers ----------

  // Sums of VCNs and of LCNs are taken not to wrap at 64 bits; `SumsFit` says when VCNs do not.

  /** The VCN byte count in the low nibble. */
  function VcnBytes(header: Byte): nat { header % 16 }

  /** The LCN byte count in the high nibble, shifted down from a signed character and taken as an
      unsigned long: eight and more come out huge. */
  function LcnBytes(header: Byte): nat {
    if header < 128 then header / 16 else TWO_TO_THE_32 - 16 + header / 16
  }

  datatype Walk = Done(m: seq<Run>, next: int) | Corrupt

  /** NtfsLookupAllocation: add the runs of an array to a map; `next` is HighestCandidate. */
  function LookupWalk(b: seq<Byte>, pos: nat, vcn: int, lcn: int, m: seq<Run>): Walk
    requires pos < |b|
    decreases |b| - pos
  {
    if b[pos] == 0 then Done(m, vcn)
    else
      var v, l, p := VcnBytes(b[pos]), LcnBytes(b[pos]), pos + 1;
      if v < 1 || v > 8 || l > 8 || p + v + l + 1 > |b| || b[p + v - 1] >= 128 then Corrupt
      else
        var next := vcn + Unsigned(b[p..p + v]);
        if l == 0 then LookupWalk(b, p + v, next, lcn, m)
        else
          var lcn' := lcn + Signed(b[p + v..p + v + l]);
          if lcn' >= 0 && next >= TWO_TO_THE_32 then Corrupt
          else
            var m' := if lcn' >= 0 && next > vcn then Add(m, Run(vcn, lcn', next - vcn)) else m;
            LookupWalk(b, p + v + l, next, lcn', m')
  }

  /** NtfsCheckAttributeRecord: the next VCN, or -1 for an invalid array.  For a hole it takes the sign of
      the byte before, which has just been found not to be negative, and copies nothing. */
  function CheckWalk(b: seq<Byte>, pos: nat, vcn: int, lcn: int, totalClusters: int): int
    requires pos < |b|
    decreases |b| - pos
  {
    if b[pos] == 0 then vcn
    else
      var v, l, p := VcnBytes(b[pos]), LcnBytes(b[pos]), pos + 1;
      if v > 8 || l > 8 || p + v + l + 1 > |b| || b[p + v - 1] >= 128 then -1
      else
        var next := vcn + Unsigned(b[p..p + v]);
        if l == 0 then CheckWalk(b, p + v, next, lcn, totalClusters)
        else
          var lcn' := lcn + Signed(b[p + v..p + v + l]);
          if lcn' + (next - vcn) > totalClusters then -1
          else CheckWalk(b, p + v + l, next, lcn', totalClusters)
  }

  /** How far NtfsGetHighestVcn goes on from the byte after a size byte.  It adds the two counts as unsigned
      longs and tests neither, so a size byte of 0x80 or more makes the sum wrap: the step is short. */
  function Stride(header: Byte): nat { (VcnBytes(header) + LcnBytes(header)) % TWO_TO_THE_32 }

  /** The bytes hold all that NtfsGetHighestVcn reads, and it has room for what it copies.  Only a negative VCN
      change, for which it raises, stops it before a zero size byte. */
  predicate Readable(b: seq<Byte>, pos: nat)
    decreases |b| - pos
  {
    pos < |b| &&
    (b[pos] == 0 ||
     var v, p := VcnBytes(b[pos]), pos + 1;
     p + v - 1 < |b| && (b[p + v - 1] >= 128 || (v <= 8 && Readable(b, p + Stride(b[pos])))))
  }

  /** NtfsGetHighestVcn: one past the highest VCN, or -1 if it raises. */
  function HighestWalk(b: seq<Byte>, pos: nat, vcn: int): int
    requires Readable(b, pos)
    decreases |b| - pos
  {
    if b[pos] == 0 then vcn
    else
      var v, p := VcnBytes(b[pos]), pos + 1;
      if b[p + v - 1] >= 128 then -1
      else HighestWalk(b, p + Stride(b[pos]), vcn + Unsigned(b[p..p + v]))
  }

  /** NtfsGetHighestVcn goes by a size byte of 0x80 or more. */
  predicate TakesWide(b: seq<Byte>, pos: nat)
    requires Readable(b, pos)
    decreases |b| - pos
  {
    b[pos] != 0 &&
    (b[pos] >= 128 ||
     (b[pos + VcnBytes(b[pos])] < 128 && TakesWide(b, pos + 1 + Stride(b[pos]))))
  }

  // ---------- what each reader accepts ----------

  /** A pair with counts of at most eight bytes, a VCN change that is not negative, and a byte behind it. */
  predicate ShapedPair(b: seq<Byte>, pos: nat)
    requires pos < |b|
  {
    var v, l, p := VcnBytes(b[pos]), LcnBytes(b[pos]), pos + 1;
    v <= 8 && l <= 8 && p + v + l < |b| && b[p + v - 1] < 128
  }

  function AfterPair(b: seq<Byte>, pos: nat): (r: nat)
    requires pos < |b| && ShapedPair(b, pos)
    ensures pos < r < |b|
  {
    pos + 1 + VcnBytes(b[pos]) + LcnBytes(b[pos])
  }

  /** All pairs up to the terminating zero are of that shape. */
  predicate Shaped(b: seq<Byte>, pos: nat)
    requires pos < |b|
    decreases |b| - pos
  {
    b[pos] == 0 || (ShapedPair(b, pos) && Shaped(b, AfterPair(b, pos)))
  }

  /** A pair as it stands in the bytes: its two sizes, the clusters `[vcn, next)` and the LCN reached. */
  datatype Pair = Pair(vcnBytes: nat, lcnBytes: nat, vcn: int, next: int, lcn: int)

  function PairAt(b: seq<Byte>, pos: nat, vcn: int, lcn: int): Pair
    requires pos < |b| && ShapedPair(b, pos)
  {
    var v, l, p := VcnBytes(b[pos]), LcnBytes(b[pos]), pos + 1;
    Pair(v, l, vcn, vcn + Unsigned(b[p..p + v]), if l == 0 then lcn else lcn + Signed(b[p + v..p + v + l]))
  }

  /** The pairs of an array. */
  function Pairs(b: seq<Byte>, pos: nat, vcn: int, lcn: int): seq<Pair>
    requires pos < |b| && Shaped(b, pos)
    decreases |b| - pos
  {
    if b[pos] == 0 then []
    else
      var x := PairAt(b, pos, vcn, lcn);
      [x] + Pairs(b, AfterPair(b, pos), x.next, x.lcn)
  }

  function EndOfPairs(xs: seq<Pair>, vcn: int): int {
    if xs == [] then vcn else EndOfPairs(xs[1..], xs[0].next)
  }

  /** A pair the lookup takes: it has a VCN change, and a run on disk ends within 32 bits. */
  predicate Loadable(x: Pair) { 1 <= x.vcnBytes && (0 < x.lcnBytes && 0 <= x.lcn ==> x.next < TWO_TO_THE_32) }

  /** A pair the checker takes: what has LCN bytes ends on the volume. */
  predicate OnVolume(x: Pair, totalClusters: int) { 0 < x.lcnBytes ==> x.lcn + (x.next - x.vcn) <= totalClusters }

  ghost predicate AllLoadable(xs: seq<Pair>) { forall x | x in xs :: Loadable(x) }

  ghost predicate AllOnVolume(xs: seq<Pair>, totalClusters: int) { forall x | x in xs :: OnVolume(x, totalClusters) }

  lemma AllOfCons(x: Pair, xs: seq<Pair>, totalClusters: int)
    ensures AllLoadable([x] + xs) <==> Loadable(x) && AllLoadable(xs)
    ensures AllOnVolume([x] + xs, totalClusters) <==> OnVolume(x, totalClusters) && AllOnVolume(xs, totalClusters)
    ensures EndOfPairs([x] + xs, x.vcn) == EndOfPairs(xs, x.next)
  {
    assert ([x] + xs)[1..] == xs;
  }

  /** The first pair of an array, and those behind it. */
  lemma PairsCons(b: seq<Byte>, pos: nat, vcn: int, lcn: int, totalClusters: int)
    requires pos < |b| && b[pos] != 0 && Shaped(b, pos)
    ensures var x := PairAt(b, pos, vcn, lcn);
            var all, rest := Pairs(b, pos, vcn, lcn), Pairs(b, AfterPair(b, pos), x.next, x.lcn);
            && (AllLoadable(all) <==> Loadable(x) && AllLoadable(rest))
            && (AllOnVolume(all, totalClusters) <==> OnVolume(x, totalClusters) && AllOnVolume(rest, totalClusters))
            && EndOfPairs(all, vcn) == EndOfPairs(rest, x.next) && vcn <= x.next
  {
    hide AllLoadable, AllOnVolume, EndOfPairs, Loadable, OnVolume, Unsigned, Signed, VcnBytes, LcnBytes;
    var x := PairAt(b, pos, vcn, lcn);
    AllOfCons(x, Pairs(b, AfterPair(b, pos), x.next, x.lcn), totalClusters);
  }

  /** One turn of each reader. */
  lemma LookupPair(b: seq<Byte>, pos: nat, vcn: int, lcn: int, m: seq<Run>) returns (m': seq<Run>)
    requires pos < |b| && b[pos] != 0
    ensures if !ShapedPair(b, pos) || !Loadable(PairAt(b, pos, vcn, lcn))
            then LookupWalk(b, pos, vcn, lcn, m) == Corrupt
            else var x := PairAt(b, pos, vcn, lcn);
                 LookupWalk(b, pos, vcn, lcn, m) == LookupWalk(b, AfterPair(b, pos), x.next, x.lcn, m')
  {
    hide Unsigned, Signed, Add, VcnBytes, LcnBytes;
    m' := m;
    if ShapedPair(b, pos) {
      var x := PairAt(b, pos, vcn, lcn);
      if x.lcnBytes != 0 && x.lcn >= 0 && x.next > vcn {
        m' := Add(m, Run(vcn, x.lcn, x.next - vcn));
      }
    }
  }

  lemma CheckPair(b: seq<Byte>, pos: nat, vcn: int, lcn: int, totalClusters: int)
    requires pos < |b| && b[pos] != 0
    ensures CheckWalk(b, pos, vcn, lcn, totalClusters) ==
            if !ShapedPair(b, pos) || !OnVolume(PairAt(b, pos, vcn, lcn), totalClusters) then -1
            else var x := PairAt(b, pos, vcn, lcn); CheckWalk(b, AfterPair(b, pos), x.next, x.lcn, totalClusters)
  {
    hide Unsigned, Signed, VcnBytes, LcnBytes;
  }

  lemma StrideOf(header: Byte)
    ensures header < 128 ==> Stride(header) == VcnBytes(header) + LcnBytes(header) && LcnBytes(header) <= 7
    ensures header >= 128 ==> LcnBytes(header) > 8
  {
  }

  lemma HighestPair(b: seq<Byte>, pos: nat, vcn: int, lcn: int)
    requires pos < |b| && b[pos] != 0
    ensures ShapedPair(b, pos) ==> (Readable(b, pos) <==> Readable(b, AfterPair(b, pos))) && b[pos] < 128
    ensures ShapedPair(b, pos) && Readable(b, pos) ==>
              && HighestWalk(b, pos, vcn) == HighestWalk(b, AfterPair(b, pos), PairAt(b, pos, vcn, lcn).next)
              && (TakesWide(b, pos) <==> TakesWide(b, AfterPair(b, pos)))
    ensures !ShapedPair(b, pos) && Readable(b, pos) ==> HighestWalk(b, pos, vcn) == -1 || TakesWide(b, pos)
  {
    hide Unsigned, Signed, VcnBytes, LcnBytes, Stride;
    StrideOf(b[pos]);
    var v, p := VcnBytes(b[pos]), pos + 1;
    assert Readable(b, pos) && b[p + v - 1] < 128 ==>
             Readable(b, p + Stride(b[pos])) && p + Stride(b[pos]) < |b| && v <= 8;
  }

  /** The lookup accepts just the well-shaped arrays whose pairs it can load, and ends where they end. */
  lemma {:induction false} LookupAccepts(b: seq<Byte>, pos: nat, vcn: int, lcn: int, m: seq<Run>)
    requires pos < |b|
    ensures LookupWalk(b, pos, vcn, lcn, m).Done? <==> Shaped(b, pos) && AllLoadable(Pairs(b, pos, vcn, lcn))
    ensures LookupWalk(b, pos, vcn, lcn, m).Done? ==>
              LookupWalk(b, pos, vcn, lcn, m).next == EndOfPairs(Pairs(b, pos, vcn, lcn), vcn)
    decreases |b| - pos
  {
    if b[pos] != 0 {
      hide LookupWalk, ShapedPair, AfterPair, PairAt, Pairs, AllLoadable, EndOfPairs, Loadable;
      var m' := LookupPair(b, pos, vcn, lcn, m);
      if ShapedPair(b, pos) {
        var x := PairAt(b, pos, vcn, lcn);
        LookupAccepts(b, AfterPair(b, pos), x.next, x.lcn, m');
        if Shaped(b, pos) {
          PairsCons(b, pos, vcn, lcn, 0);
        }
      }
    }
  }

  /** The checker accepts just the well-shaped arrays whose pairs lie on the volume, and ends where they end. */
  lemma {:induction false} CheckAccepts(b: seq<Byte>, pos: nat, vcn: int, lcn: int, totalClusters: int)
    requires pos < |b| && 0 <= vcn
    ensures CheckWalk(b, pos, vcn, lcn, totalClusters) ==
            if Shaped(b, pos) && AllOnVolume(Pairs(b, pos, vcn, lcn), totalClusters)
            then EndOfPairs(Pairs(b, pos, vcn, lcn), vcn) else -1
    decreases |b| - pos
  {
    if b[pos] != 0 {
      CheckPair(b, pos, vcn, lcn, totalClusters);
      if ShapedPair(b, pos) {
        var x := PairAt(b, pos, vcn, lcn);
        CheckAccepts(b, AfterPair(b, pos), x.next, x.lcn, totalClusters);
        if Shaped(b, pos) {
          PairsCons(b, pos, vcn, lcn, totalClusters);
        }
      }
    }
  }

  /** The third reader ends where a well-shaped array ends.  What it goes through without raising is
      well-shaped if and only if it goes by no size byte of 0x80 or more. */
  lemma {:induction false} HighestAccepts(b: seq<Byte>, pos: nat, vcn: int, lcn: int)
    requires pos < |b| && 0 <= vcn
    ensures Shaped(b, pos) ==>
              && Readable(b, pos) && vcn <= HighestWalk(b, pos, vcn)
              && HighestWalk(b, pos, vcn) == EndOfPairs(Pairs(b, pos, vcn, lcn), vcn)
    ensures Readable(b, pos) ==> (Shaped(b, pos) <==> HighestWalk(b, pos, vcn) != -1 && !TakesWide(b, pos))
    decreases |b| - pos
  {
    if b[pos] != 0 {
      HighestPair(b, pos, vcn, lcn);
      if ShapedPair(b, pos) {
        var x := PairAt(b, pos, vcn, lcn);
        HighestAccepts(b, AfterPair(b, pos), x.next, x.lcn);
        if Shaped(b, pos) {
          PairsCons(b, pos, vcn, lcn, 0);
        }
      }
    }
  }

  /** Up to an end within 63 bits no sum of VCNs on the way exceeds them. */
  lemma {:induction false} SumsFit(b: seq<Byte>, pos: nat, vcn: nat, lcn: int)
    requires pos < |b| && Shaped(b, pos) && EndOfPairs(Pairs(b, pos, vcn, lcn), vcn) <= MAXLONGLONG
    ensures forall x | x in Pairs(b, pos, vcn, lcn) :: vcn <= x.vcn <= x.next <= MAXLONGLONG
    ensures vcn <= EndOfPairs(Pairs(b, pos, vcn, lcn), vcn)
    decreases |b| - pos
  {
    if b[pos] != 0 {
      hide Unsigned, Signed, VcnBytes, LcnBytes;
      var x := PairAt(b, pos, vcn, lcn);
      PairsCons(b, pos, vcn, lcn, 0);
      SumsFit(b, AfterPair(b, pos), x.next, x.lcn);
    }
  }

  /** On every array the lookup accepts, the third reader finds the same end. */
  lemma HighestAgrees(b: seq<Byte>, pos: nat, vcn: nat, lcn: int, m: seq<Run>)
    requires pos < |b| && LookupWalk(b, pos, vcn, lcn, m).Done?
    ensures Readable(b, pos) && HighestWalk(b, pos, vcn) == LookupWalk(b, pos, vcn, lcn, m).next
  {
    LookupAccepts(b, pos, vcn, lcn, m);
    HighestAccepts(b, pos, vcn, lcn);
  }

  /** On every array the lookup accepts, the checker finds the same end if every run lies on the volume,
      and otherwise rejects it. */
  lemma CheckAgrees(b: seq<Byte>, pos: nat, vcn: nat, lcn: int, m: seq<Run>, totalClusters: int)
    requires pos < |b| && LookupWalk(b, pos, vcn, lcn, m).Done?
    ensures Shaped(b, pos)
    ensures CheckWalk(b, pos, vcn, lcn, totalClusters) ==
            if AllOnVolume(Pairs(b, pos, vcn, lcn), totalClusters) then LookupWalk(b, pos, vcn, lcn, m).next else -1
  {
    LookupAccepts(b, pos, vcn, lcn, m);
    CheckAccepts(b, pos, vcn, lcn, totalClusters);
  }

  /** An array the checker accepts is one the lookup accepts if and only if each of its pairs has a VCN
      change and each of its runs on disk ends within 32 bits; then both end at the same VCN. */
  lemma CheckedIsLoadable(b: seq<Byte>, pos: nat, vcn: nat, lcn: int, m: seq<Run>, totalClusters: int)
    requires pos < |b| && CheckWalk(b, pos, vcn, lcn, totalClusters) != -1
    ensures Shaped(b, pos)
    ensures LookupWalk(b, pos, vcn, lcn, m).Done? <==> AllLoadable(Pairs(b, pos, vcn, lcn))
    ensures LookupWalk(b, pos, vcn, lcn, m).Done? ==>
              LookupWalk(b, pos, vcn, lcn, m).next == CheckWalk(b, pos, vcn, lcn, totalClusters)
  {
    LookupAccepts(b, pos, vcn, lcn, m);
    CheckAccepts(b, pos, vcn, lcn, totalClusters);
  }

  // ---------- the round trip ----------

  /** `part` stands in `b` at `pos`, and at least one byte follows it. */
  ghost predicate Stands(b: seq<Byte>, pos: nat, part: seq<Byte>) {
    pos + |part| < |b| && b[pos..pos + |part|] == part
  }

  lemma StandsSplit(b: seq<Byte>, pos: nat, x: seq<Byte>, y: seq<Byte>)
    requires Stands(b, pos, x + y)
    ensures Stands(b, pos, x) && Stands(b, pos + |x|, y)
  {
    var part := b[pos..pos + |x + y|];
    assert part[..|x|] == x && part[|x|..] == y;
    assert b[pos..pos + |x|] == part[..|x|] && b[pos + |x|..pos + |x| + |y|] == part[|x|..];
  }

  /** The two nibbles of the size byte. */
  lemma Nibbles(v: nat, l: nat)
    requires v <= 8 && l <= 7
    ensures VcnBytes(v + 16 * l) == v && LcnBytes(v + 16 * l) == l
  {
  }

  /** What every reader sees where a run was written. */
  lemma ReadRun(b: seq<Byte>, pos: nat, r: Run, lcn: int)
    requires Encodable(r, lcn) && Stands(b, pos, EncodeRun(r, lcn))
    ensures var v, l, p := VcnBytes(b[pos]), LcnBytes(b[pos]), pos + 1;
            && b[pos] != 0 && 1 <= v <= 5 && l <= 5 && (l == 0 <==> IsHole(r))
            && p + v + l == pos + |EncodeRun(r, lcn)| && b[p + v - 1] < 128
            && Unsigned(b[p..p + v]) == r.count
            && (!IsHole(r) ==> Signed(b[p + v..p + v + l]) == r.lcn - lcn)
  {
    hide ByteCount, LE, Unsigned, Signed, VcnBytes, LcnBytes, Fits, Half;
    SizesAreSmall(r, lcn);
    var sizeV, sizeL := ByteCount(r.count), LcnSize(r, lcn);
    Nibbles(sizeV, sizeL);
    var head, count, delta := [sizeV + 16 * sizeL], LE(r.count, sizeV), LE(r.lcn - lcn, sizeL);
    assert EncodeRun(r, lcn) == head + count + delta;
    StandsSplit(b, pos, head + count, delta);
    StandsSplit(b, pos, head, count);
    assert b[pos] == b[pos..pos + 1][0] == head[0];
    FiveBytes(r.count);
    SignedLE(r.count, sizeV);
    assert b[pos + sizeV] == b[pos + 1..pos + 1 + sizeV][sizeV - 1];
    if !IsHole(r) {
      FiveBytes(r.lcn - lcn);
      SignedLE(r.lcn - lcn, sizeL);
    }
  }

  /** The runs of a list, holes left out, added to a map one by one. */
  function AddAll(m: seq<Run>, rs: seq<Run>): seq<Run>
    decreases rs
  {
    if rs == [] then m else AddAll(if IsHole(rs[0]) then m else Add(m, rs[0]), rs[1..])
  }

  /** The map is empty from `v` on. */
  ghost predicate EmptyFrom(m: seq<Run>, v: int) {
    Valid(m) && forall u {:trigger At(m, u)} :: v <= u ==> At(m, u) == UNUSED_LCN
  }

  /** Adding a list to a map that is empty where it starts. */
  lemma {:induction false} AddAllAt(m: seq<Run>, rs: seq<Run>, v: int, u: int)
    requires Contiguous(rs, v) && 0 <= v && EmptyFrom(m, v)
    ensures EmptyFrom(AddAll(m, rs), EndOf(rs, v))
    ensures At(AddAll(m, rs), u) == if v <= u < EndOf(rs, v) then MapAt(rs, u) else At(m, u)
    decreases rs
  {
    if rs != [] {
      var r := rs[0];
      var m' := if IsHole(r) then m else Add(m, r);
      EndOfGrows(rs[1..], r.End());
      if !IsHole(r) {
        AddOrdered(m, 0, r);
        forall w ensures At(m', w) == if r.Covers(w) then r.lcn + (w - r.vcn) else At(m, w) {
          AddAt(m, 0, r, w);
        }
      }
      AddAllAt(m', rs[1..], r.End(), u);
    }
  }

  lemma EncodableMeans(r: Run, lcn: int)
    requires Encodable(r, lcn)
    ensures 0 < r.count && (IsHole(r) || 0 <= r.lcn)
  {
  }

  /** The list's array stands at `pos`, terminated. */
  ghost predicate ArrayAt(b: seq<Byte>, pos: nat, rs: seq<Run>, v: int, lcn: int) {
    && Small(rs, v) && 0 <= lcn < TWO_TO_THE_32
    && Stands(b, pos, Body(rs, v, lcn)) && b[pos + |Body(rs, v, lcn)|] == 0
  }

  lemma BodyCons(rs: seq<Run>, v: int, lcn: int)
    requires Small(rs, v) && 0 <= lcn < TWO_TO_THE_32 && rs != []
    ensures Encodable(rs[0], lcn) && Small(rs[1..], rs[0].End()) && 0 <= NextLcn(rs[0], lcn) < TWO_TO_THE_32
    ensures rs[0].vcn == v && rs[0].End() < TWO_TO_THE_32
    ensures Body(rs, v, lcn) == EncodeRun(rs[0], lcn) + Body(rs[1..], rs[0].End(), NextLcn(rs[0], lcn))
  {
    hide EncodeRun, Small, Encodable;
    SmallHead(rs, v, lcn);
  }

  /** The array of a list: its first run, then the array of the others. */
  lemma ArrayHead(b: seq<Byte>, pos: nat, rs: seq<Run>, v: int, lcn: int)
    requires ArrayAt(b, pos, rs, v, lcn) && rs != []
    ensures Encodable(rs[0], lcn) && Stands(b, pos, EncodeRun(rs[0], lcn))
    ensures rs[0].vcn == v && rs[0].End() < TWO_TO_THE_32
    ensures ArrayAt(b, pos + |EncodeRun(rs[0], lcn)|, rs[1..], rs[0].End(), NextLcn(rs[0], lcn))
  {
    hide Body, EncodeRun, Small, Encodable, Stands;
    BodyCons(rs, v, lcn);
    StandsSplit(b, pos, EncodeRun(rs[0], lcn), Body(rs[1..], rs[0].End(), NextLcn(rs[0], lcn)));
  }

  /** One run read by the lookup. */
  lemma LookupStep(b: seq<Byte>, pos: nat, r: Run, lcn: int, m: seq<Run>)
    requires Encodable(r, lcn) && Stands(b, pos, EncodeRun(r, lcn)) && r.End() < TWO_TO_THE_32
    ensures LookupWalk(b, pos, r.vcn, lcn, m) ==
            LookupWalk(b, pos + |EncodeRun(r, lcn)|, r.End(), NextLcn(r, lcn), if IsHole(r) then m else Add(m, r))
  {
    hide Unsigned, Signed, Add, VcnBytes, LcnBytes, EncodeRun, Encodable, LcnSize, ByteCount;
    EncodableMeans(r, lcn);
    ReadRun(b, pos, r, lcn);
    assert !IsHole(r) ==> r == Run(r.vcn, r.lcn, r.End() - r.vcn);
  }

  lemma LookupEnd(b: seq<Byte>, pos: nat, v: int, lcn: int, m: seq<Run>)
    requires pos < |b| && b[pos] == 0
    ensures LookupWalk(b, pos, v, lcn, m) == Done(m, v)
  {
  }

  /** The lookup reads back what was written. */
  lemma {:induction false} LookupReads(b: seq<Byte>, pos: nat, rs: seq<Run>, v: int, lcn: int, m: seq<Run>)
    requires ArrayAt(b, pos, rs, v, lcn)
    ensures LookupWalk(b, pos, v, lcn, m) == Done(AddAll(m, rs), EndOf(rs, v))
    decreases rs
  {
    hide LookupWalk, Add, EncodeRun, Encodable;
    if rs == [] {
      LookupEnd(b, pos, v, lcn, m);
    } else {
      hide ArrayAt, Stands;
      var r := rs[0];
      ArrayHead(b, pos, rs, v, lcn);
      LookupStep(b, pos, r, lcn, m);
      LookupReads(b, pos + |EncodeRun(r, lcn)|, rs[1..], r.End(), NextLcn(r, lcn), if IsHole(r) then m else Add(m, r));
    }
  }

  /** Every run lies on a volume of so many clusters. */
  ghost predicate Within(es: seq<Run>, totalClusters: int) {
    es != [] ==> (IsHole(es[0]) || es[0].lcn + es[0].count <= totalClusters) && Within(es[1..], totalClusters)
  }

  /** One run read by the checker. */
  lemma CheckStep(b: seq<Byte>, pos: nat, r: Run, lcn: int, totalClusters: int)
    requires Encodable(r, lcn) && Stands(b, pos, EncodeRun(r, lcn)) && (IsHole(r) || r.lcn + r.count <= totalClusters)
    ensures CheckWalk(b, pos, r.vcn, lcn, totalClusters) ==
            CheckWalk(b, pos + |EncodeRun(r, lcn)|, r.End(), NextLcn(r, lcn), totalClusters)
  {
    hide Unsigned, Signed, VcnBytes, LcnBytes, EncodeRun, Encodable, LcnSize, ByteCount;
    ReadRun(b, pos, r, lcn);
  }

  lemma CheckEnd(b: seq<Byte>, pos: nat, v: int, lcn: int, totalClusters: int)
    requires pos < |b| && b[pos] == 0
    ensures CheckWalk(b, pos, v, lcn, totalClusters) == v
  {
  }

  /** The checker accepts what was written, if every run lies on the volume. */
  lemma {:induction false} CheckReads(b: seq<Byte>, pos: nat, rs: seq<Run>, v: int, lcn: int, totalClusters: int)
    requires ArrayAt(b, pos, rs, v, lcn) && Within(rs, totalClusters)
    ensures CheckWalk(b, pos, v, lcn, totalClusters) == EndOf(rs, v)
    decreases rs
  {
    hide CheckWalk, EncodeRun, Encodable;
    if rs == [] {
      CheckEnd(b, pos, v, lcn, totalClusters);
    } else {
      hide ArrayAt, Stands;
      var r := rs[0];
      ArrayHead(b, pos, rs, v, lcn);
      CheckStep(b, pos, r, lcn, totalClusters);
      CheckReads(b, pos + |EncodeRun(r, lcn)|, rs[1..], r.End(), NextLcn(r, lcn), totalClusters);
    }
  }

  // ---------- windows ----------

  /** The tail of a list describes the same clusters from `v` on. */
  lemma {:induction false} TailOk(es: seq<Run>, floor: int, v: int, totalClusters: int)
    requires Contiguous(es, floor) && Within(es, totalClusters) && totalClusters <= TWO_TO_THE_32 && floor <= v
    ensures Contiguous(Tail(es, v), v) && Within(Tail(es, v), totalClusters)
    ensures EndOf(Tail(es, v), v) == if v < EndOf(es, floor) then EndOf(es, floor) else v
    ensures forall u | v <= u :: MapAt(Tail(es, v), u) == MapAt(es, u)
  {
    if es != [] {
      EndOfGrows(es[1..], es[0].End());
      if v < es[0].End() {
        var t := Tail(es, v);
        assert t[1..] == es[1..];
      } else {
        TailOk(es[1..], es[0].End(), v, totalClusters);
      }
    }
  }

  /** A window describes the list's clusters up to its end. */
  lemma {:induction false} WindowOk(es: seq<Run>, v: int, hi: int, totalClusters: int)
    requires Contiguous(es, v) && Within(es, totalClusters) && EndOf(es, v) < MAXLONGLONG
    ensures Contiguous(Window(es, v, hi), v) && Within(Window(es, v, hi), totalClusters)
    ensures EndOf(Window(es, v, hi), v) == if hi == MAXLONGLONG then EndOf(es, v) else if v < hi then hi else v
    ensures forall u | v <= u < EndOf(Window(es, v, hi), v) :: MapAt(Window(es, v, hi), u) == MapAt(es, u)
    decreases es
  {
    EndOfGrows(es, v);
    if v < hi && es != [] {
      WindowOk(es[1..], es[0].End(), hi, totalClusters);
      EndOfGrows(es[1..], es[0].End());
      var w, rest := Window(es, v, hi), Window(es[1..], es[0].End(), hi);
      assert w[1..] == rest;
    }
  }

  /** The round trip: decoding the array built for `[lowest, highest)` raises nothing and gives exactly
      the map in that range, whatever follows the array in its record. */
  lemma RoundTrip(es: seq<Run>, lowest: nat, highest: int, b: seq<Byte>, totalClusters: int)
    requires Contiguous(es, 0) && Within(es, totalClusters) && totalClusters <= TWO_TO_THE_32 &&
               EndOf(es, 0) < TWO_TO_THE_32 && lowest < TWO_TO_THE_32
    requires highest < TWO_TO_THE_32 || highest == MAXLONGLONG
    requires Small(Window(Tail(es, lowest), lowest, highest), lowest)
    requires Encode(Window(Tail(es, lowest), lowest, highest), lowest) <= b
    ensures var end := EndOf(Window(Tail(es, lowest), lowest, highest), lowest);
            && LookupWalk(b, 0, lowest, 0, []).Done? && LookupWalk(b, 0, lowest, 0, []).next == end
            && forall u {:trigger At(LookupWalk(b, 0, lowest, 0, []).m, u)} ::
                 At(LookupWalk(b, 0, lowest, 0, []).m, u) == if lowest <= u < end then MapAt(es, u) else UNUSED_LCN
  {
    hide LookupWalk, Body, Tail, Window;
    var t := Tail(es, lowest);
    var w := Window(t, lowest, highest);
    TailOk(es, 0, lowest, totalClusters);
    WindowOk(t, lowest, highest, totalClusters);
    ArrayFromPrefix(b, w, lowest);
    LookupReads(b, 0, w, lowest, 0, []);
    var m := AddAll([], w);
    forall u ensures At(m, u) == if lowest <= u < EndOf(w, lowest) then MapAt(es, u) else UNUSED_LCN {
      AddAllAt([], w, lowest, u);
    }
  }

  // ---------- the writer ----------

  /** The byte loops of the writer: low byte out, shift down. */
  method EmitBytes(c: int, n: nat) returns (b: seq<Byte>)
    ensures b == LE(c, n)
  {
    b := [];
    var change, left := c, n;
    while left != 0
      invariant 0 <= left && b + LE(change, left) == LE(c, n)
    {
      assert b + ([change % 256] + LE(change / 256, left - 1)) == b + [change % 256] + LE(change / 256, left - 1);
      b := b + [change % 256];
      change := change / 256;
      left := left - 1;
    }
  }

  /** One turn of the writer. */
  method EmitRun(r: Run, lcn: int) returns (b: seq<Byte>, lcn': int)
    requires Encodable(r, lcn)
    ensures b == EncodeRun(r, lcn) && lcn' == NextLcn(r, lcn)
  {
    hide ByteCount, LE;
    var sizeV, sizeL := ByteCount(r.count), 0;
    lcn' := lcn;
    if r.lcn != UNUSED_LCN {
      sizeL := ByteCount(r.lcn - lcn);
      lcn' := r.lcn;
    }
    SizesAreSmall(r, lcn);
    var count := EmitBytes(r.count, sizeV);
    var delta := EmitBytes(r.lcn - lcn, sizeL);
    b := [sizeV + 16 * sizeL] + count + delta;
  }

  /** NtfsLookupNtfsMcbEntry on the enumerated map: the entry that holds `v`. */
  method FindEntry(es: seq<Run>, v: nat) returns (i: nat)
    requires Contiguous(es, 0)
    ensures i <= |es|
    ensures Tail(es, v) == if i < |es| then [Run(v, RunAt(es[i], v), es[i].End() - v)] + es[i + 1..] else []
    ensures i < |es| ==> v < es[i].End()
  {
    i := 0;
    while i < |es| && es[i].End() <= v
      invariant i <= |es| && Tail(es[i..], v) == Tail(es, v)
    {
      assert es[i..][1..] == es[i + 1..];
      i := i + 1;
    }
    if i < |es| {
      assert es[i..][1..] == es[i + 1..];
    }
  }

  /** The list lies in 32 bits from `v` on. */
  ghost predicate Fine(es: seq<Run>, v: int) {
    0 <= v && Contiguous(es, v) && Within(es, TWO_TO_THE_32) && EndOf(es, v) < TWO_TO_THE_32
  }

  lemma FineTail(es: seq<Run>, v: nat)
    requires Fine(es, 0) && v < TWO_TO_THE_32
    ensures Fine(Tail(es, v), v)
  {
    TailOk(es, 0, v, TWO_TO_THE_32);
  }

  /** What the writer may stop at. */
  predicate Stop(highest: int) { highest < TWO_TO_THE_32 || highest == MAXLONGLONG }

  lemma FineWindow(es: seq<Run>, v: int, hi: int)
    requires Fine(es, v) && Stop(hi)
    ensures Small(Window(es, v, hi), v)
  {
    EndOfGrows(es, v);
    WindowOk(es, v, hi, TWO_TO_THE_32);
  }

  /** The first run of a window, and the window that follows it. */
  lemma WindowHead(es: seq<Run>, v: int, hi: int)
    requires Fine(es, v) && v < hi && Stop(hi) && es != []
    ensures var r := es[0].(count := if es[0].End() > hi then hi - v else es[0].count);
            && Window(es, v, hi) == [r] + Window(es[1..], r.End(), hi)
            && (r.End() < hi ==> Fine(es[1..], r.End()))
            && r.End() <= hi && Small(Window(es[1..], r.End(), hi), r.End())
  {
    EndOfGrows(es[1..], es[0].End());
    FineWindow(es, v, hi);
    assert Window(es, v, hi)[1..] == Window(es[1..], es[0].End(), hi);
  }

  /** Where the writer stands: the bytes so far, then the array of what is left, make the whole. */
  ghost predicate Writing(bytes: seq<Byte>, rest: seq<Run>, v: int, hi: int, lcn: int, whole: seq<Byte>, end: int) {
    && Stop(hi) && 0 <= lcn < TWO_TO_THE_32 && (v < hi ==> Fine(rest, v))
    && Small(Window(rest, v, hi), v)
    && bytes + Body(Window(rest, v, hi), v, lcn) == whole && EndOf(Window(rest, v, hi), v) == end
  }

  /** Writing one more run. */
  lemma WritingStep(bytes: seq<Byte>, rest: seq<Run>, rest': seq<Run>, r: Run, v: int, hi: int, lcn: int,
                    whole: seq<Byte>, end: int)
    requires Writing(bytes, rest, v, hi, lcn, whole, end) && v < hi && r.vcn == v
    requires Window(rest, v, hi) == [r] + Window(rest', r.End(), hi)
    requires r.End() < hi ==> Fine(rest', r.End())
    ensures Encodable(r, lcn)
    ensures Writing(bytes + EncodeRun(r, lcn), rest', r.End(), hi, NextLcn(r, lcn), whole, end)
  {
    hide EncodeRun, Fine, Window;
    var w := Window(rest, v, hi);
    SmallHead(w, v, lcn);
    assert w[1..] == Window(rest', r.End(), hi);
    assert bytes + (EncodeRun(r, lcn) + Body(w[1..], r.End(), NextLcn(r, lcn))) ==
           bytes + EncodeRun(r, lcn) + Body(w[1..], r.End(), NextLcn(r, lcn));
  }

  /** NtfsLookupNtfsMcbEntry: whether there is an entry that holds `lowest`, and its part from there. */
  method LookupEntry(es: seq<Run>, lowest: nat) returns (i: nat, found: bool, run: Run)
    requires Fine(es, 0)
    ensures found ==> i < |es| && run.vcn == lowest
    ensures Tail(es, lowest) == Ahead(es, Place(i, found, run))
  {
    FineIsContiguous(es);
    i := FindEntry(es, lowest);
    found := i < |es|;
    run := Run(lowest, UNUSED_LCN, 0);
    if found {
      run := Run(lowest, RunAt(es[i], lowest), es[i].End() - lowest);
    }
  }

  /** What the writer writes next: the current entry, or the hole up to the stop behind the last one, cut at
      the stop. */
  method NextToWrite(found: bool, entry: Run, nextVcn: int, highest: int) returns (more: bool, run: Run)
    ensures more <==> MoreToWrite(Place(0, found, entry), nextVcn, highest)
    ensures more ==> run == ToWrite(Place(0, found, entry), nextVcn, highest)
  {
    run := entry;
    if !found {
      if highest == MAXLONGLONG {
        return false, run;
      }
      run := Run(nextVcn, UNUSED_LCN, highest - nextVcn);
    }
    if run.vcn >= highest {
      return false, run;
    }
    if run.End() > highest {
      run := run.(count := highest - run.vcn);
    }
    more := true;
  }

  /** NtfsBuildMappingPairs: write the entries of `[lowest, highest)`, and a hole up to `highest` if
      the map ends before it; return the highest VCN described. */
  method BuildMappingPairs(es: seq<Run>, lowest: nat, highest: int) returns (bytes: seq<Byte>, highestOut: int)
    requires Fine(es, 0) && lowest < TWO_TO_THE_32 && Stop(highest)
    ensures Small(Window(Tail(es, lowest), lowest, highest), lowest)
    ensures bytes == Encode(Window(Tail(es, lowest), lowest, highest), lowest)
    ensures highestOut == EndOf(Window(Tail(es, lowest), lowest, highest), lowest) - 1
  {
    hide Body, EncodeRun, Contiguous, EndOf, Within, Small, Tail, Window, Fine, Encodable, Pending, RunAt, NextLcn,
        Emitting, Ahead;
    var currentLcn, nextVcn := 0, lowest;
    var i: nat, found: bool, run := LookupEntry(es, lowest);
    bytes := [];
    ghost var at := Place(i, found, run);
    EmittingStart(es, at, lowest, highest);
    ghost var w := Window(Tail(es, lowest), lowest, highest);
    ghost var whole, end := Body(w, lowest, 0), EndOf(w, lowest);
    while true
      invariant at.found == found && (found ==> at.i == i && at.run == run && i < |es|)
      invariant Emitting(es, at, bytes, nextVcn, highest, currentLcn, whole, end)
      decreases highest - nextVcn
    {
      var more, part := NextToWrite(found, run, nextVcn, highest);
      if !more {
        break;
      }
      EmittingTurn(es, at, bytes, nextVcn, highest, currentLcn, whole, end);
      at := NextPlace(es, at, part);
      var written;
      written, currentLcn := EmitRun(part, currentLcn);
      bytes := bytes + written;
      nextVcn := part.End();
      i := i + 1;
      found := found && i < |es|;
      if found {
        run := es[i];
      }
    }
    EmittingEnd(es, at, bytes, nextVcn, highest, currentLcn, whole, end);
    bytes := bytes + [0];
    highestOut := nextVcn - 1;
  }

  /** The entries the writer has not looked past: the current one and those after it. */
  ghost function Pending(es: seq<Run>, i: nat, found: bool, run: Run): seq<Run>
    requires found ==> i < |es|
  {
    if found then [run] + es[i + 1..] else []
  }

  /** Where the writer and the predictor look: the index in the map's entries, whether there is one, and what it is. */
  datatype Place = Place(i: nat, found: bool, run: Run)

  /** The entries from a place on. */
  ghost function Ahead(es: seq<Run>, at: Place): seq<Run>
    requires at.found ==> at.i < |es|
  {
    Pending(es, at.i, at.found, at.run)
  }

  /** The place after an entry, or after the hole `r` that closes the list. */
  function NextPlace(es: seq<Run>, at: Place, r: Run): Place {
    var found := at.found && at.i + 1 < |es|;
    Place(at.i + 1, found, if found then es[at.i + 1] else r)
  }

  /** Where the writer's loop stands. */
  ghost predicate Emitting(es: seq<Run>, at: Place, bytes: seq<Byte>, next: int, hi: int, lcn: int, whole: seq<Byte>,
                           end: int) {
    && (at.found ==> at.i < |es| && next <= at.run.vcn && (next < hi ==> at.run.vcn == next))
    && Writing(bytes, Ahead(es, at), next, hi, lcn, whole, end)
  }

  /** There is something left to write. */
  predicate MoreToWrite(at: Place, next: int, hi: int) {
    if at.found then at.run.vcn < hi else hi != MAXLONGLONG && next < hi
  }

  /** The current entry, or the closing hole, cut at the stop. */
  function ToWrite(at: Place, next: int, hi: int): Run {
    if at.found then at.run.(count := if at.run.End() > hi then hi - at.run.vcn else at.run.count)
    else Run(next, UNUSED_LCN, hi - next)
  }

  lemma EmittingStart(es: seq<Run>, at: Place, lowest: nat, highest: int)
    requires Fine(es, 0) && lowest < TWO_TO_THE_32 && Stop(highest)
    requires (at.found ==> at.i < |es| && at.run.vcn == lowest) && Tail(es, lowest) == Ahead(es, at)
    ensures var w := Window(Tail(es, lowest), lowest, highest);
            Small(w, lowest) && Emitting(es, at, [], lowest, highest, 0, Body(w, lowest, 0), EndOf(w, lowest))
  {
    hide Body, Tail, Window, Pending;
    WritingStart(es, lowest, highest);
  }

  lemma EmittingTurn(es: seq<Run>, at: Place, bytes: seq<Byte>, next: int, hi: int, lcn: int, whole: seq<Byte>,
                     end: int)
    requires Emitting(es, at, bytes, next, hi, lcn, whole, end) && MoreToWrite(at, next, hi)
    ensures var r := ToWrite(at, next, hi);
            && Encodable(r, lcn) && next < r.End() <= hi
            && Emitting(es, NextPlace(es, at, r), bytes + EncodeRun(r, lcn), r.End(), hi, NextLcn(r, lcn), whole, end)
  {
    hide EncodeRun, Writing, Encodable, Pending;
    WritingTurn(bytes, es, at.i, at.found, at.run, ToWrite(at, next, hi), next, hi, lcn, whole, end);
  }

  lemma EmittingEnd(es: seq<Run>, at: Place, bytes: seq<Byte>, next: int, hi: int, lcn: int, whole: seq<Byte>, end: int)
    requires Emitting(es, at, bytes, next, hi, lcn, whole, end) && !MoreToWrite(at, next, hi)
    ensures bytes == whole && end == next
  {
    WritingDone(bytes, Ahead(es, at), next, hi, lcn, whole, end);
  }

  lemma FineIsContiguous(es: seq<Run>)
    requires Fine(es, 0)
    ensures Contiguous(es, 0)
  {
  }

  lemma WritingStart(es: seq<Run>, lowest: nat, highest: int)
    requires Fine(es, 0) && lowest < TWO_TO_THE_32 && Stop(highest)
    ensures Small(Window(Tail(es, lowest), lowest, highest), lowest)
    ensures var w := Window(Tail(es, lowest), lowest, highest);
            Writing([], Tail(es, lowest), lowest, highest, 0, Body(w, lowest, 0), EndOf(w, lowest))
  {
    FineTail(es, lowest);
    FineWindow(Tail(es, lowest), lowest, highest);
  }

  lemma WritingDone(bytes: seq<Byte>, rest: seq<Run>, v: int, hi: int, lcn: int, whole: seq<Byte>, end: int)
    requires Writing(bytes, rest, v, hi, lcn, whole, end) && (hi <= v || (rest == [] && hi == MAXLONGLONG))
    ensures bytes == whole && end == v
  {
    assert Window(rest, v, hi) == [];
    assert bytes + [] == bytes;
  }

  /** One turn of the writer's loop: the next entry, or the closing hole, cut at the stop. */
  lemma WritingTurn(bytes: seq<Byte>, es: seq<Run>, i: nat, found: bool, entry: Run, r: Run, v: int, hi: int, lcn: int,
                    whole: seq<Byte>, end: int)
    requires found ==> i < |es|
    requires Writing(bytes, Pending(es, i, found, entry), v, hi, lcn, whole, end) && v < hi
    requires if found then r == entry.(count := if entry.End() > hi then hi - v else entry.count)
             else hi != MAXLONGLONG && r == Run(v, UNUSED_LCN, hi - v)
    ensures Encodable(r, lcn) && v < r.End() <= hi
    ensures var found' := found && i + 1 < |es|;
            Writing(bytes + EncodeRun(r, lcn), Pending(es, i + 1, found', if found' then es[i + 1] else r), r.End(), hi,
                    NextLcn(r, lcn), whole, end)
    ensures found && i + 1 < |es| ==> r.End() <= es[i + 1].vcn && (r.End() < hi ==> es[i + 1].vcn == r.End())
  {
    hide EncodeRun;
    var rest := Pending(es, i, found, entry);
    var found' := found && i + 1 < |es|;
    var rest' := Pending(es, i + 1, found', if found' then es[i + 1] else r);
    if found {
      assert rest[1..] == es[i + 1..] == rest';
      assert Contiguous(rest', rest[0].End());
      WindowHead(rest, v, hi);
    } else {
      assert [r] + Window([], hi, hi) == [r];
    }
    WritingStep(bytes, rest, rest', r, v, hi, lcn, whole, end);
  }

  // ---------- the readers' loops ----------

  /** The loop of NtfsLookupAllocation over one record's array. */
  method LookupPairs(b: seq<Byte>, lowest: nat, loaded: seq<Run>) returns (r: Walk)
    requires 0 < |b|
    ensures r == LookupWalk(b, 0, lowest, 0, loaded)
  {
    hide Unsigned, Signed, Add;
    var pos, highestCandidate, currentLcn, m := 0, lowest as int, 0, loaded;
    while b[pos] != 0
      invariant 0 <= pos < |b|
      invariant LookupWalk(b, pos, highestCandidate, currentLcn, m) == LookupWalk(b, 0, lowest, 0, loaded)
      decreases |b| - pos
    {
      var currentVcn := highestCandidate;
      var vcnBytes, lcnBytes := VcnBytes(b[pos]), LcnBytes(b[pos]);
      pos := pos + 1;
      if vcnBytes < 1 || vcnBytes > 8 || lcnBytes > 8 || pos + vcnBytes + lcnBytes + 1 > |b| ||
          b[pos + vcnBytes - 1] >= 128 {
        return Corrupt;
      }
      highestCandidate := highestCandidate + Unsigned(b[pos..pos + vcnBytes]);
      pos := pos + vcnBytes;
      if lcnBytes != 0 {
        currentLcn := currentLcn + Signed(b[pos..pos + lcnBytes]);
        pos := pos + lcnBytes;
        if currentLcn >= 0 {
          if highestCandidate >= TWO_TO_THE_32 {
            return Corrupt;
          }
          if highestCandidate > currentVcn {
            m := Add(m, Run(currentVcn, currentLcn, highestCandidate - currentVcn));
          }
        }
      }
    }
    return Done(m, highestCandidate);
  }

  /** NtfsGetHighestVcn, on bytes it does not read past. */
  method GetHighestVcn(b: seq<Byte>, lowest: nat) returns (ok: bool, highest: int)
    requires Readable(b, 0)
    ensures ok <==> HighestWalk(b, 0, lowest) != -1
    ensures ok ==> highest == HighestWalk(b, 0, lowest) - 1
  {
    hide Unsigned, VcnBytes, LcnBytes;
    var pos, nextVcn := 0, lowest as int;
    while b[pos] != 0
      invariant 0 <= pos && Readable(b, pos)
      invariant 0 <= nextVcn && HighestWalk(b, pos, nextVcn) == HighestWalk(b, 0, lowest)
      decreases |b| - pos
    {
      var vcnBytes, lcnBytes := VcnBytes(b[pos]), LcnBytes(b[pos]);
      pos := pos + 1;
      if b[pos + vcnBytes - 1] >= 128 {
        return false, -1;
      }
      nextVcn := nextVcn + Unsigned(b[pos..pos + vcnBytes]);
      pos := pos + (vcnBytes + lcnBytes) % TWO_TO_THE_32;
    }
    return true, nextVcn - 1;
  }

  /** The part of NtfsCheckAttributeRecord that walks the array of a record with the given bounds. */
  method CheckPairs(b: seq<Byte>, lowest: nat, highest: int, totalClusters: int) returns (valid: bool)
    requires 0 < |b|
    ensures valid <==> CheckWalk(b, 0, lowest, 0, totalClusters) == highest + 1 && 0 <= highest + 1
  {
    hide Unsigned, Signed;
    var pos, nextVcn, currentLcn := 0, lowest as int, 0;
    while b[pos] != 0
      invariant 0 <= pos < |b| && 0 <= nextVcn
      invariant CheckWalk(b, pos, nextVcn, currentLcn, totalClusters) == CheckWalk(b, 0, lowest, 0, totalClusters)
      decreases |b| - pos
    {
      var currentVcn := nextVcn;
      var vcnBytes, lcnBytes := VcnBytes(b[pos]), LcnBytes(b[pos]);
      pos := pos + 1;
      if vcnBytes > 8 || lcnBytes > 8 || pos + vcnBytes + lcnBytes + 1 > |b| || b[pos + vcnBytes - 1] >= 128 {
        return false;
      }
      nextVcn := nextVcn + Unsigned(b[pos..pos + vcnBytes]);
      pos := pos + vcnBytes;
      if lcnBytes != 0 {
        currentLcn := currentLcn + Signed(b[pos..pos + lcnBytes]);
        pos := pos + lcnBytes;
        if currentLcn + (nextVcn - currentVcn) > totalClusters {
          return false;
        }
      }
    }
    return nextVcn == highest + 1;
  }

  /** A map of 32 bits: its runs end within its range, and lie on the volume. */
  ghost predicate MapFits(m: seq<Run>, limit: int, totalClusters: int) {
    forall i | 0 <= i < |m| :: m[i].End() <= limit && m[i].lcn + m[i].count <= totalClusters
  }

  lemma {:induction false} EntriesFine(m: seq<Run>, floor: int, limit: int, totalClusters: int)
    requires Ordered(m, floor) && floor <= limit && MapFits(m, limit, totalClusters) && totalClusters <= TWO_TO_THE_32
    ensures var es := Entries(m, floor, limit);
            Contiguous(es, floor) && Within(es, totalClusters) && EndOf(es, floor) == limit
  {
    if m != [] {
      var es, rest := Entries(m, floor, limit), Entries(m[1..], m[0].End(), limit);
      EntriesFine(m[1..], m[0].End(), limit, totalClusters);
      assert ([m[0]] + rest)[1..] == rest;
      if floor < m[0].vcn {
        assert es == [Run(floor, UNUSED_LCN, m[0].vcn - floor)] + ([m[0]] + rest);
        assert es[1..] == [m[0]] + rest;
      } else {
        assert es == [m[0]] + rest;
      }
    }
  }

  /** The round trip from map to map: what a map's enumeration is written as for a range, it is read back
      as, and gives the map in that range. */
  lemma MapRoundTrip(m: seq<Run>, limit: nat, lowest: nat, highest: int, b: seq<Byte>, totalClusters: int)
    requires Valid(m) && MapFits(m, limit, totalClusters) && totalClusters <= TWO_TO_THE_32
    requires limit < TWO_TO_THE_32 && lowest < TWO_TO_THE_32 && Stop(highest)
    ensures var es := Entries(m, 0, limit);
            var w := Window(Tail(es, lowest), lowest, highest);
            && Fine(es, 0) && Small(w, lowest)
            && (Encode(w, lowest) <= b ==>
                  LookupWalk(b, 0, lowest, 0, []).Done? && LookupWalk(b, 0, lowest, 0, []).next == EndOf(w, lowest)
                  && forall u {:trigger At(LookupWalk(b, 0, lowest, 0, []).m, u)} ::
                       At(LookupWalk(b, 0, lowest, 0, []).m, u) ==
                       if lowest <= u < EndOf(w, lowest) then At(m, u) else UNUSED_LCN)
  {
    hide LookupWalk, Body, Tail, Window, MapFits, Entries;
    var es := Entries(m, 0, limit);
    EntriesFine(m, 0, limit, totalClusters);
    FromTotal(es, totalClusters);
    FineTail(es, lowest);
    FineWindow(Tail(es, lowest), lowest, highest);
    var w := Window(Tail(es, lowest), lowest, highest);
    if Encode(w, lowest) <= b {
      RoundTrip(es, lowest, highest, b, totalClusters);
      forall u | lowest <= u ensures MapAt(es, u) == At(m, u) {
        EnumerationAt(m, limit, totalClusters, u);
      }
    }
  }

  lemma EnumerationAt(m: seq<Run>, limit: nat, totalClusters: int, u: nat)
    requires Valid(m) && MapFits(m, limit, totalClusters) && totalClusters <= TWO_TO_THE_32
    ensures MapAt(Entries(m, 0, limit), u) == At(m, u)
  {
    forall i | 0 <= i < |m| ensures m[i].lcn < TWO_TO_THE_32 {
      AtRun(m, 0, i);
    }
    EntriesAt(m, 0, limit, u);
  }

  lemma {:induction false} FromTotal(es: seq<Run>, totalClusters: int)
    requires Within(es, totalClusters) && totalClusters <= TWO_TO_THE_32
    ensures Within(es, TWO_TO_THE_32)
  {
    if es != [] {
      FromTotal(es[1..], totalClusters);
    }
  }

  /** The three readers and the writer agree on where an array ends, holes and all, and the checker
      accepts it if its runs lie on the volume. */
  lemma WalkersAgree(es: seq<Run>, lowest: nat, highest: int, b: seq<Byte>, totalClusters: int)
    requires Fine(es, 0) && lowest < TWO_TO_THE_32 && Stop(highest)
    requires Within(es, totalClusters) && totalClusters <= TWO_TO_THE_32
    requires Small(Window(Tail(es, lowest), lowest, highest), lowest)
    requires Encode(Window(Tail(es, lowest), lowest, highest), lowest) <= b
    ensures var next := EndOf(Window(Tail(es, lowest), lowest, highest), lowest);
            && LookupWalk(b, 0, lowest, 0, []).Done? && LookupWalk(b, 0, lowest, 0, []).next == next
            && Readable(b, 0) && HighestWalk(b, 0, lowest) == next && CheckWalk(b, 0, lowest, 0, totalClusters) == next
  {
    hide LookupWalk, HighestWalk, CheckWalk, Body;
    var w := Window(Tail(es, lowest), lowest, highest);
    TailOk(es, 0, lowest, totalClusters);
    EndOfGrows(Tail(es, lowest), lowest);
    WindowOk(Tail(es, lowest), lowest, highest, totalClusters);
    ArrayFromPrefix(b, w, lowest);
    LookupReads(b, 0, w, lowest, 0, []);
    HighestAgrees(b, 0, lowest, 0, []);
    CheckReads(b, 0, w, lowest, 0, totalClusters);
  }

  /** A record that begins with an array. */
  lemma ArrayFromPrefix(b: seq<Byte>, w: seq<Run>, v: int)
    requires Small(w, v) && Encode(w, v) <= b
    ensures ArrayAt(b, 0, w, v, 0)
  {
    hide Body, Small;
    var body := Body(w, v, 0);
    assert b[..|body|] == (body + [0])[..|body|] == body;
    assert b[|body|] == (body + [0])[|body|];
  }

  /** The checker is laxer than the lookup: it lets a run of no length pass, and one beyond 32 bits, here
      a hole of 2^32 clusters and a cluster behind it. */
  lemma CheckerIsLaxer()
    ensures CheckWalk([0x10, 5, 0], 0, 0, 0, 100) == 0 && LookupWalk([0x10, 5, 0], 0, 0, 0, []) == Corrupt
    ensures var b: seq<Byte> := [0x05, 0, 0, 0, 0, 1, 0x11, 1, 5, 0];
            CheckWalk(b, 0, 0, 0, 100) == TWO_TO_THE_32 + 1 && LookupWalk(b, 0, 0, 0, []) == Corrupt
  {
    var b: seq<Byte> := [0x10, 5, 0];
    assert b[1..1] == [] && b[1..2] == [5];
    assert Signed([5]) == 5;
    assert CheckWalk(b, 2, 0, 5, 100) == 0;
    BeyondThirtyTwoBits();
  }

  lemma BeyondThirtyTwoBits()
    ensures var b: seq<Byte> := [0x05, 0, 0, 0, 0, 1, 0x11, 1, 5, 0];
            CheckWalk(b, 0, 0, 0, 100) == TWO_TO_THE_32 + 1 && LookupWalk(b, 0, 0, 0, []) == Corrupt
  {
    var b: seq<Byte> := [0x05, 0, 0, 0, 0, 1, 0x11, 1, 5, 0];
    assert b[1..6] == [0, 0, 0, 0, 1] && b[7..8] == [1] && b[8..9] == [5];
    assert Unsigned([1]) == 1 && Signed([5]) == 5;
    assert Unsigned([0, 0, 0, 0, 1]) == TWO_TO_THE_32 by {
      assert [0, 0, 0, 0, 1][1..] == [0, 0, 0, 1] && [0, 0, 0, 1][1..] == [0, 0, 1];
      assert [0, 0, 1][1..] == [0, 1] && [0, 1][1..] == [1];
    }
    assert CheckWalk(b, 9, TWO_TO_THE_32 + 1, 5, 100) == TWO_TO_THE_32 + 1;
    hide Unsigned, Signed, CheckWalk, LookupWalk;
    assert PairAt(b, 0, 0, 0) == Pair(5, 0, 0, TWO_TO_THE_32, 0);
    assert PairAt(b, 6, TWO_TO_THE_32, 0) == Pair(1, 1, TWO_TO_THE_32, TWO_TO_THE_32 + 1, 5);
    CheckPair(b, 0, 0, 0, 100);
    CheckPair(b, 6, TWO_TO_THE_32, 0, 100);
    var m := LookupPair(b, 0, 0, 0, []);
    m := LookupPair(b, 6, TWO_TO_THE_32, 0, m);
  }

  /** A size byte that says eight LCN bytes or more, which only LCNs beyond 32 bits can need, is read as a
      negative character.  The lookup and the checker refuse it.  The third reader raises if the VCN change is
      negative, and otherwise takes the change and goes on short of its end: with `back` for what the high nibble
      lacks to 16, at the byte `v - back` behind the size byte's successor, or outside the bytes if there are
      fewer VCN bytes than that. */
  lemma EightByteDistance(b: seq<Byte>, pos: nat, vcn: int, lcn: int, m: seq<Run>, totalClusters: int)
    requires pos < |b| && b[pos] >= 128
    ensures LookupWalk(b, pos, vcn, lcn, m) == Corrupt && CheckWalk(b, pos, vcn, lcn, totalClusters) == -1
    ensures var v, back, p := VcnBytes(b[pos]), 16 - b[pos] / 16, pos + 1;
            && Stride(b[pos]) == (if back <= v then v - back else TWO_TO_THE_32 + v - back)
            && (Readable(b, pos) && b[p + v - 1] >= 128 ==> HighestWalk(b, pos, vcn) == -1)
            && (Readable(b, pos) && b[p + v - 1] < 128 && back <= v ==>
                  HighestWalk(b, pos, vcn) == HighestWalk(b, p + v - back, vcn + Unsigned(b[p..p + v])))
            && (p + v - 1 < |b| < TWO_TO_THE_32 - 8 && b[p + v - 1] < 128 && v < back ==> !Readable(b, pos))
  {
    hide Unsigned;
    assert LcnBytes(b[pos]) > 8;
  }

  /** So it accepts bytes that the other two refuse, here ending one cluster on. */
  lemma ShortStepAccepts()
    ensures var b: seq<Byte> := [0xf1, 1, 0, 0];
            && Readable(b, 0) && HighestWalk(b, 0, 0) == 1
            && LookupWalk(b, 0, 0, 0, []) == Corrupt && CheckWalk(b, 0, 0, 0, 100) == -1
  {
    var b: seq<Byte> := [0xf1, 1, 0, 0];
    assert Stride(0xf1) == 0 && Stride(1) == 1;
    assert b[1..2] == [1] && b[2..3] == [0];
    assert Unsigned([1]) == 1 && Unsigned([0]) == 0;
    assert Readable(b, 3) && HighestWalk(b, 3, 1) == 1;
    assert Readable(b, 1) && HighestWalk(b, 1, 1) == 1;
  }

  /** And it raises on bytes whose first change is not negative. */
  lemma ShortStepRaises()
    ensures var b: seq<Byte> := [0xf1, 1, 0x80, 0]; Readable(b, 0) && HighestWalk(b, 0, 0) == -1
  {
    var b: seq<Byte> := [0xf1, 1, 0x80, 0];
    assert Stride(0xf1) == 0;
    assert b[1..2] == [1] && Unsigned([1]) == 1;
    assert Readable(b, 1) && HighestWalk(b, 1, 1) == -1;
  }

  /** In addresses of 32 bits, a size byte that makes it step past the bytes can lead it back to itself. */
  lemma StepsInPlace(header: Byte, at: nat)
    ensures (at + 1 + Stride(header)) % TWO_TO_THE_32 == at % TWO_TO_THE_32 <==>
            header >= 128 && VcnBytes(header) + 1 == 16 - header / 16
  {
    var s := 1 + Stride(header);
    assert 0 < s <= TWO_TO_THE_32;
    assert s == TWO_TO_THE_32 <==> header >= 128 && VcnBytes(header) + 1 == 16 - header / 16;
  }
}
