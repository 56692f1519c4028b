/**
 * How much room mapping pairs take, and how a map is spread over several attribute records.
 */
module MappingRecords {
  import opened Options
  import opened Mcb
  import opened Codec
  import opened MappingPairs

  // ---------- prefixes ----------

  /** The LCN the next distance is taken from, after a list. */
  function LastLcn(rs: seq<Run>, lcn: int): int {
    if rs == [] then lcn else LastLcn(rs[1..], NextLcn(rs[0], lcn))
  }

  /** A run put behind a list. */
  lemma {:induction false} Snoc(p: seq<Run>, v: int, lcn: int, r: Run)
    requires Small(p, v) && 0 <= lcn < TWO_TO_THE_32 && r.vcn == EndOf(p, v) && 0 < r.count && r.End() < TWO_TO_THE_32
    requires IsHole(r) || 0 <= r.lcn < TWO_TO_THE_32
    ensures Small(p + [r], v) && EndOf(p + [r], v) == r.End()
    ensures 0 <= LastLcn(p, lcn) < TWO_TO_THE_32 && Encodable(r, LastLcn(p, lcn))
    ensures LastLcn(p + [r], lcn) == NextLcn(r, LastLcn(p, lcn))
    ensures |Body(p + [r], v, lcn)| == |Body(p, v, lcn)| + |EncodeRun(r, LastLcn(p, lcn))|
    decreases p
  {
    hide EncodeRun;
    EndOfGrows(p, v);
    if p == [] {
      assert p + [r] == [r] && [r][1..] == [];
      assert Contiguous([r], v) && EndOf([r], v) == r.End();
    } else {
      SmallHead(p, v, lcn);
      Snoc(p[1..], p[0].End(), NextLcn(p[0], lcn), r);
      assert (p + [r])[1..] == p[1..] + [r];
    }
  }

  /** The window of a list that starts with `p`, from its end on. */
  lemma {:induction false} WindowSplit(p: seq<Run>, r: seq<Run>, v: int, hi: int)
    requires Contiguous(p, v) && EndOf(p, v) <= hi
    ensures Window(p + r, v, hi) == p + Window(r, EndOf(p, v), hi)
    decreases p
  {
    EndOfGrows(p, v);
    if p == [] {
      assert p + r == r;
    } else {
      EndOfGrows(p[1..], p[0].End());
      assert (p + r)[1..] == p[1..] + r;
      WindowSplit(p[1..], r, p[0].End(), hi);
      assert p == [p[0]] + p[1..];
    }
  }

  /** The entries with the hole that closes them up to the stop. */
  function Closed(e: seq<Run>, v: int, stop: Option<int>): seq<Run> {
    if stop.Some? && EndOf(e, v) <= stop.value
    then e + [Run(EndOf(e, v), UNUSED_LCN, stop.value + 1 - EndOf(e, v))] else e
  }

  /** Closing the list does not change its windows up to the stop. */
  lemma WindowClosed(e: seq<Run>, v: int, stop: Option<int>, hi: int)
    requires Contiguous(e, v) && v <= hi < MAXLONGLONG && stop.Some? && hi <= stop.value + 1
    ensures Window(Closed(e, v, stop), v, hi) == Window(e, v, hi)
  {
    if EndOf(e, v) <= stop.value {
      WindowAppend(e, Closed(e, v, stop)[|e|..], v, hi);
      assert Closed(e, v, stop) == e + Closed(e, v, stop)[|e|..];
    }
  }

  lemma {:induction false} WindowAppend(e: seq<Run>, h: seq<Run>, v: int, hi: int)
    requires Contiguous(e, v) && hi < MAXLONGLONG && |h| == 1 && hi <= h[0].End()
    requires h[0].vcn == EndOf(e, v) && IsHole(h[0])
    ensures Window(e + h, v, hi) == Window(e, v, hi)
    decreases e
  {
    if e == [] {
      assert e + h == h && h[1..] == [];
      if v < hi {
        var cut := h[0].(count := if h[0].End() > hi then hi - v else h[0].count);
        assert Window(h, v, hi) == [cut] + Window([], h[0].End(), hi);
      }
    } else if v < hi {
      assert (e + h)[1..] == e[1..] + h;
      WindowAppend(e[1..], h, e[0].End(), hi);
    }
  }

  // ---------- the size predictor ----------

  /** The bytes one run takes, size byte included. */
  lemma RunSize(r: Run, lcn: int)
    requires Encodable(r, lcn)
    ensures |EncodeRun(r, lcn)| == 1 + ByteCount(r.count) + LcnSize(r, lcn) <= 11
  {
    hide ByteCount, LE;
    SizesAreSmall(r, lcn);
  }

  /** Shortening the last run of a list does not lengthen its array. */
  lemma CutIsSmaller(p: seq<Run>, v: int, r: Run, count: int)
    requires Small(p, v) && r.vcn == EndOf(p, v) && 0 < count <= r.count && r.End() < TWO_TO_THE_32
    requires IsHole(r) || 0 <= r.lcn < TWO_TO_THE_32
    ensures Small(p + [r], v) && Small(p + [r.(count := count)], v)
    ensures |Body(p + [r.(count := count)], v, 0)| <= |Body(p + [r], v, 0)|
  {
    hide ByteCount, Body;
    EndOfGrows(p, v);
    Snoc(p, v, 0, r);
    Snoc(p, v, 0, r.(count := count));
    RunSize(r, LastLcn(p, 0));
    RunSize(r.(count := count), LastLcn(p, 0));
    FiveBytes(r.count);
    FitsMore(r.count, ByteCount(r.count), 8);
    ByteCountMonotone(count, r.count);
  }

  /** How far the predictor has counted: the runs taken so far, where the next one starts, the LCN its
      distance is taken from, and the bytes. */
  datatype Tally = Tally(counted: seq<Run>, next: int, lcn: int, size: int)

  /** What the predictor is asked: from where, up to which VCN if any, and in how many bytes. */
  datatype Query = Query(lowest: int, stop: Option<int>, available: int)

  /** One more run counted. */
  function Counting(t: Tally, r: Run): Tally
    requires Encodable(r, t.lcn)
  {
    Tally(t.counted + [r], r.End(), NextLcn(r, t.lcn), t.size + |EncodeRun(r, t.lcn)|)
  }

  /** The counted runs and `rest` make the list, and take the bytes of the tally. */
  ghost predicate Sizing(e: seq<Run>, v: int, t: Tally, rest: seq<Run>) {
    && e == t.counted + rest && Small(t.counted, v) && EndOf(t.counted, v) == t.next
    && LastLcn(t.counted, 0) == t.lcn && 0 <= t.lcn < TWO_TO_THE_32
    && Fine(rest, t.next) && t.size == |Body(t.counted, v, 0)|
  }

  /** Counting one more run. */
  lemma SizingStep(e: seq<Run>, v: int, t: Tally, rest: seq<Run>)
    requires Sizing(e, v, t, rest) && rest != []
    ensures var r := rest[0];
            && Encodable(r, t.lcn) && r.vcn == t.next < r.End() && |EncodeRun(r, t.lcn)| <= 11
            && Sizing(e, v, Counting(t, r), rest[1..])
  {
    hide EncodeRun, ByteCount, Body;
    var r := rest[0];
    EndOfGrows(rest[1..], r.End());
    Snoc(t.counted, v, 0, r);
    RunSize(r, t.lcn);
    assert t.counted + rest == (t.counted + [r]) + rest[1..];
  }

  /** Stopping between two runs: the array is as long as predicted. */
  lemma SizingStops(e: seq<Run>, v: int, t: Tally, rest: seq<Run>)
    requires Sizing(e, v, t, rest)
    ensures Window(e, v, t.next) == t.counted
    ensures rest == [] ==> Window(e, v, MAXLONGLONG) == t.counted
  {
    EndOfGrows(rest, t.next);
    WindowSplit(t.counted, rest, v, t.next);
    WindowSplit(t.counted, rest, v, MAXLONGLONG);
  }

  /** Stopping inside the last run counted: the array is no longer than predicted. */
  lemma SizingCut(e: seq<Run>, v: int, t: Tally, rest: seq<Run>, hi: int)
    requires Sizing(e, v, t, rest) && rest != [] && t.next < hi < rest[0].End() && Encodable(rest[0], t.lcn)
    ensures Small(Window(e, v, hi), v)
    ensures |Body(Window(e, v, hi), v, 0)| <= Counting(t, rest[0]).size
  {
    hide EncodeRun, ByteCount, Body;
    var r := rest[0];
    EndOfGrows(rest[1..], r.End());
    WindowSplit(t.counted, rest, v, hi);
    assert Window(rest, t.next, hi) == [r.(count := hi - t.next)];
    assert Window(e, v, hi) == t.counted + [r.(count := hi - t.next)];
    Snoc(t.counted, v, 0, r);
    CutIsSmaller(t.counted, v, r, hi - t.next);
  }

  /** What a prediction promises about building `[lowest, stopped)`: the array takes no more than the
      predicted bytes, and exactly those if no run is cut; the prediction keeps to the room there is;
      it stops at the stop, or where the next run would not have fitted, or not at all. */
  ghost predicate Predicts(e: seq<Run>, q: Query, size: int, stopped: int) {
    var w, closed := Window(e, q.lowest, stopped), Closed(e, q.lowest, q.stop);
    && Stop(stopped) && Small(w, q.lowest) && |Encode(w, q.lowest)| <= size && (size <= q.available || size == 1)
    && (w <= closed ==> |Encode(w, q.lowest)| == size)
    && (stopped == MAXLONGLONG ==> q.stop.None?) && (q.stop.Some? ==> stopped <= q.stop.value + 1)
    && (stopped == MAXLONGLONG || q.stop == Some(stopped - 1) || DoesNotFit(closed, q.lowest, stopped, q.available))
    && (12 <= q.available ==> q.lowest < stopped)
    && Sized(closed, q.lowest, size, stopped)
  }

  /** The predicted bytes are those of the array of whole entries, up to the one in which it stops. */
  ghost predicate Sized(closed: seq<Run>, lowest: int, size: int, stopped: int) {
    exists k :: 0 <= k <= |closed| && SizedBy(closed[..k], closed, lowest, size, stopped)
  }

  ghost predicate SizedBy(p: seq<Run>, closed: seq<Run>, lowest: int, size: int, stopped: int) {
    && Small(p, lowest) && |Encode(p, lowest)| == size
    && (p != [] ==> p[|p| - 1].vcn < stopped) && (p == closed || stopped <= EndOf(p, lowest))
  }

  lemma TallySizes(closed: seq<Run>, lowest: int, t: Tally, rest: seq<Run>, stopped: int)
    requires Sizing(closed, lowest, t, rest) && (rest == [] || stopped <= t.next)
    requires t.counted != [] ==> t.counted[|t.counted| - 1].vcn < stopped
    ensures Sized(closed, lowest, t.size + 1, stopped)
  {
    hide Body, Small;
    var k := |t.counted|;
    assert closed[..k] == t.counted;
    assert SizedBy(closed[..k], closed, lowest, t.size + 1, stopped);
  }

  lemma {:induction false} LastStarts(p: seq<Run>, v: int)
    requires Contiguous(p, v) && p != []
    ensures p[|p| - 1].vcn < EndOf(p, v)
    decreases p
  {
    if |p| > 1 {
      LastStarts(p[1..], p[0].End());
    }
  }

  /** The last entry counted starts before the next one. */
  lemma CountedStarts(closed: seq<Run>, lowest: int, t: Tally, rest: seq<Run>)
    requires Sizing(closed, lowest, t, rest) && t.counted != []
    ensures t.counted[|t.counted| - 1].vcn < t.next < TWO_TO_THE_32
  {
    hide Body;
    LastStarts(t.counted, lowest);
  }

  /** The entry at `stopped` is the first for which there is no room. */
  ghost predicate DoesNotFit(e: seq<Run>, lowest: int, stopped: int, available: int) {
    exists k :: 0 <= k < |e| && e[k].vcn == stopped && Overflows(e[..k + 1], lowest, available)
  }

  ghost predicate Overflows(rs: seq<Run>, lowest: int, available: int) {
    Small(rs, lowest) && |Encode(rs, lowest)| > available
  }

  /** The predictor when it breaks off because everything is counted. */
  lemma PredictAll(e: seq<Run>, t: Tally, q: Query)
    requires q.stop.None? && 0 <= q.lowest < TWO_TO_THE_32
    requires Sizing(e, q.lowest, t, []) && (t.size + 1 <= q.available || t.size == 0)
    ensures Predicts(e, q, t.size + 1, MAXLONGLONG)
  {
    hide Body, Sized;
    SizingStops(e, q.lowest, t, []);
    if t.counted != [] {
      CountedStarts(Closed(e, q.lowest, q.stop), q.lowest, t, []);
    }
    TallySizes(Closed(e, q.lowest, q.stop), q.lowest, t, [], MAXLONGLONG);
  }

  /** The predictor when it runs out of room. */
  lemma PredictRoom(e: seq<Run>, t: Tally, rest: seq<Run>, q: Query)
    requires Contiguous(e, q.lowest) && Sizing(Closed(e, q.lowest, q.stop), q.lowest, t, rest) && rest != []
    requires t.size + 1 <= q.available || t.size == 0
    requires Encodable(rest[0], t.lcn) && Counting(t, rest[0]).size + 1 > q.available
    requires q.stop.Some? ==> t.next <= q.stop.value < MAXLONGLONG - 1
    ensures Predicts(e, q, t.size + 1, t.next)
  {
    hide Body, EncodeRun, ByteCount, Sized;
    var closed, p := Closed(e, q.lowest, q.stop), t.counted;
    if p != [] {
      CountedStarts(closed, q.lowest, t, rest);
    }
    TallySizes(closed, q.lowest, t, rest, t.next);
    EndOfGrows(p, q.lowest);
    EndOfGrows(rest[1..], rest[0].End());
    SizingStops(closed, q.lowest, t, rest);
    SizingStep(closed, q.lowest, t, rest);
    assert p + [rest[0]] == closed[..|p| + 1] && closed[|p|] == rest[0];
    assert Overflows(closed[..|p| + 1], q.lowest, q.available);
    assert DoesNotFit(closed, q.lowest, t.next, q.available);
    if q.stop.Some? {
      WindowClosed(e, q.lowest, q.stop, t.next);
    }
    if p == [] {
      assert |Body(p, q.lowest, 0)| == 0 by { EmptyBody(q.lowest); }
    }
  }

  lemma EmptyBody(v: nat)
    requires v < TWO_TO_THE_32
    ensures Small([], v) && Body([], v, 0) == []
  {
  }

  /** The predictor when it reaches the stop. */
  lemma PredictStop(e: seq<Run>, t: Tally, rest: seq<Run>, q: Query)
    requires q.stop.Some? && q.lowest <= q.stop.value < TWO_TO_THE_32 - 1
    requires Contiguous(e, q.lowest) && Sizing(Closed(e, q.lowest, q.stop), q.lowest, t, rest) && rest != []
    requires Encodable(rest[0], t.lcn) && t.next <= q.stop.value < rest[0].End()
    requires Counting(t, rest[0]).size + 1 <= q.available
    ensures Predicts(e, q, Counting(t, rest[0]).size + 1, q.stop.value + 1)
  {
    hide Body, EncodeRun, ByteCount, Sized;
    var closed, hi := Closed(e, q.lowest, q.stop), q.stop.value + 1;
    WindowClosed(e, q.lowest, q.stop, hi);
    SizingStep(closed, q.lowest, t, rest);
    TallySizes(closed, q.lowest, Counting(t, rest[0]), rest[1..], hi);
    if rest[0].End() == hi {
      SizingStops(closed, q.lowest, Counting(t, rest[0]), rest[1..]);
    } else {
      SizingCut(closed, q.lowest, t, rest, hi);
      CutIsNoPrefix(closed, q.lowest, t.counted, rest, t.next, hi);
    }
  }

  lemma CutIsNoPrefix(e: seq<Run>, v: int, p: seq<Run>, rest: seq<Run>, next: int, hi: int)
    requires e == p + rest && Contiguous(p, v) && EndOf(p, v) == next && rest != []
    requires rest[0].vcn == next < hi < rest[0].End()
    ensures !(Window(e, v, hi) <= e)
  {
    WindowSplit(p, rest, v, hi);
    var w := Window(e, v, hi);
    assert w[|p|].count == hi - next && e[|p|] == rest[0];
  }

  /** Closing a list that goes on with `[r] + t`. */
  lemma ClosedCons(r: Run, t: seq<Run>, v: int, stop: Option<int>)
    ensures Closed([r] + t, v, stop) == [r] + Closed(t, r.End(), stop)
  {
    assert ([r] + t)[1..] == t;
    assert EndOf([r] + t, v) == EndOf(t, r.End());
  }

  lemma ContiguousSnoc(e: seq<Run>, v: int, h: Run)
    requires Contiguous(e, v) && h.vcn == EndOf(e, v) && 0 < h.count && IsHole(h)
    ensures Contiguous(e + [h], v) && EndOf(e + [h], v) == h.End()
    ensures forall t | Within(e, t) :: Within(e + [h], t)
    decreases e
  {
    if e == [] {
      assert e + [h] == [h] && [h][1..] == [];
    } else {
      assert (e + [h])[1..] == e[1..] + [h];
      ContiguousSnoc(e[1..], e[0].End(), h);
    }
  }

  /** The closed list is as fine as the list. */
  lemma ClosedFine(e: seq<Run>, v: int, stop: Option<int>)
    requires Fine(e, v) && (stop.Some? ==> stop.value < TWO_TO_THE_32 - 1)
    ensures Fine(Closed(e, v, stop), v)
  {
    if stop.Some? && EndOf(e, v) <= stop.value {
      ContiguousSnoc(e, v, Run(EndOf(e, v), UNUSED_LCN, stop.value + 1 - EndOf(e, v)));
    }
  }

  /** What comes next at a place: the current entry of the map, or the hole up to the stop. */
  lemma Upcoming(es: seq<Run>, at: Place, next: int, stop: Option<int>)
    requires at.found ==> at.i < |es|
    ensures at.found ==>
              Closed(Ahead(es, at), next, stop) ==
                  [at.run] + Closed(Ahead(es, NextPlace(es, at, at.run)), at.run.End(), stop)
    ensures !at.found && stop.Some? && next <= stop.value ==>
              var hole := Run(next, UNUSED_LCN, stop.value - next + 1);
              && Closed(Ahead(es, at), next, stop) == [hole]
              && Closed(Ahead(es, NextPlace(es, at, hole)), hole.End(), stop) == []
    ensures !at.found && (stop.None? || stop.value < next) ==> Closed(Ahead(es, at), next, stop) == []
  {
    if at.found {
      ClosedCons(at.run, es[at.i + 1..], next, stop);
      if at.i + 1 < |es| {
        assert es[at.i + 1..] == [es[at.i + 1]] + es[at.i + 2..];
      }
    }
  }

  /** Where the predictor's loop stands. */
  ghost predicate Predicting(e: seq<Run>, q: Query, t: Tally, rest: seq<Run>, highest: int) {
    && Fine(e, q.lowest) && Sizing(Closed(e, q.lowest, q.stop), q.lowest, t, rest)
    && (t.size + 1 <= q.available || t.size == 0)
    && (q.stop.None? || t.next <= q.stop.value ==> highest == MAXLONGLONG)
    && (q.stop.Some? && q.stop.value < t.next ==> highest == q.stop.value + 1 && Predicts(e, q, t.size + 1, highest))
  }

  /** The stop lies in 32 bits, and not before the start. */
  predicate Proper(q: Query) { q.stop.Some? ==> q.lowest <= q.stop.value < TWO_TO_THE_32 - 1 }

  function NothingCounted(lowest: int): Tally { Tally([], lowest, 0, 0) }

  lemma PredictingStart(es: seq<Run>, q: Query)
    requires Fine(es, 0) && 0 <= q.lowest < TWO_TO_THE_32 && Proper(q)
    ensures var e := Tail(es, q.lowest);
            Predicting(e, q, NothingCounted(q.lowest), Closed(e, q.lowest, q.stop), MAXLONGLONG)
  {
    FineTail(es, q.lowest);
    var e := Tail(es, q.lowest);
    ClosedFine(e, q.lowest, q.stop);
    EmptyBody(q.lowest);
    assert Closed(e, q.lowest, q.stop) == [] + Closed(e, q.lowest, q.stop);
  }

  /** The stop is noted when a run reaches beyond it. */
  function Noted(q: Query, run: Run, highest: int): int {
    if q.stop.Some? && run.End() > q.stop.value then q.stop.value + 1 else highest
  }

  /** Counting the next run, or finding no room for it. */
  lemma PredictingStep(e: seq<Run>, q: Query, t: Tally, rest: seq<Run>, highest: int)
    requires Predicting(e, q, t, rest, highest) && rest != [] && Proper(q) && (q.stop.Some? ==> t.next <= q.stop.value)
    ensures Encodable(rest[0], t.lcn) && rest[0].vcn == t.next < rest[0].End() < TWO_TO_THE_32
    ensures 1 < |rest| ==> rest[1].vcn == rest[0].End()
    ensures if Counting(t, rest[0]).size + 1 > q.available then Predicts(e, q, t.size + 1, t.next)
            else Predicting(e, q, Counting(t, rest[0]), rest[1..], Noted(q, rest[0], highest))
  {
    hide EncodeRun, ByteCount, Body, Predicts, Encodable;
    SizingStep(Closed(e, q.lowest, q.stop), q.lowest, t, rest);
    EndOfGrows(rest[1..], rest[0].End());
    if Counting(t, rest[0]).size + 1 > q.available {
      PredictRoom(e, t, rest, q);
    } else if q.stop.Some? && rest[0].End() > q.stop.value {
      PredictStop(e, t, rest, q);
    }
  }

  /** The predictor when it breaks off. */
  lemma PredictingEnd(e: seq<Run>, q: Query, t: Tally, rest: seq<Run>, highest: int)
    requires Predicting(e, q, t, rest, highest) && (if q.stop.None? then rest == [] else q.stop.value < t.next)
    ensures Predicts(e, q, t.size + 1, highest)
  {
    if q.stop.None? {
      EndOfGrows(t.counted, q.lowest);
      PredictAll(e, t, q);
    }
  }

  /** The bytes one turn adds to the size. */
  method SizeOfRun(run: Run, lcn: int) returns (bytes: int, currentLcn: int)
    requires Encodable(run, lcn)
    ensures bytes == |EncodeRun(run, lcn)| && currentLcn == NextLcn(run, lcn)
  {
    hide EncodeRun, ByteCount;
    RunSize(run, lcn);
    bytes, currentLcn := 1 + ByteCount(run.count), lcn;
    if run.lcn != UNUSED_LCN {
      bytes := bytes + ByteCount(run.lcn - currentLcn);
      currentLcn := run.lcn;
    }
  }

  /** The loop of the predictor: it stands before the current entry of the map, or behind the last one. */
  ghost predicate Scanning(es: seq<Run>, at: Place, q: Query, t: Tally, highest: int) {
    && (at.found ==> at.i < |es| && at.run.vcn == t.next) && 0 <= q.lowest
    && if Proper(q) then Predicting(Tail(es, q.lowest), q, t, Closed(Ahead(es, at), t.next, q.stop), highest)
       else t == NothingCounted(q.lowest) && highest == MAXLONGLONG
  }

  /** One turn of the loop. */
  lemma ScanningTurn(es: seq<Run>, at: Place, run: Run, q: Query, t: Tally, highest: int)
    requires Scanning(es, at, q, t, highest)
    requires if at.found then run == at.run
             else q.stop.Some? && run == Run(t.next, UNUSED_LCN, q.stop.value - t.next + 1)
    requires q.stop.Some? ==> run.vcn <= q.stop.value < TWO_TO_THE_32 - 1
    ensures Encodable(run, t.lcn) && t.next < run.End() < TWO_TO_THE_32
    ensures if Counting(t, run).size + 1 > q.available then Predicts(Tail(es, q.lowest), q, t.size + 1, run.vcn)
            else var after := NextPlace(es, at, run);
                 && Scanning(es, after, q, Counting(t, run), Noted(q, run, highest))
                 && (after.found ==> after.run.vcn == run.End())
  {
    hide Predicting, EncodeRun, Predicts, Closed, Pending, Tail, Encodable, NextLcn;
    var e, rest, after := Tail(es, q.lowest), Closed(Ahead(es, at), t.next, q.stop), NextPlace(es, at, run);
    Upcoming(es, at, t.next, q.stop);
    assert rest == [run] + Closed(Ahead(es, after), run.End(), q.stop);
    PredictingStep(e, q, t, rest, highest);
    if after.found {
      Upcoming(es, after, run.End(), q.stop);
      assert rest[1] == es[at.i + 1];
    }
  }

  lemma ScanningEnd(es: seq<Run>, at: Place, q: Query, t: Tally, highest: int)
    requires Scanning(es, at, q, t, highest) && (if q.stop.None? then !at.found else t.next > q.stop.value)
    requires q.stop.Some? ==> q.stop.value < TWO_TO_THE_32 - 1
    ensures q.stop.None? || q.lowest <= q.stop.value ==> Predicts(Tail(es, q.lowest), q, t.size + 1, highest)
    ensures q.stop.Some? && q.stop.value < q.lowest ==> t.size == 0 && highest == MAXLONGLONG
  {
    hide Predicts, Predicting, Tail;
    Upcoming(es, at, t.next, q.stop);
    if Proper(q) {
      PredictingEnd(Tail(es, q.lowest), q, t, Closed(Ahead(es, at), t.next, q.stop), highest);
    }
  }

  lemma ScanningStart(es: seq<Run>, at: Place, q: Query)
    requires Fine(es, 0) && 0 <= q.lowest < TWO_TO_THE_32 && (q.stop.Some? ==> q.stop.value < TWO_TO_THE_32 - 1)
    requires (at.found ==> at.i < |es| && at.run.vcn == q.lowest) && Tail(es, q.lowest) == Ahead(es, at)
    ensures Scanning(es, at, q, NothingCounted(q.lowest), MAXLONGLONG)
  {
    hide Predicting, Tail, Pending, Closed;
    if Proper(q) {
      PredictingStart(es, q);
    }
  }

  /** NtfsGetSizeForMappingPairs.  A stop below the start is answered with an empty array and no stop. */
  method GetSizeForMappingPairs(es: seq<Run>, available: nat, lowest: nat, stop: Option<int>)
    returns (size: int, stopped: int)
    requires Fine(es, 0) && lowest < TWO_TO_THE_32 && (stop.Some? ==> stop.value < TWO_TO_THE_32 - 1)
    ensures stop.None? || lowest <= stop.value ==>
              Predicts(Tail(es, lowest), Query(lowest, stop, available), size, stopped)
    ensures stop.Some? && stop.value < lowest ==> size == 1 && stopped == MAXLONGLONG
  {
    hide Body, EncodeRun, Contiguous, EndOf, Within, Small, Tail, Fine, Encodable, Pending, Scanning, Predicts, NextLcn;
    ghost var q := Query(lowest, stop, available);
    var highestVcn, currentLcn, nextVcn := MAXLONGLONG, 0, lowest as int;
    var i: nat, found: bool, run := LookupEntry(es, lowest);
    ghost var at, tally := Place(i, found, run), NothingCounted(lowest);
    ScanningStart(es, at, q);
    var msize, lastSize := 0, 0;
    while true
      invariant at.found == found && (found ==> at.i == i && at.run == run && run.vcn == nextVcn && i < |es|)
      invariant tally.next == nextVcn && tally.lcn == currentLcn && tally.size == lastSize == msize
      invariant Scanning(es, at, q, tally, highestVcn)
      decreases TWO_TO_THE_32 - nextVcn
    {
      ghost var highest := highestVcn;
      if !found {
        if stop.None? {
          break;
        }
        run := Run(nextVcn, UNUSED_LCN, stop.value - nextVcn + 1);
      }
      if stop.Some? {
        if run.vcn > stop.value {
          break;
        }
        if run.vcn + run.count > stop.value {
          highestVcn := stop.value + 1;
        }
      }
      ScanningTurn(es, at, run, q, tally, highest);
      at, tally := NextPlace(es, at, run), Counting(tally, run);
      var bytes;
      bytes, currentLcn := SizeOfRun(run, currentLcn);
      msize := msize + bytes;
      if msize + 1 > available {
        highestVcn := run.vcn;
        msize := lastSize;
        return msize + 1, highestVcn;
      }
      lastSize := msize;
      nextVcn := run.End();
      i := i + 1;
      found := found && i < |es|;
      if found {
        run := es[i];
      }
    }
    ScanningEnd(es, at, q, tally, highestVcn);
    return msize + 1, highestVcn;
  }

  // ---------- a map spread over several records ----------

  /** What one attribute record says: the range it covers and its mapping pairs. */
  datatype Record = Record(lowest: int, highest: int, pairs: seq<Byte>)

  /** NtfsLookupAllocation over a chain of records, each added to the map loaded so far. */
  function LoadAll(records: seq<Record>, from: int): Walk {
    if records == [] then Done([], from)
    else
      var last := records[|records| - 1];
      match LoadAll(records[..|records| - 1], from)
      case Corrupt => Corrupt
      case Done(m, next) =>
        if last.pairs == [] || last.lowest != next then Corrupt else LookupWalk(last.pairs, 0, last.lowest, 0, m)
  }

  /** The records loaded so far give the map of `[from, next)`. */
  ghost predicate Loads(es: seq<Run>, records: seq<Record>, from: int, next: int) {
    && LoadAll(records, from).Done? && LoadAll(records, from).next == next && EmptyFrom(LoadAll(records, from).m, next)
    && forall u {:trigger At(LoadAll(records, from).m, u)} ::
         At(LoadAll(records, from).m, u) == if from <= u < next then MapAt(es, u) else UNUSED_LCN
  }

  /** Adding a record's runs to the map of what comes before. */
  lemma RecordAdds(es: seq<Run>, m: seq<Run>, from: int, lowest: int, highest: int, u: int)
    requires Fine(es, 0) && 0 <= from <= lowest <= highest < TWO_TO_THE_32 - 1 && EmptyFrom(m, lowest)
    requires At(m, u) == if from <= u < lowest then MapAt(es, u) else UNUSED_LCN
    ensures var w := Window(Tail(es, lowest), lowest, highest + 1);
            && Contiguous(w, lowest) && EndOf(w, lowest) == highest + 1 && EmptyFrom(AddAll(m, w), highest + 1)
            && At(AddAll(m, w), u) == if from <= u < highest + 1 then MapAt(es, u) else UNUSED_LCN
  {
    hide Tail, Window, Add, Valid, At, MapAt;
    var t := Tail(es, lowest);
    TailOk(es, 0, lowest, TWO_TO_THE_32);
    TailEnd(es, lowest);
    WindowOk(t, lowest, highest + 1, TWO_TO_THE_32);
    AddAllAt(m, Window(t, lowest, highest + 1), lowest, u);
  }

  /** One more record. */
  lemma LoadsMore(es: seq<Run>, records: seq<Record>, from: int, r: Record)
    requires Fine(es, 0) && 0 <= from <= r.lowest <= r.highest < TWO_TO_THE_32 - 1 && Loads(es, records, from, r.lowest)
    requires var w := Window(Tail(es, r.lowest), r.lowest, r.highest + 1);
             Small(w, r.lowest) && r.pairs == Encode(w, r.lowest)
    ensures Loads(es, records + [r], from, r.highest + 1)
  {
    hide LookupWalk, Body, Tail, Window, Add, Valid, Small, At, MapAt, EmptyFrom, Fine, AddAll, Contiguous, EndOf;
    var w := Window(Tail(es, r.lowest), r.lowest, r.highest + 1);
    var m := LoadAll(records, from).m;
    RecordAdds(es, m, from, r.lowest, r.highest, 0);
    ArrayFromPrefix(r.pairs, w, r.lowest);
    LookupReads(r.pairs, 0, w, r.lowest, 0, m);
    assert (records + [r])[..|records + [r]| - 1] == records;
    forall u ensures At(AddAll(m, w), u) == if from <= u < r.highest + 1 then MapAt(es, u) else UNUSED_LCN {
      RecordAdds(es, m, from, r.lowest, r.highest, u);
    }
  }

  lemma TailEnd(es: seq<Run>, v: nat)
    requires Fine(es, 0) && v < TWO_TO_THE_32
    ensures EndOf(Tail(es, v), v) < TWO_TO_THE_32
  {
    TailOk(es, 0, v, TWO_TO_THE_32);
  }

  /** The loop that creates new file records for the rest of a map: predict, build, resume where the
      record stopped.  Together the records decode to the map of the whole range, the same as one array
      built for it, and each keeps to its room. */
  method AddRecords(es: seq<Run>, last: int, newHighest: int, available: nat) returns (records: seq<Record>)
    requires Fine(es, 0) && -1 <= last <= newHighest < TWO_TO_THE_32 - 1 && 12 <= available
    ensures Loads(es, records, last + 1, newHighest + 1)
    ensures forall i | 0 <= i < |records| :: 0 < |records[i].pairs| <= available &&
              records[i].lowest <= records[i].highest
  {
    hide Fine, Loads, Encode, Window, Tail, Small;
    records := [];
    var lastVcn := last;
    LoadsNothing(es, last + 1);
    while lastVcn < newHighest
      invariant last <= lastVcn <= newHighest
      invariant Loads(es, records, last + 1, lastVcn + 1)
      invariant forall i | 0 <= i < |records| :: 0 < |records[i].pairs| <= available &&
                  records[i].lowest <= records[i].highest
    {
      var lowest := lastVcn + 1;
      var size, stopped := GetSizeForMappingPairs(es, available, lowest, Some(newHighest));
      var pairs;
      pairs, lastVcn := BuildMappingPairs(es, lowest, stopped);
      RecordRange(es, lowest, newHighest, available, size, stopped);
      LoadsMore(es, records, last + 1, Record(lowest, lastVcn, pairs));
      records := records + [Record(lowest, lastVcn, pairs)];
    }
  }

  lemma LoadsNothing(es: seq<Run>, from: nat)
    ensures Loads(es, [], from, from)
  {
  }

  /** A record predicted up to a stop makes progress and keeps to its room. */
  lemma RecordRange(es: seq<Run>, lowest: nat, stop: int, available: int, size: int, stopped: int)
    requires Fine(es, 0) && lowest <= stop < TWO_TO_THE_32 - 1 && 12 <= available
    requires Predicts(Tail(es, lowest), Query(lowest, Some(stop), available), size, stopped)
    ensures lowest < stopped <= stop + 1
    ensures var w := Window(Tail(es, lowest), lowest, stopped);
            Small(w, lowest) && EndOf(w, lowest) == stopped && 0 < |Encode(w, lowest)| <= available
  {
    hide Body, Tail, Window;
    TailOk(es, 0, lowest, TWO_TO_THE_32);
    TailEnd(es, lowest);
    WindowOk(Tail(es, lowest), lowest, stopped, TWO_TO_THE_32);
  }
}
