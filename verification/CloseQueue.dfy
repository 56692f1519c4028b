/**
 * Deferred closes: two queues, the counts and flags kept with them under one lock, and a single worker
 * item that drains them.
 */
module CloseQueue {
  import opened Options

  /** A posted close, with the volume and the file it is for. */
  datatype Close = Close(id: nat, vcb: nat, fcb: nat)

  /** What the lock protects. */
  datatype Queues = Queues(async: seq<Close>, delayed: seq<Close>, asyncCount: int, delayedCount: int, active: bool,
                           reduce: bool)

  // ---------- the two routines, as functions ----------

  /** NtfsQueueClose for an asynchronous close; the flag says to start the worker. */
  function InsertAsync(q: Queues, c: Close): (Queues, bool) {
    (q.(async := q.async + [c], asyncCount := q.asyncCount + 1, active := true), !q.active)
  }

  /** NtfsQueueClose for a delayed close. */
  function InsertDelayed(q: Queues, c: Close, max: nat): (Queues, bool) {
    var r := q.(delayed := q.delayed + [c], delayedCount := q.delayedCount + 1);
    if r.delayedCount > max then (r.(reduce := true, active := true), !q.active) else (r, false)
  }

  predicate Matches(c: Close, vcb: Option<nat>) { vcb.None? || c.vcb == vcb.value }

  /** The first close of a list for a volume, or the list's length. */
  function FirstFor(list: seq<Close>, vcb: Option<nat>): (i: nat)
    ensures i <= |list| && (i < |list| ==> Matches(list[i], vcb))
    ensures forall j | 0 <= j < i :: !Matches(list[j], vcb)
  {
    if list == [] || Matches(list[0], vcb) then 0 else 1 + FirstFor(list[1..], vcb)
  }

  function Without(list: seq<Close>, i: nat): seq<Close>
    requires i < |list|
  {
    list[..i] + list[i + 1..]
  }

  datatype Taken = Nothing | FromAsync(c: Close) | FromDelayed(c: Close)

  /** NtfsRemoveClose: of the asynchronous list first; of the delayed list all closes of a given volume,
      or, when the list is to be reduced, those above the lower bound. */
  function Remove(q: Queues, vcb: Option<nat>, throttle: bool, min: nat): (Queues, Taken) {
    var i, j := FirstFor(q.async, vcb), FirstFor(q.delayed, vcb);
    if i < |q.async| then (q.(async := Without(q.async, i), asyncCount := q.asyncCount - 1), FromAsync(q.async[i]))
    else if vcb.Some? then
      if j < |q.delayed| then (TakeDelayed(q, j), FromDelayed(q.delayed[j])) else (q, Nothing)
    else if q.reduce && q.delayedCount > min && q.delayed != [] then (TakeDelayed(q, 0), FromDelayed(q.delayed[0]))
    else (q.(reduce := false, active := q.active && throttle), Nothing)
  }

  function TakeDelayed(q: Queues, j: nat): Queues
    requires j < |q.delayed|
  {
    q.(delayed := Without(q.delayed, j), delayedCount := q.delayedCount - 1)
  }

  // ---------- interleavings ----------

  /** The queues; how many threads are about to queue the work item, how many items are queued, how many
      workers drain; the delayed closes whose file was counted but which are not yet, or no longer, in
      the list; the files' counts; and all closes ever posted and taken. */
  datatype World = World(q: Queues, starting: nat, pending: nat, draining: nat, posting: seq<Close>,
                         leaving: seq<Close>, fcbCount: nat -> int, posted: multiset<Close>, taken: multiset<Close>)

  datatype Step =
    | CountFile(c: Close)      // a delayed close is posted: its file is counted, outside the lock
    | Delay(k: nat)            // and then it is queued, under the lock
    | Async(c: Close)          // an asynchronous close is posted
    | QueueItem                // the work item is queued, outside the lock
    | RunWorker                // and starts to run
    | WorkerTurn               // the worker takes a close, or finds it is done
    | VolumeTurn(vcb: nat)     // a thread that owns a volume takes one of its closes
    | ThrottleTurn             // a create takes one to keep the backlog down
    | UncountFile(k: nat)      // the file of a close taken from the delayed list is uncounted, outside the lock

  function Bumped(f: nat -> int, fcb: nat, d: int): nat -> int {
    (x: nat) => if x == fcb then f(x) + d else f(x)
  }

  ghost function Took(w: World, r: (Queues, Taken)): World {
    match r.1
    case Nothing => w.(q := r.0)
    case FromAsync(c) => w.(q := r.0, taken := w.taken + multiset{c})
    case FromDelayed(c) => w.(q := r.0, taken := w.taken + multiset{c}, leaving := w.leaving + [c])
  }

  ghost function Next(w: World, step: Step, min: nat, max: nat): Option<World> {
    match step
    case CountFile(c) =>
      Some(w.(posted := w.posted + multiset{c}, posting := w.posting + [c], fcbCount := Bumped(w.fcbCount, c.fcb, 1)))
    case Delay(k) =>
      if k < |w.posting| then
        var (q, start) := InsertDelayed(w.q, w.posting[k], max);
        Some(w.(q := q, posting := Without(w.posting, k), starting := if start then w.starting + 1 else w.starting))
      else None
    case Async(c) =>
      var (q, start) := InsertAsync(w.q, c);
      Some(w.(q := q, posted := w.posted + multiset{c}, starting := if start then w.starting + 1 else w.starting))
    case QueueItem => if 0 < w.starting then Some(w.(starting := w.starting - 1, pending := w.pending + 1)) else None
    case RunWorker => if 0 < w.pending then Some(w.(pending := w.pending - 1, draining := w.draining + 1)) else None
    case WorkerTurn =>
      if 0 < w.draining then
        var r := Remove(w.q, Option.None, false, min);
        Some(Took(w, r).(draining := if r.1.Nothing? then w.draining - 1 else w.draining))
      else None
    case VolumeTurn(v) => Some(Took(w, Remove(w.q, Some(v), false, min)))
    case ThrottleTurn => Some(Took(w, Remove(w.q, Option.None, true, min)))
    case UncountFile(k) =>
      if k < |w.leaving| then
        Some(w.(leaving := Without(w.leaving, k), fcbCount := Bumped(w.fcbCount, w.leaving[k].fcb, -1)))
      else None
  }

  const START := World(Queues([], [], 0, 0, false, false), 0, 0, 0, [], [], _ => 0, multiset{}, multiset{})

  ghost function Run(steps: seq<Step>, min: nat, max: nat): Option<World> {
    if steps == [] then Some(START)
    else
      match Run(steps[..|steps| - 1], min, max)
      case None => Option.None
      case Some(w) => Next(w, steps[|steps| - 1], min, max)
  }

  // ---------- what every step keeps ----------

  /** Counts and flags. */
  ghost predicate Kept(q: Queues, max: nat) {
    && |q.async| == q.asyncCount && |q.delayed| == q.delayedCount
    && (q.async != [] || q.reduce ==> q.active) && (q.delayedCount > max ==> q.reduce)
  }

  /** One worker item, queued, about to be queued or running, just if the queues are active. */
  ghost predicate OneWorker(w: World) {
    w.starting + w.pending + w.draining == if w.q.active then 1 else 0
  }

  /** Every posted close is in just one place. */
  ghost predicate Conserved(w: World) {
    w.posted == multiset(w.posting) + multiset(w.q.async) + multiset(w.q.delayed) + w.taken
  }

  function Of(list: seq<Close>, fcb: nat): nat {
    if list == [] then 0 else Of(list[..|list| - 1], fcb) + if list[|list| - 1].fcb == fcb then 1 else 0
  }

  /** A file's count is the number of its closes in the delayed list, or on the way in or out of it. */
  ghost predicate Counted(w: World) {
    forall f {:trigger w.fcbCount(f)} :: w.fcbCount(f) == Of(w.posting, f) + Of(w.q.delayed, f) + Of(w.leaving, f)
  }

  ghost predicate Inv(w: World, max: nat) {
    Kept(w.q, max) && OneWorker(w) && Conserved(w) && Counted(w)
  }

  lemma {:induction false} OfConcat(a: seq<Close>, b: seq<Close>, fcb: nat)
    ensures Of(a + b, fcb) == Of(a, fcb) + Of(b, fcb)
  {
    if b == [] {
      assert a + b == a;
    } else {
      OfConcat(a, b[..|b| - 1], fcb);
      assert (a + b)[..|a + b| - 1] == a + b[..|b| - 1];
    }
  }

  lemma OfSnoc(a: seq<Close>, c: Close, fcb: nat)
    ensures Of(a + [c], fcb) == Of(a, fcb) + if c.fcb == fcb then 1 else 0
  {
    assert (a + [c])[..|a + [c]| - 1] == a;
  }

  lemma OfWithout(a: seq<Close>, i: nat, fcb: nat)
    requires i < |a|
    ensures Of(a, fcb) == Of(Without(a, i), fcb) + if a[i].fcb == fcb then 1 else 0
  {
    assert a == (a[..i] + [a[i]]) + a[i + 1..];
    OfConcat(a[..i] + [a[i]], a[i + 1..], fcb);
    OfSnoc(a[..i], a[i], fcb);
    OfConcat(a[..i], a[i + 1..], fcb);
  }

  lemma BagWithout(a: seq<Close>, i: nat)
    requires i < |a|
    ensures multiset(a) == multiset(Without(a, i)) + multiset{a[i]}
  {
    assert a == a[..i] + [a[i]] + a[i + 1..];
  }

  lemma BagSnoc(a: seq<Close>, c: Close)
    ensures multiset(a + [c]) == multiset(a) + multiset{c}
  {
  }

  /** Taking a close: the flags, and where it came from. */
  lemma RemoveKeeps(q: Queues, vcb: Option<nat>, throttle: bool, min: nat, max: nat)
    requires Kept(q, max) && min <= max
    ensures Kept(Remove(q, vcb, throttle, min).0, max)
    ensures var (r, t) := Remove(q, vcb, throttle, min);
            r.active == (q.active && !(t.Nothing? && vcb.None? && !throttle))
  {
  }

  /** Taking a close moves it, and nothing else. */
  lemma RemoveMoves(q: Queues, vcb: Option<nat>, throttle: bool, min: nat, f: nat)
    ensures var (r, t) := Remove(q, vcb, throttle, min);
            match t
            case Nothing => r.async == q.async && r.delayed == q.delayed
            case FromAsync(c) => multiset(q.async) == multiset(r.async) + multiset{c} && r.delayed == q.delayed
            case FromDelayed(c) => r.async == q.async && multiset(q.delayed) == multiset(r.delayed) + multiset{c}
                                   && Of(q.delayed, f) == Of(r.delayed, f) + if c.fcb == f then 1 else 0
  {
    hide Of;
    var i, j := FirstFor(q.async, vcb), FirstFor(q.delayed, vcb);
    if i < |q.async| {
      BagWithout(q.async, i);
    } else if vcb.Some? && j < |q.delayed| {
      BagWithout(q.delayed, j);
      OfWithout(q.delayed, j, f);
    } else if q.delayed != [] {
      BagWithout(q.delayed, 0);
      OfWithout(q.delayed, 0, f);
    }
  }

  // ---------- what is taken ----------

  ghost predicate NoneOf(list: seq<Close>, v: nat) { forall c | c in list :: c.vcb != v }

  /** The first close of volume `v` leaves the list, and the others stay as they were. */
  ghost predicate FirstTaken(list: seq<Close>, rest: seq<Close>, v: nat, c: Close) {
    exists i | 0 <= i < |list| :: NoneOf(list[..i], v) && list[i] == c && c.vcb == v &&
        rest == list[..i] + list[i + 1..]
  }

  /** For a volume: the first of its asynchronous closes, else the first of its delayed ones, else nothing;
      the flags stay. */
  ghost predicate TakenForVolume(q: Queues, r: Queues, t: Taken, v: nat) {
    && r.active == q.active && r.reduce == q.reduce
    && match t
       case Nothing => NoneOf(q.async, v) && NoneOf(q.delayed, v) && r.async == q.async && r.delayed == q.delayed
       case FromAsync(c) => FirstTaken(q.async, r.async, v, c) && r.delayed == q.delayed
       case FromDelayed(c) => NoneOf(q.async, v) && FirstTaken(q.delayed, r.delayed, v, c) && r.async == q.async
  }

  /** For no volume in particular: the oldest asynchronous close, else the oldest delayed one if the list is to
      be reduced and is longer than the lower bound, else nothing, which ends the reducing and, but for a create,
      the work. */
  ghost predicate TakenForAny(q: Queues, r: Queues, t: Taken, throttle: bool, min: nat) {
    if q.async != [] then
      t == FromAsync(q.async[0]) && r.async == q.async[1..] && r.delayed == q.delayed && r.active == q.active &&
        r.reduce == q.reduce
    else if q.reduce && |q.delayed| > min then
      t == FromDelayed(q.delayed[0]) && r.async == [] && r.delayed == q.delayed[1..] && r.active == q.active && r.reduce
    else
      t == Nothing && r.async == [] && r.delayed == q.delayed && !r.reduce && r.active == (q.active && throttle)
  }

  lemma FoundFirst(list: seq<Close>, v: nat)
    ensures var i := FirstFor(list, Some(v));
            if i < |list| then FirstTaken(list, Without(list, i), v, list[i]) else NoneOf(list, v)
  {
    var i := FirstFor(list, Some(v));
    if i < |list| {
      assert NoneOf(list[..i], v);
    }
  }

  /** What a call takes. */
  lemma RemoveTakes(q: Queues, vcb: Option<nat>, throttle: bool, min: nat, max: nat)
    requires Kept(q, max)
    ensures var (r, t) := Remove(q, vcb, throttle, min);
            match vcb
            case Some(v) => TakenForVolume(q, r, t, v)
            case None => TakenForAny(q, r, t, throttle, min)
  {
    match vcb {
      case Some(v) =>
        FoundFirst(q.async, v);
        FoundFirst(q.delayed, v);
        hide FirstFor, FirstTaken, NoneOf;
      case None =>
    }
  }

  /** The closes of a list that are, or are not, of a volume, in order. */
  function Sifted(list: seq<Close>, v: nat, mine: bool): (s: seq<Close>) {
    if list == [] then [] else (if (list[0].vcb == v) == mine then [list[0]] else []) + Sifted(list[1..], v, mine)
  }

  /** Of a close's occurrences, the one sieve keeps all and the other none. */
  lemma {:induction false} SiftCounts(list: seq<Close>, v: nat, mine: bool, c: Close)
    ensures multiset(Sifted(list, v, mine))[c] == if (c.vcb == v) == mine then multiset(list)[c] else 0
  {
    if list != [] {
      SiftCounts(list[1..], v, mine, c);
      assert list == [list[0]] + list[1..];
    }
  }

  lemma {:induction false} SiftConcat(a: seq<Close>, b: seq<Close>, v: nat, mine: bool)
    ensures Sifted(a + b, v, mine) == Sifted(a, v, mine) + Sifted(b, v, mine)
  {
    if a == [] {
      assert a + b == b;
    } else {
      SiftConcat(a[1..], b, v, mine);
      assert (a + b)[1..] == a[1..] + b && (a + b)[0] == a[0];
    }
  }

  lemma {:induction false} SiftNone(list: seq<Close>, v: nat)
    requires NoneOf(list, v)
    ensures Sifted(list, v, true) == []
    ensures Sifted(list, v, false) == list
    decreases |list|
  {
    if list != [] {
      SiftNone(list[1..], v);
    }
  }

  lemma SiftAround(a: seq<Close>, c: Close, b: seq<Close>, v: nat, mine: bool)
    ensures Sifted(a + ([c] + b), v, mine) ==
              Sifted(a, v, mine) + ((if (c.vcb == v) == mine then [c] else []) + Sifted(b, v, mine))
  {
    SiftConcat(a, [c] + b, v, mine);
    assert ([c] + b)[1..] == b;
  }

  lemma SiftTaken(a: seq<Close>, c: Close, b: seq<Close>, v: nat)
    requires NoneOf(a, v) && c.vcb == v
    ensures Sifted(a + ([c] + b), v, true) == [c] + Sifted(a + b, v, true)
    ensures Sifted(a + ([c] + b), v, false) == Sifted(a + b, v, false)
  {
    hide Sifted, NoneOf;
    SiftNone(a, v);
    SiftAround(a, c, b, v, true);
    SiftAround(a, c, b, v, false);
    SiftConcat(a, b, v, true);
    SiftConcat(a, b, v, false);
    assert [] + Sifted(b, v, true) == Sifted(b, v, true) && [] + Sifted(b, v, false) == Sifted(b, v, false);
  }

  /** Taking the first close of a volume: it heads the volume's, and leaves the others. */
  lemma SiftFirst(list: seq<Close>, rest: seq<Close>, v: nat, c: Close)
    requires FirstTaken(list, rest, v, c)
    ensures Sifted(list, v, true) == [c] + Sifted(rest, v, true)
    ensures Sifted(list, v, false) == Sifted(rest, v, false)
    ensures |list| == |rest| + 1
  {
    hide Sifted, NoneOf;
    var i :| 0 <= i < |list| && NoneOf(list[..i], v) && list[i] == c && c.vcb == v && rest == list[..i] + list[i + 1..];
    SiftTaken(list[..i], c, list[i + 1..], v);
    assert list == list[..i] + ([c] + list[i + 1..]);
  }

  /** What a drain has still to take, of both lists, and what it will leave. */
  lemma DrainMore(q: Queues, r: Queues, t: Taken, v: nat)
    requires TakenForVolume(q, r, t, v)
    ensures var mine, more := Sifted(q.async, v, true) + Sifted(q.delayed, v, true),
                              Sifted(r.async, v, true) + Sifted(r.delayed, v, true);
            match t
            case Nothing => mine == [] && Sifted(q.async, v, false) == q.async &&
                Sifted(q.delayed, v, false) == q.delayed
            case FromAsync(c) => mine == [c] + more && |r.async| + |r.delayed| < |q.async| + |q.delayed|
            case FromDelayed(c) => mine == [c] + more && |r.async| + |r.delayed| < |q.async| + |q.delayed|
    ensures Sifted(r.async, v, false) == Sifted(q.async, v, false) &&
              Sifted(r.delayed, v, false) == Sifted(q.delayed, v, false)
  {
    hide Sifted, NoneOf, FirstTaken;
    match t {
      case Nothing =>
        SiftNone(q.async, v);
        SiftNone(q.delayed, v);
      case FromAsync(c) => SiftFirst(q.async, r.async, v, c);
      case FromDelayed(c) =>
        SiftNone(q.async, v);
        SiftFirst(q.delayed, r.delayed, v, c);
    }
  }

  /** Removing from the world keeps what is posted and counted. */
  lemma TookConserves(w: World, vcb: Option<nat>, throttle: bool, min: nat)
    requires Conserved(w)
    ensures Conserved(Took(w, Remove(w.q, vcb, throttle, min)))
  {
    hide Remove, Of;
    RemoveMoves(w.q, vcb, throttle, min, 0);
  }

  lemma TookCounts(w: World, vcb: Option<nat>, throttle: bool, min: nat, f: nat)
    requires w.fcbCount(f) == Of(w.posting, f) + Of(w.q.delayed, f) + Of(w.leaving, f)
    ensures var u := Took(w, Remove(w.q, vcb, throttle, min));
            u.fcbCount(f) == Of(u.posting, f) + Of(u.q.delayed, f) + Of(u.leaving, f)
  {
    hide Remove, Of;
    var r := Remove(w.q, vcb, throttle, min);
    RemoveMoves(w.q, vcb, throttle, min, f);
    if r.1.FromDelayed? {
      OfSnoc(w.leaving, r.1.c, f);
    }
  }

  lemma TookKeeps(w: World, vcb: Option<nat>, throttle: bool, min: nat)
    requires Conserved(w) && Counted(w)
    ensures var u := Took(w, Remove(w.q, vcb, throttle, min)); Conserved(u) && Counted(u)
  {
    TookConserves(w, vcb, throttle, min);
    hide Remove, Of, Took, Conserved;
    var u := Took(w, Remove(w.q, vcb, throttle, min));
    forall f ensures u.fcbCount(f) == Of(u.posting, f) + Of(u.q.delayed, f) + Of(u.leaving, f) {
      assert w.fcbCount(f) == Of(w.posting, f) + Of(w.q.delayed, f) + Of(w.leaving, f);
      TookCounts(w, vcb, throttle, min, f);
    }
  }

  /** Flags and worker: a turn of the worker, of a volume's owner, or of a create. */
  lemma TurnKeepsFlags(w: World, vcb: Option<nat>, throttle: bool, min: nat, max: nat)
    requires Kept(w.q, max) && OneWorker(w) && min <= max
    ensures var r := Remove(w.q, vcb, throttle, min);
            var u := Took(w, r);
            && Kept(u.q, max) && u.starting + u.pending + u.draining == (if w.q.active then 1 else 0)
            && u.draining == w.draining && u.q.active == (w.q.active && !(r.1.Nothing? && vcb.None? && !throttle))
  {
    RemoveKeeps(w.q, vcb, throttle, min, max);
    hide Remove, Kept;
  }

  /** Flags and worker: every step. */
  lemma StepKeepsFlags(w: World, step: Step, min: nat, max: nat)
    requires Kept(w.q, max) && OneWorker(w) && min <= max && Next(w, step, min, max).Some?
    ensures Kept(Next(w, step, min, max).value.q, max) && OneWorker(Next(w, step, min, max).value)
  {
    hide Remove, Took;
    match step {
      case WorkerTurn => TurnKeepsFlags(w, Option.None, false, min, max);
      case VolumeTurn(v) => TurnKeepsFlags(w, Some(v), false, min, max);
      case ThrottleTurn => TurnKeepsFlags(w, Option.None, true, min, max);
      case _ =>
    }
  }

  lemma DelayKeeps(w: World, k: nat, min: nat, max: nat)
    requires Conserved(w) && Counted(w) && k < |w.posting|
    ensures var u := Next(w, Delay(k), min, max).value; Conserved(u) && Counted(u)
  {
    hide Of;
    var u := Next(w, Delay(k), min, max).value;
    var c := w.posting[k];
    BagWithout(w.posting, k);
    assert u.q.delayed == w.q.delayed + [c];
    forall f ensures u.fcbCount(f) == Of(u.posting, f) + Of(u.q.delayed, f) + Of(u.leaving, f) {
      assert w.fcbCount(f) == Of(w.posting, f) + Of(w.q.delayed, f) + Of(w.leaving, f);
      OfWithout(w.posting, k, f);
      OfSnoc(w.q.delayed, c, f);
    }
  }

  lemma CountFileKeeps(w: World, c: Close, min: nat, max: nat)
    requires Conserved(w) && Counted(w)
    ensures var u := Next(w, CountFile(c), min, max).value; Conserved(u) && Counted(u)
  {
    hide Of;
    var u := Next(w, CountFile(c), min, max).value;
    BagSnoc(w.posting, c);
    forall f ensures u.fcbCount(f) == Of(u.posting, f) + Of(u.q.delayed, f) + Of(u.leaving, f) {
      assert w.fcbCount(f) == Of(w.posting, f) + Of(w.q.delayed, f) + Of(w.leaving, f);
      OfSnoc(w.posting, c, f);
    }
  }

  lemma UncountFileKeeps(w: World, k: nat, min: nat, max: nat)
    requires Conserved(w) && Counted(w) && k < |w.leaving|
    ensures var u := Next(w, UncountFile(k), min, max).value; Conserved(u) && Counted(u)
  {
    hide Of;
    var u := Next(w, UncountFile(k), min, max).value;
    forall f ensures u.fcbCount(f) == Of(u.posting, f) + Of(u.q.delayed, f) + Of(u.leaving, f) {
      assert w.fcbCount(f) == Of(w.posting, f) + Of(w.q.delayed, f) + Of(w.leaving, f);
      OfWithout(w.leaving, k, f);
    }
  }

  lemma AsyncKeeps(w: World, c: Close, min: nat, max: nat)
    requires Conserved(w) && Counted(w)
    ensures var u := Next(w, Async(c), min, max).value; Conserved(u) && Counted(u)
  {
    hide Of;
    var u := Next(w, Async(c), min, max).value;
    BagSnoc(w.q.async, c);
    forall f ensures u.fcbCount(f) == Of(u.posting, f) + Of(u.q.delayed, f) + Of(u.leaving, f) {
      assert w.fcbCount(f) == Of(w.posting, f) + Of(w.q.delayed, f) + Of(w.leaving, f);
    }
  }

  /** The worker's own state does not matter for the closes. */
  lemma SameCloses(w: World, u: World)
    requires Conserved(w) && Counted(w) && u == w.(starting := u.starting, pending := u.pending, draining := u.draining)
    ensures Conserved(u) && Counted(u)
  {
    hide Of;
    forall f ensures u.fcbCount(f) == Of(u.posting, f) + Of(u.q.delayed, f) + Of(u.leaving, f) {
      assert w.fcbCount(f) == Of(w.posting, f) + Of(w.q.delayed, f) + Of(w.leaving, f);
    }
  }

  /** Every close and every file's count: every step. */
  lemma StepKeepsCloses(w: World, step: Step, min: nat, max: nat)
    requires Conserved(w) && Counted(w) && Next(w, step, min, max).Some?
    ensures Conserved(Next(w, step, min, max).value) && Counted(Next(w, step, min, max).value)
  {
    hide Conserved, Counted, Remove, Took;
    var u := Next(w, step, min, max).value;
    match step {
      case CountFile(c) => CountFileKeeps(w, c, min, max);
      case Delay(k) => DelayKeeps(w, k, min, max);
      case Async(c) => AsyncKeeps(w, c, min, max);
      case UncountFile(k) => UncountFileKeeps(w, k, min, max);
      case QueueItem => SameCloses(w, u);
      case RunWorker => SameCloses(w, u);
      case WorkerTurn =>
        TookKeeps(w, Option.None, false, min);
        SameCloses(Took(w, Remove(w.q, Option.None, false, min)), u);
      case VolumeTurn(v) => TookKeeps(w, Some(v), false, min);
      case ThrottleTurn => TookKeeps(w, Option.None, true, min);
    }
  }

  /** Over every interleaving. */
  lemma {:induction false} RunKeeps(steps: seq<Step>, min: nat, max: nat)
    requires min <= max && Run(steps, min, max).Some?
    ensures Inv(Run(steps, min, max).value, max)
  {
    hide Of, Next;
    if steps == [] {
      StartIsGood(max);
    } else {
      RunKeeps(steps[..|steps| - 1], min, max);
      var w := Run(steps[..|steps| - 1], min, max).value;
      StepKeepsFlags(w, steps[|steps| - 1], min, max);
      StepKeepsCloses(w, steps[|steps| - 1], min, max);
    }
  }

  lemma StartIsGood(max: nat)
    ensures Inv(START, max)
  {
  }

  /** No close is delivered twice, and none is lost: with every close posted once, each is in just one of
      the lists, or taken once. */
  lemma DeliveredOnce(steps: seq<Step>, min: nat, max: nat, c: Close)
    requires min <= max && Run(steps, min, max).Some? && Run(steps, min, max).value.posted[c] == 1
    ensures var w := Run(steps, min, max).value;
            w.taken[c] + multiset(w.q.async)[c] + multiset(w.q.delayed)[c] + multiset(w.posting)[c] == 1
  {
    RunKeeps(steps, min, max);
  }

  /** No lost wakeup: when no worker is queued, about to be queued or running, nothing waits for one. */
  lemma NothingStranded(steps: seq<Step>, min: nat, max: nat)
    requires min <= max && Run(steps, min, max).Some?
    ensures var w := Run(steps, min, max).value;
            w.starting + w.pending + w.draining <= 1 &&
            (w.starting + w.pending + w.draining == 0 ==> w.q.async == [] && !w.q.reduce && |w.q.delayed| <= max)
  {
    RunKeeps(steps, min, max);
  }

  // ---------- the globals and the routines ----------

  class CloseData {
    const max: nat
    const min: nat
    var async: seq<Close>
    var delayed: seq<Close>
    var asyncCount: int
    var delayedCount: int
    var active: bool
    var reduce: bool

    ghost function Now(): Queues
      reads this
    {
      Queues(async, delayed, asyncCount, delayedCount, active, reduce)
    }

    ghost predicate Valid()
      reads this
    {
      Kept(Now(), max) && min <= max
    }

    /** The lower bound is four fifths of the upper one. */
    constructor (max: nat)
      ensures Valid() && this.max == max && min == max * 4 / 5 && Now() == START.q
    {
      this.max, this.min := max, max * 4 / 5;
      async, delayed, asyncCount, delayedCount, active, reduce := [], [], 0, 0, false, false;
    }

    /** The part of NtfsQueueClose under the lock. */
    method QueueClose(c: Close, delay: bool) returns (startWorker: bool)
      requires Valid()
      modifies this
      ensures Valid()
      ensures (Now(), startWorker) == if delay then InsertDelayed(old(Now()), c, max) else InsertAsync(old(Now()), c)
      ensures async == old(async) + (if delay then [] else [c]) && delayed == old(delayed) + if delay then [c] else []
      ensures reduce <==> old(reduce) || (delay && |delayed| > max)
      ensures active <==> old(active) || !delay || |delayed| > max
      ensures startWorker <==> active && !old(active)
    {
      startWorker := false;
      if delay {
        delayed := delayed + [c];
        delayedCount := delayedCount + 1;
        if delayedCount > max {
          reduce := true;
          if !active {
            active, startWorker := true, true;
          }
        }
      } else {
        async := async + [c];
        asyncCount := asyncCount + 1;
        if !active {
          active, startWorker := true, true;
        }
      }
    }

    /** The walk along a list. */
    static method Find(list: seq<Close>, vcb: Option<nat>) returns (i: nat)
      ensures i == FirstFor(list, vcb)
    {
      i := 0;
      while i < |list| && !Matches(list[i], vcb)
        invariant i <= |list| && i + FirstFor(list[i..], vcb) == FirstFor(list, vcb)
      {
        assert list[i..][1..] == list[i + 1..];
        i := i + 1;
      }
    }

    /** NtfsRemoveClose. */
    method RemoveClose(vcb: Option<nat>, throttleCreate: bool) returns (taken: Taken)
      requires Valid()
      modifies this
      ensures Valid() && (Now(), taken) == Remove(old(Now()), vcb, throttleCreate, min)
      ensures match vcb
              case Some(v) => TakenForVolume(old(Now()), Now(), taken, v)
              case None => TakenForAny(old(Now()), Now(), taken, throttleCreate, min)
    {
      RemoveTakes(Now(), vcb, throttleCreate, min, max);
      hide FirstFor, TakenForVolume, TakenForAny;
      RemoveKeeps(Now(), vcb, throttleCreate, min, max);
      taken := Nothing;
      var i := Find(async, vcb);
      if i < |async| {
        taken := FromAsync(async[i]);
        async := Without(async, i);
        asyncCount := asyncCount - 1;
      } else if vcb.Some? {
        var j := Find(delayed, vcb);
        if j < |delayed| {
          taken := FromDelayed(delayed[j]);
          delayed := Without(delayed, j);
          delayedCount := delayedCount - 1;
        }
      } else if reduce {
        if delayedCount > min {
          taken := FromDelayed(delayed[0]);
          delayed := Without(delayed, 0);
          delayedCount := delayedCount - 1;
        } else {
          reduce := false;
        }
      }
      if vcb.None? && taken.Nothing? && !throttleCreate {
        active := false;
      }
    }

    /** The loop for a volume, undisturbed: it takes just the closes of the volume, asynchronous ones first, each
        list in order, and touches nothing else. */
    method FspCloseVolume(v: nat) returns (closed: seq<Close>)
      requires Valid()
      modifies this
      ensures Valid() && active == old(active) && reduce == old(reduce)
      ensures closed == Sifted(old(async), v, true) + Sifted(old(delayed), v, true)
      ensures async == Sifted(old(async), v, false) && delayed == Sifted(old(delayed), v, false)
      ensures NoneOf(async, v) && NoneOf(delayed, v)
    {
      hide Sifted, Remove;
      closed := [];
      while true
        invariant Valid() && active == old(active) && reduce == old(reduce)
        invariant closed + (Sifted(async, v, true) + Sifted(delayed, v, true)) ==
                  Sifted(old(async), v, true) + Sifted(old(delayed), v, true)
        invariant Sifted(async, v, false) == Sifted(old(async), v, false)
        invariant Sifted(delayed, v, false) == Sifted(old(delayed), v, false)
        decreases |async| + |delayed|
      {
        ghost var was, before := closed, Now();
        var taken := RemoveClose(Some(v), false);
        DrainMore(before, Now(), taken, v);
        match taken {
          case Nothing =>
            return;
          case FromAsync(c) =>
            closed := closed + [c];
          case FromDelayed(c) =>
            closed := closed + [c];
        }
        Regroup(was, closed[|was|], Sifted(async, v, true) + Sifted(delayed, v, true));
      }
    }

    /** The worker's loop, undisturbed: it takes all asynchronous closes in order, and then, if the delayed
        list is to be reduced, its oldest closes down to the lower bound; and it gives up its turn. */
    method FspClose() returns (closed: seq<Close>)
      requires Valid()
      modifies this
      ensures Valid() && async == [] && !active && !reduce
      ensures var k := if old(reduce) && |old(delayed)| > min then |old(delayed)| - min else 0;
              closed == old(async) + old(delayed)[..k] && delayed == old(delayed)[k..]
    {
      ghost var k := 0;
      closed := [];
      while true
        invariant Valid() && 0 <= k <= |old(delayed)| && (active == old(active)) && reduce == old(reduce)
        invariant delayed == old(delayed)[k..] && closed + async == old(async) + old(delayed)[..k]
        invariant k != 0 ==> async == [] && reduce && |delayed| >= min
        decreases |async| + |delayed|
      {
        ghost var was, list := closed, async;
        var taken := RemoveClose(Option.None, false);
        match taken {
          case Nothing =>
            return;
          case FromAsync(c) =>
            closed := closed + [c];
            MovedOver(was, list, c);
          case FromDelayed(c) =>
            closed := closed + [c];
            TakenFrom(was, old(async), old(delayed), k);
            k := k + 1;
        }
      }
    }
  }

  lemma Regroup(a: seq<Close>, c: Close, b: seq<Close>)
    ensures a + ([c] + b) == a + [c] + b
  {
  }

  lemma MovedOver(closed: seq<Close>, list: seq<Close>, c: Close)
    requires list != [] && c == list[0]
    ensures closed + [c] + Without(list, 0) == closed + list
  {
  }

  lemma TakenFrom(closed: seq<Close>, async: seq<Close>, delayed: seq<Close>, k: nat)
    requires k < |delayed| && closed + [] == async + delayed[..k]
    ensures closed + [delayed[k]] + [] == async + delayed[..k + 1] && Without(delayed[k..], 0) == delayed[k + 1..]
  {
    assert closed == async + delayed[..k];
    assert delayed[..k + 1] == delayed[..k] + [delayed[k]];
  }
}
