/**
 * The three reserved buffers: who may have one when pool is short.  Buffers 1 and 2 go together to a
 * thread that may need two; buffer 2 may be had again and again by that thread.
 */
module ReservedBuffers {
  import opened Options

  datatype Buffer = One | Two | Three
  /** Threads and files are addresses; NULL is none of them. */
  const NULL: nat := 0

  /** How many buffers a caller might need: just one, or two, of which this is the first or the second. */
  datatype Need = Single | FirstOfTwo | SecondOfTwo

  /** The globals. */
  datatype Pool = Pool(in1: bool, in2: bool, in3: bool, count2: int, thread1: nat, thread2: nat, thread3: nat,
                       fcb12: nat, fcb3: nat, owner: nat)

  const IDLE := Pool(false, false, false, 0, NULL, NULL, NULL, NULL, NULL, NULL)

  // ---------- the arbiter ----------

  /** NtfsGetReservedBuffer as a function of the globals. */
  function Get(p: Pool, thread: nat, fcb: nat, need: Need): (Pool, Option<Buffer>) {
    if need != Single then
      if p.owner == thread || (!p.in1 && !p.in2 && (p.fcb3 != fcb || p.thread3 == thread)) then
        var q := p.(owner := thread, fcb12 := fcb);
        if need == FirstOfTwo then
          if !q.in1 then (TakeOne(q, thread), Some(One))
          else if !q.in3 then (TakeThree(q, thread, fcb), Some(Three))
          else (q, None)
        else (TakeTwo(q, thread), Some(Two))
      else (p, None)
    else if p.owner == thread then (TakeTwo(p, thread), Some(Two))
    else if !p.in3 then if fcb != p.fcb12 then (TakeThree(p, thread, fcb), Some(Three)) else (p, None)
    else if p.owner == NULL then
      if !p.in2 then (TakeTwo(p, thread), Some(Two))
      else if !p.in1 then (TakeOne(p, thread), Some(One))
      else (p, None)
    else (p, None)
  }

  function TakeOne(p: Pool, thread: nat): Pool { p.(thread1 := thread, in1 := true) }

  function TakeTwo(p: Pool, thread: nat): Pool { p.(thread2 := thread, in2 := true, count2 := p.count2 + 1) }

  function TakeThree(p: Pool, thread: nat, fcb: nat): Pool { p.(fcb3 := fcb, thread3 := thread, in3 := true) }

  function Disown(p: Pool): Pool { p.(owner := NULL, fcb12 := NULL) }

  /** NtfsFreeReservedBuffer. */
  function Free(p: Pool, b: Buffer): Pool {
    match b
    case One =>
      var q := p.(in1 := false, thread1 := NULL);
      if !q.in2 then Disown(q) else q
    case Two =>
      var q := p.(count2 := p.count2 - 1);
      if q.count2 == 0 then
        var r := q.(in2 := false, thread2 := NULL);
        if !r.in1 then Disown(r) else r
      else q
    case Three => p.(in3 := false, thread3 := NULL, fcb3 := NULL)
  }

  // ---------- outstanding grants ----------

  /** A buffer granted to a thread on behalf of a file. */
  datatype Grant = Grant(thread: nat, buffer: Buffer, fcb: nat)

  function Count(grants: seq<Grant>, b: Buffer): (n: nat)
    ensures n == 0 <==> forall g | g in grants :: g.buffer != b
  {
    if grants == [] then 0 else Count(grants[..|grants| - 1], b) + if grants[|grants| - 1].buffer == b then 1 else 0
  }

  function Without(grants: seq<Grant>, k: nat): seq<Grant>
    requires k < |grants|
  {
    grants[..k] + grants[k + 1..]
  }

  lemma CountSnoc(grants: seq<Grant>, g: Grant, b: Buffer)
    ensures Count(grants + [g], b) == Count(grants, b) + if g.buffer == b then 1 else 0
  {
    assert (grants + [g])[..|grants + [g]| - 1] == grants;
  }

  lemma {:induction false} CountConcat(x: seq<Grant>, y: seq<Grant>, b: Buffer)
    ensures Count(x + y, b) == Count(x, b) + Count(y, b)
  {
    if y == [] {
      assert x + y == x;
    } else {
      CountConcat(x, y[..|y| - 1], b);
      assert (x + y)[..|x + y| - 1] == x + y[..|y| - 1];
    }
  }

  lemma CountWithout(grants: seq<Grant>, k: nat, b: Buffer)
    requires k < |grants|
    ensures Count(grants, b) == Count(Without(grants, k), b) + if grants[k].buffer == b then 1 else 0
  {
    assert grants == (grants[..k] + [grants[k]]) + grants[k + 1..];
    CountConcat(grants[..k] + [grants[k]], grants[k + 1..], b);
    CountSnoc(grants[..k], grants[k], b);
    CountConcat(grants[..k], grants[k + 1..], b);
  }

  /** The globals name the thread of every grant, and the file of buffer 3. */
  predicate Named(p: Pool, g: Grant) {
    match g.buffer
    case One => g.thread == p.thread1
    case Two => g.thread == p.thread2
    case Three => g.thread == p.thread3 && g.fcb == p.fcb3
  }

  /** The globals count the grants. */
  ghost predicate Counted(p: Pool, grants: seq<Grant>) {
    && Count(grants, One) == (if p.in1 then 1 else 0) && Count(grants, Two) == p.count2
    && Count(grants, Three) == if p.in3 then 1 else 0
  }

  /** What every call keeps: the globals account for just the outstanding grants, and a two-buffer owner
      holds buffer 1 or 2 and nobody else does. */
  ghost predicate Good(p: Pool, grants: seq<Grant>) {
    (forall g | g in grants :: Named(p, g)) && Counted(p, grants) && Owned(p)
  }

  /** The globals by themselves. */
  predicate Owned(p: Pool) {
    && (p.in2 <==> 0 < p.count2) && 0 <= p.count2
    && (p.in1 <==> p.thread1 != NULL) && (p.in2 <==> p.thread2 != NULL)
    && (p.in3 <==> p.thread3 != NULL) && (p.in3 <==> p.fcb3 != NULL)
    && (p.owner == NULL <==> p.fcb12 == NULL)
    && (p.owner == NULL ==> p.count2 <= 1)
    && (p.owner != NULL ==>
          (p.in1 || p.in2) && (p.in1 ==> p.thread1 == p.owner) && (p.in2 ==> p.thread2 == p.owner))
  }

  ghost function Granted(grants: seq<Grant>, thread: nat, fcb: nat, b: Option<Buffer>): seq<Grant> {
    if b.Some? then grants + [Grant(thread, b.value, fcb)] else grants
  }

  lemma GetOwned(p: Pool, thread: nat, fcb: nat, need: Need)
    requires Owned(p) && thread != NULL && fcb != NULL
    ensures Owned(Get(p, thread, fcb, need).0)
  {
  }

  lemma GetCounted(p: Pool, grants: seq<Grant>, thread: nat, fcb: nat, need: Need)
    requires Owned(p) && Counted(p, grants)
    ensures var (q, b) := Get(p, thread, fcb, need); Counted(q, Granted(grants, thread, fcb, b))
  {
    hide Count;
    var b := Get(p, thread, fcb, need).1;
    if b.Some? {
      var g := Grant(thread, b.value, fcb);
      CountSnoc(grants, g, One);
      CountSnoc(grants, g, Two);
      CountSnoc(grants, g, Three);
    }
  }

  /** A request renames no grant: what it overwrites in the globals is not in use, or says the same. */
  lemma GetNamed(p: Pool, thread: nat, fcb: nat, need: Need, g: Grant)
    requires Owned(p) && thread != NULL && Named(p, g)
    requires g.buffer == One ==> p.in1
    requires g.buffer == Two ==> p.in2
    requires g.buffer == Three ==> p.in3
    ensures Named(Get(p, thread, fcb, need).0, g)
  {
  }

  lemma GetKeeps(p: Pool, grants: seq<Grant>, thread: nat, fcb: nat, need: Need)
    requires Good(p, grants) && thread != NULL && fcb != NULL
    ensures var (q, b) := Get(p, thread, fcb, need); Good(q, Granted(grants, thread, fcb, b))
  {
    GetOwned(p, thread, fcb, need);
    GetCounted(p, grants, thread, fcb, need);
    var (q, b) := Get(p, thread, fcb, need);
    forall g | g in grants ensures Named(q, g) {
      GetNamed(p, thread, fcb, need, g);
    }
  }

  /** A grant of a buffer means that the buffer is in use. */
  lemma GrantedInUse(p: Pool, grants: seq<Grant>, g: Grant)
    requires Good(p, grants) && g in grants
    ensures match g.buffer case One => p.in1 case Two => p.in2 case Three => p.in3
    ensures Named(p, g)
  {
  }

  /** The grants that are left when one is given back. */
  lemma FreeKeeps(p: Pool, grants: seq<Grant>, k: nat)
    requires Good(p, grants) && k < |grants|
    ensures Good(Free(p, grants[k].buffer), Without(grants, k))
  {
    var rest, q := Without(grants, k), Free(p, grants[k].buffer);
    GrantedInUse(p, grants, grants[k]);
    CountWithout(grants, k, One);
    CountWithout(grants, k, Two);
    CountWithout(grants, k, Three);
    forall g | g in rest ensures Named(q, g) {
      assert Named(p, g) && Count(rest, g.buffer) != 0;
    }
  }

  // ---------- who is granted what ----------

  ghost predicate InUse(grants: seq<Grant>, b: Buffer) {
    exists g :: g in grants && g.buffer == b
  }

  /** Another thread has buffer 3 for the file. */
  ghost predicate HeldElsewhere(grants: seq<Grant>, thread: nat, fcb: nat) {
    exists g :: g in grants && g.buffer == Three && g.fcb == fcb && g.thread != thread
  }

  /** The answer to a request when no thread owns two buffers, from the outstanding grants: any of the three that is
      not in use, buffer 3 first and buffer 1 last; or the first buffer of two, when neither of the two is in
      use and no other thread is on the file. */
  ghost predicate AnswersWithoutOwner(grants: seq<Grant>, thread: nat, fcb: nat, need: Need, b: Option<Buffer>) {
    match need
    case Single =>
      && (b.None? <==> InUse(grants, One) && InUse(grants, Two) && InUse(grants, Three))
      && (b == Some(Three) <==> !InUse(grants, Three))
      && (b == Some(Two) <==> InUse(grants, Three) && !InUse(grants, Two))
    case FirstOfTwo =>
      && (b.Some? <==> !InUse(grants, One) && !InUse(grants, Two) && !HeldElsewhere(grants, thread, fcb))
      && (b.Some? ==> b.value == One)
    case SecondOfTwo =>
      && (b.Some? <==> !InUse(grants, One) && !InUse(grants, Two) && !HeldElsewhere(grants, thread, fcb))
      && (b.Some? ==> b.value == Two)
  }

  /** The answer to the owner: buffer 2 as often as it likes, but for the first of two, which is buffer 1 or
      else 3. */
  ghost predicate AnswersOwner(grants: seq<Grant>, need: Need, b: Option<Buffer>) {
    if need != FirstOfTwo then b == Some(Two)
    else
      && (b == Some(One) <==> !InUse(grants, One))
      && (b == Some(Three) <==> InUse(grants, One) && !InUse(grants, Three))
      && (b.None? <==> InUse(grants, One) && InUse(grants, Three))
  }

  /** The answer to any other thread: buffer 3 for a file that is not the owner's last, or nothing. */
  ghost predicate AnswersOther(grants: seq<Grant>, held: nat, fcb: nat, need: Need, b: Option<Buffer>) {
    && (b.Some? <==> need == Single && !InUse(grants, Three) && fcb != held)
    && (b.Some? ==> b.value == Three)
  }

  ghost predicate Answers(owner: nat, held: nat, grants: seq<Grant>, thread: nat, fcb: nat, need: Need,
                          b: Option<Buffer>) {
    if owner == NULL then AnswersWithoutOwner(grants, thread, fcb, need, b)
    else if owner == thread then AnswersOwner(grants, need, b)
    else AnswersOther(grants, held, fcb, need, b)
  }

  lemma UseIsCounted(p: Pool, grants: seq<Grant>)
    requires Good(p, grants)
    ensures (InUse(grants, One) <==> p.in1) && (InUse(grants, Two) <==> p.in2) && (InUse(grants, Three) <==> p.in3)
  {
    if p.in1 { InUseGranted(grants, One); }
    if p.in2 { InUseGranted(grants, Two); }
    if p.in3 { InUseGranted(grants, Three); }
  }

  lemma HoldingIsNamed(p: Pool, grants: seq<Grant>, thread: nat, fcb: nat)
    requires Good(p, grants) && fcb != NULL
    ensures HeldElsewhere(grants, thread, fcb) <==> p.fcb3 == fcb && p.thread3 != thread
  {
    if p.fcb3 == fcb && p.thread3 != thread {
      InUseGranted(grants, Three);
    }
    if g :| g in grants && g.buffer == Three && g.fcb == fcb && g.thread != thread {
      GrantedInUse(p, grants, g);
    }
  }

  /** What a request is answered, from the outstanding grants, and who owns two buffers then. */
  lemma GetAnswers(p: Pool, grants: seq<Grant>, thread: nat, fcb: nat, need: Need)
    requires Good(p, grants) && thread != NULL && fcb != NULL
    ensures var (q, b) := Get(p, thread, fcb, need);
            && Answers(p.owner, p.fcb12, grants, thread, fcb, need, b)
            && q.owner == (if need != Single && b.Some? then thread else p.owner)
            && q.fcb12 == if need != Single && q.owner == thread then fcb else p.fcb12
  {
    UseIsCounted(p, grants);
    HoldingIsNamed(p, grants, thread, fcb);
    hide InUse, HeldElsewhere, Count;
  }

  /** An owner owns until its last buffer of 1 and 2 is given back. */
  lemma FreeOwner(p: Pool, grants: seq<Grant>, k: nat)
    requires Good(p, grants) && k < |grants|
    ensures var q, rest := Free(p, grants[k].buffer), Without(grants, k);
            var goesOn := InUse(rest, One) || InUse(rest, Two);
            q.owner == (if goesOn then p.owner else NULL) && q.fcb12 == if goesOn then p.fcb12 else NULL
  {
    FreeKeeps(p, grants, k);
    GrantedInUse(p, grants, grants[k]);
    UseIsCounted(Free(p, grants[k].buffer), Without(grants, k));
    hide InUse, Count;
  }

  // ---------- runs ----------

  /** A call by a thread. */
  datatype Call = GetCall(thread: nat, fcb: nat, need: Need) | FreeCall(k: nat)

  datatype World = World(pool: Pool, grants: seq<Grant>)

  const START := World(IDLE, [])

  /** A thread asks with real addresses, and only what was granted is freed. */
  predicate Legal(w: World, c: Call) {
    match c
    case GetCall(t, f, _) => t != NULL && f != NULL
    case FreeCall(k) => k < |w.grants|
  }

  ghost function Step(w: World, c: Call): World
    requires Legal(w, c)
  {
    match c
    case GetCall(t, f, need) =>
      var (q, b) := Get(w.pool, t, f, need);
      World(q, Granted(w.grants, t, f, b))
    case FreeCall(k) => World(Free(w.pool, w.grants[k].buffer), Without(w.grants, k))
  }

  /** Any interleaving of legal calls, from the start. */
  ghost function Run(calls: seq<Call>): Option<World> {
    if calls == [] then Some(START)
    else
      match Run(calls[..|calls| - 1])
      case None => None
      case Some(w) => if Legal(w, calls[|calls| - 1]) then Some(Step(w, calls[|calls| - 1])) else None
  }

  /** In every reachable state: buffers 1 and 3 are granted at most once; the grants of buffer 2 are of
      one thread and as many as the count says; a two-buffer owner has a grant of 1 or 2, and all of
      them; and when nothing is granted the globals are as at the start. */
  ghost predicate Exclusive(w: World) {
    && Count(w.grants, One) <= 1 && Count(w.grants, Two) == w.pool.count2 && Count(w.grants, Three) <= 1
    && (forall x, y | x in w.grants && y in w.grants && x.buffer == y.buffer :: x.thread == y.thread)
    && (w.pool.owner != NULL ==>
          && (exists x :: x in w.grants && x.buffer != Three)
          && forall x | x in w.grants && x.buffer != Three :: x.thread == w.pool.owner)
    && (w.grants == [] ==> w.pool == IDLE)
  }

  /** One step keeps the accounts. */
  lemma StepKeeps(w: World, c: Call)
    requires Good(w.pool, w.grants) && Legal(w, c)
    ensures Good(Step(w, c).pool, Step(w, c).grants)
  {
    hide Good, Get, Free;
    match c {
      case GetCall(t, f, need) => GetKeeps(w.pool, w.grants, t, f, need);
      case FreeCall(k) => FreeKeeps(w.pool, w.grants, k);
    }
  }

  lemma StartIsGood()
    ensures Good(START.pool, START.grants)
  {
  }

  lemma {:induction false} RunsAreGood(calls: seq<Call>)
    requires Run(calls).Some?
    ensures Good(Run(calls).value.pool, Run(calls).value.grants)
  {
    hide Good, Step;
    if calls == [] {
      StartIsGood();
    } else {
      RunsAreGood(calls[..|calls| - 1]);
      StepKeeps(Run(calls[..|calls| - 1]).value, calls[|calls| - 1]);
    }
  }

  lemma GoodIsExclusive(w: World)
    requires Good(w.pool, w.grants)
    ensures Exclusive(w)
  {
    forall x, y | x in w.grants && y in w.grants && x.buffer == y.buffer ensures x.thread == y.thread {
      assert Named(w.pool, x) && Named(w.pool, y);
    }
    forall x | x in w.grants ensures w.pool.owner != NULL && x.buffer != Three ==> x.thread == w.pool.owner {
      GrantedInUse(w.pool, w.grants, x);
    }
  }

  lemma RunsAreExclusive(calls: seq<Call>)
    requires Run(calls).Some?
    ensures Exclusive(Run(calls).value)
  {
    RunsAreGood(calls);
    GoodIsExclusive(Run(calls).value);
  }

  // ---------- files ----------

  /** No other thread has a buffer for a file that the two-buffer owner has a buffer for. */
  ghost predicate Separate(w: World) {
    w.pool.owner != NULL ==>
      forall g, h | g in w.grants && h in w.grants && g.thread == w.pool.owner &&
          h.thread != w.pool.owner :: g.fcb != h.fcb
  }

  /** The owner gets one more buffer, for the file another thread has buffer 3 for: a thread that owns
      buffers is not asked about files. */
  predicate TurnsToHeldFile(w: World, thread: nat, fcb: nat, need: Need) {
    && w.pool.owner == thread && w.pool.in3 && w.pool.thread3 != thread && w.pool.fcb3 == fcb
    && !(need == FirstOfTwo && w.pool.in1)
  }

  /** Another thread gets buffer 3 for a file the owner has a buffer for, but which was not the last one the
      owner asked with. */
  ghost predicate AdmitsHeldFile(w: World, thread: nat, fcb: nat, need: Need) {
    && need == Single && w.pool.owner != NULL && w.pool.owner != thread && !w.pool.in3 && fcb != w.pool.fcb12
    && exists g :: g in w.grants && g.thread == w.pool.owner && g.fcb == fcb
  }

  /** The calls after which another thread may be on the owner's file. */
  ghost predicate Mixes(w: World, c: Call) {
    c.GetCall? && (TurnsToHeldFile(w, c.thread, c.fcb, c.need) || AdmitsHeldFile(w, c.thread, c.fcb, c.need))
  }

  /** The threads that have buffers beside the owner have buffer 3. */
  lemma OthersHaveThree(w: World, g: Grant)
    requires Good(w.pool, w.grants) && g in w.grants && w.pool.owner != NULL
    ensures g.thread != w.pool.owner ==>
              g.buffer == Three && w.pool.in3 && g.thread == w.pool.thread3 && g.fcb == w.pool.fcb3
  {
    GrantedInUse(w.pool, w.grants, g);
  }

  /** A buffer in use is granted. */
  lemma {:induction false} InUseGranted(grants: seq<Grant>, b: Buffer)
    requires Count(grants, b) != 0
    ensures exists g :: g in grants && g.buffer == b
  {
  }

  /** The owner gets one more buffer. */
  lemma OwnerTakes(w: World, q: Pool, g: Grant)
    requires Good(w.pool, w.grants) && Separate(w) && w.pool.owner == g.thread == q.owner != NULL
    ensures Separate(World(q, w.grants + [g])) <==> !(w.pool.in3 && w.pool.thread3 != g.thread && w.pool.fcb3 == g.fcb)
  {
    var u := World(q, w.grants + [g]);
    forall h | h in w.grants && h.thread != g.thread
      ensures h.buffer == Three && w.pool.in3 && h.thread == w.pool.thread3 && h.fcb == w.pool.fcb3
    {
      OthersHaveThree(w, h);
    }
    if w.pool.in3 && w.pool.thread3 != g.thread && w.pool.fcb3 == g.fcb {
      InUseGranted(w.grants, Three);
      var h :| h in w.grants && h.buffer == Three;
      GrantedInUse(w.pool, w.grants, h);
      assert g in u.grants && h in u.grants;
    }
  }

  /** Another thread gets buffer 3. */
  lemma OtherTakes(w: World, q: Pool, g: Grant)
    requires Good(w.pool, w.grants) && Separate(w) && w.pool.owner == q.owner != NULL && g.thread != q.owner &&
               !w.pool.in3
    ensures Separate(World(q, w.grants + [g])) <==> !exists h :: h in w.grants && h.thread == q.owner && h.fcb == g.fcb
  {
    var u := World(q, w.grants + [g]);
    forall h | h in w.grants ensures h.thread == q.owner {
      OthersHaveThree(w, h);
    }
    if h :| h in w.grants && h.thread == q.owner && h.fcb == g.fcb {
      assert g in u.grants && h in u.grants;
    }
  }

  /** A thread becomes the owner. */
  lemma NewOwner(w: World, q: Pool, g: Grant)
    requires Good(w.pool, w.grants) && !w.pool.in1 && !w.pool.in2 && q.owner == g.thread
    requires w.pool.fcb3 != g.fcb || w.pool.thread3 == g.thread
    ensures Separate(World(q, w.grants + [g]))
  {
    forall h | h in w.grants ensures h.thread == w.pool.thread3 && h.fcb == w.pool.fcb3 {
      GrantedInUse(w.pool, w.grants, h);
    }
  }

  /** What a request does to the owner. */
  lemma GetOwner(p: Pool, thread: nat, fcb: nat, need: Need)
    requires Owned(p) && thread != NULL
    ensures var (q, b) := Get(p, thread, fcb, need);
            && (p.owner == thread ==>
                  q.owner == thread && (b.None? <==> need == FirstOfTwo && p.in1 && p.in3))
            && (p.owner == NULL && need != Single && b.Some? ==>
                  q.owner == thread && !p.in1 && !p.in2 && (p.fcb3 != fcb || p.thread3 == thread))
            && (p.owner == NULL && (need == Single || b.None?) ==> q.owner == NULL)
            && (p.owner != NULL && p.owner != thread ==>
                  q.owner == p.owner && (b.Some? <==> need == Single && !p.in3 && fcb != p.fcb12))
  {
  }

  /** A request keeps other threads off the owner's files if and only if neither does the owner turn to the
      file of buffer 3, nor is buffer 3 given out for a file the owner still holds. */
  lemma GetSeparates(w: World, thread: nat, fcb: nat, need: Need)
    requires Good(w.pool, w.grants) && Separate(w) && thread != NULL && fcb != NULL
    ensures Separate(Step(w, GetCall(thread, fcb, need))) <==> !Mixes(w, GetCall(thread, fcb, need))
  {
    var (q, b) := Get(w.pool, thread, fcb, need);
    GetOwner(w.pool, thread, fcb, need);
    hide Get, Good;
    if b.Some? {
      var g := Grant(thread, b.value, fcb);
      if w.pool.owner == thread {
        OwnerTakes(w, q, g);
      } else if w.pool.owner != NULL {
        OtherTakes(w, q, g);
      } else if need != Single {
        NewOwner(w, q, g);
      }
    }
  }

  /** Giving a buffer back never mixes files. */
  lemma FreeSeparates(w: World, k: nat)
    requires Separate(w) && k < |w.grants|
    ensures Separate(Step(w, FreeCall(k)))
  {
    forall g | g in Without(w.grants, k) ensures g in w.grants {
    }
  }

  /** Over every run: at no time is another thread on a file of the owner, if and only if no call of the run
      is one of the two that mix files. */
  lemma {:induction false} RunsSeparate(calls: seq<Call>)
    requires Run(calls).Some?
    ensures AlwaysSeparate(calls) <==> NeverMixes(calls)
  {
    if calls != [] {
      var before, last := calls[..|calls| - 1], calls[|calls| - 1];
      RunsSeparate(before);
      if AlwaysSeparate(before) {
        RunsAreGood(before);
        SeparateNow(before);
        var w := Run(before).value;
        match last {
          case GetCall(t, f, need) => GetSeparates(w, t, f, need);
          case FreeCall(k) => FreeSeparates(w, k);
        }
      }
    }
  }

  /** Files are separate after every call of the run. */
  ghost predicate AlwaysSeparate(calls: seq<Call>)
    requires Run(calls).Some?
  {
    Separate(Run(calls).value) && (calls != [] ==> AlwaysSeparate(calls[..|calls| - 1]))
  }

  /** No call of the run mixes files in the state it is made in. */
  ghost predicate NeverMixes(calls: seq<Call>)
    requires Run(calls).Some?
  {
    calls != [] ==>
      NeverMixes(calls[..|calls| - 1]) && !Mixes(Run(calls[..|calls| - 1]).value, calls[|calls| - 1])
  }

  lemma SeparateNow(calls: seq<Call>)
    requires Run(calls).Some? && AlwaysSeparate(calls)
    ensures Separate(Run(calls).value)
  {
  }

  /** One more call. */
  lemma RunSnoc(calls: seq<Call>, c: Call)
    requires Run(calls).Some? && Legal(Run(calls).value, c)
    ensures Run(calls + [c]) == Some(Step(Run(calls).value, c))
  {
    assert (calls + [c])[..|calls + [c]| - 1] == calls;
  }

  /** Thread 1 takes two buffers for file 10, thread 2 gets buffer 3 for file 20, and thread 1 goes on with
      file 20. */
  lemma OwnerTurnsToHeldFile()
    ensures var calls := [GetCall(1, 10, FirstOfTwo), GetCall(2, 20, Single), GetCall(1, 20, SecondOfTwo)];
            Run(calls).Some? && !Separate(Run(calls).value)
  {
    var a, b, c := GetCall(1, 10, FirstOfTwo), GetCall(2, 20, Single), GetCall(1, 20, SecondOfTwo);
    var w := ThreeCalls(a, b, c);
    assert w.grants == [Grant(1, One, 10), Grant(2, Three, 20), Grant(1, Two, 20)];
    assert w.grants[2] in w.grants && w.grants[1] in w.grants;
  }

  /** Thread 1 takes buffer 1 for file 10 and buffer 2 for file 30, and thread 2 gets buffer 3 for file 10. */
  lemma HeldFileIsAdmitted()
    ensures var calls := [GetCall(1, 10, FirstOfTwo), GetCall(1, 30, SecondOfTwo), GetCall(2, 10, Single)];
            Run(calls).Some? && !Separate(Run(calls).value)
  {
    var a, b, c := GetCall(1, 10, FirstOfTwo), GetCall(1, 30, SecondOfTwo), GetCall(2, 10, Single);
    var w := ThreeCalls(a, b, c);
    assert w.grants == [Grant(1, One, 10), Grant(1, Two, 30), Grant(2, Three, 10)];
    assert w.grants[0] in w.grants && w.grants[2] in w.grants;
  }

  lemma ThreeCalls(a: Call, b: Call, c: Call) returns (w: World)
    requires a.GetCall? && b.GetCall? && c.GetCall? && Legal(START, a) && Legal(START, b) && Legal(START, c)
    ensures w == Step(Step(Step(START, a), b), c) && Run([a, b, c]) == Some(w)
  {
    hide Get;
    assert [] + [a] == [a] && [a] + [b] == [a, b] && [a, b] + [c] == [a, b, c];
    RunSnoc([], a);
    RunSnoc([a], b);
    RunSnoc([a, b], c);
    w := Step(Step(Step(START, a), b), c);
  }

  // ---------- the globals and the two routines ----------

  class Arbiter {
    var in1: bool
    var in2: bool
    var in3: bool
    var count2: int
    var thread1: nat
    var thread2: nat
    var thread3: nat
    var fcb12: nat
    var fcb3: nat
    var owner: nat
    ghost var grants: seq<Grant>

    ghost function Now(): Pool
      reads this
    {
      Pool(in1, in2, in3, count2, thread1, thread2, thread3, fcb12, fcb3, owner)
    }

    ghost predicate Valid()
      reads this
    {
      Good(Now(), grants)
    }

    constructor ()
      ensures Valid() && grants == [] && Now() == IDLE
    {
      in1, in2, in3, count2, thread1, thread2, thread3 := false, false, false, 0, NULL, NULL, NULL;
      fcb12, fcb3, owner, grants := NULL, NULL, NULL, [];
    }

    method GrantOne(thread: nat) returns (buffer: Option<Buffer>)
      modifies this`in1, this`thread1
      ensures Now() == TakeOne(old(Now()), thread) && buffer == Some(One)
    {
      thread1, in1, buffer := thread, true, Some(One);
    }

    method GrantTwo(thread: nat) returns (buffer: Option<Buffer>)
      modifies this`in2, this`thread2, this`count2
      ensures Now() == TakeTwo(old(Now()), thread) && buffer == Some(Two)
    {
      thread2, in2, count2, buffer := thread, true, count2 + 1, Some(Two);
    }

    method GrantThree(thread: nat, fcb: nat) returns (buffer: Option<Buffer>)
      modifies this`in3, this`thread3, this`fcb3
      ensures Now() == TakeThree(old(Now()), thread, fcb) && buffer == Some(Three)
    {
      fcb3, thread3, in3, buffer := fcb, thread, true, Some(Three);
    }

    /** NtfsGetReservedBuffer. */
    method GetReservedBuffer(thread: nat, fcb: nat, need: Need) returns (buffer: Option<Buffer>)
      requires Valid() && thread != NULL && fcb != NULL
      modifies this
      ensures Valid() && grants == Granted(old(grants), thread, fcb, buffer)
      ensures (Now(), buffer) == Get(old(Now()), thread, fcb, need)
      ensures Answers(old(owner), old(fcb12), old(grants), thread, fcb, need, buffer)
      ensures owner == if need != Single && buffer.Some? then thread else old(owner)
      ensures fcb12 == if need != Single && owner == thread then fcb else old(fcb12)
    {
      hide Good, Granted, Answers, TakeOne, TakeTwo, TakeThree;
      GetKeeps(Now(), grants, thread, fcb, need);
      GetAnswers(Now(), grants, thread, fcb, need);
      buffer := None;
      if need != Single {
        if owner == thread || (!in1 && !in2 && (fcb3 != fcb || thread3 == thread)) {
          owner, fcb12 := thread, fcb;
          if need == FirstOfTwo {
            if !in1 {
              buffer := GrantOne(thread);
            } else if !in3 {
              buffer := GrantThree(thread, fcb);
            }
          } else {
            buffer := GrantTwo(thread);
          }
        }
      } else if owner == thread {
        buffer := GrantTwo(thread);
      } else if !in3 {
        if fcb != fcb12 {
          buffer := GrantThree(thread, fcb);
        }
      } else if owner == NULL {
        if !in2 {
          buffer := GrantTwo(thread);
        } else if !in1 {
          buffer := GrantOne(thread);
        }
      }
      grants := Granted(grants, thread, fcb, buffer);
    }

    method Release(buffer: Buffer)
      modifies this`in1, this`in2, this`in3, this`count2, this`thread1, this`thread2, this`thread3, this`fcb12,
          this`fcb3, this`owner
      ensures Now() == Free(old(Now()), buffer)
    {
      match buffer {
        case One =>
          in1, thread1 := false, NULL;
          if !in2 {
            owner, fcb12 := NULL, NULL;
          }
        case Two =>
          count2 := count2 - 1;
          if count2 == 0 {
            in2, thread2 := false, NULL;
            if !in1 {
              owner, fcb12 := NULL, NULL;
            }
          }
        case Three =>
          in3, thread3, fcb3 := false, NULL, NULL;
      }
    }

    /** NtfsFreeReservedBuffer: a buffer that is none of the three is not freed here; of the three, only what
        was granted is given back. */
    method FreeReservedBuffer(buffer: Option<Buffer>, ghost k: nat) returns (deallocated: bool)
      requires Valid() && (buffer.Some? ==> k < |grants| && grants[k].buffer == buffer.value)
      modifies this
      ensures Valid() && (deallocated <==> buffer.Some?)
      ensures if buffer.Some? then grants == Without(old(grants), k) && Now() == Free(old(Now()), buffer.value)
              else grants == old(grants) && Now() == old(Now())
      ensures buffer.Some? ==>
                var goesOn := InUse(grants, One) || InUse(grants, Two);
                owner == (if goesOn then old(owner) else NULL) && fcb12 == if goesOn then old(fcb12) else NULL
    {
      hide Good, Free, InUse;
      deallocated := buffer.Some?;
      if buffer.Some? {
        FreeOwner(Now(), grants, k);
        FreeKeeps(Now(), grants, k);
        Release(buffer.value);
        grants := Without(grants, k);
      }
    }
  }
}
