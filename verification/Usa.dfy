/**
 * Update sequence arrays: how structures of several sectors are protected against torn writes.
 * A buffer is a sequence of 16-bit words, 256 to a sector; a structure has `n` sectors.
 */
module Usa {
  const STRIDE: nat := 256

  type Word = x: int | 0 <= x < 0x1_0000

  // ---------- the header ----------

  /** The two words of a signature: `BAAD`, `HOLE`. */
  const BAAD: (Word, Word) := (0x4142, 0x4441)
  const HOLE: (Word, Word) := (0x4f48, 0x454c)
  const MAXULONG: (Word, Word) := (0xffff, 0xffff)
  const NONE: (Word, Word) := (0, 0)

  predicate IsStructure(s: seq<Word>, n: nat) { 1 <= n < 0x1_0000 && |s| == STRIDE * n }

  function Signature(s: seq<Word>): (Word, Word)
    requires STRIDE <= |s|
  {
    (s[0], s[1])
  }

  /** The array's position in words, once its byte offset is known to be even. */
  function Position(s: seq<Word>): nat
    requires STRIDE <= |s|
  {
    s[2] / 2
  }

  function Smash(s: seq<Word>, signature: (Word, Word)): seq<Word>
    requires STRIDE <= |s|
  {
    s[0 := signature.0][1 := signature.1]
  }

  /** The last word of a sector. */
  function Last(k: int): int { STRIDE * k + STRIDE - 1 }

  // ---------- transform ----------

  /** What the transform asks of a structure before it touches it. */
  predicate Protects(s: seq<Word>, n: nat)
    requires IsStructure(s, n)
  {
    && Signature(s) != BAAD && Signature(s) != HOLE && Signature(s) != MAXULONG
    && s[2] % 2 == 0 && s[2] < 2 * STRIDE * n - n - n
  }

  /** How often a sequence number is incremented: 0 and 0xffff are skipped. */
  function Steps(x: Word): nat { if x == 0xfffe then 3 else if x == 0xffff then 2 else 1 }

  function Plus(x: Word, d: nat): Word { (x + d) % 0x1_0000 }

  function Bump(x: Word): (y: Word)
    ensures y != 0 && y != 0xffff && y != x
  {
    Plus(x, Steps(x))
  }

  /** Move the protected words of the sectors from `k` on into the array. */
  function Save(s: seq<Word>, o: nat, k: nat, n: nat): (t: seq<Word>)
    requires IsStructure(s, n) && o + n < STRIDE * n && k <= n
    ensures |t| == |s|
    decreases n - k
  {
    if k == n then s
    else
      var s1 := s[o + 1 + k := s[Last(k)]];
      Save(s1[Last(k) := s1[o]], o, k + 1, n)
  }

  function Transform(s: seq<Word>, n: nat): (t: seq<Word>)
    requires IsStructure(s, n)
    ensures |t| == |s|
  {
    if Protects(s, n) then Save(s[Position(s) := Bump(s[Position(s)])], Position(s), 0, n) else s
  }

  /** Incrementing the 16-bit number that straddles the words `i` and `i + 1`. */
  function PlusBetween(s: seq<Word>, i: nat): (t: seq<Word>)
    requires i + 1 < |s|
    ensures |t| == |s|
  {
    var x := Plus(s[i] / 256 + s[i + 1] % 256 * 256, 1);
    s[i := s[i] % 256 + x % 256 * 256][i + 1 := s[i + 1] / 256 * 256 + x / 256]
  }

  /** The original buffer's copy of the structure: only its sequence number moves on.  It is found by the
      offset in the copy, which has just been incremented itself if the array stands on it. */
  function Advance(sys: seq<Word>, s: seq<Word>, n: nat): (t: seq<Word>)
    requires IsStructure(s, n) && |sys| == |s|
    ensures |t| == |s|
  {
    var o := Position(s);
    if !Protects(s, n) then sys
    else if o == 2 then PlusBetween(sys, 2)
    else sys[o := Plus(sys[o], Steps(s[o]))]
  }

  // ---------- verify and revert ----------

  /** What the check asks of a structure before it looks at its sectors. */
  predicate Checks(s: seq<Word>, n: nat)
    requires IsStructure(s, n)
  {
    (s[3] as int - 1) % 0x1_0000 == n && s[2] % 2 == 0 && s[2] < 2 * STRIDE * n - 2 * (n + 1)
  }

  datatype Reverted = Reverted(s: seq<Word>, ok: bool)

  /** Put the saved words back, up to the first sector that does not carry the sequence number. */
  function Restore(s: seq<Word>, o: nat, k: nat, n: nat): (r: Reverted)
    requires IsStructure(s, n) && o + n < STRIDE * n && k <= n
    ensures |r.s| == |s|
    decreases n - k
  {
    if k == n then Reverted(s, true)
    else if s[Last(k)] != s[o] then Reverted(Smash(s, BAAD), false)
    else Restore(s[Last(k) := s[o + 1 + k]], o, k + 1, n)
  }

  /** One structure; `hole` says that its clusters are not allocated. */
  function Revert(s: seq<Word>, n: nat, hole: bool): (r: Reverted)
    requires IsStructure(s, n)
    ensures |r.s| == |s|
  {
    if Signature(s) == MAXULONG || Signature(s) == NONE then Reverted(s, true)
    else if Checks(s, n) then Restore(s, Position(s), 0, n)
    else if hole then Reverted(Smash(s, HOLE), true)
    else Reverted(Smash(s, BAAD), false)
  }

  // ---------- a structure as its owner lays it out ----------

  /** The array stands in the first sector, behind the header and before the protected word. */
  predicate Placed(s: seq<Word>, n: nat)
    requires IsStructure(s, n)
  {
    s[2] % 2 == 0 && 4 <= Position(s) && Position(s) + n < STRIDE - 1
  }

  /** A signature that is in use, and an array of the right size. */
  predicate Proper(s: seq<Word>, n: nat)
    requires IsStructure(s, n)
  {
    Placed(s, n) && s[3] == n + 1 && Signature(s) !in {BAAD, HOLE, MAXULONG, NONE}
  }

  predicate InArray(s: seq<Word>, n: nat, i: int)
    requires IsStructure(s, n)
  {
    Position(s) <= i <= Position(s) + n
  }

  predicate IsProtected(i: nat) { i % STRIDE == STRIDE - 1 }

  lemma LastOf(i: nat, n: nat)
    requires IsProtected(i) && i < STRIDE * n
    ensures i / STRIDE < n && i == Last(i / STRIDE)
  {
  }

  lemma {:induction false} SaveAt(s: seq<Word>, o: nat, k: nat, n: nat, i: nat)
    requires IsStructure(s, n) && o + n < STRIDE - 1 && k <= n && i < |s|
    ensures Save(s, o, k, n)[i] ==
            if IsProtected(i) && k <= i / STRIDE then s[o]
            else if o + 1 + k <= i <= o + n then s[Last(i - o - 1)] else s[i]
    decreases n - k
  {
    if k < n {
      var s1 := s[o + 1 + k := s[Last(k)]];
      var s2 := s1[Last(k) := s1[o]];
      SaveAt(s2, o, k + 1, n, i);
      if IsProtected(i) {
        LastOf(i, n);
      }
    }
  }

  /** The sectors from `k` on all carry the sequence number. */
  ghost predicate Whole(s: seq<Word>, o: nat, k: nat, n: nat)
    requires IsStructure(s, n) && o < |s|
  {
    forall j :: k <= j < n ==> s[Last(j)] == s[o]
  }

  /** Restoring succeeds just if every sector carries the sequence number. */
  lemma {:induction false} RestoreVerdict(s: seq<Word>, o: nat, k: nat, n: nat)
    requires IsStructure(s, n) && o + n < STRIDE - 1 && k <= n
    ensures Restore(s, o, k, n).ok <==> Whole(s, o, k, n)
    ensures !Restore(s, o, k, n).ok ==> Signature(Restore(s, o, k, n).s) == BAAD
    decreases n - k
  {
    if k < n && s[Last(k)] == s[o] {
      var s1 := s[Last(k) := s[o + 1 + k]];
      RestoreVerdict(s1, o, k + 1, n);
      assert forall j :: k + 1 <= j < n ==> s1[Last(j)] == s[Last(j)];
    }
  }

  lemma {:induction false} RestoreAt(s: seq<Word>, o: nat, k: nat, n: nat, i: nat)
    requires IsStructure(s, n) && o + n < STRIDE - 1 && k <= n && i < |s| && Whole(s, o, k, n)
    ensures Restore(s, o, k, n).s[i] == if IsProtected(i) && k <= i / STRIDE < n then s[o + 1 + i / STRIDE] else s[i]
    decreases n - k
  {
    if k < n {
      var s1 := s[Last(k) := s[o + 1 + k]];
      assert forall j :: k + 1 <= j < n ==> s1[Last(j)] == s[Last(j)];
      RestoreAt(s1, o, k + 1, n, i);
      if IsProtected(i) {
        LastOf(i, n);
      }
    }
  }

  // ---------- one structure ----------

  /** What is written to disk, word for word. */
  lemma TransformAt(s: seq<Word>, n: nat, i: nat)
    requires IsStructure(s, n) && Placed(s, n) && Protects(s, n) && i < |s|
    ensures Transform(s, n)[i] ==
            if IsProtected(i) || i == Position(s) then Bump(s[Position(s)])
            else if InArray(s, n, i) then s[Last(i - Position(s) - 1)] else s[i]
  {
    var o := Position(s);
    SaveAt(s[o := Bump(s[o])], o, 0, n, i);
  }

  /** The written structure keeps its header and carries one number in all its sectors. */
  lemma TransformHeader(s: seq<Word>, n: nat)
    requires IsStructure(s, n) && Proper(s, n)
    ensures var t := Transform(s, n);
            && Proper(t, n) && Checks(t, n) && Position(t) == Position(s) && Signature(t) == Signature(s)
            && t[Position(s)] == Bump(s[Position(s)]) && Whole(t, Position(s), 0, n)
  {
    hide Transform;
    assert Protects(s, n);
    forall i | i in {0, 1, 2, 3, Position(s)}
      ensures Transform(s, n)[i] == if i == Position(s) then Bump(s[i]) else s[i]
    {
      TransformAt(s, n, i);
    }
    forall j | 0 <= j < n ensures Transform(s, n)[Last(j)] == Bump(s[Position(s)]) {
      TransformAt(s, n, Last(j));
    }
  }

  /** The same structure, up to its update sequence array. */
  ghost predicate SameContents(r: seq<Word>, s: seq<Word>, n: nat)
    requires IsStructure(s, n)
  {
    && |r| == |s| && (forall i | 0 <= i < |s| && !InArray(s, n, i) :: r[i] == s[i])
    && Position(s) < |s| && r[Position(s)] == Bump(s[Position(s)])
    && forall k | 0 <= k < n && Position(s) + 1 + k < |s| :: r[Position(s) + 1 + k] == s[Last(k)]
  }

  lemma RoundTripAt(s: seq<Word>, n: nat, i: nat)
    requires IsStructure(s, n) && Proper(s, n) && i < |s| && Whole(Transform(s, n), Position(s), 0, n)
    ensures Restore(Transform(s, n), Position(s), 0, n).s[i] ==
            if i == Position(s) then Bump(s[i]) else if InArray(s, n, i) then s[Last(i - Position(s) - 1)] else s[i]
  {
    hide Transform, Restore;
    var o := Position(s);
    RestoreAt(Transform(s, n), o, 0, n, i);
    TransformAt(s, n, i);
    if IsProtected(i) {
      LastOf(i, n);
      TransformAt(s, n, o + 1 + i / STRIDE);
    }
  }

  /** What was written reverts to what was there, with its sequence number moved on. */
  lemma RoundTrip(s: seq<Word>, n: nat, hole: bool)
    requires IsStructure(s, n) && Proper(s, n)
    ensures Revert(Transform(s, n), n, hole).ok && SameContents(Revert(Transform(s, n), n, hole).s, s, n)
  {
    hide Transform, Restore;
    var t, o := Transform(s, n), Position(s);
    TransformHeader(s, n);
    RestoreVerdict(t, o, 0, n);
    var r := Restore(t, o, 0, n).s;
    forall i | 0 <= i < |s| && !InArray(s, n, i) ensures r[i] == s[i] {
      RoundTripAt(s, n, i);
    }
    RoundTripAt(s, n, o);
    forall k | 0 <= k < n ensures r[o + 1 + k] == s[Last(k)] {
      RoundTripAt(s, n, o + 1 + k);
    }
  }

  /** For a structure whose signature is in use and whose array is clear of the header and of the
      protected words, the round trip succeeds just if the array has the right size. */
  lemma RoundTripIff(s: seq<Word>, n: nat)
    requires IsStructure(s, n) && Placed(s, n) && Signature(s) !in {BAAD, HOLE, MAXULONG, NONE} && n < 0xffff
    ensures Revert(Transform(s, n), n, false).ok <==> s[3] == n + 1
  {
    hide Transform, Restore;
    if s[3] == n + 1 {
      RoundTrip(s, n, false);
    } else {
      forall i | i in {0, 1, 3} ensures Transform(s, n)[i] == s[i] {
        TransformAt(s, n, i);
      }
    }
  }

  // ---------- torn writes ----------

  /** A disk that holds, sector for sector, one of several images. */
  function Torn(images: seq<seq<Word>>, pick: seq<nat>, n: nat): (m: seq<Word>)
    requires |pick| == n && 1 <= n < 0x1_0000
    requires forall j | 0 <= j < n :: pick[j] < |images|
    requires forall j | 0 <= j < |images| :: |images[j]| == STRIDE * n
    ensures IsStructure(m, n)
  {
    seq(STRIDE * n, i requires 0 <= i < STRIDE * n => images[pick[i / STRIDE]][i])
  }

  /** Successive contents of one structure: each goes on from the number its predecessor was written with. */
  ghost predicate History(h: seq<seq<Word>>, n: nat) {
    && (forall j | 0 <= j < |h| :: IsStructure(h[j], n) && Proper(h[j], n))
    && forall j | 0 < j < |h| :: h[j][Position(h[j])] == Number(h[j - 1], n)
  }

  /** The number a structure is written with. */
  ghost function Number(s: seq<Word>, n: nat): Word
    requires IsStructure(s, n) && Placed(s, n)
  {
    Bump(s[Position(s)])
  }

  /** Numbers go round a cycle of 65534. */
  lemma BumpCycle(x: Word)
    requires x != 0 && x != 0xffff
    ensures Bump(x) - 1 == ((x as int - 1) + 1) % 0xfffe
  {
  }

  lemma NextInCycle(a: int, d: int)
    ensures ((a + d) % 0xfffe + 1) % 0xfffe == (a + (d + 1)) % 0xfffe
  {
  }

  lemma {:induction false} NumberAfter(h: seq<seq<Word>>, n: nat, i: nat, j: nat)
    requires History(h, n) && i <= j < |h|
    ensures Number(h[j], n) - 1 == (Number(h[i], n) as int - 1 + (j - i)) % 0xfffe
    decreases j
  {
    hide Bump;
    if i < j {
      NumberAfter(h, n, i, j - 1);
      BumpCycle(Number(h[j - 1], n));
      NextInCycle(Number(h[i], n) as int - 1, j - 1 - i);
    } else {
      assert 1 <= Number(h[i], n) < 0xffff;
    }
  }

  /** Images fewer than 65534 writes apart carry different numbers. */
  lemma NumbersDiffer(h: seq<seq<Word>>, n: nat, i: nat, j: nat)
    requires History(h, n) && i < |h| && j < |h| && i != j && |h| <= 0xfffe
    ensures Number(h[i], n) != Number(h[j], n)
  {
    NumberAfter(h, n, if i < j then i else j, if i < j then j else i);
  }

  function Written(h: seq<seq<Word>>, n: nat): (w: seq<seq<Word>>)
    requires forall j | 0 <= j < |h| :: IsStructure(h[j], n)
    ensures |w| == |h| && forall j | 0 <= j < |h| :: w[j] == Transform(h[j], n)
  {
    hide Transform;
    seq(|h|, j requires 0 <= j < |h| => Transform(h[j], n))
  }

  /** A torn structure takes its header from one image, and its sectors carry the numbers of theirs. */
  lemma TornHeader(h: seq<seq<Word>>, pick: seq<nat>, n: nat)
    requires History(h, n) && |pick| == n && 1 <= n < 0x1_0000 && forall j | 0 <= j < n :: pick[j] < |h|
    ensures var m, s := Torn(Written(h, n), pick, n), h[pick[0]];
            && Signature(m) == Signature(s) && Checks(m, n) && Position(m) == Position(s)
            && m[Position(s)] == Number(s, n)
            && forall j | 0 <= j < n :: m[Last(j)] == Number(h[pick[j]], n)
  {
    hide Transform;
    var m, s := Torn(Written(h, n), pick, n), h[pick[0]];
    TransformHeader(s, n);
    assert forall i | 0 <= i < STRIDE :: m[i] == Transform(s, n)[i];
    forall j | 0 <= j < n ensures m[Last(j)] == Number(h[pick[j]], n) {
      assert Last(j) / STRIDE == j;
      TransformHeader(h[pick[j]], n);
    }
  }

  /** Torn writes are atomic.  Whatever mixture of fewer than 65535 successive images the disk holds,
      checking it succeeds just if all its sectors are of one image, and then gives back the contents
      of that image; otherwise the structure is marked BAAD and reported. */
  lemma TornWrite(h: seq<seq<Word>>, pick: seq<nat>, n: nat, hole: bool)
    requires History(h, n) && |h| <= 0xfffe && |pick| == n && 1 <= n < 0x1_0000 &&
               forall j | 0 <= j < n :: pick[j] < |h|
    ensures var r := Revert(Torn(Written(h, n), pick, n), n, hole);
            && (r.ok <==> forall j | 0 <= j < n :: pick[j] == pick[0])
            && (r.ok ==> SameContents(r.s, h[pick[0]], n))
            && (!r.ok ==> Signature(r.s) == BAAD)
  {
    hide Transform, Restore, SameContents;
    var m, s := Torn(Written(h, n), pick, n), h[pick[0]];
    TornHeader(h, pick, n);
    RestoreVerdict(m, Position(s), 0, n);
    forall j | 0 <= j < n ensures m[Last(j)] == m[Position(s)] <==> pick[j] == pick[0] {
      if pick[j] != pick[0] {
        NumbersDiffer(h, n, pick[j], pick[0]);
      }
    }
    if forall j | 0 <= j < n :: pick[j] == pick[0] {
      assert m == Transform(s, n);
      RoundTrip(s, n, hole);
    }
  }

  // ---------- buffers of many structures ----------

  function TransformAll(b: seq<Word>, n: nat): (t: seq<Word>)
    requires 1 <= n < 0x1_0000
    ensures |t| == |b|
  {
    var size := STRIDE * n;
    if |b| < size then b else Transform(b[..size], n) + TransformAll(b[size..], n)
  }

  function AdvanceAll(sys: seq<Word>, b: seq<Word>, n: nat): (t: seq<Word>)
    requires 1 <= n < 0x1_0000 && |sys| == |b|
    ensures |t| == |sys|
    decreases |b|
  {
    var size := STRIDE * n;
    if |b| < size then sys else Advance(sys[..size], b[..size], n) + AdvanceAll(sys[size..], b[size..], n)
  }

  /** A buffer in whole sectors; `holes` answers for each structure whether it lies in a hole.  What is
      left at the end, if it is less than a structure, cannot be checked. */
  function RevertAll(b: seq<Word>, n: nat, holes: nat -> bool, j: nat): (r: Reverted)
    requires 1 <= n < 0x1_0000 && |b| % STRIDE == 0
    ensures |r.s| == |b|
    decreases |b|
  {
    var size := STRIDE * n;
    if b == [] then Reverted(b, true)
    else if |b| < size then
      if Signature(b) == MAXULONG || Signature(b) == NONE then Reverted(b, true)
      else if holes(j) then Reverted(Smash(b, HOLE), true) else Reverted(Smash(b, BAAD), false)
    else
      var first, rest := Revert(b[..size], n, holes(j)), RevertAll(b[size..], n, holes, j + 1);
      Reverted(first.s + rest.s, first.ok && rest.ok)
  }

  /** Whole structures, all of them proper. */
  ghost predicate AllProper(b: seq<Word>, n: nat)
    requires 1 <= n < 0x1_0000
  {
    b == [] || (STRIDE * n <= |b| && Proper(b[..STRIDE * n], n) && AllProper(b[STRIDE * n..], n))
  }

  ghost predicate AllSame(r: seq<Word>, b: seq<Word>, n: nat)
    requires 1 <= n < 0x1_0000
    decreases |b|
  {
    |r| == |b| && (b == [] || (STRIDE * n <= |b| && SameContents(r[..STRIDE * n], b[..STRIDE * n], n) &&
                               AllSame(r[STRIDE * n..], b[STRIDE * n..], n)))
  }

  /** The round trip over a buffer of many structures. */
  lemma {:induction false} RoundTripAll(b: seq<Word>, n: nat, holes: nat -> bool, j: nat)
    requires 1 <= n < 0x1_0000 && AllProper(b, n) && |b| % STRIDE == 0
    ensures RevertAll(TransformAll(b, n), n, holes, j).ok && AllSame(RevertAll(TransformAll(b, n), n, holes, j).s, b, n)
    decreases |b|
  {
    hide Transform, Revert, SameContents;
    if b != [] {
      var size := STRIDE * n;
      var t := TransformAll(b, n);
      assert t[..size] == Transform(b[..size], n) && t[size..] == TransformAll(b[size..], n);
      RoundTrip(b[..size], n, holes(j));
      RoundTripAll(b[size..], n, holes, j + 1);
      var first, rest := Revert(t[..size], n, holes(j)), RevertAll(t[size..], n, holes, j + 1);
      assert (first.s + rest.s)[..size] == first.s && (first.s + rest.s)[size..] == rest.s;
    }
  }

  /** The original buffer holds, structure by structure, the numbers that went out, if it agreed with the copy. */
  lemma {:induction false} LockStep(b: seq<Word>, n: nat)
    requires 1 <= n < 0x1_0000 && AllProper(b, n)
    ensures InStep(AdvanceAll(b, b, n), TransformAll(b, n), b, n)
    decreases |b|
  {
    hide Transform, Advance;
    if b != [] {
      var size := STRIDE * n;
      TransformHeader(b[..size], n);
      OneInStep(b[..size], n);
      LockStep(b[size..], n);
      var sys, t := AdvanceAll(b, b, n), TransformAll(b, n);
      assert sys[..size] == Advance(b[..size], b[..size], n) && sys[size..] == AdvanceAll(b[size..], b[size..], n);
      assert t[..size] == Transform(b[..size], n) && t[size..] == TransformAll(b[size..], n);
    }
  }

  /** The copy in memory is the old one but for the sequence number, which is the one on disk. */
  ghost predicate Follows(sys: seq<Word>, t: seq<Word>, s: seq<Word>, n: nat)
    requires IsStructure(s, n) && |t| == |s| && Proper(s, n)
  {
    sys == s[Position(s) := t[Position(s)]] && t[Position(s)] == Number(s, n)
  }

  lemma OneInStep(s: seq<Word>, n: nat)
    requires IsStructure(s, n) && Proper(s, n)
    ensures Follows(Advance(s, s, n), Transform(s, n), s, n)
  {
    TransformHeader(s, n);
  }

  ghost predicate InStep(sys: seq<Word>, t: seq<Word>, b: seq<Word>, n: nat)
    requires 1 <= n < 0x1_0000 && AllProper(b, n)
    decreases |b|
  {
    && |sys| == |t| == |b|
    && (b == [] ||
        (Follows(sys[..STRIDE * n], t[..STRIDE * n], b[..STRIDE * n], n) &&
         InStep(sys[STRIDE * n..], t[STRIDE * n..], b[STRIDE * n..], n)))
  }

  // ---------- what the routines do to each structure ----------

  /** The sectors from `k` up to that of word `i` carry the number. */
  ghost predicate AgreeTo(s: seq<Word>, o: nat, k: nat, i: nat)
    requires o < |s|
  {
    forall j | k <= j <= i / STRIDE && Last(j) < |s| :: s[Last(j)] == s[o]
  }

  /** A saved word is put back if its sector and those before it carry the number. */
  lemma {:induction false} RestoreTo(s: seq<Word>, o: nat, k: nat, n: nat, i: nat)
    requires IsStructure(s, n) && o + n < STRIDE - 1 && k <= n && 2 <= i < |s|
    ensures Restore(s, o, k, n).s[i] ==
              if IsProtected(i) && k <= i / STRIDE && AgreeTo(s, o, k, i) then s[o + 1 + i / STRIDE] else s[i]
    decreases n - k
  {
    if IsProtected(i) {
      LastOf(i, n);
    }
    if k < n && s[Last(k)] == s[o] {
      var s1 := s[Last(k) := s[o + 1 + k]];
      RestoreTo(s1, o, k + 1, n, i);
      assert forall j :: k + 1 <= j < n ==> s1[Last(j)] == s[Last(j)];
      assert AgreeTo(s, o, k, i) <==> AgreeTo(s1, o, k + 1, i);
    }
  }

  /** The header promises an array that the check can look at. */
  predicate HeaderFits(s: seq<Word>, n: nat)
    requires STRIDE <= |s|
  {
    |s| == 256 * n && (s[3] as int - 1) % 0x1_0000 == n && s[2] % 2 == 0 && s[2] < 512 * n - 2 * (n + 1)
  }

  /** The signature is zero or all ones: the structure was never written. */
  predicate NeverWritten(s: seq<Word>)
    requires STRIDE <= |s|
  {
    (s[0] == 0 && s[1] == 0) || (s[0] == 0xffff && s[1] == 0xffff)
  }

  /** Every sector carries the number at the head of the array; an array outside the first sector is checked
      sector by sector as it is put back. */
  ghost predicate SectorsAgree(s: seq<Word>, n: nat)
    requires IsStructure(s, n) && s[2] / 2 + n < STRIDE * n
  {
    var o := s[2] / 2;
    if o + n < 255 then forall k | 0 <= k < n :: s[Last(k)] == s[o] else Restore(s, o, 0, n).ok
  }

  /** When a structure, or what there is of one, passes the check: if it was never written, if its header fits
      and its sectors agree, or if its header does not fit and it lies in a hole. */
  ghost predicate Passes(s: seq<Word>, n: nat, hole: bool)
    requires STRIDE <= |s| && 1 <= n < 0x1_0000
  {
    if NeverWritten(s) then true
    else if HeaderFits(s, n) then SectorsAgree(s, n)
    else hole
  }

  /** Behind a marked header: the saved words are put back as far as the sectors agree. */
  ghost predicate PutBackSoFar(s: seq<Word>, r: seq<Word>, o: nat)
    requires STRIDE <= |s| == |r| && o + 1 + |s| / STRIDE <= |s|
  {
    forall i {:trigger r[i]} | 2 <= i < |s| ::
      r[i] == if IsProtected(i) && AgreeTo(s, o, 0, i) then s[o + 1 + i / STRIDE] else s[i]
  }

  /** What the check leaves of it: nothing changed if it was never written; the saved words put back if its
      sectors agree; otherwise the signature HOLE or BAAD. */
  ghost predicate Checked(s: seq<Word>, r: seq<Word>, n: nat, hole: bool)
    requires STRIDE <= |s| && 1 <= n < 0x1_0000
  {
    && |r| == |s|
    && if NeverWritten(s) then r == s
       else if HeaderFits(s, n) then
         var o := s[2] / 2;
         if !SectorsAgree(s, n) then r[0] == 0x4142 && r[1] == 0x4441 && (o + n < 255 ==> PutBackSoFar(s, r, o))
         else if o + n < 255 then
           forall i {:trigger r[i]} | 0 <= i < |s| :: r[i] == if IsProtected(i) then s[o + 1 + i / STRIDE] else s[i]
         else r == Restore(s, o, 0, n).s
       else r == if hole then s[0 := 0x4f48][1 := 0x454c] else s[0 := 0x4142][1 := 0x4441]
  }

  /** The first structure of a buffer, or all there is of one, and those behind it. */
  function First(b: seq<Word>, n: nat): (s: seq<Word>)
    requires 1 <= n && STRIDE <= |b|
    ensures STRIDE <= |s| <= |b|
  {
    if STRIDE * n <= |b| then b[..STRIDE * n] else b
  }

  function Behind(b: seq<Word>, n: nat): seq<Word>
    requires 1 <= n && STRIDE <= |b|
  {
    if STRIDE * n <= |b| then b[STRIDE * n..] else []
  }

  /** Every structure of a buffer passes. */
  ghost predicate AllPass(b: seq<Word>, n: nat, holes: nat -> bool, j: nat)
    requires 1 <= n < 0x1_0000 && |b| % STRIDE == 0
    decreases |b|
  {
    b == [] || (Passes(First(b, n), n, holes(j)) && AllPass(Behind(b, n), n, holes, j + 1))
  }

  /** Every structure of a buffer is left as the check leaves it, whatever becomes of the others. */
  ghost predicate EachChecked(b: seq<Word>, r: seq<Word>, n: nat, holes: nat -> bool, j: nat)
    requires 1 <= n < 0x1_0000 && |b| % STRIDE == 0
    decreases |b|
  {
    && |r| == |b|
    && (b == [] ||
        (Checked(First(b, n), First(r, n), n, holes(j)) && EachChecked(Behind(b, n), Behind(r, n), n, holes, j + 1)))
  }

  /** The first structure of what is left of a transfer. */
  function RevertFirst(b: seq<Word>, n: nat, hole: bool): Reverted
    requires 1 <= n < 0x1_0000 && STRIDE <= |b|
  {
    if STRIDE * n <= |b| then Revert(b[..STRIDE * n], n, hole)
    else if Signature(b) == MAXULONG || Signature(b) == NONE then Reverted(b, true)
    else if hole then Reverted(Smash(b, HOLE), true) else Reverted(Smash(b, BAAD), false)
  }

  /** What is left of the first structure, and whether it passes. */
  lemma RevertFirstMeans(b: seq<Word>, n: nat, hole: bool)
    requires 1 <= n < 0x1_0000 && STRIDE <= |b|
    ensures RevertFirst(b, n, hole).ok <==> Passes(First(b, n), n, hole)
    ensures Checked(First(b, n), RevertFirst(b, n, hole).s, n, hole)
  {
    hide Restore;
    var s := First(b, n);
    if !NeverWritten(s) && HeaderFits(s, n) {
      var o := s[2] / 2;
      var r := Restore(s, o, 0, n).s;
      assert RevertFirst(b, n, hole) == Restore(s, o, 0, n);
      if o + n < 255 {
        RestoreVerdict(s, o, 0, n);
        if SectorsAgree(s, n) {
          forall i {:trigger r[i]} | 0 <= i < |s|
            ensures r[i] == if IsProtected(i) then s[o + 1 + i / STRIDE] else s[i]
          {
            RestoreAt(s, o, 0, n, i);
            if IsProtected(i) {
              LastOf(i, n);
            }
          }
        } else {
          forall i {:trigger r[i]} | 2 <= i < |s|
            ensures r[i] == if IsProtected(i) && AgreeTo(s, o, 0, i) then s[o + 1 + i / STRIDE] else s[i]
          {
            RestoreTo(s, o, 0, n, i);
          }
        }
      } else {
        RestoreMarks(s, o, 0, n);
      }
    }
  }

  lemma {:induction false} RestoreMarks(s: seq<Word>, o: nat, k: nat, n: nat)
    requires IsStructure(s, n) && o + n < STRIDE * n && k <= n
    ensures !Restore(s, o, k, n).ok ==> Signature(Restore(s, o, k, n).s) == BAAD
    decreases n - k
  {
    if k < n && s[Last(k)] == s[o] {
      RestoreMarks(s[Last(k) := s[o + 1 + k]], o, k + 1, n);
    }
  }

  /** The check of a buffer: its verdict is that every structure passes, and it leaves each as stated. */
  lemma {:induction false} RevertAllMeans(b: seq<Word>, n: nat, holes: nat -> bool, j: nat)
    requires 1 <= n < 0x1_0000 && |b| % STRIDE == 0
    ensures RevertAll(b, n, holes, j).ok <==> AllPass(b, n, holes, j)
    ensures EachChecked(b, RevertAll(b, n, holes, j).s, n, holes, j)
    decreases |b|
  {
    hide Revert, Passes, Checked;
    if b != [] {
      RevertFirstMeans(b, n, holes(j));
      RevertAllMeans(Behind(b, n), n, holes, j + 1);
      RevertAllCons(b, n, holes, j);
    }
  }

  lemma RevertAllCons(b: seq<Word>, n: nat, holes: nat -> bool, j: nat)
    requires 1 <= n < 0x1_0000 && |b| % STRIDE == 0 && b != []
    ensures var all, first := RevertAll(b, n, holes, j), RevertFirst(b, n, holes(j));
            var more := RevertAll(Behind(b, n), n, holes, j + 1);
            && all.s == first.s + more.s && all.ok == (first.ok && more.ok) && |first.s| == |First(b, n)|
            && First(all.s, n) == first.s && Behind(all.s, n) == more.s
  {
    hide Revert;
    var first, more := RevertFirst(b, n, holes(j)), RevertAll(Behind(b, n), n, holes, j + 1);
    assert RevertAll(b, n, holes, j).s == first.s + more.s;
  }

  /** A structure the transform leaves alone: it is marked bad or a hole, or was never written, or its array
      would not fit. */
  predicate LeftAlone(s: seq<Word>, n: nat)
    requires IsStructure(s, n)
  {
    || (s[0] == 0x4142 && s[1] == 0x4441) || (s[0] == 0x4f48 && s[1] == 0x454c) || (s[0] == 0xffff && s[1] == 0xffff)
    || s[2] % 2 == 1 || s[2] >= 512 * n - 2 * n
  }

  /** What the transform makes of a structure and of the original's copy of it: nothing if it is left alone;
      otherwise, for an array behind the header in the first sector, the next number but 0 and 0xffff goes into
      the array's head and every sector, the words it displaces into the array, and the copy's number moves on
      as far. */
  ghost predicate SentOut(s: seq<Word>, t: seq<Word>, sys: seq<Word>, sys': seq<Word>, n: nat)
    requires IsStructure(s, n) && |sys| == |s|
  {
    var o := s[2] / 2;
    && |t| == |s|
    && (LeftAlone(s, n) ==> t == s && sys' == sys)
    && (!LeftAlone(s, n) && 4 <= o && o + n < 255 ==>
          var number := if s[o] >= 0xfffe then 1 else s[o] + 1;
          && (forall i {:trigger t[i]} | 0 <= i < |s| ::
                t[i] == if IsProtected(i) || i == o then number
                        else if o < i <= o + n then s[Last(i - o - 1)] else s[i])
          && sys' == sys[o := (sys[o] as int + number - s[o] as int) % 0x1_0000])
  }

  /** Every structure is written so, whatever becomes of the others. */
  ghost predicate EachSentOut(b: seq<Word>, t: seq<Word>, sys: seq<Word>, sys': seq<Word>, n: nat)
    requires 1 <= n < 0x1_0000 && |sys| == |b|
    decreases |b|
  {
    var size := STRIDE * n;
    && |t| == |b| && |sys'| == |sys|
    && (size <= |b| ==>
          && SentOut(b[..size], t[..size], sys[..size], sys'[..size], n)
          && EachSentOut(b[size..], t[size..], sys[size..], sys'[size..], n))
  }

  lemma LeftAloneMeans(s: seq<Word>, sys: seq<Word>, n: nat)
    requires IsStructure(s, n) && |sys| == |s|
    ensures LeftAlone(s, n) <==> !Protects(s, n)
    ensures LeftAlone(s, n) ==> Transform(s, n) == s && Advance(sys, s, n) == sys
  {
  }

  /** The next number, and how far it is. */
  lemma BumpMeans(x: Word, y: Word)
    ensures Bump(x) == if x >= 0xfffe then 1 else x + 1
    ensures Plus(y, Steps(x)) == (y as int + Bump(x) as int - x as int) % 0x1_0000
  {
  }

  lemma TransformMeans(s: seq<Word>, sys: seq<Word>, n: nat)
    requires IsStructure(s, n) && |sys| == |s|
    ensures SentOut(s, Transform(s, n), sys, Advance(sys, s, n), n)
  {
    LeftAloneMeans(s, sys, n);
    hide Transform, Bump, Plus, Steps;
    var o, t := s[2] / 2, Transform(s, n);
    if !LeftAlone(s, n) && 4 <= o && o + n < 255 {
      BumpMeans(s[o], sys[o]);
      var number: Word := if s[o] >= 0xfffe then 1 else s[o] + 1;
      forall i {:trigger t[i]} | 0 <= i < |s|
        ensures t[i] == if IsProtected(i) || i == o then number else if o < i <= o + n then s[Last(i - o - 1)] else s[i]
      {
        TransformAt(s, n, i);
      }
    }
  }

  lemma {:induction false} TransformAllMeans(b: seq<Word>, sys: seq<Word>, n: nat)
    requires 1 <= n < 0x1_0000 && |sys| == |b|
    ensures EachSentOut(b, TransformAll(b, n), sys, AdvanceAll(sys, b, n), n)
    decreases |b|
  {
    hide Transform, Advance, SentOut;
    var size := STRIDE * n;
    if size <= |b| {
      TransformMeans(b[..size], sys[..size], n);
      TransformAllMeans(b[size..], sys[size..], n);
      var t, u := TransformAll(b, n), AdvanceAll(sys, b, n);
      assert t[..size] == Transform(b[..size], n) && t[size..] == TransformAll(b[size..], n);
      assert u[..size] == Advance(sys[..size], b[..size], n) && u[size..] == AdvanceAll(sys[size..], b[size..], n);
    }
  }

  // ---------- the two routines, on buffers ----------

  /** The sequence number in both buffers, incremented past 0 and 0xffff. */
  method BumpBoth(sys: array<Word>, buffer: array<Word>, at: nat)
    requires sys != buffer && at < sys.Length && at < buffer.Length
    modifies sys, buffer
    ensures buffer[..] == old(buffer[..])[at := Bump(old(buffer[at]))]
    ensures sys[..] == old(sys[..])[at := Plus(old(sys[at]), Steps(old(buffer[at])))]
  {
    var x, y := buffer[at], sys[at];
    ghost var d := 1;
    buffer[at], sys[at] := Plus(x, 1), Plus(y, 1);
    while buffer[at] == 0 || buffer[at] == 0xffff
      invariant 1 <= d <= Steps(x)
      invariant forall e | 1 <= e < d :: Plus(x, e) == 0 || Plus(x, e) == 0xffff
      invariant buffer[..] == old(buffer[..])[at := Plus(x, d)] && sys[..] == old(sys[..])[at := Plus(y, d)]
      decreases Steps(x) - d
    {
      d := d + 1;
      buffer[at], sys[at] := Plus(buffer[at], 1), Plus(sys[at], 1);
    }
  }

  /** The same for an array that stands on its own offset, 4: one step suffices, and the offset read for the
      original buffer is odd by then. */
  method BumpOffset(sys: array<Word>, buffer: array<Word>, base: nat)
    requires sys != buffer && base + 3 < sys.Length && base + 3 < buffer.Length && buffer[base + 2] == 4
    modifies sys, buffer
    ensures buffer[..] == old(buffer[..])[base + 2 := 5]
    ensures sys[..] == PlusBetween(old(sys[..]), base + 2)
  {
    buffer[base + 2] := Plus(buffer[base + 2], 1);
    var x := Plus(sys[base + 2] / 256 + sys[base + 3] % 256 * 256, 1);
    sys[base + 2] := sys[base + 2] % 256 + x % 256 * 256;
    sys[base + 3] := sys[base + 3] / 256 * 256 + x / 256;
  }

  lemma BumpFour()
    ensures Bump(4) == 5
  {
  }

  /** The increment for the structure at `base` whose array stands at `o`. */
  method BumpStructure(sys: array<Word>, buffer: array<Word>, base: nat, n: nat)
    requires sys != buffer && sys.Length == buffer.Length && 1 <= n < 0x1_0000 && base + STRIDE * n <= buffer.Length
    requires Protects(buffer[base..base + STRIDE * n], n)
    modifies sys, buffer
    ensures var s := old(buffer[base..base + STRIDE * n]);
            && buffer[base..base + STRIDE * n] == s[Position(s) := Bump(s[Position(s)])]
            && sys[base..base + STRIDE * n] == Advance(old(sys[base..base + STRIDE * n]), s, n)
    ensures buffer[..base] == old(buffer[..base]) && buffer[base + STRIDE * n..] == old(buffer[base + STRIDE * n..])
    ensures sys[..base] == old(sys[..base]) && sys[base + STRIDE * n..] == old(sys[base + STRIDE * n..])
  {
    hide Bump, Steps, Plus;
    var o := buffer[base + 2] / 2;
    if o == 2 {
      BumpOffset(sys, buffer, base);
      BumpFour();
    } else {
      BumpBoth(sys, buffer, base + o);
    }
  }

  /** One structure of a transfer, at `base`. */
  method TransformStructure(sys: array<Word>, buffer: array<Word>, base: nat, n: nat)
    requires sys != buffer && sys.Length == buffer.Length && 1 <= n < 0x1_0000 && base + STRIDE * n <= buffer.Length
    modifies sys, buffer
    ensures buffer[base..base + STRIDE * n] == Transform(old(buffer[base..base + STRIDE * n]), n)
    ensures sys[base..base + STRIDE * n] ==
              Advance(old(sys[base..base + STRIDE * n]), old(buffer[base..base + STRIDE * n]), n)
    ensures buffer[..base] == old(buffer[..base]) && buffer[base + STRIDE * n..] == old(buffer[base + STRIDE * n..])
    ensures sys[..base] == old(sys[..base]) && sys[base + STRIDE * n..] == old(sys[base + STRIDE * n..])
  {
    hide Save, Bump, Steps, Plus, PlusBetween;
    var size := STRIDE * n;
    ghost var s := buffer[base..base + size];
    if  && (buffer[base], buffer[base + 1]) != BAAD && (buffer[base], buffer[base + 1]) != HOLE
        && (buffer[base], buffer[base + 1]) != MAXULONG
        && buffer[base + 2] % 2 == 0 && buffer[base + 2] < 2 * size - n - n
    {
      var o := buffer[base + 2] / 2;
      assert Protects(s, n) && o == Position(s);
      hide Advance;
      BumpStructure(sys, buffer, base, n);
      SaveWords(buffer, base, o, n);
    }
  }

  /** Overwrite the signature of a structure. */
  method Mark(buffer: array<Word>, base: nat, end: nat, signature: (Word, Word))
    requires base + STRIDE <= end <= buffer.Length
    modifies buffer
    ensures buffer[base..end] == Smash(old(buffer[base..end]), signature)
    ensures buffer[..base] == old(buffer[..base]) && buffer[end..] == old(buffer[end..])
  {
    buffer[base], buffer[base + 1] := signature.0, signature.1;
  }

  /** Store one word of a structure. */
  method Put(buffer: array<Word>, base: nat, end: nat, i: nat, w: Word)
    requires base <= end <= buffer.Length && i < end - base
    modifies buffer
    ensures buffer[base..end] == old(buffer[base..end])[i := w]
    ensures buffer[..base] == old(buffer[..base]) && buffer[end..] == old(buffer[end..])
  {
    buffer[base + i] := w;
  }

  /** The loop over the sectors of a structure. */
  method SaveWords(buffer: array<Word>, base: nat, o: nat, n: nat)
    requires 1 <= n < 0x1_0000 && base + STRIDE * n <= buffer.Length && o + n < STRIDE * n
    modifies buffer
    ensures buffer[base..base + STRIDE * n] == Save(old(buffer[base..base + STRIDE * n]), o, 0, n)
    ensures buffer[..base] == old(buffer[..base]) && buffer[base + STRIDE * n..] == old(buffer[base + STRIDE * n..])
  {
    hide Save;
    var size := STRIDE * n;
    ghost var s := buffer[base..base + size];
    var k := 0;
    while k < n
      invariant 0 <= k <= n
      invariant Save(buffer[base..base + size], o, k, n) == Save(s, o, 0, n)
      invariant buffer[..base] == old(buffer[..base]) && buffer[base + size..] == old(buffer[base + size..])
    {
      ghost var now := buffer[base..base + size];
      SaveStep(now, o, k, n);
      Put(buffer, base, base + size, o + 1 + k, buffer[base + Last(k)]);
      ghost var s1 := buffer[base..base + size];
      Put(buffer, base, base + size, Last(k), buffer[base + o]);
      k := k + 1;
    }
    SaveEnd(buffer[base..base + size], o, n);
  }

  lemma SaveEnd(s: seq<Word>, o: nat, n: nat)
    requires IsStructure(s, n) && o + n < STRIDE * n
    ensures Save(s, o, n, n) == s
  {
  }

  /** A length that is a whole number of structures. */
  ghost predicate Multiple(length: int, size: nat)
    requires 0 < size
  {
    length == 0 || (size <= length && Multiple(length - size, size))
  }

  /** Where the transform stands: what is done, and what is still to do, make the whole. */
  ghost predicate Transforming(done: seq<Word>, rest: seq<Word>, n: nat, whole: seq<Word>)
    requires 1 <= n < 0x1_0000
  {
    done + TransformAll(rest, n) == whole
  }

  ghost predicate Advancing(done: seq<Word>, sys: seq<Word>, rest: seq<Word>, n: nat, whole: seq<Word>)
    requires 1 <= n < 0x1_0000 && |sys| == |rest|
  {
    done + AdvanceAll(sys, rest, n) == whole
  }

  /** One structure less to transform. */
  lemma TransformMore(done: seq<Word>, rest: seq<Word>, n: nat, whole: seq<Word>)
    requires 1 <= n < 0x1_0000 && STRIDE * n <= |rest| && Transforming(done, rest, n, whole)
    ensures Transforming(done + Transform(rest[..STRIDE * n], n), rest[STRIDE * n..], n, whole)
  {
    hide Transform;
    var first, more := Transform(rest[..STRIDE * n], n), TransformAll(rest[STRIDE * n..], n);
    assert done + first + more == done + (first + more);
  }

  lemma AdvanceMore(done: seq<Word>, sys: seq<Word>, rest: seq<Word>, n: nat, whole: seq<Word>)
    requires 1 <= n < 0x1_0000 && STRIDE * n <= |rest| == |sys| && Advancing(done, sys, rest, n, whole)
    ensures Advancing(done + Advance(sys[..STRIDE * n], rest[..STRIDE * n], n), sys[STRIDE * n..], rest[STRIDE * n..],
                      n, whole)
  {
    hide Advance;
    var first := Advance(sys[..STRIDE * n], rest[..STRIDE * n], n);
    var more := AdvanceAll(sys[STRIDE * n..], rest[STRIDE * n..], n);
    assert done + first + more == done + (first + more);
  }

  lemma TransformStart(sys: seq<Word>, b: seq<Word>, n: nat)
    requires 1 <= n < 0x1_0000 && |sys| == |b|
    ensures Transforming([], b, n, TransformAll(b, n)) && Advancing([], sys, b, n, AdvanceAll(sys, b, n))
  {
    assert [] + TransformAll(b, n) == TransformAll(b, n) && [] + AdvanceAll(sys, b, n) == AdvanceAll(sys, b, n);
  }

  lemma TransformEnd(doneSys: seq<Word>, done: seq<Word>, n: nat, wholeSys: seq<Word>, whole: seq<Word>)
    requires 1 <= n < 0x1_0000 && Transforming(done, [], n, whole) && Advancing(doneSys, [], [], n, wholeSys)
    ensures done == whole && doneSys == wholeSys
  {
    assert done + [] == done && doneSys + [] == doneSys;
  }

  /** Slices of slices. */
  lemma Slices(a: seq<Word>, base: nat, size: nat)
    requires base + size <= |a|
    ensures a[base..][..size] == a[base..base + size] && a[base..][size..] == a[base + size..]
    ensures a[..base + size] == a[..base] + a[base..base + size]
  {
  }

  /** NtfsTransformUsaBlock, for an MFT or an index. */
  method TransformUsaBlock(sys: array<Word>, buffer: array<Word>, n: nat)
    requires sys != buffer && sys.Length == buffer.Length && 1 <= n < 0x1_0000
    requires 0 < buffer.Length && Multiple(buffer.Length, STRIDE * n)
    modifies sys, buffer
    ensures buffer[..] == TransformAll(old(buffer[..]), n)
    ensures sys[..] == AdvanceAll(old(sys[..]), old(buffer[..]), n)
    ensures EachSentOut(old(buffer[..]), buffer[..], old(sys[..]), sys[..], n)
  {
    hide TransformAll, AdvanceAll, EachSentOut, Multiple;
    TransformAllMeans(buffer[..], sys[..], n);
    TransformBuffer(sys, buffer, n);
  }

  /** Its loop over the structures. */
  method TransformBuffer(sys: array<Word>, buffer: array<Word>, n: nat)
    requires sys != buffer && sys.Length == buffer.Length && 1 <= n < 0x1_0000
    requires 0 < buffer.Length && Multiple(buffer.Length, STRIDE * n)
    modifies sys, buffer
    ensures buffer[..] == TransformAll(old(buffer[..]), n)
    ensures sys[..] == AdvanceAll(old(sys[..]), old(buffer[..]), n)
  {
    hide Transform, TransformAll, Advance, AdvanceAll, Transforming, Advancing;
    var size, base, left := STRIDE * n, 0, buffer.Length;
    ghost var rest, restSys := buffer[..], sys[..];
    ghost var whole, wholeSys := TransformAll(rest, n), AdvanceAll(restSys, rest, n);
    TransformStart(restSys, rest, n);
    assert buffer[..0] == [] && sys[..0] == [];
    while left != 0
      invariant 0 <= base && 0 <= left && base + left == buffer.Length && Multiple(left, size)
      invariant buffer[base..] == rest && sys[base..] == restSys
      invariant Transforming(buffer[..base], rest, n, whole) && Advancing(sys[..base], restSys, rest, n, wholeSys)
    {
      Slices(buffer[..], base, size);
      Slices(sys[..], base, size);
      TransformMore(buffer[..base], rest, n, whole);
      AdvanceMore(sys[..base], restSys, rest, n, wholeSys);
      TransformStructure(sys, buffer, base, n);
      Slices(buffer[..], base, size);
      Slices(sys[..], base, size);
      rest, restSys := rest[size..], restSys[size..];
      base, left := base + size, left - size;
    }
    assert rest == [] && restSys == [] && buffer[..base] == buffer[..] && sys[..base] == sys[..];
    TransformEnd(sys[..base], buffer[..base], n, wholeSys, whole);
  }

  lemma RestoreStep(s: seq<Word>, o: nat, k: nat, n: nat)
    requires IsStructure(s, n) && o + n < STRIDE * n && k < n
    ensures Restore(s, o, k, n) ==
            if s[Last(k)] != s[o] then Reverted(Smash(s, BAAD), false)
            else Restore(s[Last(k) := s[o + 1 + k]], o, k + 1, n)
  {
  }

  lemma RestoreEnd(s: seq<Word>, o: nat, n: nat)
    requires IsStructure(s, n) && o + n < STRIDE * n
    ensures Restore(s, o, n, n) == Reverted(s, true)
  {
  }

  lemma SaveStep(s: seq<Word>, o: nat, k: nat, n: nat)
    requires IsStructure(s, n) && o + n < STRIDE * n && k < n
    ensures var s1 := s[o + 1 + k := s[Last(k)]]; Save(s, o, k, n) == Save(s1[Last(k) := s1[o]], o, k + 1, n)
  {
  }

  /** The loop over the sectors of a structure that passed the header check. */
  method RestoreWords(buffer: array<Word>, base: nat, o: nat, n: nat) returns (ok: bool)
    requires 1 <= n < 0x1_0000 && base + STRIDE * n <= buffer.Length && o + n < STRIDE * n
    modifies buffer
    ensures Reverted(buffer[base..base + STRIDE * n], ok) == Restore(old(buffer[base..base + STRIDE * n]), o, 0, n)
    ensures buffer[..base] == old(buffer[..base]) && buffer[base + STRIDE * n..] == old(buffer[base + STRIDE * n..])
  {
    hide Restore, Smash;
    var size := STRIDE * n;
    ghost var s := buffer[base..base + size];
    var k := 0;
    while k < n
      invariant 0 <= k <= n
      invariant Restore(buffer[base..base + size], o, k, n) == Restore(s, o, 0, n)
      invariant buffer[..base] == old(buffer[..base]) && buffer[base + size..] == old(buffer[base + size..])
    {
      ghost var now := buffer[base..base + size];
      RestoreStep(now, o, k, n);
      if buffer[base + Last(k)] != buffer[base + o] {
        Mark(buffer, base, base + size, BAAD);
        return false;
      }
      Put(buffer, base, base + size, Last(k), buffer[base + o + 1 + k]);
      k := k + 1;
    }
    RestoreEnd(buffer[base..base + size], o, n);
    return true;
  }

  /** One structure, or what is left of one, at `base`. */
  method RevertStructure(buffer: array<Word>, base: nat, n: nat, hole: bool) returns (ok: bool)
    requires 1 <= n < 0x1_0000 && base + STRIDE <= buffer.Length
    modifies buffer
    ensures var end := if base + STRIDE * n <= buffer.Length then base + STRIDE * n else buffer.Length;
            && Reverted(buffer[base..end], ok) == RevertFirst(old(buffer[base..]), n, hole)
            && buffer[..base] == old(buffer[..base]) && buffer[end..] == old(buffer[end..])
  {
    hide Restore;
    var size := STRIDE * n;
    var end := if base + size <= buffer.Length then base + size else buffer.Length;
    ghost var s := buffer[base..end];
    assert s == if base + size <= buffer.Length then buffer[base..][..size] else buffer[base..];
    if (buffer[base], buffer[base + 1]) == MAXULONG || (buffer[base], buffer[base + 1]) == NONE {
      return true;
    } else if && n == (buffer[base + 3] as int - 1) % 0x1_0000 && buffer[base + 2] % 2 == 0
              && buffer[base + 2] < 2 * size - 2 * (n + 1) && size <= buffer.Length - base {
      ok := RestoreWords(buffer, base, buffer[base + 2] / 2, n);
    } else if hole {
      Mark(buffer, base, end, HOLE);
      return true;
    } else {
      Mark(buffer, base, end, BAAD);
      return false;
    }
  }

  /** Where the check stands: what is done, and what is still to revert, make the whole. */
  ghost predicate Reverting(done: seq<Word>, ok: bool, rest: seq<Word>, n: nat, holes: nat -> bool, j: nat,
                            all: Reverted)
    requires 1 <= n < 0x1_0000
  {
    && |rest| % STRIDE == 0
    && all == Reverted(done + RevertAll(rest, n, holes, j).s, ok && RevertAll(rest, n, holes, j).ok)
  }

  /** One structure less to revert. */
  lemma RevertingTurn(done: seq<Word>, ok: bool, rest: seq<Word>, n: nat, holes: nat -> bool, j: nat, all: Reverted,
                      turn: nat)
    requires 1 <= n < 0x1_0000 && Reverting(done, ok, rest, n, holes, j, all) && 0 < |rest|
    requires turn == if |rest| > STRIDE * n then STRIDE * n else |rest|
    ensures STRIDE <= |rest|
    ensures var first := RevertFirst(rest, n, holes(j));
            Reverting(done + first.s, ok && first.ok, rest[turn..], n, holes, j + 1, all)
  {
    hide Revert;
    var first := RevertFirst(rest, n, holes(j));
    assert done + (first.s + RevertAll(rest[turn..], n, holes, j + 1).s) ==
             done + first.s + RevertAll(rest[turn..], n, holes, j + 1).s;
  }

  /** NtfsVerifyAndRevertUsaBlock, for an MFT or an index. */
  method VerifyAndRevertUsaBlock(buffer: array<Word>, n: nat, holes: nat -> bool) returns (ok: bool)
    requires 1 <= n < 0x1_0000 && 0 < buffer.Length && buffer.Length % STRIDE == 0
    modifies buffer
    ensures Reverted(buffer[..], ok) == RevertAll(old(buffer[..]), n, holes, 0)
    ensures ok <==> AllPass(old(buffer[..]), n, holes, 0)
    ensures EachChecked(old(buffer[..]), buffer[..], n, holes, 0)
  {
    hide RevertAll, AllPass, EachChecked;
    RevertAllMeans(buffer[..], n, holes, 0);
    ok := RevertBuffer(buffer, n, holes);
  }

  /** Its loop over the structures. */
  method RevertBuffer(buffer: array<Word>, n: nat, holes: nat -> bool) returns (ok: bool)
    requires 1 <= n < 0x1_0000 && 0 < buffer.Length && buffer.Length % STRIDE == 0
    modifies buffer
    ensures Reverted(buffer[..], ok) == RevertAll(old(buffer[..]), n, holes, 0)
  {
    hide RevertAll, RevertFirst, Reverting;
    var size, base, left, j: nat := STRIDE * n, 0, buffer.Length, 0;
    ok := true;
    ghost var done, rest := [], buffer[..];
    ghost var all := RevertAll(rest, n, holes, 0);
    RevertingStart(rest, n, holes);
    while left != 0
      invariant 0 <= base && 0 <= left && base + left == buffer.Length
      invariant buffer[..base] == done && buffer[base..] == rest && Reverting(done, ok, rest, n, holes, j, all)
    {
      var turn := if left > size then size else left;
      RevertingTurn(done, ok, rest, n, holes, j, all, turn);
      Slices(buffer[..], base, turn);
      var good := RevertStructure(buffer, base, n, holes(j));
      Slices(buffer[..], base, turn);
      done, rest := done + buffer[base..base + turn], rest[turn..];
      ok := ok && good;
      base, left, j := base + turn, left - turn, j + 1;
    }
    RevertingEnd(done, ok, rest, n, holes, j, all);
    assert buffer[..base] == buffer[..];
  }

  lemma RevertingStart(b: seq<Word>, n: nat, holes: nat -> bool)
    requires 1 <= n < 0x1_0000 && |b| % STRIDE == 0
    ensures Reverting([], true, b, n, holes, 0, RevertAll(b, n, holes, 0))
  {
    assert [] + RevertAll(b, n, holes, 0).s == RevertAll(b, n, holes, 0).s;
  }

  lemma RevertingEnd(done: seq<Word>, ok: bool, rest: seq<Word>, n: nat, holes: nat -> bool, j: nat, all: Reverted)
    requires 1 <= n < 0x1_0000 && Reverting(done, ok, rest, n, holes, j, all) && rest == []
    ensures all == Reverted(done, ok)
  {
    assert done + [] == done;
  }
}
