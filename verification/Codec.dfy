/**
 * Two's complement numbers in as few bytes as they need: what a mapping pairs array is made of.
 */
module Codec {

  type Byte = b: int | 0 <= b < 256

  /** The `n` low bytes of a two's complement number, lowest first. */
  function LE(c: int, n: nat): (r: seq<Byte>)
    ensures |r| == n
    decreases n
  {
    if n == 0 then [] else [c % 256] + LE(c / 256, n - 1)
  }

  /** The bytes as an unsigned number. */
  function Unsigned(b: seq<Byte>): nat {
    if b == [] then 0 else b[0] + 256 * Unsigned(b[1..])
  }

  function Pow256(n: nat): nat {
    if n == 0 then 1 else 256 * Pow256(n - 1)
  }

  /** The bytes copied over a zero, or over all ones if the top one is negative. */
  function Signed(b: seq<Byte>): int {
    if b == [] then 0
    else Unsigned(b) - if b[|b| - 1] >= 128 then Pow256(|b|) else 0
  }

  /** Half the range of `n` bytes. */
  function Half(n: nat): int {
    if n <= 1 then 128 else 256 * Half(n - 1)
  }

  /** The number has an `n`-byte two's complement form. */
  predicate Fits(c: int, n: nat) {
    1 <= n && -Half(n) <= c < Half(n)
  }

  lemma {:induction false} PowIsTwoHalves(n: nat)
    requires 1 <= n
    ensures Pow256(n) == 2 * Half(n)
  {
    if n > 1 {
      PowIsTwoHalves(n - 1);
    }
  }

  /** The bytes of a number, read as unsigned: the number itself, or that much past the range. */
  lemma {:induction false} UnsignedLE(c: int, n: nat)
    requires 1 <= n && -Half(n) <= c < 2 * Half(n)
    ensures Unsigned(LE(c, n)) == if c < 0 then c + 2 * Half(n) else c
    ensures LE(c, n)[n - 1] >= 128 <==> c < 0 || Half(n) <= c
    decreases n
  {
    if n == 1 {
      assert LE(c, 1) == [c % 256];
      assert Unsigned([c % 256]) == c % 256;
    } else {
      UnsignedLE(c / 256, n - 1);
      assert LE(c, n) == [c % 256] + LE(c / 256, n - 1);
      assert LE(c, n)[1..] == LE(c / 256, n - 1);
    }
  }

  /** Writing a number and reading it back. */
  lemma SignedLE(c: int, n: nat)
    requires Fits(c, n)
    ensures Signed(LE(c, n)) == c
    ensures LE(c, n)[n - 1] >= 128 <==> c < 0
    ensures 0 <= c ==> Unsigned(LE(c, n)) == c
  {
    UnsignedLE(c, n);
    PowIsTwoHalves(n);
  }

  lemma {:induction false} FitsMore(c: int, n: nat, m: nat)
    requires Fits(c, n) && n <= m
    ensures Fits(c, m)
    decreases m
  {
    if n < m {
      FitsMore(c, n, m - 1);
    }
  }

  // ---------- how many bytes are written ----------

  /** The halving search both macros share: the offset of the top byte that differs from `skip`. */
  function TopByte(b: seq<Byte>, skip: Byte): (p: nat)
    requires |b| == 8
    ensures p < 8 && (forall j | p < j < 8 :: b[j] == skip) && (p == 0 || b[p] != skip)
  {
    var p0 := if b[4] != skip || b[5] != skip || b[6] != skip || b[7] != skip then 4 else 0;
    var p1 := if b[p0 + 2] != skip || b[p0 + 3] != skip then p0 + 2 else p0;
    if b[p1 + 1] != skip then p1 + 1 else p1
  }

  /** GetPositiveByte: the offset of the top byte to store of a non-negative number. */
  function GetPositiveByte(b: seq<Byte>): nat
    requires |b| == 8
  {
    var p := TopByte(b, 0);
    if b[p] >= 128 then p + 1 else p
  }

  /** GetNegativeByte: the same for a negative number, skipping bytes of ones. */
  function GetNegativeByte(b: seq<Byte>): nat
    requires |b| == 8
  {
    var p := TopByte(b, 255);
    if b[p] < 128 then p + 1 else p
  }

  /** The number of bytes stored for a change. */
  function ByteCount(c: int): nat {
    1 + if c < 0 then GetNegativeByte(LE(c, 8)) else GetPositiveByte(LE(c, 8))
  }

  /** `n` is the least number of bytes the number fits in. */
  predicate Least(c: int, n: nat) {
    Fits(c, n) && (n == 1 || !Fits(c, n - 1))
  }

  /** The bytes of the complement are the complements of the bytes. */
  lemma {:induction false} ComplementBytes(c: int, n: nat)
    ensures forall j | 0 <= j < n :: LE(-1 - c, n)[j] == 255 - LE(c, n)[j]
    decreases n
  {
    if n > 0 {
      assert (-1 - c) / 256 == -1 - c / 256;
      ComplementBytes(c / 256, n - 1);
    }
  }

  /** Bytes from `k` on are zero exactly when the number is below `256^k`. */
  lemma {:induction false} HighBytesZero(b: seq<Byte>, k: nat)
    requires k <= |b|
    ensures Unsigned(b) < Pow256(k) <==> forall j | k <= j < |b| :: b[j] == 0
  {
    if b != [] {
      var t := b[1..];
      HighBytesZero(t, if k == 0 then 0 else k - 1);
      assert forall j | 1 <= j < |b| :: b[j] == t[j - 1];
      assert forall i | 0 <= i < |t| :: t[i] == b[i + 1];
    }
  }

  /** Below zero bytes, the top byte tells whether the number reaches half its range. */
  lemma {:induction false} HighBit(b: seq<Byte>, k: nat)
    requires k < |b| && forall j | k < j < |b| :: b[j] == 0
    ensures Unsigned(b) >= Half(k + 1) <==> b[k] >= 128
  {
    var t := b[1..];
    if k == 0 {
      HighBytesZero(t, 0);
    } else {
      HighBit(t, k - 1);
    }
  }

  lemma {:induction false} HalfGrows(n: nat)
    ensures 128 <= Half(n)
    ensures 1 <= n ==> 2 * Half(n) < Half(n + 1)
  {
    if n > 1 {
      HalfGrows(n - 1);
    }
  }

  /** The positive macro finds the least number of bytes. */
  lemma PositiveIsLeast(c: int)
    requires 0 <= c && Fits(c, 8)
    ensures Least(c, GetPositiveByte(LE(c, 8)) + 1)
  {
    hide Half, LE, Unsigned, Pow256, TopByte;
    var b := LE(c, 8);
    UnsignedLE(c, 8);
    var p := TopByte(b, 0);
    HighBytesZero(b, p + 1);
    HighBytesZero(b, p);
    HighBit(b, p);
    HalfGrows(p + 1);
    PowIsTwoHalves(p + 1);
    if p > 0 {
      PowIsTwoHalves(p);
      HalfGrows(p);
    }
  }

  /** The stored byte count is the least in which the change fits. */
  lemma ByteCountIsLeast(c: int)
    requires Fits(c, 8)
    ensures Least(c, ByteCount(c)) && 1 <= ByteCount(c) <= 8
  {
    hide Half, LE, GetPositiveByte, GetNegativeByte;
    if c < 0 {
      ComplementBytes(c, 8);
      PositiveIsLeast(-1 - c);
      ComplementTop(LE(c, 8), LE(-1 - c, 8));
    } else {
      PositiveIsLeast(c);
    }
    var n := ByteCount(c);
    if n > 8 {
      FitsMore(c, 8, n - 1);
    }
  }

  lemma ComplementTop(b: seq<Byte>, b': seq<Byte>)
    requires |b| == |b'| == 8 && forall j | 0 <= j < 8 :: b'[j] == 255 - b[j]
    ensures GetNegativeByte(b) == GetPositiveByte(b')
  {
  }

  /** A smaller count never takes more bytes. */
  lemma ByteCountMonotone(c: int, d: int)
    requires 0 <= c <= d && Fits(d, 8)
    ensures ByteCount(c) <= ByteCount(d)
  {
    hide Half, ByteCount;
    HalfGrows(8);
    ByteCountIsLeast(c);
    ByteCountIsLeast(d);
    if ByteCount(c) > ByteCount(d) {
      FitsMore(c, ByteCount(d), ByteCount(c) - 1);
    }
  }
}
