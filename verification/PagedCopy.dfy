/**
 * Updating a range of a mapped stream page by page, from a source that may overlap it.
 */
module PagedCopy {
  import opened Options
  import Codec

  const PAGE_SIZE: nat := 4096

  type Byte = Codec.Byte

  // ---------- memory ----------

  /** Memory after the bytes `[lo, hi)` of a move from `src` to `dst` have been moved. */
  ghost function Part(m: seq<Byte>, dst: int, src: int, lo: int, hi: int): (r: seq<Byte>)
    requires 0 <= dst + lo && dst + hi <= |m| && 0 <= src + lo && src + hi <= |m|
    ensures |r| == |m|
    ensures forall a | 0 <= a < |m| :: r[a] == if dst + lo <= a < dst + hi then m[src + (a - dst)] else m[a]
  {
    seq(|m|, a requires 0 <= a < |m| => if dst + lo <= a < dst + hi then m[src + (a - dst)] else m[a])
  }

  ghost function Zeroed(m: seq<Byte>, lo: int, hi: int): (r: seq<Byte>)
    ensures |r| == |m|
    ensures forall a | 0 <= a < |m| :: r[a] == if lo <= a < hi then 0 else m[a]
  {
    seq(|m|, a requires 0 <= a < |m| => if lo <= a < hi then 0 else m[a])
  }

  /** Pieces in ascending order make the whole move, if it goes down. */
  lemma Forward(m: seq<Byte>, dst: int, src: int, k: nat, n: nat)
    requires 0 <= dst && dst + k + n <= |m| && 0 <= src && src + k + n <= |m| && (dst <= src || k == 0)
    ensures Part(Part(m, dst, src, 0, k), dst, src, k, k + n) == Part(m, dst, src, 0, k + n)
  {
  }

  /** Pieces in descending order make the whole move, if it goes up. */
  lemma Backward(m: seq<Byte>, dst: int, src: int, lo: nat, mid: nat, hi: nat)
    requires lo <= mid <= hi && 0 <= dst && dst + hi <= |m| && 0 <= src && src + hi <= |m| && (src <= dst || mid == hi)
    ensures Part(Part(m, dst, src, mid, hi), dst, src, lo, mid) == Part(m, dst, src, lo, hi)
  {
  }

  /** Memory after zeroing in pieces. */
  lemma ZeroedOn(m: seq<Byte>, lo: int, mid: int, hi: int)
    requires lo <= mid <= hi
    ensures Zeroed(Zeroed(m, lo, mid), mid, hi) == Zeroed(m, lo, hi)
  {
  }

  lemma OneByte(m: seq<Byte>, dst: int, src: int, i: nat)
    requires 0 <= dst && dst + i < |m| && 0 <= src && src + i < |m|
    ensures Part(m, dst, src, i, i + 1) == m[dst + i := m[src + i]]
  {
  }

  lemma NoByte(m: seq<Byte>, dst: int, src: int, i: nat)
    requires 0 <= dst && dst + i <= |m| && 0 <= src && src + i <= |m|
    ensures Part(m, dst, src, i, i) == m
  {
  }

  /** RtlMoveMemory: one piece, safe for any overlap. */
  method Move(mem: array<Byte>, dst: nat, src: nat, n: nat)
    requires dst + n <= mem.Length && src + n <= mem.Length
    modifies mem
    ensures mem[..] == Part(old(mem[..]), dst, src, 0, n)
  {
    hide Part;
    ghost var m := mem[..];
    if dst <= src {
      NoByte(m, dst, src, 0);
      for i := 0 to n
        invariant mem[..] == Part(m, dst, src, 0, i)
      {
        OneByte(mem[..], dst, src, i);
        Forward(m, dst, src, i, 1);
        mem[dst + i] := mem[src + i];
      }
    } else {
      NoByte(m, dst, src, n);
      for i := n downto 0
        invariant mem[..] == Part(m, dst, src, i, n)
      {
        OneByte(mem[..], dst, src, i);
        Backward(m, dst, src, i, i + 1, n);
        mem[dst + i] := mem[src + i];
      }
    }
  }

  /** RtlZeroMemory. */
  method Zero(mem: array<Byte>, dst: nat, n: nat)
    requires dst + n <= mem.Length
    modifies mem
    ensures mem[..] == Zeroed(old(mem[..]), dst, dst + n)
  {
    for i := 0 to n
      invariant forall a | 0 <= a < mem.Length :: mem[a] == if dst <= a < dst + i then 0 else old(mem[a])
    {
      mem[dst + i] := 0;
    }
  }

  // ---------- pages ----------

  function InPage(x: int): int { x % PAGE_SIZE }

  lemma NextPage(x: int)
    ensures 0 <= InPage(x) < PAGE_SIZE && InPage(x + (PAGE_SIZE - InPage(x))) == 0
  {
  }

  lemma SamePage(x: int, d: int)
    requires 0 <= d && InPage(x) + d < PAGE_SIZE
    ensures InPage(x + d) == InPage(x) + d
  {
  }

  lemma PageBefore(x: int)
    requires InPage(x) == 0
    ensures InPage(x - PAGE_SIZE) == 0
  {
  }

  lemma ShortOfPage(x: int, d: int)
    requires 0 < d < PAGE_SIZE && InPage(x + d) == 0
    ensures InPage(x) == PAGE_SIZE - d
  {
  }

  /** The piece in the last page of a range that reaches beyond its first page. */
  lemma LastPiece(start: int, total: int)
    requires InPage(start) + total > PAGE_SIZE
    ensures var n := InPage(InPage(start) + total - 1) + 1;
            0 < n < total && n <= PAGE_SIZE && InPage(start + total - n) == 0
  {
  }

  // ---------- the move ----------

  /** Whether a put is made from the last page to the first. */
  predicate GoesBackwards(buffer: int, offset: nat, length: nat, data: Option<int>) {
    data.Some? && buffer > data.value && InPage(offset) + length > PAGE_SIZE
  }

  /** A pointer moved on, if there is one. */
  function At(data: Option<int>, d: int): Option<int> {
    if data.Some? then Some(data.value + d) else Option.None
  }

  /** The range and its source lie in memory. */
  predicate Fits(size: int, buffer: int, length: int, data: Option<int>) {
    0 <= length && 0 <= buffer && buffer + length <= size &&
        (data.Some? ==> 0 <= data.value && data.value + length <= size)
  }

  /** Memory after the bytes `[lo, hi)` of a put: the source, or zeros, and nothing else changed. */
  ghost function Put(m: seq<Byte>, buffer: int, lo: int, hi: int, data: Option<int>): (r: seq<Byte>)
    requires 0 <= lo && Fits(|m|, buffer, hi, data)
    ensures |r| == |m|
  {
    if data.Some? then Part(m, buffer, data.value, lo, hi) else Zeroed(m, buffer + lo, buffer + hi)
  }

  lemma PutNothing(m: seq<Byte>, buffer: int, at: int, data: Option<int>)
    requires Fits(|m|, buffer, at, data)
    ensures Put(m, buffer, at, at, data) == m
  {
  }

  /** A piece put by itself is that piece of the whole. */
  lemma PutPiece(m: seq<Byte>, buffer: int, lo: int, hi: int, data: Option<int>)
    requires 0 <= lo <= hi && Fits(|m|, buffer, hi, data)
    ensures Put(m, buffer + lo, 0, hi - lo, At(data, lo)) == Put(m, buffer, lo, hi, data)
  {
    hide Part, Zeroed;
    if data.Some? {
      PartShift(m, buffer, data.value, lo, hi);
    }
  }

  lemma PartShift(m: seq<Byte>, dst: int, src: int, lo: int, hi: int)
    requires 0 <= lo <= hi && 0 <= dst && dst + hi <= |m| && 0 <= src && src + hi <= |m|
    ensures Part(m, dst + lo, src + lo, 0, hi - lo) == Part(m, dst, src, lo, hi)
  {
    var x, y := Part(m, dst + lo, src + lo, 0, hi - lo), Part(m, dst, src, lo, hi);
    forall a | 0 <= a < |m| ensures x[a] == y[a] {
      assert src + lo + (a - (dst + lo)) == src + (a - dst);
    }
  }

  lemma PutForward(m: seq<Byte>, buffer: int, k: int, n: int, data: Option<int>)
    requires 0 <= k && 0 <= n && Fits(|m|, buffer, k + n, data) && (data.None? || buffer <= data.value || k == 0)
    ensures Put(Put(m, buffer, 0, k, data), buffer + k, 0, n, At(data, k)) == Put(m, buffer, 0, k + n, data)
  {
    PutPiece(Put(m, buffer, 0, k, data), buffer, k, k + n, data);
    if data.Some? {
      Forward(m, buffer, data.value, k, n);
    } else {
      ZeroedOn(m, buffer, buffer + k, buffer + k + n);
    }
  }

  lemma PutBackward(m: seq<Byte>, buffer: int, lo: int, mid: int, hi: int, data: Option<int>)
    requires 0 <= lo <= mid <= hi && Fits(|m|, buffer, hi, data) && data.Some? && data.value <= buffer
    ensures Put(Put(m, buffer, mid, hi, data), buffer + lo, 0, mid - lo, At(data, lo)) == Put(m, buffer, lo, hi, data)
  {
    PutPiece(Put(m, buffer, mid, hi, data), buffer, lo, mid, data);
    Backward(m, buffer, data.value, lo, mid, hi);
  }

  /** A piece of the range that went to the log: it lies in one page. */
  predicate InOnePage(piece: (int, int)) {
    0 < piece.1 && piece.0 / PAGE_SIZE == (piece.0 + piece.1 - 1) / PAGE_SIZE
  }

  lemma WithinPage(offset: int, n: int)
    requires 0 <= offset && 0 < n && InPage(offset) + n <= PAGE_SIZE
    ensures InOnePage((offset, n))
  {
  }

  /** The loop's variables between two pieces. */
  datatype Cursor = Cursor(offset: int, length: int, pageOffset: int, backwards: bool, data: Option<int>)

  /** Where the loop stands: forwards, before what is left of the range; backwards, at the last page of it. */
  predicate Standing(start: nat, total: nat, source: Option<int>, target: int, c: Cursor) {
    && 0 <= c.length <= total && start <= c.offset && c.data == At(source, c.offset - start)
    && (c.length != 0 ==> InPage(c.offset) == c.pageOffset)
    && (!c.backwards ==> c.offset == start + (total - c.length))
    && (!c.backwards && c.offset != start ==> !GoesBackwards(target, start, total, source))
    && (!c.backwards && c.offset != start && c.length != 0 ==> InPage(start) + total > PAGE_SIZE)
    && (c.backwards ==> c.offset == start + (c.length - if c.length < PAGE_SIZE then c.length else PAGE_SIZE)
                        && GoesBackwards(target, start, total, source) &&
                             (c.length != 0 ==> InPage(start + c.length) == 0))
  }

  /** The next piece, after the direction may have been switched: its size, and the cursor at it. */
  function NextPiece(c: Cursor, buffer: int): (int, Cursor) {
    if !c.backwards && c.data.Some? && buffer > c.data.value && c.pageOffset + c.length > PAGE_SIZE then
      var n := InPage(c.pageOffset + c.length - 1) + 1;
      (n, Cursor(c.offset + (c.length - n), c.length, 0, true, At(c.data, c.length - n)))
    else
      (if PAGE_SIZE - c.pageOffset > c.length then c.length else PAGE_SIZE - c.pageOffset, c)
  }

  /** Past a piece of `n` bytes. */
  function Past(c: Cursor, n: int): Cursor {
    var left := c.length - n;
    if c.backwards then
      var back := if left < PAGE_SIZE then left else PAGE_SIZE;
      Cursor(c.offset - back, left, if left < PAGE_SIZE then PAGE_SIZE - left else 0, true, At(c.data, -back))
    else Cursor(c.offset + n, left, 0, false, At(c.data, n))
  }

  /** The direction is switched before the first piece, or never. */
  lemma SwitchedAtOnce(start: nat, total: nat, source: Option<int>, target: int, view: int, c: Cursor)
    requires Standing(start, total, source, target, c) && c.length != 0 && target == view + start && !c.backwards
    ensures NextPiece(c, view + c.offset).1.backwards <==> GoesBackwards(target, start, total, source)
    ensures GoesBackwards(target, start, total, source) ==> c.offset == start && c.length == total
  {
    hide InPage;
    NextPage(start);
    if c.offset != start && InPage(start) + total <= PAGE_SIZE {
      SamePage(start, c.offset - start);
    }
  }

  /** The piece lies in one page and in the range, at the end of it that is still to be moved. */
  lemma PieceFacts(start: nat, total: nat, source: Option<int>, target: int, view: int, c: Cursor)
    requires Standing(start, total, source, target, c) && c.length != 0 && target == view + start
    ensures var (n, d) := NextPiece(c, view + c.offset);
            && 0 < n <= c.length && InOnePage((d.offset, n)) && start <= d.offset && d.offset + n <= start + total
            && d.length == c.length && d.data == At(source, d.offset - start)
            && d.offset - start == (if d.backwards then c.length - n else total - c.length)
            && (d.backwards ==> source.Some? && source.value <= target && (c.backwards || c.length == total))
            && (!d.backwards ==> !c.backwards && (source.None? || target <= source.value || c.length == total))
  {
    hide InOnePage, InPage;
    NextPage(c.offset);
    var (n, d) := NextPiece(c, view + c.offset);
    if c.backwards {
      BackwardOffsets(start, c.length);
    } else {
      SwitchedAtOnce(start, total, source, target, view, c);
      if d.backwards {
        LastPiece(start, total);
      }
    }
    WithinPage(d.offset, n);
  }

  /** Where a range that ends with a page has its last page. */
  lemma BackwardOffsets(start: int, length: int)
    requires 0 <= length && (length != 0 ==> InPage(start + length) == 0)
    ensures PAGE_SIZE <= length ==> InPage(start + length - PAGE_SIZE) == 0
    ensures 0 < length < PAGE_SIZE ==> InPage(start) == PAGE_SIZE - length
  {
    hide InPage;
    if PAGE_SIZE <= length {
      PageBefore(start + length);
    } else if 0 < length {
      ShortOfPage(start, length);
    }
  }

  lemma PastStands(start: nat, total: nat, source: Option<int>, target: int, view: int, c: Cursor)
    requires Standing(start, total, source, target, c) && c.length != 0 && target == view + start
    ensures var (n, d) := NextPiece(c, view + c.offset); Standing(start, total, source, target, Past(d, n))
  {
    hide InPage, InOnePage;
    PieceFacts(start, total, source, target, view, c);
    NextPage(c.offset);
    var (n, d) := NextPiece(c, view + c.offset);
    if c.backwards {
      BackwardOffsets(start, c.length);
      BackwardOffsets(start, c.length - n);
    } else {
      SwitchedAtOnce(start, total, source, target, view, c);
      if d.backwards {
        LastPiece(start, total);
        BackwardOffsets(start, c.length - n);
      }
    }
  }

  /** Memory when the loop stands at a cursor. */
  ghost function Progress(m: seq<Byte>, target: int, total: int, source: Option<int>, c: Cursor): seq<Byte>
    requires Fits(|m|, target, total, source) && 0 <= c.length <= total
  {
    if c.backwards then Put(m, target, c.length, total, source) else Put(m, target, 0, total - c.length, source)
  }

  lemma PieceMoves(m: seq<Byte>, start: nat, total: nat, source: Option<int>, target: int, view: int, c: Cursor)
    requires Standing(start, total, source, target, c) && c.length != 0 && target == view + start &&
               Fits(|m|, target, total, source)
    ensures var (n, d) := NextPiece(c, view + c.offset);
            && Fits(|m|, view + d.offset, n, d.data) && 0 < n <= c.length && d.length == c.length
            && Put(Progress(m, target, total, source, c), view + d.offset, 0, n, d.data) ==
                 Progress(m, target, total, source, Past(d, n))
  {
    hide InPage, InOnePage, Put;
    PieceFacts(start, total, source, target, view, c);
    var (n, d) := NextPiece(c, view + c.offset);
    FitsPart(|m|, target, total, source, d.offset - start, n);
    if d.backwards {
      if !c.backwards {
        PutNothing(m, target, total, source);
        PutNothing(m, target, 0, source);
      }
      PutBackward(m, target, d.offset - start, c.length, total, source);
    } else {
      PutForward(m, target, d.offset - start, n, source);
    }
  }

  class Stream {
    const mem: array<Byte>
    /** Where the stream's first byte is mapped. */
    const view: nat
    var validDataLength: nat
    /** The length last recorded in the attribute on disk, which only advances. */
    var diskLength: nat

    constructor (mem: array<Byte>, view: nat, length: nat)
      ensures this.mem == mem && this.view == view && validDataLength == diskLength == length
    {
      this.mem, this.view, validDataLength, diskLength := mem, view, length, length;
    }

    /** One piece of the range. */
    method MovePiece(buffer: nat, n: nat, data: Option<int>)
      requires Fits(mem.Length, buffer, n, data)
      modifies mem
      ensures mem[..] == Put(old(mem[..]), buffer, 0, n, data)
    {
      if data.Some? {
        Move(mem, buffer, data.value, n);
      } else {
        Zero(mem, buffer, n);
      }
    }

    /** The page loop.  It ends with the offset behind the range, or at its start if it went backwards. */
    method MovePages(start: nat, total: nat, source: Option<int>) returns (end: int, ghost pieces: seq<(int, int)>)
      requires Fits(mem.Length, view + start, total, source)
      modifies mem
      ensures mem[..] == Put(old(mem[..]), view + start, 0, total, source)
      ensures end == if GoesBackwards(view + start, start, total, source) then start else start + total
      ensures forall p | p in pieces :: InOnePage(p) && start <= p.0 && p.0 + p.1 <= start + total
    {
      hide Put, InOnePage, Standing, At, InPage, GoesBackwards, Progress, Fits;
      ghost var m, target := mem[..], view + start;
      var offset: int, length: int, pageOffset, movingBackwards, data := start, total, InPage(start), false, source;
      pieces := [];
      Standing0(m, start, total, source, target);
      while length != 0
        invariant 0 <= length <= total &&
                    Standing(start, total, source, target, Cursor(offset, length, pageOffset, movingBackwards, data))
        invariant mem[..] == Progress(m, target, total, source,
                                      Cursor(offset, length, pageOffset, movingBackwards, data))
        invariant forall p | p in pieces :: InOnePage(p) && start <= p.0 && p.0 + p.1 <= start + total
        decreases length
      {
        ghost var cursor := Cursor(offset, length, pageOffset, movingBackwards, data);
        PieceFacts(start, total, source, target, view, cursor);
        PastStands(start, total, source, target, view, cursor);
        PieceMoves(m, start, total, source, target, view, cursor);
        var bytesThisPage := PAGE_SIZE - pageOffset;
        if bytesThisPage > length {
          bytesThisPage := length;
        }
        var buffer := view + offset;
        if !movingBackwards && data.Some? && buffer > data.value && pageOffset + length > PAGE_SIZE {
          movingBackwards := true;
          bytesThisPage := InPage(pageOffset + length - 1) + 1;
          pageOffset := length - bytesThisPage;
          offset := offset + pageOffset;
          data := At(data, pageOffset);
          buffer := buffer + pageOffset;
          pageOffset := 0;
        }
        ghost var piece := Cursor(offset, length, pageOffset, movingBackwards, data);
        ghost var n := bytesThisPage;
        assert (bytesThisPage, piece) == NextPiece(cursor, view + cursor.offset);
        MovePiece(buffer, bytesThisPage, data);
        pieces := pieces + [(offset, bytesThisPage)];
        length := length - bytesThisPage;
        pageOffset := 0;
        if movingBackwards {
          bytesThisPage := PAGE_SIZE;
          if length < PAGE_SIZE {
            pageOffset := PAGE_SIZE - length;
            bytesThisPage := length;
          }
          data := At(data, -bytesThisPage);
          offset := offset - bytesThisPage;
        } else {
          data := At(data, bytesThisPage);
          offset := offset + bytesThisPage;
        }
        assert Cursor(offset, length, pageOffset, movingBackwards, data) == Past(piece, n);
      }
      StandingEnd(m, start, total, source, target, Cursor(offset, length, pageOffset, movingBackwards, data));
      end := offset;
    }

    /** NtOfsPutData on a nonresident stream.  What lies between the valid data and the range is zeroed first. */
    method PutData(offset: nat, length: nat, data: Option<int>)
      requires Fits(mem.Length, view + offset, length, data)
      modifies this`validDataLength, this`diskLength, mem
      ensures mem[..] == Put(Gapless(old(mem[..]), view, old(validDataLength), offset), view + offset, 0, length, data)
      ensures Brought(old(mem[..]), mem[..], view + offset, length, data, view, old(validDataLength), offset)
      ensures validDataLength ==
                if old(validDataLength) < offset + length then offset + length else old(validDataLength)
      ensures var backwards := data.Some? && data.value < view + offset && PAGE_SIZE < offset % PAGE_SIZE + length;
              var recorded := if backwards then offset else offset + length;
              diskLength == if old(validDataLength) < offset + length && old(diskLength) < recorded then recorded
                            else old(diskLength)
    {
      hide *;
      BroughtByPut(mem[..], view + offset, length, data, view, validDataLength, offset);
      BackwardsMeans(view + offset, offset, length, data);
      MaxIs(validDataLength, offset + length);
      MaxIs(diskLength, offset);
      MaxIs(diskLength, offset + length);
      PutOrExtend(offset, length, data);
    }

    /** The routine itself, which calls itself to zero what lies before the range. */
    method PutOrExtend(offset: nat, length: nat, data: Option<int>)
      requires Fits(mem.Length, view + offset, length, data)
      modifies this`validDataLength, this`diskLength, mem
      ensures mem[..] == Put(Gapless(old(mem[..]), view, old(validDataLength), offset), view + offset, 0, length, data)
      ensures validDataLength == Max(old(validDataLength), offset + length)
      ensures var recorded := if GoesBackwards(view + offset, offset, length, data) then offset else offset + length;
              diskLength == if old(validDataLength) < offset + length then Max(old(diskLength), recorded)
                            else old(diskLength)
      decreases if offset > validDataLength then 1 else 0
    {
      hide Put, Zeroed, InPage;
      var newValidDataLength := offset + length;
      NoGap(mem[..], view, offset);
      if offset > validDataLength {
        FillsGap(mem[..], view, validDataLength, offset);
        PutOrExtend(validDataLength, offset - validDataLength, Option.None);
      }
      BackwardsMoves(view + offset, offset, length, data);
      var end, pieces := MovePages(offset, length, data);
      if newValidDataLength > validDataLength {
        validDataLength := newValidDataLength;
        if end > diskLength {
          diskLength := end;
        }
      }
    }
  }

  lemma BackwardsMoves(buffer: int, offset: nat, length: nat, data: Option<int>)
    ensures GoesBackwards(buffer, offset, length, data) ==> 0 < length
  {
  }

  lemma BackwardsMeans(buffer: int, offset: nat, length: nat, data: Option<int>)
    ensures GoesBackwards(buffer, offset, length, data) <==>
            data.Some? && data.value < buffer && PAGE_SIZE < offset % PAGE_SIZE + length
  {
  }

  /** Every byte after a put: in the range, what was at its place in the source, or zero if there is none or it
      lay in the gap that is zeroed first; in that gap, zero; elsewhere what it was. */
  ghost predicate Brought(m: seq<Byte>, r: seq<Byte>, buffer: int, length: nat, data: Option<int>, view: nat,
                          validDataLength: int, offset: int)
    requires Fits(|m|, buffer, length, data)
  {
    && |r| == |m|
    && forall a {:trigger r[a]} | 0 <= a < |m| ::
         if buffer <= a < buffer + length then
           r[a] == (if data.Some? && !InGap(data.value + (a - buffer), view, validDataLength, offset)
                    then m[data.value + (a - buffer)] else 0)
         else r[a] == if InGap(a, view, validDataLength, offset) then 0 else m[a]
  }

  lemma BroughtByPut(m: seq<Byte>, buffer: int, length: nat, data: Option<int>, view: nat, validDataLength: int,
                     offset: int)
    requires Fits(|m|, buffer, length, data)
    ensures Brought(m, Put(Gapless(m, view, validDataLength, offset), buffer, 0, length, data), buffer, length, data,
                    view, validDataLength, offset)
  {
  }

  function Max(a: int, b: int): int { if a < b then b else a }

  lemma MaxIs(a: int, b: int)
    ensures Max(a, b) == if a < b then b else a
  {
  }

  /** Memory when the stream's valid data has been extended with zeros up to the offset. */
  ghost function Gapless(m: seq<Byte>, view: nat, validDataLength: int, offset: int): (r: seq<Byte>)
    ensures |r| == |m|
  {
    if validDataLength < offset then Zeroed(m, view + validDataLength, view + offset) else m
  }

  lemma NoGap(m: seq<Byte>, view: nat, offset: nat)
    ensures forall v | offset <= v :: Gapless(m, view, v, offset) == m
  {
  }

  lemma FillsGap(m: seq<Byte>, view: nat, validDataLength: nat, offset: nat)
    requires validDataLength <= offset && view + offset <= |m|
    ensures Gapless(m, view, validDataLength, validDataLength) == m
    ensures validDataLength < offset ==>
              Put(m, view + validDataLength, 0, offset - validDataLength, Option.None) ==
                  Gapless(m, view, validDataLength, offset)
  {
  }

  /** Whether a byte at this address is zeroed before the move. */
  predicate InGap(a: int, view: nat, validDataLength: int, offset: int) {
    view + validDataLength <= a < view + offset
  }

  /** The range ends up with the bytes its source had, just if no byte of the source other than zero lies
      where the stream is extended. */
  lemma PutIsMemmove(m: seq<Byte>, view: nat, validDataLength: nat, offset: nat, length: nat, data: nat)
    requires Fits(|m|, view + offset, length, Some(data))
    ensures var r := Put(Gapless(m, view, validDataLength, offset), view + offset, 0, length, Some(data));
            r[view + offset..view + offset + length] == m[data..data + length] <==>
            (forall a | data <= a < data + length && InGap(a, view, validDataLength, offset) :: m[a] == 0)
  {
    var g := Gapless(m, view, validDataLength, offset);
    var r := Put(g, view + offset, 0, length, Some(data));
    var x, y := r[view + offset..view + offset + length], m[data..data + length];
    assert x == g[data..data + length];
    if x == y {
      forall a | data <= a < data + length && InGap(a, view, validDataLength, offset) ensures m[a] == 0 {
        assert x[a - data] == g[a] == 0 && y[a - data] == m[a];
      }
    }
  }

  /** An empty stream is mapped where the source lies, a byte of 7 at address 1: putting it at offset 2 puts 0. */
  lemma GapLosesSource()
    ensures var m: seq<Byte> := [0, 7, 0];
            Put(Gapless(m, 0, 0, 2), 2, 0, 1, Some(1)) == [0, 0, 0] && m[1] != 0
  {
  }

  /** And nothing else changes. */
  lemma PutFrame(m: seq<Byte>, view: nat, validDataLength: nat, offset: nat, length: nat, data: Option<int>, a: nat)
    requires Fits(|m|, view + offset, length, data) && a < |m| && !(view + offset <= a < view + offset + length)
    ensures Put(Gapless(m, view, validDataLength, offset), view + offset, 0, length, data)[a] ==
            if InGap(a, view, validDataLength, offset) then 0 else m[a]
  {
  }

  /** A put that extends the stream and goes backwards records the start of the range on disk, not its end. */
  method BackwardsLosesLength() returns (s: Stream)
    ensures s.diskLength != s.validDataLength
  {
    var mem := new Byte[4 * PAGE_SIZE](_ => 0);
    s := new Stream(mem, 1, 0);
    s.PutData(0, PAGE_SIZE + 1, Some(0));
    BackwardsWitness();
  }

  lemma BackwardsWitness()
    ensures GoesBackwards(1, 0, PAGE_SIZE + 1, Some(0))
  {
  }

  lemma Standing0(m: seq<Byte>, start: nat, total: nat, source: Option<int>, target: int)
    requires Fits(|m|, target, total, source)
    ensures var c := Cursor(start, total, InPage(start), false, source);
            Standing(start, total, source, target, c) && Progress(m, target, total, source, c) == m
  {
    PutNothing(m, target, 0, source);
  }

  lemma StandingEnd(m: seq<Byte>, start: nat, total: nat, source: Option<int>, target: int, c: Cursor)
    requires Standing(start, total, source, target, c) && c.length == 0 && Fits(|m|, target, total, source)
    ensures c.offset == if GoesBackwards(target, start, total, source) then start else start + total
    ensures Progress(m, target, total, source, c) == Put(m, target, 0, total, source)
  {
  }

  lemma FitsPart(size: int, target: int, total: int, source: Option<int>, at: int, n: int)
    requires Fits(size, target, total, source) && 0 <= at && 0 <= n && at + n <= total
    ensures Fits(size, target + at, n, At(source, at))
  {
  }
}
