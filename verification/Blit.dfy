/** Rectangle blitting between overlapping rectangles of one frame buffer (`NQD_bitblt`). */
module Blit {
  import opened Bytes
  import opened Rows

  /** `height` rows of `width` bytes each, taken from `src` and put at `dst`; strides may be negative. */
  datatype Job = Job(src: int, dst: int, srcStride: int, dstStride: int, width: nat, height: nat)

  function From(job: Job, k: nat): int {
    Row(job.src, job.srcStride, k)
  }

  function To(job: Job, k: nat): int {
    Row(job.dst, job.dstStride, k)
  }

  ghost predicate InBounds(job: Job, size: nat) {
    forall k | 0 <= k < job.height :: RowInBounds(job, k, size)
  }

  predicate RowInBounds(job: Job, k: nat, size: nat) {
    && 0 <= From(job, k) && From(job, k) + job.width <= size
    && 0 <= To(job, k) && To(job, k) + job.width <= size
  }

  /** Memory after the first `n` rows have been moved, one after the other. */
  ghost function Blitted(mem: seq<Byte>, job: Job, n: nat): (r: seq<Byte>)
    requires n <= job.height && InBounds(job, |mem|)
    ensures |r| == |mem|
  {
    if n == 0 then mem else
    var m := Blitted(mem, job, n - 1);
    assert RowInBounds(job, n - 1, |mem|);
    Overwrite(m, To(job, n - 1), m[From(job, n - 1)..From(job, n - 1) + job.width])
  }

  /** Destination row `k` holds what source row `k` held before the call. */
  ghost predicate RowMoved(mem: seq<Byte>, after: seq<Byte>, job: Job, k: nat)
    requires RowInBounds(job, k, |mem|) && |after| == |mem|
  {
    after[To(job, k)..To(job, k) + job.width] == mem[From(job, k)..From(job, k) + job.width]
  }

  /** The stretch of `w` bytes at `b` lies outside the first `n` destination rows. */
  ghost predicate Outside(b: int, w: nat, job: Job, n: nat) {
    forall k | 0 <= k < n :: Apart(To(job, k), job.width, b, w)
  }

  /** Every row arrived, and nothing outside the destination changed. */
  ghost predicate Correct(mem: seq<Byte>, after: seq<Byte>, job: Job)
    requires InBounds(job, |mem|) && |after| == |mem|
  {
    && (forall k | 0 <= k < job.height :: RowMoved(mem, after, job, k))
    && (forall a | 0 <= a < |mem| && Outside(a, 1, job, job.height) :: after[a] == mem[a])
  }

  /** Moving row `j` leaves the later source row `k` alone. */
  predicate Spares(job: Job, j: nat, k: nat) {
    Apart(To(job, j), job.width, From(job, k), job.width)
  }

  /** No row's move hits a source row that is still to be moved. */
  ghost predicate NoClobber(job: Job) {
    forall j, k | 0 <= j < k < job.height :: Spares(job, j, k)
  }

  /** The rows of the destination do not overlap each other. */
  predicate RowsApart(job: Job) {
    job.width <= job.dstStride || job.width <= -job.dstStride
  }

  lemma RowsDisjoint(job: Job, j: nat, k: nat)
    requires RowsApart(job) && j < k
    ensures Apart(To(job, k), job.width, To(job, j), job.width)
  {
    RowDistance(job.dst, job.dstStride, j, k);
    RowGrows(job.dstStride, k - j);
  }

  /** What lies outside the destination rows moved so far is untouched. */
  lemma {:induction false} BlittedOutside(mem: seq<Byte>, job: Job, n: nat, b: nat, w: nat)
    requires n <= job.height && InBounds(job, |mem|) && b + w <= |mem| && Outside(b, w, job, n)
    ensures Blitted(mem, job, n)[b..b + w] == mem[b..b + w]
  {
    hide Overwrite, Row;
    if n > 0 {
      assert RowInBounds(job, n - 1, |mem|);
      BlittedOutside(mem, job, n - 1, b, w);
      var m := Blitted(mem, job, n - 1);
      OverwriteMisses(m, To(job, n - 1), m[From(job, n - 1)..From(job, n - 1) + job.width], b, w);
    }
  }

  /** A destination row holds the source row as it was when the row's turn came. */
  lemma {:induction false} BlittedRow(mem: seq<Byte>, job: Job, n: nat, k: nat)
    requires k < n <= job.height && InBounds(job, |mem|) && RowsApart(job)
    ensures RowInBounds(job, k, |mem|)
    ensures Blitted(mem, job, n)[To(job, k)..To(job, k) + job.width]
         == Blitted(mem, job, k)[From(job, k)..From(job, k) + job.width]
  {
    hide Overwrite, Row;
    assert RowInBounds(job, n - 1, |mem|);
    assert RowInBounds(job, k, |mem|);
    var m := Blitted(mem, job, n - 1);
    var data := m[From(job, n - 1)..From(job, n - 1) + job.width];
    if k < n - 1 {
      BlittedRow(mem, job, n - 1, k);
      RowsDisjoint(job, k, n - 1);
      OverwriteMisses(m, To(job, n - 1), data, To(job, k), job.width);
    } else {
      OverwriteHits(m, To(job, k), data);
    }
  }

  lemma SourceRowStays(job: Job, k: nat)
    requires NoClobber(job) && k < job.height
    ensures Outside(From(job, k), job.width, job, k)
  {
    hide From, To;
    forall j | 0 <= j < k
      ensures Apart(To(job, j), job.width, From(job, k), job.width)
    {
      assert Spares(job, j, k);
    }
  }

  lemma SafeRowMoved(mem: seq<Byte>, job: Job, k: nat)
    requires InBounds(job, |mem|) && RowsApart(job) && NoClobber(job) && k < job.height
    ensures RowInBounds(job, k, |mem|)
    ensures RowMoved(mem, Blitted(mem, job, job.height), job, k)
  {
    hide Blitted, From, To, NoClobber, Outside, InBounds, RowMoved;
    BlittedRow(mem, job, job.height, k);
    SourceRowStays(job, k);
    BlittedOutside(mem, job, k, From(job, k), job.width);
    MovedBySlices(mem, Blitted(mem, job, k), Blitted(mem, job, job.height), job, k);
  }

  /** What arrives is what stood there when the row's turn came, which is what stood there first. */
  lemma MovedBySlices(mem: seq<Byte>, mid: seq<Byte>, after: seq<Byte>, job: Job, k: nat)
    requires |mid| == |after| == |mem| && RowInBounds(job, k, |mem|)
    requires after[To(job, k)..To(job, k) + job.width] == mid[From(job, k)..From(job, k) + job.width]
    requires mid[From(job, k)..From(job, k) + job.width] == mem[From(job, k)..From(job, k) + job.width]
    ensures RowMoved(mem, after, job, k)
  {
    hide From, To;
  }

  /** Without clobbering the blit is correct. */
  lemma SafeBlitIsCorrect(mem: seq<Byte>, job: Job)
    requires InBounds(job, |mem|) && RowsApart(job) && NoClobber(job)
    ensures Correct(mem, Blitted(mem, job, job.height), job)
  {
    hide Blitted, Row, From, To, RowMoved, RowInBounds, NoClobber;
    var after := Blitted(mem, job, job.height);
    forall k | 0 <= k < job.height
      ensures RowMoved(mem, after, job, k)
    {
      SafeRowMoved(mem, job, k);
    }
    forall a | 0 <= a < |mem| && Outside(a, 1, job, job.height)
      ensures after[a] == mem[a]
    {
      BlittedOutside(mem, job, job.height, a, 1);
      assert after[a..a + 1][0] == mem[a..a + 1][0];
    }
  }

  /** Of two equally strided rectangles, `j` rows apart clash exactly like row 0 and row `k - j`. */
  lemma ClashMovesUp(job: Job, j: nat, k: nat)
    requires job.srcStride == job.dstStride && j < k
    ensures Spares(job, j, k) <==> Spares(job, 0, k - j)
  {
    RowDistance(job.src, job.srcStride, k - j, k);
    RowDistance(job.dst, job.dstStride, 0, j);
    RowDistance(0, job.dstStride, k - j, k);
  }

  /** When row 0 hits source row `k` at address `hit`, row `k` carries on the wrong byte. */
  lemma ClobberedByte(mem: seq<Byte>, job: Job, k: nat, x: nat, y: nat)
    requires InBounds(job, |mem|) && RowsApart(job) && 0 < k < job.height && x < job.width && y < job.width
    requires From(job, k) + x == To(job, 0) + y
    ensures RowInBounds(job, 0, |mem|) && RowInBounds(job, k, |mem|)
    ensures Blitted(mem, job, job.height)[To(job, k) + x] == mem[From(job, 0) + y]
  {
    hide Blitted, Row, From, To;
    BlittedRow(mem, job, job.height, k);
    BlittedRow(mem, job, k, 0);
    var last, mid := Blitted(mem, job, job.height), Blitted(mem, job, k);
    assert last[To(job, k) + x] == last[To(job, k)..To(job, k) + job.width][x];
    assert mid[From(job, k) + x] == mid[From(job, k)..From(job, k) + job.width][x];
    assert mid[To(job, 0) + y] == mid[To(job, 0)..To(job, 0) + job.width][y];
    NothingMoved(mem, job);
    assert mem[From(job, 0) + y] == mem[From(job, 0)..From(job, 0) + job.width][y];
  }

  lemma NothingMoved(mem: seq<Byte>, job: Job)
    requires InBounds(job, |mem|)
    ensures Blitted(mem, job, 0) == mem
  {
  }

  /** If row 0 clobbers source row `k`, some frame buffer content comes out wrong. */
  lemma ClobberedContent(size: nat, job: Job, k: nat) returns (mem: seq<Byte>)
    requires InBounds(job, size) && RowsApart(job) && 0 < k < job.height
    requires !Spares(job, 0, k) && job.dst != job.src
    ensures |mem| == size && !Correct(mem, Blitted(mem, job, job.height), job)
  {
    hide Blitted;
    var d := To(job, 0) - From(job, k);
    var y := if d < 0 then -d else 0;
    var x := y + d;
    var hit := From(job, k) + x;
    mem := seq(size, a => if a == hit then 1 else 0);
    ClobberedByte(mem, job, k, x, y);
    WrongByte(mem, Blitted(mem, job, job.height), job, k, x, y);
  }

  lemma MovedByte(mem: seq<Byte>, after: seq<Byte>, job: Job, k: nat, x: nat)
    requires RowInBounds(job, k, |mem|) && |after| == |mem| && x < job.width
    ensures RowMoved(mem, after, job, k) ==> after[To(job, k) + x] == mem[From(job, k) + x]
  {
    hide Row;
    assert after[To(job, k)..To(job, k) + job.width][x] == after[To(job, k) + x];
    assert mem[From(job, k)..From(job, k) + job.width][x] == mem[From(job, k) + x];
  }

  lemma WrongByte(mem: seq<Byte>, after: seq<Byte>, job: Job, k: nat, x: nat, y: nat)
    requires InBounds(job, |mem|) && |after| == |mem| && k < job.height && x < job.width && y < job.width
    requires RowInBounds(job, 0, |mem|) && RowInBounds(job, k, |mem|)
    requires From(job, k) + x == To(job, 0) + y && job.src != job.dst
    requires forall a | 0 <= a < |mem| :: mem[a] == if a == From(job, k) + x then 1 else 0
    requires after[To(job, k) + x] == mem[From(job, 0) + y]
    ensures !Correct(mem, after, job)
  {
    MovedByte(mem, after, job, k, x);
  }

  /** A rectangle moved to where it is clobbers nothing. */
  lemma SamePlaceIsSafe(job: Job)
    requires RowsApart(job) && job.srcStride == job.dstStride && job.dst == job.src
    ensures NoClobber(job)
  {
    if job.width > 0 {
      DirectionIsSafe(job);
    }
  }

  /** With equal strides, the blit gives the right result for every frame buffer content exactly
      when no row's move clobbers a source row still to come. */
  lemma BlitCorrectness(size: nat, job: Job)
    requires InBounds(job, size) && RowsApart(job) && job.srcStride == job.dstStride
    ensures (forall mem: seq<Byte> | |mem| == size :: Correct(mem, Blitted(mem, job, job.height), job))
       <==> NoClobber(job)
  {
    hide Correct, Blitted, Spares, InBounds;
    if NoClobber(job) {
      forall mem: seq<Byte> | |mem| == size
        ensures Correct(mem, Blitted(mem, job, job.height), job)
      {
        SafeBlitIsCorrect(mem, job);
      }
    } else {
      if job.dst == job.src {
        SamePlaceIsSafe(job);
      }
      var j, k :| 0 <= j < k < job.height && !Spares(job, j, k);
      ClashMovesUp(job, j, k);
      var mem := ClobberedContent(size, job, k - j);
    }
  }

  /** Rectangles of equal strides, moved up (or in place) from the top row down, or down from the
      bottom row up. */
  predicate RightDirection(job: Job) {
    && job.srcStride == job.dstStride
    && ((job.dstStride > 0 && job.dst <= job.src) || (job.dstStride < 0 && job.dst >= job.src))
  }

  lemma DirectionIsSafe(job: Job)
    requires RowsApart(job) && RightDirection(job)
    ensures NoClobber(job)
  {
    forall j, k | 0 <= j < k < job.height
      ensures Spares(job, j, k)
    {
      ClashMovesUp(job, j, k);
      RowDistance(job.src, job.srcStride, 0, k - j);
      RowGrows(job.srcStride, k - j);
    }
  }

  /** `memmove`: the source is read as if before any write. */
  method MoveBytes(mem: array<Byte>, dst: nat, src: nat, n: nat)
    requires dst + n <= mem.Length && src + n <= mem.Length
    modifies mem
    ensures mem[..] == Overwrite(old(mem[..]), dst, old(mem[src..src + n]))
  {
    hide Overwrite;
    var data := mem[src..src + n];
    ghost var before := mem[..];
    for i := 0 to n
      invariant forall a | 0 <= a < mem.Length && !(dst <= a < dst + i) :: mem[a] == before[a]
      invariant forall j | 0 <= j < i :: mem[dst + j] == data[j]
    {
      mem[dst + i] := data[i];
    }
    OverwrittenWhere(before, mem[..], dst, data);
  }

  lemma OverwrittenWhere(before: seq<Byte>, after: seq<Byte>, dst: nat, data: seq<Byte>)
    requires |after| == |before| && dst + |data| <= |before|
    requires forall a | 0 <= a < |before| && !(dst <= a < dst + |data|) :: after[a] == before[a]
    requires forall j | 0 <= j < |data| :: after[dst + j] == data[j]
    ensures after == Overwrite(before, dst, data)
  {
    assert after[dst..dst + |data|] == data;
    assert after == after[..dst] + after[dst..dst + |data|] + after[dst + |data|..];
  }

  /** The row loop, top-down for positive strides and bottom-up for negative ones. */
  method MoveRows(mem: array<Byte>, job: Job)
    requires InBounds(job, mem.Length)
    modifies mem
    ensures mem[..] == Blitted(old(mem[..]), job, job.height)
  {
    hide Overwrite, InBounds;
    var src, dst := job.src, job.dst;
    ghost var before := mem[..];
    for i := 0 to job.height
      invariant src == From(job, i) && dst == To(job, i)
      invariant mem[..] == Blitted(before, job, i)
    {
      RowFits(job, i, mem.Length);
      ghost var now := mem[..];
      assert now[src..src + job.width] == mem[src..src + job.width];
      MoveBytes(mem, dst, src, job.width);
      src, dst := src + job.srcStride, dst + job.dstStride;
    }
  }

  lemma RowFits(job: Job, k: nat, size: nat)
    requires InBounds(job, size) && k < job.height
    ensures RowInBounds(job, k, size)
  {
  }

  /** The rows in the order the blit visits them: from the top for positive source row bytes, from
      the bottom otherwise. */
  function JobOf(s: Rect, d: Rect, bpp: nat, width: nat, height: int): Job {
    var forward := s.rowBytes > 0;
    var first := if forward then 0 else height - 1;
    Job(RectRow(s, forward, bpp, first), RectRow(d, forward, bpp, first),
        s.rowBytes, d.rowBytes, width, if height < 0 then 0 else height)
  }

  /** Which row of the rectangle the `k`-th move takes. */
  function RowTaken(s: Rect, height: int, k: int): int {
    if s.rowBytes > 0 then k else height - 1 - k
  }

  lemma RowVisited(s: Rect, r: Rect, bpp: nat, height: int, k: nat)
    ensures Row(RectRow(r, s.rowBytes > 0, bpp, if s.rowBytes > 0 then 0 else height - 1), r.rowBytes, k)
         == RectRow(r, s.rowBytes > 0, bpp, RowTaken(s, height, k))
  {
    if s.rowBytes > 0 {
      RowIs(RectRow(r, true, bpp, 0), r.rowBytes, k);
      assert (r.y + k) * r.rowBytes == (r.y + 0) * r.rowBytes + k * r.rowBytes;
    } else {
      RowIs(RectRow(r, false, bpp, height - 1), r.rowBytes, k);
      assert (r.y + (height - 1 - k)) * -r.rowBytes == (r.y + (height - 1)) * -r.rowBytes + k * r.rowBytes;
    }
  }

  /** The rectangle at `d` holds what the rectangle at `s` held, row by row; all else is as before. */
  ghost predicate RectCopied(mem: seq<Byte>, after: seq<Byte>, s: Rect, d: Rect, bpp: nat, width: nat, height: int)
    requires |after| == |mem|
  {
    && (forall k | 0 <= k < height :: RectRowCopied(mem, after, s, d, bpp, width, k))
    && (forall a | 0 <= a < |mem| && OutsideRect(a, d, s.rowBytes > 0, bpp, width, height) :: after[a] == mem[a])
  }

  ghost predicate RectRowCopied(mem: seq<Byte>, after: seq<Byte>, s: Rect, d: Rect, bpp: nat, width: nat, k: int)
    requires |after| == |mem|
  {
    var from, to := RectRow(s, s.rowBytes > 0, bpp, k), RectRow(d, s.rowBytes > 0, bpp, k);
    && 0 <= from && from + width <= |mem| && 0 <= to && to + width <= |mem|
    && after[to..to + width] == mem[from..from + width]
  }

  ghost predicate OutsideRect(a: int, d: Rect, forward: bool, bpp: nat, width: nat, height: int) {
    forall k | 0 <= k < height :: Apart(RectRow(d, forward, bpp, k), width, a, 1)
  }

  /** A correct job is a correctly copied rectangle. */
  lemma JobCopiesRect(mem: seq<Byte>, after: seq<Byte>, s: Rect, d: Rect, bpp: nat, width: nat, height: int)
    requires |after| == |mem| && InBounds(JobOf(s, d, bpp, width, height), |mem|)
    requires Correct(mem, after, JobOf(s, d, bpp, width, height))
    ensures RectCopied(mem, after, s, d, bpp, width, height)
  {
    hide Row, RectRow;
    var job := JobOf(s, d, bpp, width, height);
    forall k | 0 <= k < height
      ensures RectRowCopied(mem, after, s, d, bpp, width, k)
    {
      var i := RowTaken(s, height, k);
      RowVisited(s, s, bpp, height, i);
      RowVisited(s, d, bpp, height, i);
      assert RowInBounds(job, i, |mem|) && RowMoved(mem, after, job, i);
    }
    forall a | 0 <= a < |mem| && OutsideRect(a, d, s.rowBytes > 0, bpp, width, height)
      ensures after[a] == mem[a]
    {
      forall i | 0 <= i < job.height
        ensures Apart(To(job, i), width, a, 1)
      {
        RowVisited(s, d, bpp, height, i);
        assert Apart(RectRow(d, s.rowBytes > 0, bpp, RowTaken(s, height, i)), width, a, 1);
      }
    }
  }

  /** The pixel at (i, j) of the rectangle at `d` holds what the one of the rectangle at `s` held. */
  ghost predicate PixelCopied(mem: seq<Byte>, after: seq<Byte>, s: Rect, d: Rect, bpp: nat, i: int, j: int)
    requires |after| == |mem|
  {
    var stride := if s.rowBytes > 0 then s.rowBytes else -s.rowBytes;
    var from := PixelAt(s.base, stride, bpp, s.x + i, s.y + j);
    var to := PixelAt(d.base, stride, bpp, d.x + i, d.y + j);
    && 0 <= from && from + bpp <= |mem| && 0 <= to && to + bpp <= |mem|
    && after[to..to + bpp] == mem[from..from + bpp]
  }

  lemma PartCopied(mem: seq<Byte>, after: seq<Byte>, from: nat, to: nat, w: nat, off: nat, n: nat)
    requires |after| == |mem| && from + w <= |mem| && to + w <= |mem| && off + n <= w
    requires after[to..to + w] == mem[from..from + w]
    ensures after[to + off..to + off + n] == mem[from + off..from + off + n]
  {
    var now, was := after[to + off..to + off + n], mem[from + off..from + off + n];
    forall k | 0 <= k < n
      ensures now[k] == was[k]
    {
      assert now[k] == after[to..to + w][off + k];
      assert was[k] == mem[from..from + w][off + k];
    }
  }

  lemma StrideIs(s: Rect, d: Rect)
    requires s.rowBytes == d.rowBytes
    ensures var forward := s.rowBytes > 0;
            Stride(s, forward) == Stride(d, forward) == if s.rowBytes > 0 then s.rowBytes else -s.rowBytes
  {
  }

  /** A row copied is copied pixel by pixel. */
  lemma RowsHoldPixels(mem: seq<Byte>, after: seq<Byte>, s: Rect, d: Rect, bpp: nat, w: nat,
                       i: int, j: int, off: nat)
    requires |after| == |mem| && s.rowBytes == d.rowBytes && off == i * bpp && off + bpp <= w
    requires RectRowCopied(mem, after, s, d, bpp, w, j)
    ensures PixelCopied(mem, after, s, d, bpp, i, j)
  {
    hide PixelAt, RectRow, Stride;
    var forward := s.rowBytes > 0;
    StrideIs(s, d);
    RowHoldsPixels(s, forward, bpp, i, j);
    RowHoldsPixels(d, forward, bpp, i, j);
    PartCopied(mem, after, RectRow(s, forward, bpp, j), RectRow(d, forward, bpp, j), w, off, bpp);
  }

  lemma AllPixelsCopied(mem: seq<Byte>, after: seq<Byte>, s: Rect, d: Rect, bpp: nat, width: int, height: int)
    requires |after| == |mem| && s.rowBytes == d.rowBytes && 0 <= width * bpp
    requires RectCopied(mem, after, s, d, bpp, width * bpp, height)
    ensures forall i, j | 0 <= i < width && 0 <= j < height :: PixelCopied(mem, after, s, d, bpp, i, j)
  {
    hide PixelCopied, RectRowCopied;
    forall i, j | 0 <= i < width && 0 <= j < height
      ensures PixelCopied(mem, after, s, d, bpp, i, j)
    {
      PixelInRow(bpp, width, i);
      RowsHoldPixels(mem, after, s, d, bpp, width * bpp, i, j, i * bpp);
    }
  }

  /** The copy runs away from the overlap: rows are taken from the top when the rectangle moves to
      a lower address (or stays), from the bottom when it moves to a higher one. */
  predicate AwayFromOverlap(s: Rect, d: Rect, bpp: nat) {
    var from, to := RectRow(s, s.rowBytes > 0, bpp, 0), RectRow(d, s.rowBytes > 0, bpp, 0);
    && s.rowBytes == d.rowBytes
    && ((s.rowBytes > 0 && to <= from) || (s.rowBytes < 0 && to >= from))
  }

  lemma AwayIsRightDirection(s: Rect, d: Rect, bpp: nat, width: nat, height: int)
    requires AwayFromOverlap(s, d, bpp)
    ensures RightDirection(JobOf(s, d, bpp, width, height))
  {
    if s.rowBytes < 0 {
      assert (s.y + (height - 1)) * -s.rowBytes == (s.y + 0) * -s.rowBytes + (height - 1) * -s.rowBytes;
      assert (d.y + (height - 1)) * -s.rowBytes == (d.y + 0) * -s.rowBytes + (height - 1) * -s.rowBytes;
    }
  }

  /** The whole operation. The row width in bytes is kept in an `int16`. */
  method NqdBitblt(mem: array<Byte>, s: Rect, d: Rect, bpp: nat, width: int, height: int)
    requires Signed16(width * bpp) >= 0
    requires InBounds(JobOf(s, d, bpp, Signed16(width * bpp), height), mem.Length)
    modifies mem
    ensures mem[..] ==
            var job := JobOf(s, d, bpp, Signed16(width * bpp), height);
            Blitted(old(mem[..]), job, job.height)
    ensures AwayFromOverlap(s, d, bpp) && 0 <= width * bpp <= 32767
            && (width * bpp <= s.rowBytes || width * bpp <= -s.rowBytes)
            ==> && RectCopied(old(mem[..]), mem[..], s, d, bpp, width * bpp, height)
                && forall i, j | 0 <= i < width && 0 <= j < height ::
                     PixelCopied(old(mem[..]), mem[..], s, d, bpp, i, j)
  {
    hide Blitted, RectRow, RightDirection, Row, InBounds, Correct, RectCopied, PixelCopied;
    var w := Signed16(width * bpp);
    var job := JobOf(s, d, bpp, w, height);
    ghost var before := mem[..];
    MoveRows(mem, job);
    if AwayFromOverlap(s, d, bpp) && w == width * bpp && (w <= s.rowBytes || w <= -s.rowBytes) {
      AwayIsRightDirection(s, d, bpp, w, height);
      DirectionIsSafe(job);
      SafeBlitIsCorrect(before, job);
      JobCopiesRect(before, mem[..], s, d, bpp, w, height);
      AllPixelsCopied(before, mem[..], s, d, bpp, width, height);
    }
  }
}
