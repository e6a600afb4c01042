/** `prepare_endpoint_batch`: frames straight from the TX free list, filled by a callback
    and given the patched endpoint header, all or nothing. */
module EndpointBatch {
  import opened Wrappers
  import opened Egress
  import opened Checksum
  import opened Headers
  import opened Umem
  import opened FrameReclaim

  datatype BatchError = InvalidPacket | OversizeForMtu

  datatype Outcome = Prepared(count: nat, txBytes: nat) | Failed(error: BatchError)

  /** Offsets and old words needed to patch a copy of the header. */
  datatype HeaderPatch = HeaderPatch(totalLenOffset: nat, checksumOffset: nat, transportLenOffset: nat,
                                     totalLenBase: u16, transportLenBase: u16, oldTotalLen: u16, oldChecksum: u16)
  {
    function RequiredLen(): nat
    {
      var a := if totalLenOffset >= checksumOffset then totalLenOffset else checksumOffset;
      (if a >= transportLenOffset then a else transportLenOffset) + 2
    }
  }

  /** `XdpEndpointHeaderPatch::new`. */
  function NewPatch(header: seq<byte>, totalLenOffset: nat, checksumOffset: nat, transportLenOffset: nat,
                    totalLenBase: u16, transportLenBase: u16): (r: Option<HeaderPatch>)
    ensures r.Some? ==> r.value.RequiredLen() <= |header|
  {
    if totalLenOffset > 0xFFFF || checksumOffset > 0xFFFF || transportLenOffset > 0xFFFF then None
    else if totalLenOffset + 2 > |header| || checksumOffset + 2 > |header| then None
    else
      var patch := HeaderPatch(totalLenOffset, checksumOffset, transportLenOffset, totalLenBase, transportLenBase,
                               Word(header, totalLenOffset), Word(header, checksumOffset));
      if patch.RequiredLen() > |header| then None else Some(patch)
  }

  /** `patch`: three words of the copied header. */
  function ApplyPatch(header: seq<byte>, patch: HeaderPatch, payloadLen: nat): (r: seq<byte>)
    requires patch.RequiredLen() <= |header|
    requires patch.totalLenBase + payloadLen <= 0xFFFF && patch.transportLenBase + payloadLen <= 0xFFFF
    ensures |r| == |header|
  {
    var totalLen := patch.totalLenBase + payloadLen;
    SetWord(SetWord(SetWord(header, patch.totalLenOffset, totalLen),
                    patch.checksumOffset, ReplaceWord(patch.oldChecksum, patch.oldTotalLen, totalLen)),
            patch.transportLenOffset, patch.transportLenBase + payloadLen)
  }

  /** The patch that the endpoint send uses is the in-place patch, on a copy. */
  lemma PatchCopiesAgree(header: seq<byte>, l2Len: nat, payloadLen: nat)
    requires l2Len + 28 <= |header| && l2Len + 28 <= 0xFFFF && payloadLen + 28 <= 0xFFFF
    ensures var patch := NewPatch(header, l2Len + 2, l2Len + 10, l2Len + 24, 28, 8);
      patch.Some? && PatchLengths(header, l2Len, payloadLen) == Some(ApplyPatch(header, patch.value, payloadLen))
  {
  }

  /** A frame of a batch carries the freshly written header of its own length exactly
      when the patch from the template does not meet the carry case. */
  lemma BatchHeaderIsFresh(l2: seq<byte>, f: Fields, before: nat, after: nat)
    requires |l2| + 28 <= 0xFFFF && before + 28 <= 0xFFFF && after + 28 <= 0xFFFF
    ensures var header := Template(l2, f, before); var patch := NewPatch(header, |l2| + 2, |l2| + 10, |l2| + 24, 28, 8);
      patch.Some?
        && (ApplyPatch(header, patch.value, after) == Template(l2, f, after) <==> !HitsCarry(f, before, after))
  {
    hide HeaderBytes, HitsCarry;
    PatchCopiesAgree(Template(l2, f, before), |l2|, after);
    PatchIsFresh(l2, f, before, after);
  }

  // ---------------------------------------------------------------- frames in the UMEM

  /** Writes the payload, lengths included: index and old contents to length and bytes. */
  type Fill = (nat, seq<byte>) -> (nat, seq<byte>)

  ghost predicate FillKeepsLength(fill: Fill)
  {
    forall i, s :: |fill(i, s).1| == |s|
  }

  /** Frames lie in the UMEM and do not overlap. */
  ghost predicate FramesApart(frames: seq<nat>, frameSize: nat, umemLen: nat)
  {
    && (forall i :: 0 <= i < |frames| ==> frames[i] + frameSize <= umemLen)
    && (forall i, j :: 0 <= i < j < |frames| ==>
        frames[i] + frameSize <= frames[j] || frames[j] + frameSize <= frames[i])
  }

  predicate InFrame(at: nat, frame: nat, frameSize: nat) { frame <= at < frame + frameSize }

  /** Bytes outside the first `n` frames are as before. */
  ghost predicate OnlyFrames(before: seq<byte>, after: seq<byte>, frames: seq<nat>, n: nat, frameSize: nat)
    requires n <= |frames| && |before| == |after|
  {
    forall at :: 0 <= at < |after| && (forall i :: 0 <= i < n ==> !InFrame(at, frames[i], frameSize)) ==>
      after[at] == before[at]
  }

  /** Layout of a prepared frame. */
  datatype Shape = Shape(header: seq<byte>, patch: HeaderPatch, payloadStart: nat, capacity: nat, expected: Option<nat>,
                         frameSize: nat)
  {
    predicate Fits()
    {
      |header| <= payloadStart && payloadStart + capacity <= frameSize && patch.RequiredLen() <= |header|
    }

    function Limit(): nat { if capacity <= 0xFFFF - patch.totalLenBase then capacity else 0xFFFF - patch.totalLenBase }

    function Check(payloadLen: nat): Option<BatchError>
    {
      if expected.Some? && payloadLen != expected.value then Some(InvalidPacket)
      else if payloadLen > Limit() then Some(OversizeForMtu)
      else None
    }
  }

  /** Frame `i` of the batch holds the patched header followed by what the callback
      wrote, and its length is acceptable. */
  ghost predicate FrameReady(sh: Shape, before: seq<byte>, after: seq<byte>, frame: nat, i: nat, fill: Fill)
    requires sh.Fits() && frame + sh.frameSize <= |before| == |after|
    requires sh.patch.transportLenBase <= sh.patch.totalLenBase
  {
    var at := frame + sh.payloadStart;
    var (len, payload) := fill(i, before[at..at + sh.capacity]);
    && sh.Check(len).None?
    && after[at - |sh.header|..at] == ApplyPatch(sh.header, sh.patch, len)
    && after[at..at + sh.capacity] == payload
  }

  function DescOf(sh: Shape, frame: nat, len: nat): XdpDesc
    requires |sh.header| <= sh.payloadStart
  {
    XdpDesc(frame + (sh.payloadStart - |sh.header|), |sh.header| + len)
  }

  /** Fills one frame. */
  method FillFrame(umem: array<byte>, sh: Shape, frame: nat, i: nat, fill: Fill)
    returns (len: nat, error: Option<BatchError>)
    requires sh.Fits() && frame + sh.frameSize <= umem.Length && FillKeepsLength(fill)
    requires sh.patch.transportLenBase <= sh.patch.totalLenBase
    modifies umem
    ensures forall at :: 0 <= at < umem.Length && !InFrame(at, frame, sh.frameSize) ==> umem[at] == old(umem[at])
    ensures len == FilledLen(sh, old(umem[..]), frame, i, fill) && error == sh.Check(len)
    ensures error.None? ==> FrameReady(sh, old(umem[..]), umem[..], frame, i, fill)
  {
    hide ApplyPatch, FrameReady;
    var at := frame + sh.payloadStart;
    ghost var before := umem[..];
    assert before[at..at + sh.capacity] == umem[at..at + sh.capacity];
    var (l, payload) := fill(i, umem[at..at + sh.capacity]);
    len := l;
    CopyFromSlice(umem, at, payload);
    error := sh.Check(len);
    if error.Some? { return; }
    var header := ApplyPatch(sh.header, sh.patch, len);
    CopyFromSlice(umem, at - |header|, header);
    ReadyNow(sh, before, umem[..], frame, i, fill);
  }

  /** A frame is ready once header and payload bytes are in place. */
  lemma ReadyNow(sh: Shape, before: seq<byte>, after: seq<byte>, frame: nat, i: nat, fill: Fill)
    requires sh.Fits() && frame + sh.frameSize <= |before| == |after|
    requires FillKeepsLength(fill) && sh.patch.transportLenBase <= sh.patch.totalLenBase
    requires var at := frame + sh.payloadStart; var (len, payload) := fill(i, before[at..at + sh.capacity]);
      && sh.Check(len).None?
      && (forall k :: 0 <= k < sh.capacity ==> after[at + k] == payload[k])
      && (forall k :: 0 <= k < |sh.header| ==> after[at - |sh.header| + k] == ApplyPatch(sh.header, sh.patch, len)[k])
    ensures FrameReady(sh, before, after, frame, i, fill)
  {
    hide ApplyPatch;
  }

  // ---------------------------------------------------------------- the batch

  /** Every prepared frame so far, and its descriptor. */
  ghost predicate BatchReady(sh: Shape, before: seq<byte>, after: seq<byte>, taken: seq<nat>, n: nat, fill: Fill,
                             descs: seq<XdpDesc>)
    requires n <= |taken| && n == |descs| && sh.Fits() && |before| == |after|
    requires sh.patch.transportLenBase <= sh.patch.totalLenBase
    requires FramesApart(taken, sh.frameSize, |before|)
  {
    forall i :: 0 <= i < n ==>
      FrameReady(sh, before, after, taken[i], i, fill)
        && descs[i] == DescOf(sh, taken[i], FilledLen(sh, before, taken[i], i, fill))
  }

  /** Length the callback reports for a frame. */
  ghost function FilledLen(sh: Shape, before: seq<byte>, frame: nat, i: nat, fill: Fill): nat
    requires sh.Fits() && frame + sh.frameSize <= |before|
  {
    fill(i, before[frame + sh.payloadStart..frame + sh.payloadStart + sh.capacity]).0
  }

  /** A frame keeps its contents while others are filled. */
  lemma ReadyStays(sh: Shape, before: seq<byte>, mid: seq<byte>, after: seq<byte>, frame: nat, i: nat, fill: Fill)
    requires sh.Fits() && |before| == |mid| == |after| && frame + sh.frameSize <= |before|
    requires sh.patch.transportLenBase <= sh.patch.totalLenBase
    requires FrameReady(sh, before, mid, frame, i, fill)
    requires forall at :: frame <= at < frame + sh.frameSize ==> after[at] == mid[at]
    ensures FrameReady(sh, before, after, frame, i, fill)
  {
    var at := frame + sh.payloadStart;
    assert after[at - |sh.header|..at] == mid[at - |sh.header|..at];
    assert after[at..at + sh.capacity] == mid[at..at + sh.capacity];
  }

  /** A frame not yet touched is filled from its original contents. */
  lemma ReadyFromStart(sh: Shape, before: seq<byte>, mid: seq<byte>, after: seq<byte>, frame: nat, i: nat, fill: Fill)
    requires sh.Fits() && |before| == |mid| == |after| && frame + sh.frameSize <= |before|
    requires sh.patch.transportLenBase <= sh.patch.totalLenBase
    requires FrameReady(sh, mid, after, frame, i, fill)
    requires forall at :: frame <= at < frame + sh.frameSize ==> mid[at] == before[at]
    ensures FrameReady(sh, before, after, frame, i, fill)
    ensures FilledLen(sh, before, frame, i, fill) == FilledLen(sh, mid, frame, i, fill)
  {
    var at := frame + sh.payloadStart;
    assert mid[at..at + sh.capacity] == before[at..at + sh.capacity];
  }

  /** The error of the first of these frames whose reported length is not acceptable. */
  ghost function FirstError(sh: Shape, before: seq<byte>, taken: seq<nat>, n: nat, fill: Fill): Option<BatchError>
    requires sh.Fits() && n <= |taken| && FramesApart(taken, sh.frameSize, |before|)
  {
    if n == 0 then None
    else if FirstError(sh, before, taken, n - 1, fill).Some? then FirstError(sh, before, taken, n - 1, fill)
    else sh.Check(FilledLen(sh, before, taken[n - 1], n - 1, fill))
  }

  lemma {:induction false} FirstErrorStays(sh: Shape, before: seq<byte>, taken: seq<nat>, n: nat, m: nat, fill: Fill)
    requires sh.Fits() && n <= m <= |taken| && FramesApart(taken, sh.frameSize, |before|)
    requires FirstError(sh, before, taken, n, fill).Some?
    ensures FirstError(sh, before, taken, m, fill) == FirstError(sh, before, taken, n, fill)
  {
    hide FramesApart, FilledLen;
    if n < m { FirstErrorStays(sh, before, taken, n, m - 1, fill); }
  }

  /** Header and payload fit the frame, and the patched words the header. */
  predicate ShapeOk(sh: Shape, l2Len: nat) { sh.Fits() && l2Len <= |sh.header| }

  /** Bytes of the descriptors behind the Ethernet header. */
  function IpBytes(descs: seq<XdpDesc>, l2Len: nat): int
  {
    if descs == [] then 0 else IpBytes(descs[..|descs| - 1], l2Len) + descs[|descs| - 1].len - l2Len
  }

  lemma IpBytesAppend(descs: seq<XdpDesc>, d: XdpDesc, l2Len: nat)
    ensures IpBytes(descs + [d], l2Len) == IpBytes(descs, l2Len) + d.len - l2Len
  {
    assert (descs + [d])[..|descs|] == descs;
  }

  /** `prepare_endpoint_batch`, which fails exactly when the shape does not fit the frame
      or some frame's reported length is refused, with the first such error.  On an error
      the descriptor list is unchanged and the pool still holds every frame (at most its
      remote queue was drained); on success exactly the frames that `PopMany` takes are
      gone from the pool, in pop order, each with one descriptor covering its patched
      header and payload.  No byte outside the frames concerned changes. */
  method PrepareEndpointBatch(umem: array<byte>, reclaim: Reclaim, out: seq<XdpDesc>, sh: Shape, l2Len: nat, max: nat,
                              fill: Fill)
    returns (r: Outcome, descs: seq<XdpDesc>)
    requires FillKeepsLength(fill) && sh.patch.transportLenBase <= sh.patch.totalLenBase
    requires FramesApart(reclaim.free + reclaim.remote, sh.frameSize, umem.Length)
    modifies umem, reclaim
    ensures var taken := old(reclaim.View()).PopMany(max).1;
      && FramesApart(taken, sh.frameSize, umem.Length)
      && match r
         case Failed(e) =>
           && max > 0
           && if ShapeOk(sh, l2Len) then FirstError(sh, old(umem[..]), taken, |taken|, fill) == Some(e)
              else e == InvalidPacket
         case Prepared(_, txBytes) =>
           && |out| <= |descs| && txBytes == IpBytes(descs[|out|..], l2Len)
           && (max > 0 ==> ShapeOk(sh, l2Len) && FirstError(sh, old(umem[..]), taken, |taken|, fill) == None)
    ensures r.Failed? ==>
      descs == out && (reclaim.View() == old(reclaim.View()) || reclaim.View() == old(reclaim.View()).Drained())
    ensures r.Prepared? ==> var taken := old(reclaim.View()).PopMany(max).1;
      && r.count == |taken| && |descs| == |out| + |taken| && descs[..|out|] == out
      && (reclaim.View(), taken) == old(reclaim.View()).PopMany(max)
      && (max > 0 ==> sh.Fits() && BatchReady(sh, old(umem[..]), umem[..], taken, |taken|, fill, descs[|out|..]))
    ensures var taken := old(reclaim.View()).PopMany(max).1;
      OnlyFrames(old(umem[..]), umem[..], taken, |taken|, sh.frameSize)
  {
    hide FrameReady, OnlyFrames, BatchReady, FramesApart, FirstError;
    descs := out;
    TakenApart(reclaim.View(), max, sh.frameSize, umem.Length);
    OnlyNone(umem[..], reclaim.View().PopMany(max).1, sh.frameSize);
    if max == 0 {
      assert reclaim.free[..|reclaim.free|] == reclaim.free && out[|out|..] == [];
      return Prepared(0, 0), out;
    }
    if |sh.header| > sh.payloadStart || sh.payloadStart + sh.capacity > sh.frameSize || |sh.header| < l2Len {
      return Failed(InvalidPacket), out;
    }
    if sh.patch.RequiredLen() > |sh.header| { return Failed(InvalidPacket), out; }
    ghost var pool := reclaim.View();
    if |reclaim.free| < max { reclaim.DrainRemote(); }
    var count := Min(max, |reclaim.free|);
    var added, txBytes, error := FillFrames(umem, reclaim.free, count, sh, l2Len, fill);
    if error.Some? { return Failed(error.value), out; }
    reclaim.free := reclaim.free[..|reclaim.free| - count];
    descs := out + added;
    assert descs[|out|..] == added;
    return Prepared(count, txBytes), descs;
  }

  /** The packet loop: the last `count` frames of the free list, last first. */
  method FillFrames(umem: array<byte>, free: seq<nat>, count: nat, sh: Shape, l2Len: nat, fill: Fill)
    returns (added: seq<XdpDesc>, txBytes: nat, error: Option<BatchError>)
    requires sh.Fits() && count <= |free| && FillKeepsLength(fill) && l2Len <= |sh.header|
    requires sh.patch.transportLenBase <= sh.patch.totalLenBase
    requires FramesApart(Reversed(free[|free| - count..]), sh.frameSize, umem.Length)
    modifies umem
    ensures var taken := Reversed(free[|free| - count..]);
      && OnlyFrames(old(umem[..]), umem[..], taken, |taken|, sh.frameSize)
      && error == FirstError(sh, old(umem[..]), taken, |taken|, fill)
      && (error.None? ==> |added| == count && BatchReady(sh, old(umem[..]), umem[..], taken, count, fill, added))
      && (error.None? ==> txBytes == IpBytes(added, l2Len))
  {
    hide FrameReady, OnlyFrames, BatchReady, FirstError, FramesApart, IpBytes, FilledLen, Reversed;
    NoBytes(l2Len);
    ghost var taken, before := Reversed(free[|free| - count..]), umem[..];
    OnlyNone(before, taken, sh.frameSize);
    added, txBytes, error := [], 0, None;
    NoneReady(sh, before, taken, fill);
    for i := 0 to count
      invariant |added| == i && OnlyFrames(before, umem[..], taken, i, sh.frameSize)
      invariant FirstError(sh, before, taken, i, fill) == None && txBytes == IpBytes(added, l2Len)
      invariant BatchReady(sh, before, umem[..], taken, i, fill, added)
    {
      var frame := free[|free| - 1 - i];
      TakenAt(free, count, i);
      FrameInUmem(taken, sh.frameSize, umem.Length, i);
      ghost var mid := umem[..];
      FrameUntouched(before, mid, taken, i, sh.frameSize);
      var len;
      len, error := FillFrame(umem, sh, frame, i, fill);
      FrameDone(sh, before, mid, umem[..], taken, i, fill, added, error.None?);
      SameLen(sh, before, mid, taken[i], i, fill);
      FirstErrorNext(sh, before, taken, i, fill);
      if error.Some? {
        OnlyMore(before, umem[..], taken, i + 1, sh.frameSize);
        FirstErrorStays(sh, before, taken, i + 1, |taken|, fill);
        return;
      }
      IpBytesAppend(added, DescOf(sh, frame, len), l2Len);
      added := added + [DescOf(sh, frame, len)];
      txBytes := txBytes + (|sh.header| - l2Len + len);
    }
    error := None;
  }

  lemma NoneReady(sh: Shape, bytes: seq<byte>, taken: seq<nat>, fill: Fill)
    requires sh.Fits() && sh.patch.transportLenBase <= sh.patch.totalLenBase
    requires FramesApart(taken, sh.frameSize, |bytes|)
    ensures BatchReady(sh, bytes, bytes, taken, 0, fill, []) && FirstError(sh, bytes, taken, 0, fill) == None
  {
  }

  lemma TakenAt(free: seq<nat>, count: nat, i: nat)
    requires i < count <= |free|
    ensures var taken := Reversed(free[|free| - count..]); |taken| == count && taken[i] == free[|free| - 1 - i]
  {
  }

  lemma FrameInUmem(taken: seq<nat>, frameSize: nat, umemLen: nat, i: nat)
    requires i < |taken| && FramesApart(taken, frameSize, umemLen)
    ensures taken[i] + frameSize <= umemLen
  {
  }

  lemma FirstErrorNext(sh: Shape, before: seq<byte>, taken: seq<nat>, i: nat, fill: Fill)
    requires sh.Fits() && i < |taken| && FramesApart(taken, sh.frameSize, |before|)
    requires FirstError(sh, before, taken, i, fill) == None
    ensures taken[i] + sh.frameSize <= |before|
    ensures FirstError(sh, before, taken, i + 1, fill) == sh.Check(FilledLen(sh, before, taken[i], i, fill))
  {
    hide FilledLen;
  }

  lemma NoBytes(l2Len: nat)
    ensures IpBytes([], l2Len) == 0
  {
  }

  /** An untouched frame gives the callback what it held at the start. */
  lemma SameLen(sh: Shape, before: seq<byte>, mid: seq<byte>, frame: nat, i: nat, fill: Fill)
    requires sh.Fits() && |before| == |mid| && frame + sh.frameSize <= |before|
    requires forall at :: frame <= at < frame + sh.frameSize ==> mid[at] == before[at]
    ensures FilledLen(sh, before, frame, i, fill) == FilledLen(sh, mid, frame, i, fill)
  {
    var at := frame + sh.payloadStart;
    assert mid[at..at + sh.capacity] == before[at..at + sh.capacity];
  }

  lemma TakenApart(pool: Pool, max: nat, frameSize: nat, umemLen: nat)
    requires FramesApart(pool.free + pool.remote, frameSize, umemLen)
    ensures FramesApart(pool.PopMany(max).1, frameSize, umemLen)
  {
    var all, taken := pool.free + pool.remote, pool.PopMany(max).1;
    var n := TakenFrom(pool, max);
    hide Pool.PopMany;
    ApartFrom(all, taken, n, frameSize, umemLen);
  }

  /** Taken frames come from the end of the list, last first. */
  lemma TakenFrom(pool: Pool, max: nat) returns (n: nat)
    ensures var all, taken := pool.free + pool.remote, pool.PopMany(max).1;
      |taken| <= n <= |all| && forall k :: 0 <= k < |taken| ==> taken[k] == all[n - 1 - k]
  {
    n := if |pool.free| < max then |pool.free + pool.remote| else |pool.free|;
  }

  lemma ApartFrom(all: seq<nat>, taken: seq<nat>, n: nat, frameSize: nat, umemLen: nat)
    requires FramesApart(all, frameSize, umemLen) && |taken| <= n <= |all|
    requires forall k :: 0 <= k < |taken| ==> taken[k] == all[n - 1 - k]
    ensures FramesApart(taken, frameSize, umemLen)
  {
    forall i, j | 0 <= i < j < |taken|
      ensures taken[i] + frameSize <= taken[j] || taken[j] + frameSize <= taken[i]
    {
      assert taken[i] == all[n - 1 - i] && taken[j] == all[n - 1 - j];
    }
  }

  lemma OnlyNone(bytes: seq<byte>, taken: seq<nat>, frameSize: nat)
    ensures OnlyFrames(bytes, bytes, taken, 0, frameSize) && OnlyFrames(bytes, bytes, taken, |taken|, frameSize)
  {
  }

  lemma OnlyMore(before: seq<byte>, after: seq<byte>, taken: seq<nat>, n: nat, frameSize: nat)
    requires n <= |taken| && |before| == |after| && OnlyFrames(before, after, taken, n, frameSize)
    ensures OnlyFrames(before, after, taken, |taken|, frameSize)
  {
  }

  lemma FrameUntouched(before: seq<byte>, mid: seq<byte>, taken: seq<nat>, n: nat, frameSize: nat)
    requires n < |taken| && |before| == |mid| && FramesApart(taken, frameSize, |before|)
    requires OnlyFrames(before, mid, taken, n, frameSize)
    ensures forall at :: taken[n] <= at < taken[n] + frameSize ==> mid[at] == before[at]
  {
    forall at | taken[n] <= at < taken[n] + frameSize
      ensures mid[at] == before[at]
    {
      assert forall i :: 0 <= i < n ==> !InFrame(at, taken[i], frameSize);
    }
  }

  /** One more frame filled: earlier frames stay ready, and only this one changed. */
  lemma FrameDone(sh: Shape, before: seq<byte>, mid: seq<byte>, after: seq<byte>, taken: seq<nat>, n: nat, fill: Fill,
                  descs: seq<XdpDesc>, ok: bool)
    requires n < |taken| && n == |descs| && sh.Fits() && |before| == |mid| == |after|
    requires sh.patch.transportLenBase <= sh.patch.totalLenBase
    requires FramesApart(taken, sh.frameSize, |before|) && OnlyFrames(before, mid, taken, n, sh.frameSize)
    requires BatchReady(sh, before, mid, taken, n, fill, descs)
    requires forall at :: taken[n] <= at < taken[n] + sh.frameSize ==> mid[at] == before[at]
    requires forall at :: 0 <= at < |after| && !InFrame(at, taken[n], sh.frameSize) ==> after[at] == mid[at]
    requires ok ==> FrameReady(sh, mid, after, taken[n], n, fill)
    ensures OnlyFrames(before, after, taken, n + 1, sh.frameSize)
    ensures ok ==>
      BatchReady(sh, before, after, taken, n + 1, fill,
                 descs + [DescOf(sh, taken[n], FilledLen(sh, mid, taken[n], n, fill))])
  {
    hide FrameReady;
    forall at | 0 <= at < |after| && (forall i :: 0 <= i < n + 1 ==> !InFrame(at, taken[i], sh.frameSize))
      ensures after[at] == before[at]
    {
      assert !InFrame(at, taken[n], sh.frameSize);
    }
    if ok {
      ReadyFromStart(sh, before, mid, after, taken[n], n, fill);
      forall i | 0 <= i < n
        ensures FrameReady(sh, before, after, taken[i], i, fill)
      {
        assert FrameReady(sh, before, mid, taken[i], i, fill);
        ReadyStays(sh, before, mid, after, taken[i], i, fill);
      }
    }
  }
}
