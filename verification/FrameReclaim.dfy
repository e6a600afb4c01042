/** Owner-local free list plus remote reclaim queue of one pool, and the reclaim of
    drained TX completions into such lists. */
module FrameReclaim {
  import opened Bits
  import opened Wrappers
  import opened Umem

  function Reversed<T>(s: seq<T>): (r: seq<T>)
    ensures |r| == |s|
    ensures forall k :: 0 <= k < |s| ==> r[k] == s[|s| - 1 - k]
  {
    if s == [] then [] else Reversed(s[1..]) + [s[0]]
  }

  lemma NothingReversed<T>(s: seq<T>)
    ensures s[..|s|] == s && Reversed(s[|s|..]) == []
  {
  }

  lemma ReversedTail<T>(s: seq<T>, k: nat)
    requires k < |s|
    ensures Reversed(s[k..]) == Reversed(s[k + 1..]) + [s[k]]
  {
    assert s[k..][1..] == s[k + 1..];
  }

  lemma {:induction false} ReversedKeepsElements<T>(s: seq<T>)
    ensures multiset(Reversed(s)) == multiset(s)
  {
    if s != [] {
      ReversedKeepsElements(s[1..]);
      assert s == [s[0]] + s[1..];
    }
  }

  // ---------------------------------------------------------------- pools

  /** Frame addresses of one pool: the owner's free list (a stack) and the queue
      that other threads push into. */
  datatype Pool = Pool(free: seq<nat>, remote: seq<nat>)
  {
    function Frames(): multiset<nat> { multiset(free) + multiset(remote) }

    function Drained(): Pool { Pool(free + remote, []) }

    /** Frames taken by the owner, last freed first; the queue is only looked at
        when the free list is too short. */
    function PopMany(max: nat): (r: (Pool, seq<nat>))
      ensures |r.1| <= max
    {
      var p := if |free| < max then Drained() else this;
      var keep := |p.free| - Min(max, |p.free|);
      (Pool(p.free[..keep], p.remote), Reversed(p.free[keep..]))
    }

    function PushOwner(frame: nat): Pool { Pool(free + [frame], remote) }

    function PushRemote(frame: nat): Pool { Pool(free, remote + [frame]) }
  }

  lemma PopManyConserves(p: Pool, max: nat)
    ensures p.PopMany(max).0.Frames() + multiset(p.PopMany(max).1) == p.Frames()
    ensures |p.PopMany(max).1| == Min(max, |p.free| + |p.remote|)
    ensures |p.PopMany(max).0.free| + |p.PopMany(max).0.remote| + |p.PopMany(max).1| == |p.free| + |p.remote|
  {
    var q := if |p.free| < max then p.Drained() else p;
    var keep := |q.free| - Min(max, |q.free|);
    assert q.free == q.free[..keep] + q.free[keep..];
    ReversedKeepsElements(q.free[keep..]);
  }

  function Max(a: nat, b: nat): nat { if a >= b then a else b }

  class Reclaim {
    var free: seq<nat>
    var remote: seq<nat>
    /** Room that the free list has at least; ordinary pushes make more. */
    var capacity: nat
    const remoteCapacity: nat

    ghost function View(): Pool
      reads this
    {
      Pool(free, remote)
    }

    constructor (frames: seq<nat>, capacity: nat, remoteCapacity: nat)
      ensures View() == Pool(frames, []) && this.capacity == Max(capacity, |frames|)
      ensures this.remoteCapacity == if remoteCapacity == 0 then 1 else remoteCapacity
    {
      free, remote, this.capacity := frames, [], Max(capacity, |frames|);
      this.remoteCapacity := if remoteCapacity == 0 then 1 else remoteCapacity;
    }

    /** `drain_remote`: moves every queued frame to the free list, oldest first. */
    method DrainRemote()
      modifies this
      ensures View() == old(View()).Drained() && capacity >= old(capacity)
    {
      ghost var total := free + remote;
      while remote != []
        invariant free + remote == total && capacity >= old(capacity)
        decreases |remote|
      {
        free := free + [remote[0]];
        capacity := Max(capacity, |free|);
        remote := remote[1..];
      }
    }

    method PopMany(max: nat) returns (taken: seq<nat>)
      modifies this
      ensures (View(), taken) == old(View()).PopMany(max) && capacity >= old(capacity)
    {
      taken := [];
      if max == 0 {
        assert free[..|free|] == free && free[|free|..] == [];
        return;
      }
      if |free| < max {
        DrainRemote();
      }
      taken := TakeLast(Min(max, |free|));
    }

    /** Pops `count` frames, last freed first. */
    method TakeLast(count: nat) returns (taken: seq<nat>)
      requires count <= |free|
      modifies this`free
      ensures free == old(free)[..|old(free)| - count] && taken == Reversed(old(free)[|old(free)| - count..])
    {
      hide Reversed;
      ghost var full := free;
      NothingReversed(full);
      taken := [];
      for i := 0 to count
        invariant free == full[..|full| - i]
        invariant taken == Reversed(full[|full| - i..])
      {
        var x := free[|free| - 1];
        ReversedTail(full, |full| - (i + 1));
        taken := taken + [x];
        free := free[..|free| - 1];
      }
    }

    /** Returns a frame: straight to the free list on the owner thread, through the
        bounded queue on any other.  The queue must not be full (it panics). */
    method Push(frame: nat, currentThreadOwns: bool)
      requires currentThreadOwns || |remote| < remoteCapacity
      modifies this
      ensures View() == if currentThreadOwns then Pool(old(free) + [frame], old(remote))
        else Pool(old(free), old(remote) + [frame])
      ensures capacity == if currentThreadOwns then Max(old(capacity), |free|) else old(capacity)
    {
      if currentThreadOwns {
        free := free + [frame];
        capacity := Max(capacity, |free|);
      } else {
        remote := remote + [frame];
      }
    }

    method IsEmpty() returns (empty: bool)
      modifies this
      ensures empty <==> old(free) == [] && old(remote) == []
      ensures View() == (if old(free) == [] then old(View()).Drained() else old(View())) && capacity >= old(capacity)
    {
      if free == [] {
        DrainRemote();
      }
      empty := free == [];
    }

    method DrainInto(out: seq<nat>) returns (r: seq<nat>)
      modifies this
      ensures View() == Pool([], []) && r == out + old(free) + old(remote) && capacity >= old(capacity)
    {
      DrainRemote();
      r := out + free;
      free := [];
    }
  }

  // ---------------------------------------------------------------- completions

  /** The two free lists after reclaiming completions in order; `ok` is false when a
      completion was rejected, in which case the rest was not looked at. */
  datatype Reclaimed = Reclaimed(rxFree: seq<nat>, txFree: seq<nat>, ok: bool)

  function ReclaimAll(cr: CompletionReclaim, umemLen: nat, frames: seq<nat>, rxFree: seq<nat>,
                      txFree: seq<nat>): Reclaimed
    decreases |frames|
  {
    if frames == [] then Reclaimed(rxFree, txFree, true)
    else if cr.Rejects(frames[0], umemLen) then Reclaimed(rxFree, txFree, false)
    else if cr.IsRx(frames[0]) then ReclaimAll(cr, umemLen, frames[1..], rxFree + [frames[0]], txFree)
    else ReclaimAll(cr, umemLen, frames[1..], rxFree, txFree + [frames[0]])
  }

  /** Frames of the completions, in order. */
  function Bases(addrs: seq<nat>, frameSize: nat): (r: seq<nat>)
    requires IsPow2(frameSize)
    ensures |r| == |addrs|
    ensures forall k :: 0 <= k < |addrs| ==> r[k] == FrameBase(addrs[k], frameSize)
  {
    seq(|addrs|, k requires 0 <= k < |addrs| => FrameBase(addrs[k], frameSize))
  }

  lemma BasesAppend(a: seq<nat>, b: seq<nat>, frameSize: nat)
    requires IsPow2(frameSize)
    ensures Bases(a + b, frameSize) == Bases(a, frameSize) + Bases(b, frameSize)
  {
  }

  function OfClass(cr: CompletionReclaim, frames: seq<nat>, rx: bool): (r: seq<nat>)
  {
    if frames == [] then []
    else (if cr.IsRx(frames[0]) == rx then [frames[0]] else []) + OfClass(cr, frames[1..], rx)
  }

  /** Completed frames ahead of the first rejected one. */
  function Accepted(cr: CompletionReclaim, umemLen: nat, frames: seq<nat>): (r: seq<nat>)
    ensures r <= frames
  {
    if frames == [] || cr.Rejects(frames[0], umemLen) then [] else [frames[0]] + Accepted(cr, umemLen, frames[1..])
  }

  /** Reclaiming appends to each list the accepted frames of its class, in completion
      order, and succeeds exactly when no frame is rejected. */
  lemma {:induction false} ReclaimAllAccepts(cr: CompletionReclaim, umemLen: nat, frames: seq<nat>, rxFree: seq<nat>,
                                             txFree: seq<nat>)
    ensures var good := Accepted(cr, umemLen, frames);
      ReclaimAll(cr, umemLen, frames, rxFree, txFree)
      == Reclaimed(rxFree + OfClass(cr, good, true), txFree + OfClass(cr, good, false), |good| == |frames|)
    decreases |frames|
  {
    hide CompletionReclaim.IsRx, CompletionReclaim.Rejects, OfClass;
    NoneOfClass(cr);
    if frames == [] || cr.Rejects(frames[0], umemLen) {
      assert rxFree + [] == rxFree && txFree + [] == txFree;
    } else {
      var f, rest := frames[0], frames[1..];
      var good := Accepted(cr, umemLen, rest);
      OfClassCons(cr, f, good);
      if cr.IsRx(f) {
        ReclaimAllAccepts(cr, umemLen, rest, rxFree + [f], txFree);
        assert rxFree + [f] + OfClass(cr, good, true) == rxFree + ([f] + OfClass(cr, good, true));
      } else {
        ReclaimAllAccepts(cr, umemLen, rest, rxFree, txFree + [f]);
        assert txFree + [f] + OfClass(cr, good, false) == txFree + ([f] + OfClass(cr, good, false));
      }
    }
  }

  lemma {:induction false} AllAccepted(cr: CompletionReclaim, umemLen: nat, frames: seq<nat>)
    requires forall k :: 0 <= k < |frames| ==> !cr.Rejects(frames[k], umemLen)
    ensures Accepted(cr, umemLen, frames) == frames
  {
    hide CompletionReclaim.Rejects;
    if frames != [] { AllAccepted(cr, umemLen, frames[1..]); }
  }

  /** When no completion is rejected, reclaiming appends to each list exactly the
      completed frames of its class, in completion order. */
  lemma ReclaimAllSplits(cr: CompletionReclaim, umemLen: nat, frames: seq<nat>, rxFree: seq<nat>, txFree: seq<nat>)
    requires forall k :: 0 <= k < |frames| ==> !cr.Rejects(frames[k], umemLen)
    ensures ReclaimAll(cr, umemLen, frames, rxFree, txFree)
         == Reclaimed(rxFree + OfClass(cr, frames, true), txFree + OfClass(cr, frames, false), true)
  {
    hide CompletionReclaim.Rejects, OfClass, ReclaimAll, Accepted;
    AllAccepted(cr, umemLen, frames);
    ReclaimAllAccepts(cr, umemLen, frames, rxFree, txFree);
  }

  lemma NoneOfClass(cr: CompletionReclaim)
    ensures OfClass(cr, [], true) == [] && OfClass(cr, [], false) == []
  {
  }

  lemma OfClassCons(cr: CompletionReclaim, f: nat, rest: seq<nat>)
    ensures OfClass(cr, [f] + rest, true) == (if cr.IsRx(f) then [f] else []) + OfClass(cr, rest, true)
    ensures OfClass(cr, [f] + rest, false) == (if cr.IsRx(f) then [] else [f]) + OfClass(cr, rest, false)
  {
    hide CompletionReclaim.IsRx;
    assert ([f] + rest)[1..] == rest;
  }

  lemma {:induction false} OfClassConserves(cr: CompletionReclaim, frames: seq<nat>)
    ensures multiset(OfClass(cr, frames, true)) + multiset(OfClass(cr, frames, false)) == multiset(frames)
  {
    if frames != [] {
      OfClassConserves(cr, frames[1..]);
      assert frames == [frames[0]] + frames[1..];
    }
  }

  lemma {:induction false} OfClassMembers(cr: CompletionReclaim, frames: seq<nat>, rx: bool)
    ensures forall f :: f in OfClass(cr, frames, rx) <==> f in frames && cr.IsRx(f) == rx
  {
    if frames != [] {
      OfClassMembers(cr, frames[1..], rx);
      assert frames == [frames[0]] + frames[1..];
    }
  }

  /** `free.len() < free.capacity()` is not checked by the code. */
  method PushReclaimedFrameUnchecked(free: seq<nat>, capacity: nat, frame: nat) returns (r: seq<nat>)
    requires |free| < capacity
    ensures r == free + [frame]
  {
    r := free + [frame];
  }

  /** The reclaim loop of both layouts: mask each completion down to its frame and
      push it to the list of its class.  Every push is unchecked, so the caller owes
      spare capacity for each class. */
  method ReclaimCompletions(cr: CompletionReclaim, frameSize: nat, umemLen: nat, completions: seq<nat>,
                            rxFree: seq<nat>, rxCapacity: nat, txFree: seq<nat>, txCapacity: nat)
    returns (r: Reclaimed)
    requires IsPow2(frameSize)
    requires var done := ReclaimAll(cr, umemLen, Bases(completions, frameSize), rxFree, txFree);
      |done.rxFree| <= rxCapacity && |done.txFree| <= txCapacity
    ensures r == ReclaimAll(cr, umemLen, Bases(completions, frameSize), rxFree, txFree)
  {
    ghost var frames := Bases(completions, frameSize);
    var rx, tx := rxFree, txFree;
    var i := 0;
    while i < |completions|
      invariant 0 <= i <= |completions|
      invariant ReclaimAll(cr, umemLen, frames[i..], rx, tx) == ReclaimAll(cr, umemLen, frames, rxFree, txFree)
    {
      var frame := FrameBase(completions[i], frameSize);
      assert frames[i..][0] == frame && frames[i..][1..] == frames[i + 1..];
      if cr.Rejects(frame, umemLen) {
        return Reclaimed(rx, tx, false);
      }
      if cr.IsRx(frame) {
        ReclaimAllGrows(cr, umemLen, frames[i + 1..], rx + [frame], tx);
        rx := PushReclaimedFrameUnchecked(rx, rxCapacity, frame);
      } else {
        ReclaimAllGrows(cr, umemLen, frames[i + 1..], rx, tx + [frame]);
        tx := PushReclaimedFrameUnchecked(tx, txCapacity, frame);
      }
      i := i + 1;
    }
    r := Reclaimed(rx, tx, true);
  }

  lemma {:induction false} ReclaimAllGrows(cr: CompletionReclaim, umemLen: nat, frames: seq<nat>, rxFree: seq<nat>,
                                           txFree: seq<nat>)
    ensures var done := ReclaimAll(cr, umemLen, frames, rxFree, txFree);
      |rxFree| <= |done.rxFree| && |txFree| <= |done.txFree|
    decreases |frames|
  {
    if frames != [] {
      ReclaimAllGrows(cr, umemLen, frames[1..], rxFree + [frames[0]], txFree);
      ReclaimAllGrows(cr, umemLen, frames[1..], rxFree, txFree + [frames[0]]);
    }
  }
}
