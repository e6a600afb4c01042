/** The OS buffer pool: an owner thread that allocates, other threads that give buffers
    back in two steps (count, then enqueue), and an owner drain that pops one buffer at a
    time.  All steps interleave freely. */
module OsPool {
  const SLAB_SIZE: nat := 64

  /** Where the owner is inside `allocate`. */
  datatype Owner = Idle | CheckRemote | Draining(drained: nat) | TryPop | Failed

  datatype Pool = Pool(free: seq<nat>, queue: seq<nat>, len: int, issued: nat, max: nat)

  datatype State = State(p: Pool, inUse: multiset<nat>, pushing: multiset<nat>, owner: Owner)

  datatype Step =
    | StartAllocate
    | LoadLen
    | DrainOne
    | DrainEnd
    | PopOrGrow
    | Return
    | OwnerDrop(buffer: nat)
    | RemoteCount(buffer: nat)
    | RemoteEnqueue(buffer: nat)

  predicate Enabled(s: State, step: Step)
  {
    match step
    case StartAllocate => s.owner.Idle?
    case LoadLen => s.owner.CheckRemote?
    case DrainOne => s.owner.Draining? && s.p.queue != []
    case DrainEnd => s.owner.Draining? && s.p.queue == []
    case PopOrGrow => s.owner.TryPop?
    case Return => s.owner.Failed?
    case OwnerDrop(b) => s.owner.Idle? && b in s.inUse
    case RemoteCount(b) => b in s.inUse
    case RemoteEnqueue(b) => b in s.pushing
  }

  /** Fresh buffers numbered from `from`. */
  function Fresh(from: nat, n: nat): (r: seq<nat>)
    ensures |r| == n && forall i :: 0 <= i < n ==> r[i] == from + i
  {
    seq(n, i requires 0 <= i < n => from + i)
  }

  /** `grow`: another slab, capped at the limit. */
  function Grow(p: Pool): Pool
    requires p.issued < p.max
  {
    var chunk := if SLAB_SIZE <= p.max - p.issued then SLAB_SIZE else p.max - p.issued;
    p.(free := p.free + Fresh(p.issued, chunk), issued := p.issued + chunk)
  }

  function PopFree(s: State): State
    requires s.p.free != []
  {
    var last := |s.p.free| - 1;
    State(s.p.(free := s.p.free[..last]), s.inUse + multiset{s.p.free[last]}, s.pushing, Idle)
  }

  function Next(s: State, step: Step): State
    requires Enabled(s, step)
  {
    match step
    case StartAllocate => s.(owner := if s.p.free == [] then CheckRemote else TryPop)
    case LoadLen => s.(owner := if s.p.len == 0 then TryPop else Draining(0))
    case DrainOne =>
      s.(p := s.p.(free := s.p.free + [s.p.queue[0]], queue := s.p.queue[1..]), owner := Draining(s.owner.drained + 1))
    case DrainEnd => s.(p := s.p.(len := s.p.len - s.owner.drained), owner := TryPop)
    case PopOrGrow =>
      if s.p.free != [] then PopFree(s)
      else if s.p.issued < s.p.max then PopFree(s.(p := Grow(s.p)))
      else s.(owner := Failed)
    case Return => s.(owner := Idle)
    case OwnerDrop(b) => s.(p := s.p.(free := s.p.free + [b]), inUse := s.inUse - multiset{b})
    case RemoteCount(b) => s.(p := s.p.(len := s.p.len + 1), inUse := s.inUse - multiset{b},
                              pushing := s.pushing + multiset{b})
    case RemoteEnqueue(b) => s.(p := s.p.(queue := s.p.queue + [b]), pushing := s.pushing - multiset{b})
  }

  function Init(max: nat): State { State(Pool([], [], 0, 0, max), multiset{}, multiset{}, Idle) }

  predicate IsRun(s: State, steps: seq<Step>)
    decreases |steps|
  {
    steps == [] || (Enabled(s, steps[0]) && IsRun(Next(s, steps[0]), steps[1..]))
  }

  function Exec(s: State, steps: seq<Step>): State
    requires IsRun(s, steps)
    decreases |steps|
  {
    if steps == [] then s else Exec(Next(s, steps[0]), steps[1..])
  }

  // ---------------------------------------------------------------- invariant

  /** Every buffer the pool has, wherever it is. */
  function Everywhere(s: State): multiset<nat> { multiset(s.p.free) + multiset(s.p.queue) + s.pushing + s.inUse }

  function DrainedNow(o: Owner): nat { if o.Draining? then o.drained else 0 }

  /** Each issued buffer is in exactly one place; the counter covers buffers mid-push,
      queued, and drained but not yet subtracted; an allocation fails only at the limit. */
  ghost predicate Inv(s: State)
  {
    && Everywhere(s) == multiset(Fresh(0, s.p.issued)) && s.p.issued <= s.p.max
    && s.p.len == |s.pushing| + |s.p.queue| + DrainedNow(s.owner)
    && (s.owner.CheckRemote? ==> s.p.free == [])
    && (s.owner.Draining? ==> |s.p.free| == s.owner.drained)
    && (s.owner.Failed? ==> s.p.issued == s.p.max)
  }

  lemma Counted(s: State)
    requires Inv(s)
    ensures |s.p.free| + |s.p.queue| + |s.pushing| + |s.inUse| == s.p.issued
  {
    assert |Everywhere(s)| == |s.p.free| + |s.p.queue| + |s.pushing| + |s.inUse|;
  }

  lemma GrowAddsFresh(s: State)
    requires Inv(s) && s.p.issued < s.p.max && s.p.free == []
    ensures var t := s.(p := Grow(s.p));
      Everywhere(t) == multiset(Fresh(0, t.p.issued)) && t.p.issued <= t.p.max && t.p.free != []
  {
    var t := s.(p := Grow(s.p));
    var n := t.p.issued - s.p.issued;
    assert Fresh(0, t.p.issued) == Fresh(0, s.p.issued) + Fresh(s.p.issued, n);
    assert t.p.free == Fresh(s.p.issued, n);
  }

  lemma PopFreeKeepsAll(s: State)
    requires s.p.free != []
    ensures Everywhere(PopFree(s)) == Everywhere(s)
  {
    var last := |s.p.free| - 1;
    assert s.p.free == s.p.free[..last] + [s.p.free[last]];
  }

  lemma DrainKeepsAll(s: State)
    requires Enabled(s, DrainOne)
    ensures Everywhere(Next(s, DrainOne)) == Everywhere(s)
  {
    assert s.p.queue == [s.p.queue[0]] + s.p.queue[1..];
  }

  lemma MoveKeepsAll(s: State, step: Step)
    requires Enabled(s, step) && (step.OwnerDrop? || step.RemoteCount? || step.RemoteEnqueue?)
    ensures Everywhere(Next(s, step)) == Everywhere(s)
  {
  }

  /** The counter and the owner's position are not places. */
  lemma SamePlaces(s: State, t: State)
    requires t.p.free == s.p.free && t.p.queue == s.p.queue && t.pushing == s.pushing && t.inUse == s.inUse
    ensures Everywhere(t) == Everywhere(s)
  {
  }

  lemma PopStepKeepsInv(s: State, step: Step)
    requires Inv(s) && Enabled(s, step) && step.PopOrGrow?
    ensures Inv(Next(s, step))
  {
    hide Everywhere;
    if s.p.free != [] {
      PopFreeKeepsAll(s);
    } else if s.p.issued < s.p.max {
      GrowAddsFresh(s);
      PopFreeKeepsAll(s.(p := Grow(s.p)));
    } else {
      SamePlaces(s, Next(s, step));
    }
  }

  lemma OwnerStepKeepsInv(s: State, step: Step)
    requires Inv(s) && Enabled(s, step)
    requires (step.StartAllocate? || step.LoadLen? || step.DrainOne? || step.DrainEnd? || step.Return?)
    ensures Inv(Next(s, step))
  {
    hide Everywhere;
    Counted(s);
    if step.DrainOne? { DrainKeepsAll(s); } else { SamePlaces(s, Next(s, step)); }
  }

  lemma DropStepKeepsInv(s: State, step: Step)
    requires Inv(s) && Enabled(s, step) && (step.OwnerDrop? || step.RemoteCount? || step.RemoteEnqueue?)
    ensures Inv(Next(s, step))
  {
    hide Everywhere;
    MoveKeepsAll(s, step);
  }

  lemma StepKeepsInv(s: State, step: Step)
    requires Inv(s) && Enabled(s, step)
    ensures Inv(Next(s, step))
  {
    hide Inv, Next;
    match step
    case PopOrGrow => PopStepKeepsInv(s, step);
    case OwnerDrop(_) => DropStepKeepsInv(s, step);
    case RemoteCount(_) => DropStepKeepsInv(s, step);
    case RemoteEnqueue(_) => DropStepKeepsInv(s, step);
    case _ => OwnerStepKeepsInv(s, step);
  }

  lemma {:induction false} RunKeepsInv(s: State, steps: seq<Step>)
    requires Inv(s) && IsRun(s, steps)
    ensures Inv(Exec(s, steps)) && Exec(s, steps).p.max == s.p.max
    decreases |steps|
  {
    hide Inv;
    if steps != [] {
      StepKeepsInv(s, steps[0]);
      RunKeepsInv(Next(s, steps[0]), steps[1..]);
    }
  }

  // ---------------------------------------------------------------- main results

  /** In every interleaving: free, queued, mid-push and in-use buffers are together the
      buffers issued, at most `max`; the pending counter is never below the number of
      queued buffers; and a push that was counted finds room in the queue. */
  lemma PoolConserves(max: nat, steps: seq<Step>)
    requires IsRun(Init(max), steps)
    ensures var s := Exec(Init(max), steps);
      && |s.p.free| + |s.p.queue| + |s.pushing| + |s.inUse| == s.p.issued <= max
      && s.p.len >= |s.p.queue|
      && (|s.pushing| > 0 ==> |s.p.queue| < max)
      && (forall b :: Everywhere(s)[b] <= 1)
  {
    assert Everywhere(Init(max)) == multiset(Fresh(0, 0));
    RunKeepsInv(Init(max), steps);
    var s := Exec(Init(max), steps);
    Counted(s);
    forall b
      ensures Everywhere(s)[b] <= 1
    {
      FreshOnce(s.p.issued, b);
    }
  }

  lemma {:induction false} FreshOnce(n: nat, b: nat)
    ensures multiset(Fresh(0, n))[b] == if b < n then 1 else 0
  {
    if n > 0 {
      FreshOnce(n - 1, b);
      assert Fresh(0, n) == Fresh(0, n - 1) + [n - 1];
    }
  }

  lemma {:induction false} ExecLast(s: State, steps: seq<Step>)
    requires IsRun(s, steps) && steps != []
    ensures var n := |steps| - 1;
      IsRun(s, steps[..n]) && Enabled(Exec(s, steps[..n]), steps[n])
        && Exec(s, steps) == Next(Exec(s, steps[..n]), steps[n])
    decreases |steps|
  {
    hide Enabled, Next;
    var n := |steps| - 1;
    if n == 0 {
      assert steps[1..] == [] && steps[..0] == [];
    } else {
      ExecLast(Next(s, steps[0]), steps[1..]);
      assert steps[1..][..n - 1] == steps[..n][1..];
    }
  }

  /** Steps from the `k`-th on belong to one `allocate` call. */
  ghost predicate SameCall(steps: seq<Step>, k: nat)
  {
    forall j :: k <= j < |steps| ==> !steps[j].StartAllocate? && !steps[j].Return?
  }

  /** The state after the first `k` steps: every buffer issued is in use or mid-push, and
      no more were issued before the run's end. */
  ghost predicate AllBusyAt(max: nat, steps: seq<Step>, k: nat)
    requires IsRun(Init(max), steps)
  {
    && k <= |steps| && IsRun(Init(max), steps[..k]) && SameCall(steps, k)
    && var t := Exec(Init(max), steps[..k]);
       |t.inUse| + |t.pushing| == t.p.issued == Exec(Init(max), steps).p.issued
  }

  lemma InvOfRun(max: nat, steps: seq<Step>)
    requires IsRun(Init(max), steps)
    ensures Inv(Exec(Init(max), steps)) && Exec(Init(max), steps).p.max == max
  {
    assert Everywhere(Init(max)) == multiset(Fresh(0, 0));
    RunKeepsInv(Init(max), steps);
  }

  /** The owner leaves the look at the remote queue with nothing: all buffers are busy. */
  lemma NothingFound(s: State, step: Step)
    requires Inv(s) && Enabled(s, step) && (step.LoadLen? || step.DrainEnd?)
    requires var t := Next(s, step); t.owner.Failed? || (t.owner.TryPop? && t.p.free == [])
    ensures var t := Next(s, step); |t.inUse| + |t.pushing| == t.p.issued
  {
    hide Everywhere;
    Counted(s);
  }

  /** Whoever is about to fail has seen all buffers busy during this call. */
  lemma {:induction false} AllBusyMoment(max: nat, steps: seq<Step>) returns (k: nat)
    requires IsRun(Init(max), steps)
    requires var s := Exec(Init(max), steps); s.owner.Failed? || (s.owner.TryPop? && s.p.free == [])
    ensures AllBusyAt(max, steps, k)
    decreases |steps|
  {
    hide Inv, IsRun, Exec, Next, Enabled;
    StartIsIdle(max);
    ExecLast(Init(max), steps);
    var n := |steps| - 1;
    var s, last := Exec(Init(max), steps[..n]), steps[n];
    InvOfRun(max, steps[..n]);
    if last.LoadLen? || last.DrainEnd? {
      NothingFound(s, last);
      k := |steps|;
      assert steps[..k] == steps;
    } else {
      StillFailing(s, last);
      k := AllBusyMoment(max, steps[..n]);
      assert steps[..n][..k] == steps[..k];
      SameCallExtends(steps, k);
    }
  }

  lemma StartIsIdle(max: nat)
    ensures IsRun(Init(max), []) && Exec(Init(max), []) == Init(max) && Init(max).owner.Idle?
  {
  }

  lemma SameCallExtends(steps: seq<Step>, k: nat)
    requires steps != [] && k < |steps| && SameCall(steps[..|steps| - 1], k)
    requires !steps[|steps| - 1].StartAllocate? && !steps[|steps| - 1].Return?
    ensures SameCall(steps, k)
  {
    forall j | k <= j < |steps| - 1
      ensures !steps[j].StartAllocate? && !steps[j].Return?
    {
      assert steps[..|steps| - 1][j] == steps[j];
    }
  }

  lemma StillFailing(s: State, step: Step)
    requires Enabled(s, step) && !step.LoadLen? && !step.DrainEnd?
    requires var t := Next(s, step); t.owner.Failed? || (t.owner.TryPop? && t.p.free == [])
    ensures s.owner.Failed? || (s.owner.TryPop? && s.p.free == [])
    ensures Next(s, step).p.issued == s.p.issued && !step.StartAllocate? && !step.Return?
  {
  }

  /** An allocation fails only if there was a moment during the call at which all `max`
      buffers were in use or mid-push. */
  lemma FailureMeansAllBusy(max: nat, steps: seq<Step>)
    requires IsRun(Init(max), steps) && Exec(Init(max), steps).owner.Failed?
    ensures exists k: nat ::
      && k <= |steps| && IsRun(Init(max), steps[..k]) && SameCall(steps, k)
      && |Exec(Init(max), steps[..k]).inUse| + |Exec(Init(max), steps[..k]).pushing| == max
  {
    hide IsRun;
    var k := AllBusyMoment(max, steps);
    InvOfRun(max, steps);
  }

  /** The step that ends an allocation hands out one buffer: the last free one, or, when there is none, the last
      of a new slab of 64 buffers or of as many as the limit leaves; it fails exactly when
      neither exists. */
  lemma AllocationEnds(s: State)
    requires Inv(s) && Enabled(s, PopOrGrow)
    ensures var t := Next(s, PopOrGrow);
      && t.p.queue == s.p.queue && t.p.len == s.p.len && t.pushing == s.pushing
      && (t.owner.Failed? <==> s.p.free == [] && s.p.issued == s.p.max)
      && (t.owner.Failed? ==> t.p == s.p && t.inUse == s.inUse)
      && (s.p.free != [] ==>
            var b := s.p.free[|s.p.free| - 1];
            t.owner.Idle? && t.p.free + [b] == s.p.free && t.p.issued == s.p.issued && t.inUse == s.inUse + multiset{b})
      && (s.p.free == [] && s.p.issued < s.p.max ==>
            && t.owner.Idle? && t.p.issued == (if s.p.issued + 64 <= s.p.max then s.p.issued + 64 else s.p.max)
            && t.inUse == s.inUse + multiset{t.p.issued - 1}
            && |t.p.free| == t.p.issued - 1 - s.p.issued
            && forall i :: 0 <= i < |t.p.free| ==> t.p.free[i] == s.p.issued + i)
  {
    hide Everywhere;
  }

  /** The pool grows only if there was a moment during the call at which all the buffers it
      had issued were in use or mid-push. */
  lemma GrowsOnlyWhenAllBusy(max: nat, steps: seq<Step>)
    requires IsRun(Init(max), steps) && steps != [] && IsRun(Init(max), steps[..|steps| - 1])
    requires var front := steps[..|steps| - 1];
      Exec(Init(max), steps).p.issued > Exec(Init(max), front).p.issued
    ensures var front := steps[..|steps| - 1];
      exists k: nat ::
        && k <= |front| && IsRun(Init(max), front[..k]) && SameCall(front, k)
        && |Exec(Init(max), front[..k]).inUse| + |Exec(Init(max), front[..k]).pushing|
           == Exec(Init(max), front).p.issued
  {
    hide IsRun;
    ExecLast(Init(max), steps);
    var k := AllBusyMoment(max, steps[..|steps| - 1]);
  }

  /** A buffer dropped by the owner is the next one handed out. */
  lemma LastDroppedFirst(s: State, b: nat)
    requires Inv(s) && Enabled(s, OwnerDrop(b))
    ensures var s1 := Next(s, OwnerDrop(b));
      && Enabled(s1, StartAllocate) && Enabled(Next(s1, StartAllocate), PopOrGrow)
      && Next(Next(s1, StartAllocate), PopOrGrow) == s
  {
    hide Everywhere;
    var s1 := Next(s, OwnerDrop(b));
    assert s1.p.free[..|s.p.free|] == s.p.free;
  }
}
