/** Whole runs from the moment the sockets are opened: every frame in exactly one
    place, no completion rejected, the in-flight counter exact, and the counting
    arguments that the unchecked pushes rest on. */
module FrameRuns {
  import opened Bits
  import opened Umem
  import opened FrameReclaim
  import opened FrameProtocol
  import opened FrameInvariant

  // ---------------------------------------------------------------- opening

  /** Offsets of the frames numbered `lo` up to `hi`. */
  function Slice(g: Geometry, lo: nat, hi: nat): (r: seq<nat>)
    requires lo <= hi
    ensures |r| == hi - lo
    ensures forall k :: 0 <= k < hi - lo ==> r[k] == g.FrameOffset(lo + k)
  {
    seq<nat>(hi - lo, k requires 0 <= k < hi - lo => g.FrameOffset(lo + k))
  }

  function SliceStart(g: Geometry, i: nat): nat { i * g.perMember }

  /** A member as opened: its RX frames prefill the FILL ring, its TX frames are free. */
  function OpenedMember(g: Geometry, i: nat): Member
  {
    var lo := SliceStart(g, i);
    Member(RxSide(Slice(g, lo, lo + g.PerRx()), [], [], Pool([], [])),
           TxSide([], [], Pool(Slice(g, lo + g.PerRx(), lo + g.perMember), []), 0))
  }

  function Opened(g: Geometry): (s: State)
    ensures |s.members| == g.members
    ensures forall i :: 0 <= i < g.members ==> s.members[i] == OpenedMember(g, i)
  {
    State(seq(g.members, i requires 0 <= i < g.members => OpenedMember(g, i)), [])
  }

  function ActiveFrames(g: Geometry): set<nat>
  {
    set i | 0 <= i < g.TotalFrames() :: g.FrameOffset(i)
  }

  /** Frame `k` of a member's slice. */
  function FrameOf(g: Geometry, m: nat, k: nat): nat { g.FrameOffset(SliceStart(g, m) + k) }

  /** The frames of one class in one member's slice. */
  function HomeFrames(g: Geometry, m: nat, rx: bool): set<nat>
  {
    set k | (if rx then 0 else g.PerRx()) <= k < (if rx then g.PerRx() else g.perMember) :: FrameOf(g, m, k)
  }

  /** Member whose slice a frame address lies in. */
  function HomeOf(g: Geometry, f: nat): nat
    requires g.Validated()
  {
    f / g.frameSize / g.perMember
  }

  function OpenedLayout(g: Geometry, umemLen: nat, reclaim: CompletionReclaim, fillSize: nat, headroom: nat): Layout
    requires g.Validated()
  {
    Layout(g.frameSize, umemLen, reclaim, ActiveFrames(g), map f | f in ActiveFrames(g) :: HomeOf(g, f), fillSize,
           headroom)
  }

  /** Which layout the sockets were opened with: the prefill must fit the FILL ring. */
  predicate IsOpened(g: Geometry, l: Layout)
  {
    && g.Validated() && g.PerRx() <= l.fillSize
    && (|| (g.members == 1
            && l == OpenedLayout(g, g.FrameOffset(g.TotalFrames()), g.LocalReclaim(), l.fillSize, l.headroom))
        || (g.FrameOffset(g.TotalFrames()) <= l.umemLen && g.SharedReclaim().Some?
            && l == OpenedLayout(g, l.umemLen, g.SharedReclaim().value, l.fillSize, l.headroom)))
  }

  // ---------------------------------------------------------------- frame numbers

  lemma OffsetsDiffer(g: Geometry, i: nat, j: nat)
    requires g.frameSize > 0 && g.FrameOffset(i) == g.FrameOffset(j)
    ensures i == j
  {
    MulLess(i, j, g.frameSize);
    MulLess(j, i, g.frameSize);
  }

  lemma SlicesFit(g: Geometry, i: nat)
    requires i < g.members
    ensures SliceStart(g, i) + g.perMember <= g.TotalFrames()
  {
    MulMono(i + 1, g.members, g.perMember);
    assert (i + 1) * g.perMember == i * g.perMember + g.perMember;
  }

  /** Class, acceptance, alignment and home of every active frame. */
  lemma FrameFacts(g: Geometry, l: Layout, m: nat, k: nat)
    requires IsOpened(g, l) && m < g.members && k < g.perMember
    ensures var f := FrameOf(g, m, k);
      && f in l.frames
      && FrameBase(f, l.frameSize) == f
      && !l.reclaim.Rejects(f, l.umemLen)
      && (l.reclaim.IsRx(f) <==> k < g.PerRx())
      && f in l.home && l.home[f] == m
  {
    var index := SliceStart(g, m) + k;
    SlicesFit(g, m);
    DivModUnique(index, g.perMember, m, k);
    DivModUnique(g.FrameOffset(index), g.frameSize, index, 0);
    FrameBaseOfByte(index, 0, g.frameSize);
    if l.reclaim.LocalSplit? {
      LocalSplitClassifies(g, index);
    } else {
      SharedMaskClassifies(g, index, l.umemLen);
    }
    assert g.FrameOffset(index) in ActiveFrames(g);
  }

  /** Every frame number is some member's. */
  lemma NumberOfFrame(g: Geometry, f: nat) returns (m: nat, k: nat)
    requires g.Validated() && f in ActiveFrames(g)
    ensures m < g.members && k < g.perMember && f == FrameOf(g, m, k)
  {
    var index :| 0 <= index < g.TotalFrames() && f == g.FrameOffset(index);
    m, k := SplitNumber(index, g.perMember, g.members);
  }

  lemma SplitNumber(index: nat, per: nat, members: nat) returns (m: nat, k: nat)
    requires per > 0 && index < per * members
    ensures m < members && k < per && index == m * per + k
  {
    m, k := index / per, index % per;
    if m >= members { MulMono(members, m, per); assert false; }
  }

  lemma OpenedLayoutOk(g: Geometry, l: Layout)
    requires IsOpened(g, l)
    ensures LayoutOk(l, g.members)
  {
    forall f | f in l.frames
      ensures FrameBase(f, l.frameSize) == f && !l.reclaim.Rejects(f, l.umemLen) && f in l.home && l.home[f] < g.members
    {
      var m, k := NumberOfFrame(g, f);
      FrameFacts(g, l, m, k);
    }
  }

  // ---------------------------------------------------------------- the opened state

  lemma {:induction false} DistinctCounts(s: seq<nat>, f: nat)
    requires forall i, j :: 0 <= i < j < |s| ==> s[i] != s[j]
    ensures multiset(s)[f] == if f in s then 1 else 0
  {
    if s != [] {
      DistinctCounts(s[1..], f);
      assert s == [s[0]] + s[1..];
    }
  }

  lemma SliceJoins(g: Geometry, a: nat, b: nat, c: nat)
    requires a <= b <= c
    ensures Slice(g, a, b) + Slice(g, b, c) == Slice(g, a, c)
  {
  }

  lemma MemberHoldsSlice(g: Geometry, l: Layout, i: nat)
    requires IsPow2(l.frameSize)
    ensures Owned(l, OpenedMember(g, i)) == multiset(Slice(g, SliceStart(g, i), SliceStart(g, i) + g.perMember))
  {
    var lo := SliceStart(g, i);
    SliceJoins(g, lo, lo + g.PerRx(), lo + g.perMember);
    assert DescBases(l, []) == [] && Bases([], l.frameSize) == [];
  }

  lemma {:induction false} MembersHoldRest(g: Geometry, l: Layout, i: nat)
    requires IsPow2(l.frameSize) && i <= g.members
    ensures SliceStart(g, i) <= g.TotalFrames()
    ensures SumOf(OwnedBy(l, Opened(g).members)[i..]) == multiset(Slice(g, SliceStart(g, i), g.TotalFrames()))
    decreases g.members - i
  {
    hide Owned;
    var parts := OwnedBy(l, Opened(g).members);
    if i == g.members {
      assert SliceStart(g, i) == g.TotalFrames();
      assert parts[i..] == [];
    } else {
      MembersHoldRest(g, l, i + 1);
      SlicesFit(g, i);
      var lo := SliceStart(g, i);
      assert SliceStart(g, i + 1) == lo + g.perMember;
      MemberHoldsSlice(g, l, i);
      SliceJoins(g, lo, lo + g.perMember, g.TotalFrames());
      assert parts[i..][1..] == parts[i + 1..] && parts[i..][0] == Owned(l, OpenedMember(g, i));
    }
  }

  lemma OpenedInOnePlace(g: Geometry, l: Layout)
    requires IsOpened(g, l)
    ensures EachInOnePlace(l, Opened(g))
  {
    var all := Slice(g, 0, g.TotalFrames());
    MembersHoldRest(g, l, 0);
    assert OwnedBy(l, Opened(g).members)[0..] == OwnedBy(l, Opened(g).members);
    assert BufferFrames(Opened(g).live) == [];
    forall f
      ensures Places(l, Opened(g), f) == if f in l.frames then 1 else 0
    {
      forall i, j | 0 <= i < j < |all|
        ensures all[i] != all[j]
      {
        if all[i] == all[j] { OffsetsDiffer(g, i, j); }
      }
      DistinctCounts(all, f);
      if f in l.frames {
        var i :| 0 <= i < g.TotalFrames() && f == g.FrameOffset(i);
        assert all[i] == f;
      }
    }
  }

  lemma SliceClass(g: Geometry, l: Layout, i: nat, lo: nat, hi: nat, rx: bool)
    requires IsOpened(g, l) && i < g.members
    requires lo <= hi <= g.perMember && (if rx then hi <= g.PerRx() else g.PerRx() <= lo)
    ensures forall f :: f in Slice(g, SliceStart(g, i) + lo, SliceStart(g, i) + hi) ==> l.reclaim.IsRx(f) == rx
  {
    var slice := Slice(g, SliceStart(g, i) + lo, SliceStart(g, i) + hi);
    forall f | f in slice
      ensures l.reclaim.IsRx(f) == rx
    {
      var k :| 0 <= k < |slice| && slice[k] == f;
      FrameFacts(g, l, i, lo + k);
    }
  }

  lemma OpenedMemberOk(g: Geometry, l: Layout, i: nat)
    requires IsOpened(g, l) && IsPow2(l.frameSize) && i < g.members
    ensures MemberOk(l, OpenedMember(g, i))
  {
    hide IsOpened, CompletionReclaim.IsRx, FrameBase;
    SliceClass(g, l, i, 0, g.PerRx(), true);
    SliceClass(g, l, i, g.PerRx(), g.perMember, false);
    assert DescBases(l, []) == [];
  }

  /** Freshly opened sockets satisfy the ownership invariant, in both layouts and for
      every accepted size. */
  lemma OpenedInv(g: Geometry, l: Layout)
    requires IsOpened(g, l)
    ensures Inv(l, Opened(g))
  {
    hide EachInOnePlace, MemberOk;
    OpenedLayoutOk(g, l);
    OpenedInOnePlace(g, l);
    forall i | 0 <= i < g.members
      ensures MemberOk(l, Opened(g).members[i])
    {
      OpenedMemberOk(g, l, i);
    }
  }

  // ---------------------------------------------------------------- runs

  lemma {:induction false} RunKeepsInv(l: Layout, s: State, steps: seq<Step>)
    requires Inv(l, s) && IsRun(l, s, steps)
    ensures Inv(l, Exec(l, s, steps))
    decreases |steps|
  {
    hide Inv;
    if steps != [] {
      LayoutOfInv(l, s);
      StepKeepsInv(l, s, steps[0]);
      RunKeepsInv(l, Next(l, s, steps[0]), steps[1..]);
    }
  }

  lemma LayoutOfInv(l: Layout, s: State)
    requires Inv(l, s)
    ensures IsPow2(l.frameSize)
  {
  }

  /** Every run of open sockets, in both layouts and with buffers sent through any
      member: each active frame is in exactly one place, receive structures hold only
      RX-class frames, TX pools only TX-class frames, and every in-flight counter is
      the number of frames submitted and not drained. */
  lemma EachFrameInOnePlace(g: Geometry, l: Layout, steps: seq<Step>)
    requires IsOpened(g, l) && IsPow2(l.frameSize) && IsRun(l, Opened(g), steps)
    ensures var s := Exec(l, Opened(g), steps);
      && EachInOnePlace(l, s)
      && (forall i :: 0 <= i < |s.members| ==> MemberOk(l, s.members[i]))
      && (forall k :: 0 <= k < |s.live| ==> BufferOk(l, |s.members|, s.live[k]))
  {
    hide EachInOnePlace, MemberOk;
    OpenedInv(g, l);
    RunKeepsInv(l, Opened(g), steps);
  }
}
