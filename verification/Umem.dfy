/** UMEM geometry: frames of a power-of-two size, split into RX and TX classes,
    and the mask arithmetic that recovers frame and class from a completion. */
module Umem {
  import opened Bits
  import opened Wrappers

  /** AF_XDP descriptor. */
  datatype XdpDesc = XdpDesc(addr: nat, len: nat)

  /** How a completed frame is told to belong to the RX or the TX free list. */
  datatype CompletionReclaim =
    | LocalSplit(firstTxFrameAddr: nat)
    | SharedMemberSlices(memberByteMask: nat, rxMemberByteLen: nat, activeByteLen: nat)
  {
    /** The RX side of the classification of a frame address. */
    predicate IsRx(frameAddr: nat)
    {
      match this
      case LocalSplit(first) => frameAddr < first
      case SharedMemberSlices(mask, rxLen, _) => And(frameAddr, mask) < rxLen
    }

    /** Addresses the reclaim loops report as ring corruption. */
    predicate Rejects(frameAddr: nat, umemLen: nat)
    {
      frameAddr >= umemLen || (SharedMemberSlices? && frameAddr >= activeByteLen)
    }
  }

  /** Frame that a descriptor or completion address points into: `addr & !frame_mask`. */
  function FrameBase(addr: nat, frameSize: nat): (r: nat)
    requires IsPow2(frameSize)
    ensures r <= addr < r + frameSize
  {
    AndNotBounds(addr, frameSize);
    AndNot(addr, frameSize - 1)
  }

  /** Sizes chosen when the sockets are opened.  A single socket has one member. */
  datatype Geometry = Geometry(frameSize: nat, perMember: nat, members: nat)
  {
    /** What `open` and `open_shared_members` accept. */
    predicate Validated() { IsPow2(frameSize) && IsPow2(perMember) && perMember >= 2 && members >= 1 }

    function PerRx(): nat { perMember / 2 }
    function TotalFrames(): nat { perMember * members }
    function FrameOffset(index: nat): nat { index * frameSize }

    /** `open`: one socket, the lower half of its frames is for RX. */
    function LocalReclaim(): CompletionReclaim
    {
      LocalSplit(FrameOffset(PerRx()))
    }

    /** `CompletionReclaim::shared_member_slices`; `None` for the sizes it refuses. */
    function SharedReclaim(): (r: Option<CompletionReclaim>)
    {
      if !IsPow2(frameSize) || !IsPow2(perMember) || !IsPow2(PerRx()) || PerRx() > perMember then None
      else Some(SharedMemberSlices(perMember * frameSize - 1, PerRx() * frameSize, TotalFrames() * frameSize))
    }
  }

  // ---------------------------------------------------------------- mask arithmetic

  lemma MulLess(a: nat, b: nat, c: nat)
    requires c > 0
    ensures a < b <==> a * c < b * c
  {
    if a < b {
      MulMono(a + 1, b, c);
      assert (a + 1) * c == a * c + c;
    } else {
      MulMono(b, a, c);
    }
  }

  lemma ProductIsPow2(a: nat, b: nat)
    requires IsPow2(a) && IsPow2(b)
    ensures a * b >= 0 && IsPow2(a * b)
  {
    var i, j := Log2(a), Log2(b);
    Pow2Add(i, j);
    Pow2IsPow2(i + j);
  }

  /** Inside one member's slice an address repeats the layout of the first slice. */
  lemma SliceOffset(index: nat, per: nat, size: nat)
    requires per > 0 && size > 0
    ensures per * size > 0 && index * size >= 0
    ensures (index * size) % (per * size) == (index % per) * size
  {
    MulLess(0, per, size);
    var q, r := index / per, index % per;
    assert index == q * per + r;
    assert index * size == (q * per) * size + r * size;
    assert (q * per) * size == q * (per * size);
    MulLess(r, per, size);
    assert r * size >= 0 && index * size >= 0;
    DivModUnique(index * size, per * size, q, r * size);
  }

  /** A byte anywhere inside frame `index` rounds down to that frame. */
  lemma FrameBaseOfByte(index: nat, offset: nat, size: nat)
    requires IsPow2(size) && offset < size
    ensures index * size >= 0 && FrameBase(index * size + offset, size) == index * size
  {
    assert index * size >= 0;
    AndNotRoundsDown(index * size + offset, size);
    DivModUnique(index * size + offset, size, index, offset);
  }

  /** For all validated sizes, classifying a frame by the member mask is classifying
      it by its index within its member's slice; the active frames are accepted and
      the power-of-two slack beyond them is rejected. */
  lemma SharedMaskClassifies(g: Geometry, index: nat, umemLen: nat)
    requires g.Validated() && g.FrameOffset(g.TotalFrames()) <= umemLen
    ensures g.SharedReclaim().Some?
    ensures g.FrameOffset(index) >= 0
    ensures g.SharedReclaim().value.IsRx(g.FrameOffset(index)) <==> index % g.perMember < g.PerRx()
    ensures !g.SharedReclaim().value.Rejects(g.FrameOffset(index), umemLen) <==> index < g.TotalFrames()
  {
    HalfIsPow2(g.perMember);
    ProductIsPow2(g.perMember, g.frameSize);
    SliceOffset(index, g.perMember, g.frameSize);
    AndSizeMask(g.FrameOffset(index), g.perMember * g.frameSize);
    MulLess(index % g.perMember, g.PerRx(), g.frameSize);
    MulLess(index, g.TotalFrames(), g.frameSize);
  }

  lemma HalfIsPow2(n: nat)
    requires IsPow2(n) && n >= 2
    ensures IsPow2(n / 2) && 1 <= n / 2 <= n && n == 2 * (n / 2)
  {
  }

  /** The single-socket comparison agrees with the member mask for one member. */
  lemma LocalSplitClassifies(g: Geometry, index: nat)
    requires g.Validated() && g.members == 1 && index < g.TotalFrames()
    ensures g.LocalReclaim().IsRx(g.FrameOffset(index)) <==> index % g.perMember < g.PerRx()
    ensures !g.LocalReclaim().Rejects(g.FrameOffset(index), g.FrameOffset(g.TotalFrames()))
  {
    assert g.TotalFrames() == g.perMember;
    MulLess(index, g.PerRx(), g.frameSize);
    MulLess(index, g.TotalFrames(), g.frameSize);
    DivModUnique(index, g.perMember, 0, index);
  }
}
