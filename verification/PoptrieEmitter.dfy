/** Emission of the compressed arrays from the binary trie. */
module PoptrieEmitter {
  import opened Bits
  import opened Wrappers
  import opened BinaryTrie
  import opened PoptrieTable
  import opened PoptrieSize

  // ---------------------------------------------------------------- ranges of slots

  /** First slot of the range a partial pattern covers: `pattern << shift`. */
  function RangeStart(pattern: nat, shift: nat): (r: nat) { pattern * Pow2(shift) }

  lemma RangeHalves(pattern: nat, shift: nat)
    requires shift > 0
    ensures Pow2(shift) == 2 * Pow2(shift - 1)
    ensures RangeStart(2 * pattern, shift - 1) == RangeStart(pattern, shift)
    ensures RangeStart(2 * pattern + 1, shift - 1) == RangeStart(pattern, shift) + Pow2(shift - 1)
  {
    MulDouble(pattern, Pow2(shift - 1), Pow2(shift));
    MulSum(2 * pattern, 1, Pow2(shift - 1));
  }

  lemma RangeFits(pattern: nat, depth: nat, width: nat)
    requires depth <= width && pattern < Pow2(depth)
    ensures RangeStart(pattern, width - depth) + Pow2(width - depth) <= Pow2(width)
  {
    Pow2Add(depth, width - depth);
    MulMono(pattern + 1, Pow2(depth), Pow2(width - depth));
    MulSum(pattern, 1, Pow2(width - depth));
  }

  /** `out[start..start + len].fill(x)`. */
  method FillRange<T>(out: array<T>, start: nat, len: nat, x: T)
    requires start + len <= out.Length
    modifies out
    ensures forall j :: start <= j < start + len ==> out[j] == x
    ensures forall j :: 0 <= j < out.Length && !(start <= j < start + len) ==> out[j] == old(out[j])
  {
    for i := start to start + len
      invariant forall j :: start <= j < i ==> out[j] == x
      invariant forall j :: 0 <= j < out.Length && !(start <= j < i) ==> out[j] == old(out[j])
    {
      out[i] := x;
    }
  }

  /** The slots of one range hold what the trie resolves them to. */
  ghost predicate RangeResolved(bin: seq<BinNode>, out: seq<Slot>, id: Option<nat>, inherited: nat, start: nat, s: nat)
    requires InArena(bin) && IdOk(bin, id)
  {
    start + Pow2(s) <= |out| && forall v :: 0 <= v < Pow2(s) ==> out[start + v] == SlotAt(bin, id, inherited, v, s)
  }

  lemma HalvesResolved(bin: seq<BinNode>, out: seq<Slot>, id: Option<nat>, inherited: nat, start: nat, s: nat)
    requires InArena(bin) && IdOk(bin, id) && Branches(bin, id) && s > 0
    requires var e := Effective(bin, id, inherited);
      && RangeResolved(bin, out, bin[id.value].zero, e, start, s - 1)
      && RangeResolved(bin, out, bin[id.value].one, e, start + Pow2(s - 1), s - 1)
    ensures RangeResolved(bin, out, id, inherited, start, s)
  {
    var e, half := Effective(bin, id, inherited), Pow2(s - 1);
    forall v | 0 <= v < Pow2(s)
      ensures out[start + v] == SlotAt(bin, id, inherited, v, s)
    {
      if TopBit(v, s) {
        assert out[start + half + (v - half)] == SlotAt(bin, bin[id.value].one, e, v - half, s - 1);
      } else {
        assert out[start + v] == SlotAt(bin, bin[id.value].zero, e, v, s - 1);
      }
    }
  }

  lemma RangeKept(bin: seq<BinNode>, mid: seq<Slot>, out: seq<Slot>, id: Option<nat>, inherited: nat, start: nat,
                  s: nat)
    requires InArena(bin) && IdOk(bin, id) && RangeResolved(bin, mid, id, inherited, start, s)
    requires |out| == |mid| && forall j :: start <= j < start + Pow2(s) ==> out[j] == mid[j]
    ensures RangeResolved(bin, out, id, inherited, start, s)
  {
    hide Pow2;
  }

  lemma UniformResolved(bin: seq<BinNode>, out: seq<Slot>, id: Option<nat>, inherited: nat, start: nat, s: nat)
    requires InArena(bin) && IdOk(bin, id) && start + Pow2(s) <= |out| && (s == 0 || !Branches(bin, id))
    requires var e := Effective(bin, id, inherited);
      forall j :: start <= j < start + Pow2(s) ==> out[j] == if Branches(bin, id) then Internal(id.value, e)
        else Leaf(e)
    ensures RangeResolved(bin, out, id, inherited, start, s)
  {
    hide Pow2;
  }

  lemma PatternBits(pattern: nat, depth: nat)
    requires pattern < Pow2(depth)
    ensures Pow2(depth + 1) == 2 * Pow2(depth) && 2 * pattern + 1 < Pow2(depth + 1)
    ensures Pow2(0) == 1 && RangeStart(pattern, 0) == pattern
  {
  }

  /** `resolve_stride`: the 64 slots of one stride, ranges filled in place. */
  method ResolveStride(bin: seq<BinNode>, id: Option<nat>, inherited: nat, depth: nat, pattern: nat, out: array<Slot>)
    requires InArena(bin) && IdOk(bin, id) && depth <= STRIDE && pattern < Pow2(depth) && out.Length == Pow2(STRIDE)
    modifies out
    ensures RangeResolved(bin, out[..], id, inherited, RangeStart(pattern, STRIDE - depth), STRIDE - depth)
    ensures var start := RangeStart(pattern, STRIDE - depth);
      forall j :: 0 <= j < out.Length && !(start <= j < start + Pow2(STRIDE - depth)) ==> out[j] == old(out[j])
    decreases STRIDE - depth
  {
    hide Pow2, RangeStart;
    var effective := Effective(bin, id, inherited);
    var shift := STRIDE - depth;
    PatternBits(pattern, depth);
    RangeFits(pattern, depth, STRIDE);
    if !Branches(bin, id) {
      FillRange(out, RangeStart(pattern, shift), Pow2(shift), Leaf(effective));
      UniformResolved(bin, out[..], id, inherited, RangeStart(pattern, shift), shift);
      return;
    }
    if depth == STRIDE {
      out[pattern] := Internal(id.value, effective);
      UniformResolved(bin, out[..], id, inherited, RangeStart(pattern, shift), shift);
      return;
    }
    RangeHalves(pattern, shift);
    ghost var start, half := RangeStart(pattern, shift), Pow2(shift - 1);
    ResolveStride(bin, bin[id.value].zero, effective, depth + 1, 2 * pattern, out);
    ghost var mid := out[..];
    ResolveStride(bin, bin[id.value].one, effective, depth + 1, 2 * pattern + 1, out);
    RangeKept(bin, mid, out[..], bin[id.value].zero, effective, start, shift - 1);
    HalvesResolved(bin, out[..], id, inherited, start, shift);
  }

  // ---------------------------------------------------------------- encoding one node

  lemma EncodedGrows(slots: seq<Slot>, i: nat, vector: nat, leafvec: nat, children: seq<(nat, nat)>, base0: nat,
                     leaves: seq<nat>, child: bool, run: bool, children': seq<(nat, nat)>, leaves': seq<nat>)
    requires i < |slots| && vector < Pow2(i) && leafvec < Pow2(i)
    requires SlotsEncoded(slots, i, vector, leafvec, children, base0, leaves)
    requires children <= children' && leaves <= leaves'
    ensures var vector' := if child then vector + Pow2(i) else vector;
      var leafvec' := if run then leafvec + Pow2(i) else leafvec;
      && vector' < Pow2(i + 1) && leafvec' < Pow2(i + 1)
      && Bit(vector', i) == child && Rank(vector', i) == Rank(vector, i)
      && Rank(vector', i + 1) == Rank(vector, i) + (if child then 1 else 0)
      && Rank(leafvec', i + 1) == Rank(leafvec, i) + (if run then 1 else 0)
      && SlotsEncoded(slots, i, vector', leafvec', children', base0, leaves')
  {
    hide Rank, Bit, Pow2;
    BitmapGrows(vector, i, child);
    BitmapGrows(leafvec, i, run);
    var vector', leafvec' := if child then vector + Pow2(i) else vector, if run then leafvec + Pow2(i) else leafvec;
    forall v | 0 <= v < i
      ensures SlotEncoded(slots[v], v, vector', leafvec', children', base0, leaves')
    {
      assert SlotEncoded(slots[v], v, vector, leafvec, children, base0, leaves);
    }
  }

  /** The loop of `fill` over the slots: two bitmaps, the children in slot order, and
      one leaf per run of equal leaf slots. */
  method EncodeSlots(slots: seq<Slot>, leaves0: seq<nat>)
    returns (vector: nat, leafvec: nat, children: seq<(nat, nat)>, leaves: seq<nat>)
    ensures vector < Pow2(|slots|) && leafvec < Pow2(|slots|) && leaves0 <= leaves
    ensures |children| == Rank(vector, |slots|) && children == Internals(slots)
    ensures |leaves| <= |leaves0| + |slots|
    ensures SlotsEncoded(slots, |slots|, vector, leafvec, children, |leaves0|, leaves)
  {
    hide Rank, Bit, Pow2, Internals, SlotsEncoded;
    RankOfNothing();
    NothingEncoded(slots, |leaves0|, leaves0);
    vector, leafvec, children, leaves := 0, 0, [], leaves0;
    var currentRun: Option<nat> := None;
    for i := 0 to |slots|
      invariant vector < Pow2(i) && leafvec < Pow2(i) && leaves0 <= leaves
      invariant |children| == Rank(vector, i) && |leaves| == |leaves0| + Rank(leafvec, i)
      invariant SlotsEncoded(slots, i, vector, leafvec, children, |leaves0|, leaves)
      invariant currentRun.Some? ==> Rank(leafvec, i) >= 1 && leaves[|leaves| - 1] == currentRun.value
      invariant children == Internals(slots[..i]) && |leaves| <= |leaves0| + i
    {
      InternalsNext(slots, i);
      match slots[i] {
        case Internal(child, inherited) =>
          EncodedGrows(slots, i, vector, leafvec, children, |leaves0|, leaves, true, false,
                       children + [(child, inherited)], leaves);
          vector := vector + Pow2(i);
          children := children + [(child, inherited)];
          currentRun := None;
        case Leaf(value) =>
          if currentRun != Some(value) {
            EncodedGrows(slots, i, vector, leafvec, children, |leaves0|, leaves, false, true, children,
                         leaves + [value]);
            leafvec := leafvec + Pow2(i);
            leaves := leaves + [value];
            currentRun := Some(value);
          } else {
            EncodedGrows(slots, i, vector, leafvec, children, |leaves0|, leaves, false, false, children, leaves);
          }
      }
      EncodedNext(slots, i, vector, leafvec, children, |leaves0|, leaves);
    }
    assert slots[..|slots|] == slots;
  }

  lemma NothingEncoded(slots: seq<Slot>, base0: nat, leaves: seq<nat>)
    ensures SlotsEncoded(slots, 0, 0, 0, [], base0, leaves) && slots[..0] == [] && Internals([]) == []
  {
  }

  lemma InternalsNext(slots: seq<Slot>, i: nat)
    requires i < |slots|
    ensures Internals(slots[..i + 1]) == match slots[i]
      case Internal(c, inherited) => Internals(slots[..i]) + [(c, inherited)]
      case Leaf(_) => Internals(slots[..i])
  {
    assert slots[..i + 1][..i] == slots[..i];
  }

  lemma EncodedNext(slots: seq<Slot>, i: nat, vector: nat, leafvec: nat, children: seq<(nat, nat)>, base0: nat,
                    leaves: seq<nat>)
    requires i < |slots| && SlotsEncoded(slots, i, vector, leafvec, children, base0, leaves)
    requires SlotEncoded(slots[i], i, vector, leafvec, children, base0, leaves)
    ensures SlotsEncoded(slots, i + 1, vector, leafvec, children, base0, leaves)
  {
    hide SlotEncoded;
  }

  lemma RankOfNothing()
    ensures Rank(0, 0) == 0 && Pow2(0) == 1
  {
  }

  // ---------------------------------------------------------------- emitting nodes

  /** Bits left below a node that still has this many strides to go. */
  ghost predicate DepthLeft(bin: seq<BinNode>, labels: seq<Label>, bits: nat, id: nat, strides: nat)
  {
    Labelled(bin, labels, bits) && id < |bin| && labels[id].depth + STRIDE * strides == bits
  }

  class Emitter {
    const bin: seq<BinNode>
    var nodes: seq<Node>
    var leaves: seq<nat>

    constructor (bin: seq<BinNode>)
      ensures this.bin == bin && nodes == [] && leaves == []
    {
      this.bin := bin;
      nodes, leaves := [], [];
    }

    /** `fill`: writes the reserved node `slot` and everything below it.  No other
        existing node changes, and leaves are only appended. */
    method Fill(slot: nat, id: nat, inherited: nat, ghost labels: seq<Label>, ghost bits: nat, ghost strides: nat)
      requires DepthLeft(bin, labels, bits, id, strides) && strides > 0 && slot < |nodes|
      modifies this
      ensures |old(nodes)| <= |nodes| && old(leaves) <= leaves
      ensures forall i :: 0 <= i < |old(nodes)| && i != slot ==> nodes[i] == old(nodes)[i]
      ensures Rep(bin, nodes, leaves, slot, |old(nodes)|, |nodes|, id, inherited, strides)
      ensures |nodes| == |old(nodes)| + Emitted(bin, Some(id), STRIDE, strides - 1)
      ensures |leaves| - |old(leaves)| <= SLOTS * (1 + |nodes| - |old(nodes)|)
      decreases strides
    {
      hide Rep, SlotRep, Rank, Bit, Pow2, Emitted, ChildrenEmit, Internals, Resolves, SlotsEncoded;
      var slots := Resolve(id, inherited);
      var vector, leafvec, children, newLeaves := EncodeSlots(slots, leaves);
      var base0, base1 := |leaves|, |nodes|;
      leaves := newLeaves;
      nodes := nodes + seq(|children|, _ => DEFAULT_NODE);
      var node := Node(vector, leafvec, base0, base1);
      nodes := nodes[slot := node];
      ghost var encoded := leaves;
      ghost var hi := |nodes|;
      NoChildren(bin, children, strides - 1);
      for k := 0 to |children|
        invariant hi <= |nodes| && encoded <= leaves && nodes[slot] == node
        invariant forall i :: 0 <= i < base1 && i != slot ==> nodes[i] == old(nodes)[i]
        invariant k > 0 ==> strides > 1
        invariant ChildrenInArena(bin, children[..k]) && forall j :: 0 <= j < k ==> children[j].0 < |bin|
        invariant |nodes| + k == hi + ChildrenEmit(bin, children[..k], strides - 1)
        invariant |leaves| - |old(leaves)| <= SLOTS * (1 + |nodes| - hi + k)
        invariant forall j :: 0 <= j < k ==>
          Rep(bin, nodes, leaves, base1 + j, hi, |nodes|, children[j].0, children[j].1, strides - 1)
      {
        ChildDepth(bin, labels, bits, id, inherited, strides, slots, children[k]);
        ghost var before, beforeLeaves := nodes, leaves;
        Fill(base1 + k, children[k].0, children[k].1, labels, bits, strides - 1);
        SiblingsKept(bin, before, beforeLeaves, nodes, leaves, base1, hi, children, k, strides - 1);
        OneMoreChild(bin, children, k, strides - 1);
      }
      assert children[..|children|] == children;
      ResolvedEmit(bin, slots, Some(id), inherited, STRIDE, strides - 1);
      NodeAssembled(bin, nodes, leaves, slot, base1, hi, id, inherited, strides, slots, children, encoded);
    }

    /** `build_subtree`: a fresh node and everything below it, appended. */
    method BuildSubtree(id: nat, inherited: nat, ghost labels: seq<Label>, ghost bits: nat, ghost strides: nat)
      returns (slot: nat)
      requires DepthLeft(bin, labels, bits, id, strides) && strides > 0
      modifies this
      ensures old(nodes) <= nodes && old(leaves) <= leaves
      ensures slot < |nodes| && Rep(bin, nodes, leaves, slot, 0, |nodes|, id, inherited, strides)
      ensures Branches(bin, Some(id)) ==> |nodes| == |old(nodes)| + Emitted(bin, Some(id), 0, strides)
      ensures |leaves| - |old(leaves)| <= SLOTS * (|nodes| - |old(nodes)|)
    {
      hide Rep, SlotRep;
      slot := |nodes|;
      nodes := nodes + [DEFAULT_NODE];
      Fill(slot, id, inherited, labels, bits, strides);
      RepFrame(bin, nodes, leaves, nodes, leaves, slot, slot + 1, |nodes|, 0, |nodes|, id, inherited, strides);
    }

    /** `fill_direct`: the direct entries below one partial pattern. */
    method FillDirect(id: Option<nat>, inherited: nat, depth: nat, pattern: nat, directBits: nat, direct: array<nat>,
                      ghost labels: seq<Label>, ghost bits: nat, ghost strides: nat)
      requires Labelled(bin, labels, bits) && IdOk(bin, id) && (id.Some? ==> labels[id.value].depth == depth)
      requires depth <= directBits && pattern < Pow2(depth) && direct.Length == Pow2(directBits)
      requires directBits + STRIDE * strides == bits && strides > 0
      modifies this, direct
      ensures old(nodes) <= nodes && old(leaves) <= leaves
      ensures var start := RangeStart(pattern, directBits - depth);
        && DirectRange(bin, nodes, leaves, direct[..], id, inherited, start, directBits - depth, strides)
        && (forall j :: 0 <= j < direct.Length && !(start <= j < start + Pow2(directBits - depth)) ==>
            direct[j] == old(direct[j]))
      ensures |nodes| == |old(nodes)| + Emitted(bin, id, directBits - depth, strides)
      ensures |leaves| - |old(leaves)| <= SLOTS * (|nodes| - |old(nodes)|)
      decreases directBits - depth
    {
      hide Pow2, RangeStart, Rep, SlotRep;
      var effective := Effective(bin, id, inherited);
      var shift := directBits - depth;
      ghost var start := RangeStart(pattern, shift);
      PatternBits(pattern, depth);
      RangeFits(pattern, depth, directBits);
      if !Branches(bin, id) {
        FillRange(direct, RangeStart(pattern, shift), Pow2(shift), LEAF_FLAG + effective);
        return;
      }
      if depth == directBits {
        var root := BuildSubtree(id.value, effective, labels, bits, strides);
        direct[pattern] := root;
        return;
      }
      RangeHalves(pattern, shift);
      ChildDepths(bin, labels, bits, id.value);
      FillDirect(bin[id.value].zero, effective, depth + 1, 2 * pattern, directBits, direct, labels, bits, strides);
      ghost var mid, midNodes, midLeaves := direct[..], nodes, leaves;
      FillDirect(bin[id.value].one, effective, depth + 1, 2 * pattern + 1, directBits, direct, labels, bits, strides);
      DirectRangeKept(bin, midNodes, midLeaves, mid, nodes, leaves, direct[..], bin[id.value].zero, effective, start,
                      shift - 1, strides);
      DirectHalves(bin, nodes, leaves, direct[..], id, inherited, start, shift, strides);
    }

    method Resolve(id: nat, inherited: nat) returns (slots: seq<Slot>)
      requires InArena(bin) && id < |bin|
      ensures |slots| == SLOTS && Resolves(bin, slots, Some(id), inherited, STRIDE)
    {
      StrideSlots();
      var out := new Slot[SLOTS](_ => Leaf(0));
      ResolveStride(bin, Some(id), inherited, 0, 0, out);
      slots := out[..];
      assert forall v :: 0 <= v < SLOTS ==> slots[v] == slots[RangeStart(0, STRIDE) + v];
    }
  }

  /** The direct entries of one range answer for what the trie resolves them to. */
  ghost predicate DirectRange(bin: seq<BinNode>, nodes: seq<Node>, leaves: seq<nat>, direct: seq<nat>, id: Option<nat>,
                              inherited: nat, start: nat, s: nat, strides: nat)
    requires InArena(bin) && IdOk(bin, id)
  {
    start + Pow2(s) <= |direct|
    && forall v :: 0 <= v < Pow2(s) ==>
       DirectRep(bin, nodes, leaves, direct[start + v], SlotAt(bin, id, inherited, v, s), strides)
  }

  lemma DirectRangeKept(bin: seq<BinNode>, midNodes: seq<Node>, midLeaves: seq<nat>, mid: seq<nat>, nodes: seq<Node>,
                        leaves: seq<nat>, direct: seq<nat>, id: Option<nat>, inherited: nat, start: nat, s: nat,
                        strides: nat)
    requires InArena(bin) && IdOk(bin, id)
    requires DirectRange(bin, midNodes, midLeaves, mid, id, inherited, start, s, strides)
    requires midNodes <= nodes && midLeaves <= leaves && |direct| == |mid|
    requires forall j :: start <= j < start + Pow2(s) ==> direct[j] == mid[j]
    ensures DirectRange(bin, nodes, leaves, direct, id, inherited, start, s, strides)
  {
    hide Pow2, SlotAt, DirectRep;
    forall v | 0 <= v < Pow2(s)
      ensures DirectRep(bin, nodes, leaves, direct[start + v], SlotAt(bin, id, inherited, v, s), strides)
    {
      DirectFrame(bin, midNodes, midLeaves, nodes, leaves, mid[start + v], SlotAt(bin, id, inherited, v, s), strides);
    }
  }

  lemma DirectHalves(bin: seq<BinNode>, nodes: seq<Node>, leaves: seq<nat>, direct: seq<nat>, id: Option<nat>,
                     inherited: nat, start: nat, s: nat, strides: nat)
    requires InArena(bin) && IdOk(bin, id) && Branches(bin, id) && s > 0
    requires var e := Effective(bin, id, inherited);
      && DirectRange(bin, nodes, leaves, direct, bin[id.value].zero, e, start, s - 1, strides)
      && DirectRange(bin, nodes, leaves, direct, bin[id.value].one, e, start + Pow2(s - 1), s - 1, strides)
    ensures DirectRange(bin, nodes, leaves, direct, id, inherited, start, s, strides)
  {
    hide DirectRep;
    var e, half := Effective(bin, id, inherited), Pow2(s - 1);
    forall v | 0 <= v < Pow2(s)
      ensures DirectRep(bin, nodes, leaves, direct[start + v], SlotAt(bin, id, inherited, v, s), strides)
    {
      if TopBit(v, s) {
        assert DirectRep(bin, nodes, leaves, direct[start + half + (v - half)],
                         SlotAt(bin, bin[id.value].one, e, v - half, s - 1), strides);
      } else {
        assert DirectRep(bin, nodes, leaves, direct[start + v], SlotAt(bin, bin[id.value].zero, e, v, s - 1), strides);
      }
    }
  }

  lemma ChildDepths(bin: seq<BinNode>, labels: seq<Label>, bits: nat, n: nat)
    requires Labelled(bin, labels, bits) && n < |bin|
    ensures bin[n].zero.Some? ==> labels[bin[n].zero.value].depth == labels[n].depth + 1
    ensures bin[n].one.Some? ==> labels[bin[n].one.value].depth == labels[n].depth + 1
  {
    if bin[n].Child(false).Some? { ChildLabel(bin, labels, bits, n, false); }
    if bin[n].Child(true).Some? { ChildLabel(bin, labels, bits, n, true); }
  }

  lemma StrideSlots()
    ensures Pow2(STRIDE) == SLOTS && Pow2(0) == 1 && RangeStart(0, STRIDE) == 0
  {
    assert Pow2(6) == 2 * Pow2(5) && Pow2(5) == 2 * Pow2(4) && Pow2(4) == 2 * Pow2(3) && Pow2(3) == 2 * Pow2(2);
  }

  lemma ChildDepth(bin: seq<BinNode>, labels: seq<Label>, bits: nat, id: nat, inherited: nat, strides: nat,
                   slots: seq<Slot>, child: (nat, nat))
    requires DepthLeft(bin, labels, bits, id, strides) && strides > 0 && |slots| == SLOTS
    requires Resolves(bin, slots, Some(id), inherited, STRIDE)
    requires Internal(child.0, child.1) in slots
    ensures strides > 1 && DepthLeft(bin, labels, bits, child.0, strides - 1) && Branches(bin, Some(child.0))
  {
    var v :| 0 <= v < SLOTS && slots[v] == Internal(child.0, child.1);
    SlotDepth(bin, labels, bits, id, inherited, v, STRIDE);
  }

  lemma NoChildren(bin: seq<BinNode>, children: seq<(nat, nat)>, strides: nat)
    requires InArena(bin)
    ensures ChildrenInArena(bin, children[..0]) && ChildrenEmit(bin, children[..0], strides) == 0
  {
  }

  lemma OneMoreChild(bin: seq<BinNode>, children: seq<(nat, nat)>, k: nat, strides: nat)
    requires InArena(bin) && k < |children| && children[k].0 < |bin| && ChildrenInArena(bin, children[..k])
    requires strides > 0 && Branches(bin, Some(children[k].0))
    ensures ChildrenInArena(bin, children[..k + 1])
    ensures ChildrenEmit(bin, children[..k + 1], strides)
         == ChildrenEmit(bin, children[..k], strides) + 1 + Emitted(bin, Some(children[k].0), STRIDE, strides - 1)
  {
    assert children[..k + 1][..k] == children[..k];
  }

  /** Filling the next child leaves the earlier ones represented. */
  lemma SiblingsKept(bin: seq<BinNode>, before: seq<Node>, beforeLeaves: seq<nat>, nodes: seq<Node>, leaves: seq<nat>,
                     base1: nat, hi: nat, children: seq<(nat, nat)>, k: nat, strides: nat)
    requires InArena(bin) && k < |children| && base1 + |children| <= hi <= |before| <= |nodes| && beforeLeaves <= leaves
    requires forall j :: 0 <= j <= k ==> children[j].0 < |bin|
    requires forall i :: 0 <= i < |before| && i != base1 + k ==> nodes[i] == before[i]
    requires forall j :: 0 <= j < k ==>
      Rep(bin, before, beforeLeaves, base1 + j, hi, |before|, children[j].0, children[j].1, strides)
    requires Rep(bin, nodes, leaves, base1 + k, |before|, |nodes|, children[k].0, children[k].1, strides)
    ensures forall j :: 0 <= j <= k ==>
      Rep(bin, nodes, leaves, base1 + j, hi, |nodes|, children[j].0, children[j].1, strides)
  {
    hide Rep, SlotRep;
    forall j | 0 <= j <= k
      ensures Rep(bin, nodes, leaves, base1 + j, hi, |nodes|, children[j].0, children[j].1, strides)
    {
      if j < k {
        RepFrame(bin, before, beforeLeaves, nodes, leaves, base1 + j, hi, |before|, hi, |nodes|, children[j].0,
                 children[j].1, strides);
      } else {
        RepFrame(bin, nodes, leaves, nodes, leaves, base1 + k, |before|, |nodes|, hi, |nodes|, children[k].0,
                 children[k].1, strides);
      }
    }
  }

  lemma NodeAssembled(bin: seq<BinNode>, nodes: seq<Node>, leaves: seq<nat>, slot: nat, base1: nat, hi: nat, id: nat,
                      inherited: nat, strides: nat, slots: seq<Slot>, children: seq<(nat, nat)>, encoded: seq<nat>)
    requires InArena(bin) && id < |bin| && strides > 0 && slot < |nodes| && |slots| == SLOTS
    requires base1 + |children| <= hi <= |nodes| && encoded <= leaves && nodes[slot].base1 == base1
    requires Resolves(bin, slots, Some(id), inherited, STRIDE)
    requires SlotsEncoded(slots, SLOTS, nodes[slot].vector, nodes[slot].leafvec, children, nodes[slot].base0, encoded)
    requires |children| > 0 ==> strides > 1
    requires forall j :: 0 <= j < |children| ==> children[j].0 < |bin|
    requires forall j :: 0 <= j < |children| ==>
      Rep(bin, nodes, leaves, base1 + j, hi, |nodes|, children[j].0, children[j].1, strides - 1)
    ensures Rep(bin, nodes, leaves, slot, base1, |nodes|, id, inherited, strides)
  {
    hide SlotAt, Rank, Bit;
    var node := nodes[slot];
    forall v | 0 <= v < SLOTS
      ensures SlotRep(bin, nodes, leaves, node, base1, |nodes|, v, SlotAt(bin, Some(id), inherited, v, STRIDE), strides)
    {
      assert SlotEncoded(slots[v], v, node.vector, node.leafvec, children, node.base0, encoded);
      if slots[v].Internal? {
        var j := Rank(node.vector, v);
        RepFrame(bin, nodes, leaves, nodes, leaves, base1 + j, hi, |nodes|, base1, |nodes|, children[j].0,
                 children[j].1, strides - 1);
      }
    }
  }
}
