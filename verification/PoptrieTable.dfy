/** The compressed table: what a stride slot resolves to, how a node of two bitmaps
    encodes 64 slots, and when a node of the arrays represents a node of the binary
    trie. */
module PoptrieTable {
  import opened Bits
  import opened Wrappers
  import opened BinaryTrie

  const STRIDE: nat := 6
  const SLOTS: nat := 64
  const LEAF_FLAG: nat := 0x8000_0000
  const VALUE_MASK: nat := 0x7FFF_FFFF

  datatype Slot = Internal(node: nat, inherited: nat) | Leaf(value: nat)

  datatype Node = Node(vector: nat, leafvec: nat, base0: nat, base1: nat)

  const DEFAULT_NODE := Node(0, 0, 0, 0)

  // ---------------------------------------------------------------- slots

  /** What chunk `v` of `s` bits below a trie node resolves to. */
  function SlotAt(bin: seq<BinNode>, id: Option<nat>, inherited: nat, v: nat, s: nat): (r: Slot)
    requires InArena(bin) && IdOk(bin, id)
    ensures r.Internal? ==> r.node < |bin| && Branches(bin, Some(r.node))
    decreases s
  {
    var effective := Effective(bin, id, inherited);
    if !Branches(bin, id) then Leaf(effective)
    else if s == 0 then Internal(id.value, effective)
    else SlotAt(bin, bin[id.value].Child(TopBit(v, s)), effective, BelowTop(v, s), s - 1)
  }

  /** Internal slots are `s` levels deeper. */
  lemma {:induction false} SlotDepth(bin: seq<BinNode>, labels: seq<Label>, bits: nat, n: nat, inherited: nat, v: nat,
                                     s: nat)
    requires Labelled(bin, labels, bits) && n < |bin| && SlotAt(bin, Some(n), inherited, v, s).Internal?
    ensures var c := SlotAt(bin, Some(n), inherited, v, s).node; labels[c].depth == labels[n].depth + s < bits
    decreases s
  {
    if s == 0 {
      var b := bin[n].one.Some?;
      ChildLabel(bin, labels, bits, n, b);
    } else {
      var child := bin[n].Child(TopBit(v, s));
      if child.None? {
        assert false;
      } else {
        ChildLabel(bin, labels, bits, n, TopBit(v, s));
        SlotDepth(bin, labels, bits, child.value, Effective(bin, Some(n), inherited), BelowTop(v, s), s - 1);
      }
    }
  }

  /** The first `s` bits of a `w`-bit key decide its first bit. */
  lemma {:induction false} ChunkTop(k: nat, w: nat, s: nat)
    requires 0 < s <= w && k < Pow2(w)
    ensures TopBit(k, w) == TopBit(Shr(k, w - s), s)
    ensures Shr(BelowTop(k, w), w - s) == BelowTop(Shr(k, w - s), s)
    ensures LowBits(BelowTop(k, w), w - s) == LowBits(k, w - s)
    decreases w - s
  {
    if s < w {
      ChunkTop(k / 2, w - 1, s);
      assert TopBit(k, w) == TopBit(k / 2, w - 1);
      assert BelowTop(k, w) / 2 == BelowTop(k / 2, w - 1) && BelowTop(k, w) % 2 == k % 2;
    }
  }

  lemma NoBranchLpm(bin: seq<BinNode>, id: Option<nat>, inherited: nat, k: nat, w: nat)
    requires InArena(bin) && IdOk(bin, id) && !Branches(bin, id)
    ensures BinLpm(bin, id, inherited, k, w) == Effective(bin, id, inherited)
  {
    if id.Some? && w > 0 {
      assert bin[id.value].Child(TopBit(k, w)) == None;
    }
  }

  lemma LowBitsWhole(k: nat, w: nat)
    requires k < Pow2(w)
    ensures LowBits(k, w) == k
  {
    SplitAt(k, w);
    ShrBound(k, w, 0);
  }

  /** Resolving the first `s` bits and then the rest is following all of them. */
  lemma {:induction false} SlotSplitsLookup(bin: seq<BinNode>, id: Option<nat>, inherited: nat, k: nat, w: nat, s: nat)
    requires InArena(bin) && IdOk(bin, id) && s <= w && k < Pow2(w)
    ensures BinLpm(bin, id, inherited, k, w)
         == match SlotAt(bin, id, inherited, Shr(k, w - s), s)
            case Leaf(value) => value
            case Internal(c, effective) => BinLpm(bin, Some(c), effective, LowBits(k, w - s), w - s)
    decreases s
  {
    hide Shr, LowBits, Pow2, TopBit, BelowTop;
    if !Branches(bin, id) {
      NoBranchLpm(bin, id, inherited, k, w);
    } else if s == 0 {
      LowBitsWhole(k, w);
    } else {
      ChunkTop(k, w, s);
      var effective := Effective(bin, id, inherited);
      SlotSplitsLookup(bin, bin[id.value].Child(TopBit(k, w)), effective, BelowTop(k, w), w - 1, s - 1);
    }
  }

  // ---------------------------------------------------------------- node encoding

  /** One slot of a node: an internal slot by its position among the children, a leaf
      slot by the run that covers it. */
  ghost predicate SlotEncoded(slot: Slot, v: nat, vector: nat, leafvec: nat, children: seq<(nat, nat)>, base0: nat,
                              leaves: seq<nat>)
  {
    match slot
    case Internal(c, inherited) =>
      Bit(vector, v) && Rank(vector, v) < |children| && children[Rank(vector, v)] == (c, inherited)
    case Leaf(value) =>
      !Bit(vector, v) && Rank(leafvec, v + 1) >= 1 && base0 + Rank(leafvec, v + 1) - 1 < |leaves|
      && leaves[base0 + Rank(leafvec, v + 1) - 1] == value
  }

  ghost predicate SlotsEncoded(slots: seq<Slot>, n: nat, vector: nat, leafvec: nat, children: seq<(nat, nat)>,
                               base0: nat, leaves: seq<nat>)
    requires n <= |slots|
  {
    forall v :: 0 <= v < n ==> SlotEncoded(slots[v], v, vector, leafvec, children, base0, leaves)
  }

  /** A bitmap below `2^i` with bit `i` perhaps added keeps every lower bit and rank. */
  lemma BitmapGrows(x: nat, i: nat, added: bool)
    requires x < Pow2(i)
    ensures var y := if added then x + Pow2(i) else x;
      && y < Pow2(i + 1) && Bit(y, i) == added
      && Rank(y, i + 1) == Rank(x, i) + (if added then 1 else 0)
      && (forall j :: 0 <= j < i ==> Bit(y, j) == Bit(x, j))
      && (forall j :: 0 <= j <= i ==> Rank(y, j) == Rank(x, j))
  {
    var y := if added then x + Pow2(i) else x;
    NoHighBit(x, i, i);
    forall j | 0 <= j <= i
      ensures Bit(y, j) == if j == i then added else Bit(x, j)
    {
      if added { SetBit(x, i, j); }
    }
    forall j | 0 <= j <= i
      ensures Rank(y, j) == Rank(x, j)
    {
      RankCongruent(x, y, j);
    }
  }

  // ---------------------------------------------------------------- representation

  /** Node `idx` of the arrays answers for trie node `id` with `inherited`, over this
      many strides.  All nodes below it lie in `lo..hi`. */
  ghost predicate Rep(bin: seq<BinNode>, nodes: seq<Node>, leaves: seq<nat>, idx: nat, lo: nat, hi: nat, id: nat,
                      inherited: nat, strides: nat)
    requires InArena(bin) && id < |bin|
    decreases strides, 1
  {
    && strides > 0 && idx < |nodes| && hi <= |nodes|
    && forall v :: 0 <= v < SLOTS ==>
         SlotRep(bin, nodes, leaves, nodes[idx], lo, hi, v, SlotAt(bin, Some(id), inherited, v, STRIDE), strides)
  }

  ghost predicate SlotRep(bin: seq<BinNode>, nodes: seq<Node>, leaves: seq<nat>, node: Node, lo: nat, hi: nat, v: nat,
                          slot: Slot, strides: nat)
    requires InArena(bin) && (slot.Internal? ==> slot.node < |bin|) && strides > 0
    decreases strides, 0
  {
    match slot
    case Leaf(value) =>
      !Bit(node.vector, v) && Rank(node.leafvec, v + 1) >= 1 && node.base0 + Rank(node.leafvec, v + 1) - 1 < |leaves|
      && leaves[node.base0 + Rank(node.leafvec, v + 1) - 1] == value
    case Internal(c, effective) =>
      var child := node.base1 + Rank(node.vector, v);
      Bit(node.vector, v) && strides > 1 && lo <= child < hi
        && Rep(bin, nodes, leaves, child, lo, hi, c, effective, strides - 1)
  }

  /** Arrays that agree on a node's own range, with more leaves at the end. */
  ghost predicate AgreeOn(nodes: seq<Node>, leaves: seq<nat>, nodes': seq<Node>, leaves': seq<nat>, lo: nat, hi: nat)
  {
    hi <= |nodes| && hi <= |nodes'| && leaves <= leaves' && forall i :: lo <= i < hi ==> nodes'[i] == nodes[i]
  }

  /** A representation only depends on its own range, and may be given a wider one. */
  lemma {:induction false} RepFrame(bin: seq<BinNode>, nodes: seq<Node>, leaves: seq<nat>, nodes': seq<Node>,
                                    leaves': seq<nat>, idx: nat, lo: nat, hi: nat, lo': nat, hi': nat, id: nat,
                                    inherited: nat, strides: nat)
    requires InArena(bin) && id < |bin| && Rep(bin, nodes, leaves, idx, lo, hi, id, inherited, strides)
    requires AgreeOn(nodes, leaves, nodes', leaves', lo, hi) && idx < |nodes'| && nodes'[idx] == nodes[idx]
    requires lo' <= lo && hi <= hi' <= |nodes'|
    ensures Rep(bin, nodes', leaves', idx, lo', hi', id, inherited, strides)
    decreases strides
  {
    hide SlotAt;
    forall v | 0 <= v < SLOTS
      ensures SlotRep(bin, nodes', leaves', nodes'[idx], lo', hi', v, SlotAt(bin, Some(id), inherited, v, STRIDE),
                      strides)
    {
      var slot := SlotAt(bin, Some(id), inherited, v, STRIDE);
      assert SlotRep(bin, nodes, leaves, nodes[idx], lo, hi, v, slot, strides);
      if slot.Internal? {
        var child := nodes[idx].base1 + Rank(nodes[idx].vector, v);
        RepFrame(bin, nodes, leaves, nodes', leaves', child, lo, hi, lo', hi', slot.node, slot.inherited, strides - 1);
      }
    }
  }

  /** A direct entry answers for what the top bits resolve to. */
  ghost predicate DirectRep(bin: seq<BinNode>, nodes: seq<Node>, leaves: seq<nat>, entry: nat, slot: Slot, strides: nat)
    requires InArena(bin) && (slot.Internal? ==> slot.node < |bin|)
  {
    match slot
    case Leaf(value) => entry == LEAF_FLAG + value
    case Internal(c, effective) => entry < |nodes| && Rep(bin, nodes, leaves, entry, 0, |nodes|, c, effective, strides)
  }

  lemma DirectFrame(bin: seq<BinNode>, nodes: seq<Node>, leaves: seq<nat>, nodes': seq<Node>, leaves': seq<nat>,
                    entry: nat, slot: Slot, strides: nat)
    requires InArena(bin) && (slot.Internal? ==> slot.node < |bin|)
    requires DirectRep(bin, nodes, leaves, entry, slot, strides) && nodes <= nodes' && leaves <= leaves'
    ensures DirectRep(bin, nodes', leaves', entry, slot, strides)
  {
    if slot.Internal? {
      RepFrame(bin, nodes, leaves, nodes', leaves', entry, 0, |nodes|, 0, |nodes'|, slot.node, slot.inherited, strides);
    }
  }
}
