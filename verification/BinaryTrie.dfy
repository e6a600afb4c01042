/** The binary trie that route prefixes are collected in: an arena of nodes, built one
    prefix at a time, and the longest-prefix value read off it.  A prefix of length
    `len` is named by its top bits as a number below `2^len`. */
module BinaryTrie {
  import opened Bits
  import opened Wrappers

  /** `value == 0` means no prefix ends here. */
  datatype BinNode = BinNode(zero: Option<nat>, one: Option<nat>, value: nat)
  {
    function Child(one: bool): Option<nat> { if one then this.one else zero }

    function WithChild(branch: bool, child: nat): BinNode
    {
      if branch then this.(one := Some(child)) else this.(zero := Some(child))
    }
  }

  const EMPTY_NODE := BinNode(None, None, 0)

  predicate IdOk(bin: seq<BinNode>, id: Option<nat>) { id.Some? ==> id.value < |bin| }

  /** Every child index points into the arena. */
  predicate InArena(bin: seq<BinNode>)
  {
    forall n :: 0 <= n < |bin| ==> IdOk(bin, bin[n].zero) && IdOk(bin, bin[n].one)
  }

  // ---------------------------------------------------------------- bits of a chunk, most significant first

  /** The first of the `s` bits of a chunk below `2^s`, and the rest. */
  predicate TopBit(v: nat, s: nat)
    requires s > 0
  {
    v >= Pow2(s - 1)
  }

  function BelowTop(v: nat, s: nat): (r: nat)
    requires s > 0
    ensures v < Pow2(s) ==> r < Pow2(s - 1)
  {
    if TopBit(v, s) then v - Pow2(s - 1) else v
  }

  function BitValue(b: bool): nat { if b then 1 else 0 }

  // ---------------------------------------------------------------- walking

  /** The node reached by following the `s` bits of `v`. */
  function WalkTo(bin: seq<BinNode>, id: Option<nat>, v: nat, s: nat): (r: Option<nat>)
    requires InArena(bin) && IdOk(bin, id)
    ensures IdOk(bin, r)
    decreases s
  {
    if s == 0 || id.None? then id else WalkTo(bin, bin[id.value].Child(TopBit(v, s)), BelowTop(v, s), s - 1)
  }

  /** The value stored for exactly the prefix `v` of length `s`, zero for none. */
  function ValueAt(bin: seq<BinNode>, v: nat, s: nat): nat
    requires InArena(bin) && |bin| > 0
  {
    match WalkTo(bin, Some(0), v, s)
    case None => 0
    case Some(n) => bin[n].value
  }

  /** Prefix that each node stands for; a node has one, so no two paths share a node. */
  datatype Label = Label(num: nat, depth: nat)

  ghost predicate Labelled(bin: seq<BinNode>, labels: seq<Label>, bits: nat)
  {
    && InArena(bin) && |labels| == |bin| > 0 && labels[0] == Label(0, 0)
    && (forall n :: 0 <= n < |bin| ==> labels[n].depth <= bits)
    && (forall n, b :: 0 <= n < |bin| && bin[n].Child(b).Some? ==>
          labels[bin[n].Child(b).value] == Label(2 * labels[n].num + BitValue(b), labels[n].depth + 1))
  }

  lemma ChildLabel(bin: seq<BinNode>, labels: seq<Label>, bits: nat, n: nat, b: bool)
    requires Labelled(bin, labels, bits) && n < |bin| && bin[n].Child(b).Some?
    ensures var c := bin[n].Child(b).value;
      c < |bin| && labels[c] == Label(2 * labels[n].num + BitValue(b), labels[n].depth + 1) && labels[n].depth < bits
  {
    assert bin[n].Child(b) == if b then bin[n].one else bin[n].zero;
    assert labels[bin[n].Child(b).value].depth <= bits;
  }

  lemma {:induction false} WalkLabel(bin: seq<BinNode>, labels: seq<Label>, bits: nat, n: nat, v: nat, s: nat)
    requires Labelled(bin, labels, bits) && n < |bin| && v < Pow2(s)
    requires WalkTo(bin, Some(n), v, s).Some?
    ensures var m := WalkTo(bin, Some(n), v, s).value;
      labels[m] == Label(labels[n].num * Pow2(s) + v, labels[n].depth + s)
    decreases s
  {
    if s > 0 {
      var c := bin[n].Child(TopBit(v, s));
      if c.None? {
        assert false;
      } else {
        WalkLabel(bin, labels, bits, c.value, BelowTop(v, s), s - 1);
        LabelStep(labels[n].num, v, s);
      }
    }
  }

  lemma LabelStep(num: nat, v: nat, s: nat)
    requires s > 0
    ensures (2 * num + BitValue(TopBit(v, s))) * Pow2(s - 1) + BelowTop(v, s) == num * Pow2(s) + v
  {
    MulDouble(num, Pow2(s - 1), Pow2(s));
    MulSum(2 * num, BitValue(TopBit(v, s)), Pow2(s - 1));
  }

  lemma MulSum(a: nat, b: nat, c: nat)
    ensures (a + b) * c == a * c + b * c
  {
  }

  /** One more bit at the end of the path is one more step from its last node. */
  lemma {:induction false} WalkAppend(bin: seq<BinNode>, id: Option<nat>, v: nat, s: nat, b: bool)
    requires InArena(bin) && IdOk(bin, id) && v < Pow2(s)
    ensures var m := WalkTo(bin, id, v, s);
      WalkTo(bin, id, 2 * v + BitValue(b), s + 1) == if m.None? then None else bin[m.value].Child(b)
    decreases s
  {
    var w := 2 * v + BitValue(b);
    if id.None? {
    } else if s == 0 {
      assert TopBit(w, 1) == b;
      assert WalkTo(bin, bin[id.value].Child(b), BelowTop(w, 1), 0) == bin[id.value].Child(b);
    } else {
      assert TopBit(w, s + 1) == TopBit(v, s);
      assert BelowTop(w, s + 1) == 2 * BelowTop(v, s) + BitValue(b);
      WalkAppend(bin, bin[id.value].Child(TopBit(v, s)), BelowTop(v, s), s - 1, b);
    }
  }

  // ---------------------------------------------------------------- inserting

  /** Adding an empty node below `node` on a free branch. */
  function WithNewChild(bin: seq<BinNode>, node: nat, branch: bool): seq<BinNode>
    requires node < |bin|
  {
    bin[node := bin[node].WithChild(branch, |bin|)] + [EMPTY_NODE]
  }

  lemma NewChildLabelled(bin: seq<BinNode>, labels: seq<Label>, bits: nat, node: nat, branch: bool)
    requires Labelled(bin, labels, bits) && node < |bin| && bin[node].Child(branch).None? && labels[node].depth < bits
    ensures Labelled(WithNewChild(bin, node, branch),
                     labels + [Label(2 * labels[node].num + BitValue(branch), labels[node].depth + 1)], bits)
  {
    var bin' := WithNewChild(bin, node, branch);
    var labels' := labels + [Label(2 * labels[node].num + BitValue(branch), labels[node].depth + 1)];
    forall n, b | 0 <= n < |bin'| && bin'[n].Child(b).Some?
      ensures bin'[n].Child(b).value < |bin'|
      ensures labels'[bin'[n].Child(b).value] == Label(2 * labels'[n].num + BitValue(b), labels'[n].depth + 1)
    {
      if n < |bin| && !(n == node && b == branch) {
        assert bin'[n].Child(b) == bin[n].Child(b);
      }
    }
    forall n | 0 <= n < |bin'|
      ensures IdOk(bin', bin'[n].zero) && IdOk(bin', bin'[n].one)
    {
      assert bin'[n].Child(false) == bin'[n].zero && bin'[n].Child(true) == bin'[n].one;
    }
  }

  lemma {:induction false} NewChildWalk(bin: seq<BinNode>, node: nat, branch: bool, id: Option<nat>, v: nat, s: nat)
    requires InArena(bin) && node < |bin| && bin[node].Child(branch).None? && IdOk(bin, id)
    requires InArena(WithNewChild(bin, node, branch))
    ensures var was := WalkTo(bin, id, v, s); var now := WalkTo(WithNewChild(bin, node, branch), id, v, s);
      now == was || (was == None && now == Some(|bin|))
    decreases s
  {
    var bin' := WithNewChild(bin, node, branch);
    if s > 0 && id.Some? {
      var b, rest := TopBit(v, s), BelowTop(v, s);
      if id.value == node && b == branch {
        assert WalkTo(bin, None, rest, s - 1) == None;
        assert bin'[node].Child(b) == Some(|bin|);
        if s > 1 { assert WalkTo(bin', None, BelowTop(rest, s - 1), s - 2) == None; }
      } else {
        assert bin'[id.value].Child(b) == bin[id.value].Child(b);
        NewChildWalk(bin, node, branch, bin[id.value].Child(b), rest, s - 1);
      }
    }
  }

  /** A new empty node changes no stored value. */
  lemma NewChildKeepsValues(bin: seq<BinNode>, node: nat, branch: bool, v: nat, s: nat)
    requires InArena(bin) && node < |bin| && bin[node].Child(branch).None?
    requires InArena(WithNewChild(bin, node, branch))
    ensures ValueAt(WithNewChild(bin, node, branch), v, s) == ValueAt(bin, v, s)
  {
    NewChildWalk(bin, node, branch, Some(0), v, s);
  }

  lemma {:induction false} SetValueWalk(bin: seq<BinNode>, node: nat, value: nat, id: Option<nat>, v: nat, s: nat)
    requires InArena(bin) && node < |bin| && IdOk(bin, id)
    ensures InArena(bin[node := bin[node].(value := value)])
    ensures WalkTo(bin[node := bin[node].(value := value)], id, v, s) == WalkTo(bin, id, v, s)
    decreases s
  {
    if s > 0 && id.Some? {
      SetValueWalk(bin, node, value, bin[id.value].Child(TopBit(v, s)), BelowTop(v, s), s - 1);
    }
  }

  /** Setting the value of the node of one prefix changes that prefix's value only. */
  lemma SetValueAt(bin: seq<BinNode>, labels: seq<Label>, bits: nat, node: nat, value: nat, v: nat, s: nat)
    requires Labelled(bin, labels, bits) && node < |bin| && v < Pow2(s)
    requires WalkTo(bin, Some(0), labels[node].num, labels[node].depth) == Some(node)
    ensures InArena(bin[node := bin[node].(value := value)])
    ensures ValueAt(bin[node := bin[node].(value := value)], v, s)
         == if labels[node] == Label(v, s) then value else ValueAt(bin, v, s)
  {
    SetValueWalk(bin, node, value, Some(0), v, s);
    if WalkTo(bin, Some(0), v, s).Some? {
      WalkLabel(bin, labels, bits, 0, v, s);
    }
  }

  // ---------------------------------------------------------------- longest prefix

  /** Own value of a node, else the inherited one. */
  function Effective(bin: seq<BinNode>, id: Option<nat>, inherited: nat): nat
    requires IdOk(bin, id)
  {
    if id.Some? && bin[id.value].value != 0 then bin[id.value].value else inherited
  }

  predicate Branches(bin: seq<BinNode>, id: Option<nat>)
    requires IdOk(bin, id)
  {
    id.Some? && (bin[id.value].zero.Some? || bin[id.value].one.Some?)
  }

  /** Value of the deepest prefix met while following the `w` bits of `k`. */
  function BinLpm(bin: seq<BinNode>, id: Option<nat>, inherited: nat, k: nat, w: nat): nat
    requires InArena(bin) && IdOk(bin, id)
    decreases w
  {
    var effective := Effective(bin, id, inherited);
    if id.None? || w == 0 then effective
    else BinLpm(bin, bin[id.value].Child(TopBit(k, w)), effective, BelowTop(k, w), w - 1)
  }

  /** Value of the longest stored prefix of `key`, among lengths up to `n`. */
  function LongestUpTo(bin: seq<BinNode>, key: nat, bits: nat, n: nat): nat
    requires InArena(bin) && |bin| > 0 && n <= bits
    decreases n
  {
    var value := ValueAt(bin, Shr(key, bits - n), n);
    if value != 0 then value else if n == 0 then 0 else LongestUpTo(bin, key, bits, n - 1)
  }

  /** The next bit of the key below its first `d`. */
  lemma NextBit(key: nat, bits: nat, d: nat)
    requires d < bits
    ensures var b := TopBit(LowBits(key, bits - d), bits - d);
      && Shr(key, bits - d - 1) == 2 * Shr(key, bits - d) + BitValue(b)
      && BelowTop(LowBits(key, bits - d), bits - d) == LowBits(key, bits - d - 1)
  {
    var w := bits - d;
    var low := LowBits(key, w);
    SplitAt(key, w);
    LabelStep(Shr(key, w), low, w);
    JoinAt(2 * Shr(key, w) + BitValue(TopBit(low, w)), BelowTop(low, w), w - 1);
  }

  lemma ShrBound(key: nat, bits: nat, d: nat)
    requires key < Pow2(bits) && d <= bits
    ensures Shr(key, bits - d) < Pow2(d)
  {
    SplitAt(key, bits - d);
    Pow2Add(d, bits - d);
    if Shr(key, bits - d) >= Pow2(d) {
      MulMono(Pow2(d), Shr(key, bits - d), Pow2(bits - d));
      assert false;
    }
  }

  /** Where the walk falls off the trie there are no longer prefixes. */
  lemma {:induction false} NothingBelow(bin: seq<BinNode>, key: nat, bits: nat, d: nat, n: nat)
    requires InArena(bin) && |bin| > 0 && key < Pow2(bits) && d <= n <= bits
    requires WalkTo(bin, Some(0), Shr(key, bits - d), d).None?
    ensures WalkTo(bin, Some(0), Shr(key, bits - n), n).None?
    ensures d > 0 && LongestUpTo(bin, key, bits, n) == LongestUpTo(bin, key, bits, d - 1)
    decreases n
  {
    hide Shr, LowBits, Pow2, TopBit;
    if d < n {
      NothingBelow(bin, key, bits, d, n - 1);
      NextBit(key, bits, n - 1);
      ShrBound(key, bits, n - 1);
      WalkAppend(bin, Some(0), Shr(key, bits - n + 1), n - 1, TopBit(LowBits(key, bits - n + 1), bits - n + 1));
    }
  }

  /** Following the key with leaf-pushed values finds the longest stored prefix. */
  lemma {:induction false} BinLpmIsLongest(bin: seq<BinNode>, key: nat, bits: nat, d: nat)
    requires InArena(bin) && |bin| > 0 && key < Pow2(bits) && d <= bits
    ensures var id := WalkTo(bin, Some(0), Shr(key, bits - d), d);
      var inherited := if d == 0 then 0 else LongestUpTo(bin, key, bits, d - 1);
      BinLpm(bin, id, inherited, LowBits(key, bits - d), bits - d) == LongestUpTo(bin, key, bits, bits)
    decreases bits - d
  {
    hide Shr, LowBits, Pow2, TopBit, BelowTop, WalkTo;
    var id := WalkTo(bin, Some(0), Shr(key, bits - d), d);
    var inherited := if d == 0 then 0 else LongestUpTo(bin, key, bits, d - 1);
    if id.None? {
      NothingBelow(bin, key, bits, d, bits);
    } else {
      assert Effective(bin, id, inherited) == LongestUpTo(bin, key, bits, d);
      if d < bits {
        NextBit(key, bits, d);
        ShrBound(key, bits, d);
        WalkAppend(bin, Some(0), Shr(key, bits - d), d, TopBit(LowBits(key, bits - d), bits - d));
        BinLpmIsLongest(bin, key, bits, d + 1);
      }
    }
  }
}
