/** How large a built table is.  The emitter writes one node for every trie node that
    branches at a stride boundary, and those are the stride boundaries that some longer
    inserted prefix crosses: the size is a function of the routes alone. */
module PoptrieSize {
  import opened Bits
  import opened Wrappers
  import opened BinaryTrie
  import opened PoptrieBuilder
  import opened PoptrieTable

  // ---------------------------------------------------------------- nodes written for a trie

  /** Nodes written for what lies below a trie node, `s` bits above its next boundary. */
  function Emitted(bin: seq<BinNode>, id: Option<nat>, s: nat, strides: nat): nat
    requires InArena(bin) && IdOk(bin, id)
    decreases strides, s
  {
    if strides == 0 || !Branches(bin, id) then 0
    else if s == 0 then 1 + Emitted(bin, id, STRIDE, strides - 1)
    else Emitted(bin, bin[id.value].zero, s - 1, strides) + Emitted(bin, bin[id.value].one, s - 1, strides)
  }

  ghost predicate SlotInArena(bin: seq<BinNode>, slot: Slot) { slot.Internal? ==> slot.node < |bin| }

  ghost predicate SlotsInArena(bin: seq<BinNode>, slots: seq<Slot>)
  {
    forall v :: 0 <= v < |slots| ==> SlotInArena(bin, slots[v])
  }

  /** The internal slots, in slot order. */
  function Internals(slots: seq<Slot>): (r: seq<(nat, nat)>)
    ensures forall k :: 0 <= k < |r| ==> Internal(r[k].0, r[k].1) in slots
  {
    if slots == [] then []
    else
      var rest := Internals(slots[..|slots| - 1]);
      match slots[|slots| - 1]
      case Internal(c, inherited) => rest + [(c, inherited)]
      case Leaf(_) => rest
  }

  ghost predicate ChildrenInArena(bin: seq<BinNode>, children: seq<(nat, nat)>)
  {
    forall k :: 0 <= k < |children| ==> children[k].0 < |bin|
  }

  /** Nodes written for these children and below them. */
  ghost function ChildrenEmit(bin: seq<BinNode>, children: seq<(nat, nat)>, strides: nat): nat
    requires InArena(bin) && ChildrenInArena(bin, children)
    decreases |children|
  {
    if children == [] then 0
    else
      var last := |children| - 1;
      ChildrenEmit(bin, children[..last], strides) + Emitted(bin, Some(children[last].0), 0, strides)
  }

  lemma InternalsInArena(bin: seq<BinNode>, slots: seq<Slot>)
    requires SlotsInArena(bin, slots)
    ensures ChildrenInArena(bin, Internals(slots))
  {
    var children := Internals(slots);
    forall k | 0 <= k < |children|
      ensures children[k].0 < |bin|
    {
      var v :| 0 <= v < |slots| && slots[v] == Internal(children[k].0, children[k].1);
      assert SlotInArena(bin, slots[v]);
    }
  }

  lemma {:induction false} InternalsConcat(a: seq<Slot>, b: seq<Slot>)
    ensures Internals(a + b) == Internals(a) + Internals(b)
    decreases |b|
  {
    if b == [] {
      assert a + b == a;
    } else {
      var front := b[..|b| - 1];
      assert (a + b)[..|a + b| - 1] == a + front;
      InternalsConcat(a, front);
    }
  }

  lemma {:induction false} EmitConcat(bin: seq<BinNode>, a: seq<(nat, nat)>, b: seq<(nat, nat)>, strides: nat)
    requires InArena(bin) && ChildrenInArena(bin, a) && ChildrenInArena(bin, b) && ChildrenInArena(bin, a + b)
    ensures ChildrenEmit(bin, a + b, strides) == ChildrenEmit(bin, a, strides) + ChildrenEmit(bin, b, strides)
    decreases |b|
  {
    if b == [] {
      assert a + b == a;
    } else {
      var front := b[..|b| - 1];
      assert (a + b)[..|a + b| - 1] == a + front;
      EmitConcat(bin, a, front, strides);
    }
  }

  lemma {:induction false} NoInternals(slots: seq<Slot>)
    requires forall v :: 0 <= v < |slots| ==> slots[v].Leaf?
    ensures Internals(slots) == []
  {
    if slots != [] { NoInternals(slots[..|slots| - 1]); }
  }

  ghost predicate Resolves(bin: seq<BinNode>, slots: seq<Slot>, id: Option<nat>, inherited: nat, s: nat)
    requires InArena(bin) && IdOk(bin, id)
  {
    |slots| == Pow2(s) && forall v :: 0 <= v < |slots| ==> slots[v] == SlotAt(bin, id, inherited, v, s)
  }

  lemma ResolvesHalves(bin: seq<BinNode>, slots: seq<Slot>, id: Option<nat>, inherited: nat, s: nat)
    requires InArena(bin) && IdOk(bin, id) && Resolves(bin, slots, id, inherited, s) && Branches(bin, id) && s > 0
    ensures var e, half := Effective(bin, id, inherited), Pow2(s - 1);
      && half <= |slots| && Resolves(bin, slots[..half], bin[id.value].zero, e, s - 1)
      && Resolves(bin, slots[half..], bin[id.value].one, e, s - 1)
  {
    var e, half := Effective(bin, id, inherited), Pow2(s - 1);
    forall v | 0 <= v < half
      ensures slots[..half][v] == SlotAt(bin, bin[id.value].zero, e, v, s - 1)
      ensures slots[half..][v] == SlotAt(bin, bin[id.value].one, e, v, s - 1)
    {
      assert slots[v] == SlotAt(bin, id, inherited, v, s);
      assert slots[half + v] == SlotAt(bin, id, inherited, half + v, s);
    }
  }

  lemma ResolvesInArena(bin: seq<BinNode>, slots: seq<Slot>, id: Option<nat>, inherited: nat, s: nat)
    requires InArena(bin) && IdOk(bin, id) && Resolves(bin, slots, id, inherited, s)
    ensures SlotsInArena(bin, slots)
  {
  }

  /** The children of a node account for everything below it. */
  lemma {:induction false} ResolvedEmit(bin: seq<BinNode>, slots: seq<Slot>, id: Option<nat>, inherited: nat, s: nat,
                                        strides: nat)
    requires InArena(bin) && IdOk(bin, id) && Resolves(bin, slots, id, inherited, s)
    ensures ChildrenInArena(bin, Internals(slots))
    ensures ChildrenEmit(bin, Internals(slots), strides) == Emitted(bin, id, s, strides)
    decreases s
  {
    hide SlotAt, Effective, Resolves, SlotsInArena;
    ResolvesInArena(bin, slots, id, inherited, s);
    InternalsInArena(bin, slots);
    if !Branches(bin, id) {
      Uniform(bin, slots, id, inherited, s);
      NoInternals(slots);
    } else if s == 0 {
      Uniform(bin, slots, id, inherited, s);
      OneInternal(bin, id.value, Effective(bin, id, inherited), strides);
    } else {
      ResolvesHalves(bin, slots, id, inherited, s);
      ChildrenOk(bin, id.value);
      var e, half := Effective(bin, id, inherited), Pow2(s - 1);
      var left, right := slots[..half], slots[half..];
      assert slots == left + right;
      InternalsConcat(left, right);
      ResolvedEmit(bin, left, bin[id.value].zero, e, s - 1, strides);
      ResolvedEmit(bin, right, bin[id.value].one, e, s - 1, strides);
      EmitConcat(bin, Internals(left), Internals(right), strides);
      NoStrides(bin, Internals(slots), strides);
    }
  }

  lemma ChildrenOk(bin: seq<BinNode>, n: nat)
    requires InArena(bin) && n < |bin|
    ensures IdOk(bin, bin[n].zero) && IdOk(bin, bin[n].one)
  {
  }

  lemma OneInternal(bin: seq<BinNode>, c: nat, inherited: nat, strides: nat)
    requires InArena(bin) && c < |bin|
    ensures Internals([Internal(c, inherited)]) == [(c, inherited)]
    ensures ChildrenEmit(bin, [(c, inherited)], strides) == Emitted(bin, Some(c), 0, strides)
  {
    assert [Internal(c, inherited)][..0] == [];
    assert [(c, inherited)][..0] == [];
  }

  lemma Uniform(bin: seq<BinNode>, slots: seq<Slot>, id: Option<nat>, inherited: nat, s: nat)
    requires InArena(bin) && IdOk(bin, id) && Resolves(bin, slots, id, inherited, s)
    ensures !Branches(bin, id) ==> forall v :: 0 <= v < |slots| ==> slots[v].Leaf?
    ensures Branches(bin, id) && s == 0 ==> slots == [Internal(id.value, Effective(bin, id, inherited))]
  {
  }

  lemma {:induction false} NoStrides(bin: seq<BinNode>, children: seq<(nat, nat)>, strides: nat)
    requires InArena(bin) && ChildrenInArena(bin, children)
    ensures strides == 0 ==> ChildrenEmit(bin, children, strides) == 0
    decreases |children|
  {
    if children != [] { NoStrides(bin, children[..|children| - 1], strides); }
  }

  // ---------------------------------------------------------------- boundary by boundary

  /** Branching nodes `t` levels below a node. */
  function Branching(bin: seq<BinNode>, id: Option<nat>, t: nat): nat
    requires InArena(bin) && IdOk(bin, id)
    decreases t
  {
    if !Branches(bin, id) then 0
    else if t == 0 then 1
    else Branching(bin, bin[id.value].zero, t - 1) + Branching(bin, bin[id.value].one, t - 1)
  }

  function PerBoundary(bin: seq<BinNode>, id: Option<nat>, s: nat, strides: nat): nat
    requires InArena(bin) && IdOk(bin, id)
    decreases strides
  {
    if strides == 0 then 0 else Branching(bin, id, s) + PerBoundary(bin, id, s + STRIDE, strides - 1)
  }

  lemma {:induction false} PerBoundarySplits(bin: seq<BinNode>, id: Option<nat>, s: nat, strides: nat)
    requires InArena(bin) && IdOk(bin, id)
    ensures !Branches(bin, id) ==> PerBoundary(bin, id, s, strides) == 0
    ensures Branches(bin, id) && s > 0 ==>
      PerBoundary(bin, id, s, strides)
      == PerBoundary(bin, bin[id.value].zero, s - 1, strides) + PerBoundary(bin, bin[id.value].one, s - 1, strides)
    decreases strides
  {
    if strides > 0 { PerBoundarySplits(bin, id, s + STRIDE, strides - 1); }
  }

  /** Written subtree by subtree, counted boundary by boundary. */
  lemma {:induction false} EmittedPerBoundary(bin: seq<BinNode>, id: Option<nat>, s: nat, strides: nat)
    requires InArena(bin) && IdOk(bin, id)
    ensures Emitted(bin, id, s, strides) == PerBoundary(bin, id, s, strides)
    decreases strides, s
  {
    PerBoundarySplits(bin, id, s, strides);
    if strides > 0 && Branches(bin, id) {
      if s == 0 {
        EmittedPerBoundary(bin, id, STRIDE, strides - 1);
      } else {
        EmittedPerBoundary(bin, bin[id.value].zero, s - 1, strides);
        EmittedPerBoundary(bin, bin[id.value].one, s - 1, strides);
      }
    }
  }

  /** The same nodes, named by the bits that lead to them. */
  ghost function BranchingAt(bin: seq<BinNode>, id: Option<nat>, t: nat): set<nat>
    requires InArena(bin) && IdOk(bin, id)
  {
    set v | 0 <= v < Pow2(t) && Branches(bin, WalkTo(bin, id, v, t))
  }

  function Shifted(vs: set<nat>, offset: nat): set<nat> { set v | v in vs :: v + offset }

  lemma ShiftedIn(vs: set<nat>, offset: nat, w: nat)
    ensures w in Shifted(vs, offset) <==> w >= offset && w - offset in vs
  {
    if w >= offset { assert w == (w - offset) + offset; }
  }

  lemma ShiftedRemove(vs: set<nat>, offset: nat, v: nat)
    requires v in vs
    ensures v + offset in Shifted(vs, offset) && Shifted(vs - {v}, offset) == Shifted(vs, offset) - {v + offset}
  {
    hide Shifted;
    ShiftedIn(vs, offset, v + offset);
    forall w: nat
      ensures w in Shifted(vs - {v}, offset) <==> w in Shifted(vs, offset) - {v + offset}
    {
      ShiftedIn(vs, offset, w);
      ShiftedIn(vs - {v}, offset, w);
    }
  }

  lemma {:induction false} ShiftedSize(vs: set<nat>, offset: nat)
    ensures |Shifted(vs, offset)| == |vs|
  {
    if vs == {} {
      assert Shifted(vs, offset) == {};
    } else {
      hide Shifted;
      var v :| v in vs;
      ShiftedSize(vs - {v}, offset);
      ShiftedRemove(vs, offset, v);
    }
  }

  lemma {:induction false} BranchingIsSize(bin: seq<BinNode>, id: Option<nat>, t: nat)
    requires InArena(bin) && IdOk(bin, id)
    ensures |BranchingAt(bin, id, t)| == Branching(bin, id, t)
    decreases t
  {
    if !Branches(bin, id) {
      NoBranchBelow(bin, id, t);
      assert BranchingAt(bin, id, t) == {};
    } else if t == 0 {
      assert WalkTo(bin, id, 0, 0) == id;
      assert BranchingAt(bin, id, t) == {0};
    } else {
      var zero, one := bin[id.value].zero, bin[id.value].one;
      BranchingIsSize(bin, zero, t - 1);
      BranchingIsSize(bin, one, t - 1);
      BranchingHalves(bin, id, t);
      ShiftedSize(BranchingAt(bin, one, t - 1), Pow2(t - 1));
      DisjointSize(BranchingAt(bin, zero, t - 1), Shifted(BranchingAt(bin, one, t - 1), Pow2(t - 1)));
    }
  }

  lemma DisjointSize(a: set<nat>, b: set<nat>)
    requires a !! b
    ensures |a + b| == |a| + |b|
  {
  }

  lemma NoBranchBelow(bin: seq<BinNode>, id: Option<nat>, t: nat)
    requires InArena(bin) && IdOk(bin, id) && !Branches(bin, id)
    ensures forall v :: 0 <= v < Pow2(t) ==> !Branches(bin, WalkTo(bin, id, v, t))
  {
    forall v | 0 <= v < Pow2(t)
      ensures !Branches(bin, WalkTo(bin, id, v, t))
    {
      if t > 0 && id.Some? {
        var child := bin[id.value].Child(TopBit(v, t));
        assert child == None;
        assert WalkTo(bin, None, BelowTop(v, t), t - 1) == None;
      }
    }
  }

  lemma BranchingHalves(bin: seq<BinNode>, id: Option<nat>, t: nat)
    requires InArena(bin) && id.Some? && IdOk(bin, id) && t > 0
    ensures var low := BranchingAt(bin, bin[id.value].zero, t - 1);
      var high := Shifted(BranchingAt(bin, bin[id.value].one, t - 1), Pow2(t - 1));
      low !! high && BranchingAt(bin, id, t) == low + high
  {
    hide Shifted, BranchingAt;
    var half := Pow2(t - 1);
    var low, one := BranchingAt(bin, bin[id.value].zero, t - 1), BranchingAt(bin, bin[id.value].one, t - 1);
    forall v: nat
      ensures v in low ==> v !in Shifted(one, half)
      ensures v in BranchingAt(bin, id, t) <==> v in low + Shifted(one, half)
    {
      ShiftedIn(one, half, v);
      BranchingHere(bin, id, t, v);
    }
  }

  lemma BranchingHere(bin: seq<BinNode>, id: Option<nat>, t: nat, v: nat)
    requires InArena(bin) && id.Some? && IdOk(bin, id) && t > 0
    ensures var half := Pow2(t - 1);
      && (v in BranchingAt(bin, bin[id.value].zero, t - 1) ==> v < half)
      && (v in BranchingAt(bin, id, t) <==>
            if v < half then v in BranchingAt(bin, bin[id.value].zero, t - 1)
            else v - half in BranchingAt(bin, bin[id.value].one, t - 1))
  {
    assert Pow2(t) == 2 * Pow2(t - 1);
    var branch := TopBit(v, t);
    assert WalkTo(bin, id, v, t) == WalkTo(bin, bin[id.value].Child(branch), BelowTop(v, t), t - 1);
  }

  // ---------------------------------------------------------------- sizes from the routes alone

  /** The `t`-bit prefixes below which some longer route lies. */
  function Crossed<V>(routes: map<Prefix, V>, t: nat): set<nat>
  {
    set p | p in routes && p.len > t :: Shr(p.num, p.len - t)
  }

  /** Nodes of the table: one for every crossed prefix at a stride boundary. */
  function NodesNeeded<V>(routes: map<Prefix, V>, t: nat, strides: nat): nat
    decreases strides
  {
    if strides == 0 then 0 else |Crossed(routes, t)| + NodesNeeded(routes, t + STRIDE, strides - 1)
  }

  /** The trie and the value table represent the routes and hold nothing else. */
  ghost predicate Exact<V>(bin: seq<BinNode>, labels: seq<Label>, values: seq<V>, routes: map<Prefix, V>, bits: nat)
  {
    && InArena(bin) && |labels| == |bin| > 0 && Labelled(bin, labels, bits) && Reached(bin, labels) && Tight(bin, 0)
    && RoutesOk(routes, bits) && ValuesInTable(bin, |values|) && Represents(bin, values, routes, bits)
  }

  lemma HalfShr(v: nat, n: nat)
    requires n > 0
    ensures Shr(v, n) == Shr(v / 2, n - 1)
  {
  }

  /** Nodes above a node branch. */
  lemma {:induction false} BranchesAbove(bin: seq<BinNode>, v: nat, s: nat, t: nat)
    requires InArena(bin) && |bin| > 0 && t < s && v < Pow2(s) && WalkTo(bin, Some(0), v, s).Some?
    ensures Shr(v, s - t) < Pow2(t) && Branches(bin, WalkTo(bin, Some(0), Shr(v, s - t), t))
    decreases s
  {
    hide WalkTo;
    var b := v % 2 == 1;
    assert v == 2 * (v / 2) + BitValue(b) && v / 2 < Pow2(s - 1);
    WalkAppend(bin, Some(0), v / 2, s - 1, b);
    HalfShr(v, s - t);
    if t < s - 1 {
      BranchesAbove(bin, v / 2, s - 1, t);
    } else {
      assert Shr(v / 2, 0) == v / 2;
    }
  }

  lemma RouteCrosses<V>(bin: seq<BinNode>, labels: seq<Label>, values: seq<V>, routes: map<Prefix, V>, bits: nat,
                        p: Prefix, t: nat)
    requires Exact(bin, labels, values, routes, bits) && p in routes && t < p.len
    ensures Shr(p.num, p.len - t) in BranchingAt(bin, Some(0), t)
  {
    hide WalkTo, Pow2, Shr;
    assert p == Prefix(p.num, p.len);
    assert Decode(values, ValueAt(bin, p.num, p.len)) == Lookup(routes, Prefix(p.num, p.len));
    BranchesAbove(bin, p.num, p.len, t);
  }

  /** Below a branching node some route ends. */
  lemma {:induction false} RouteBelow<V>(bin: seq<BinNode>, labels: seq<Label>, values: seq<V>, routes: map<Prefix, V>,
                                         bits: nat, v: nat, t: nat)
    returns (p: Prefix)
    requires Exact(bin, labels, values, routes, bits) && t <= bits && v in BranchingAt(bin, Some(0), t)
    ensures p in routes && p.len > t && Shr(p.num, p.len - t) == v
    decreases bits - t
  {
    hide WalkTo, Shr, Represents, Labelled, Reached;
    var m := WalkTo(bin, Some(0), v, t).value;
    var b := bin[m].one.Some?;
    var w := 2 * v + BitValue(b);
    WalkAppend(bin, Some(0), v, t, b);
    var c := bin[m].Child(b).value;
    DeeperLabel(bin, labels, bits, w, t + 1);
    if Branches(bin, Some(c)) {
      p := RouteBelow(bin, labels, values, routes, bits, w, t + 1);
      ShrOnce(p.num, p.len - t - 1);
    } else {
      p := Prefix(w, t + 1);
      ValueIsRoute(bin, values, routes, bits, w, t + 1);
      ShrOnce(w, 0);
    }
  }

  lemma DeeperLabel(bin: seq<BinNode>, labels: seq<Label>, bits: nat, w: nat, s: nat)
    requires Labelled(bin, labels, bits) && s > 0 && w < Pow2(s) && WalkTo(bin, Some(0), w, s).Some?
    ensures s <= bits && WalkTo(bin, Some(0), w, s) != Some(0)
  {
    hide WalkTo;
    WalkLabel(bin, labels, bits, 0, w, s);
    assert labels[WalkTo(bin, Some(0), w, s).value].depth == s;
  }

  lemma ValueIsRoute<V>(bin: seq<BinNode>, values: seq<V>, routes: map<Prefix, V>, bits: nat, w: nat, s: nat)
    requires InArena(bin) && |bin| > 0 && ValuesInTable(bin, |values|) && Represents(bin, values, routes, bits)
    requires s <= bits && w < Pow2(s) && ValueAt(bin, w, s) != 0
    ensures Prefix(w, s) in routes && routes[Prefix(w, s)] == values[ValueAt(bin, w, s) - 1]
  {
    hide WalkTo;
    assert Decode(values, ValueAt(bin, w, s)) == Lookup(routes, Prefix(w, s));
  }

  lemma ShrOnce(x: nat, n: nat)
    ensures Shr(x, n + 1) == Shr(x, n) / 2 && Shr(x, 0) == x
  {
    ShrShr(x, n, 1);
    assert Shr(Shr(x, n), 1) == Shr(Shr(x, n) / 2, 0);
  }

  lemma BranchingIsCrossed<V>(bin: seq<BinNode>, labels: seq<Label>, values: seq<V>, routes: map<Prefix, V>, bits: nat,
                              t: nat)
    requires Exact(bin, labels, values, routes, bits) && t <= bits
    ensures Branching(bin, Some(0), t) == |Crossed(routes, t)|
  {
    hide Exact, WalkTo, Shr, Pow2;
    assert InArena(bin) && |bin| > 0 by { ExactArena(bin, labels, values, routes, bits); }
    var at := BranchingAt(bin, Some(0), t);
    forall p | p in routes && p.len > t
      ensures Shr(p.num, p.len - t) in at
    {
      RouteCrosses(bin, labels, values, routes, bits, p, t);
    }
    forall v | v in at
      ensures v in Crossed(routes, t)
    {
      var p := RouteBelow(bin, labels, values, routes, bits, v, t);
    }
    assert at == Crossed(routes, t);
    BranchingIsSize(bin, Some(0), t);
  }

  lemma ExactArena<V>(bin: seq<BinNode>, labels: seq<Label>, values: seq<V>, routes: map<Prefix, V>, bits: nat)
    requires Exact(bin, labels, values, routes, bits)
    ensures InArena(bin) && |bin| > 0
  {
  }

  /** The number of nodes written is the number the routes need. */
  lemma {:induction false} EmittedIsNeeded<V>(bin: seq<BinNode>, labels: seq<Label>, values: seq<V>,
                                              routes: map<Prefix, V>, bits: nat, t: nat, strides: nat)
    requires Exact(bin, labels, values, routes, bits) && t + STRIDE * strides <= bits
    ensures InArena(bin) && |bin| > 0 && PerBoundary(bin, Some(0), t, strides) == NodesNeeded(routes, t, strides)
    decreases strides
  {
    hide Exact, Crossed;
    ExactArena(bin, labels, values, routes, bits);
    if strides > 0 {
      BranchingIsCrossed(bin, labels, values, routes, bits, t);
      EmittedIsNeeded(bin, labels, values, routes, bits, t + STRIDE, strides - 1);
    }
  }

  // ---------------------------------------------------------------- values

  ghost function Elements<T(!new)>(s: seq<T>): set<T> { set x | x in s }

  lemma {:induction false} DistinctSize<T(!new)>(s: seq<T>)
    requires Distinct(s)
    ensures |Elements(s)| == |s|
  {
    if s != [] {
      var front, last := s[..|s| - 1], s[|s| - 1];
      DistinctSize(front);
      assert s == front + [last];
      assert Elements(s) == Elements(front) + {last};
      assert last !in front;
    }
  }

  /** The values kept are exactly the values of the routes. */
  lemma LiveValues<V(!new)>(bin: seq<BinNode>, labels: seq<Label>, live: seq<V>, routes: map<Prefix, V>, bits: nat)
    requires Exact(bin, labels, live, routes, bits) && AllUsed(bin, |bin|, |live|) && Distinct(live)
    ensures |live| == |routes.Values|
  {
    hide WalkTo, Pow2;
    forall v | v in live
      ensures v in routes.Values
    {
      var j :| 0 <= j < |live| && live[j] == v;
      var number := j + 1;
      assert Uses(bin, |bin|, number);
      var n :| 0 <= n < |bin| && bin[n].value == number;
      ValueIsRoute(bin, live, routes, bits, labels[n].num, labels[n].depth);
    }
    forall v | v in routes.Values
      ensures v in live
    {
      var p :| p in routes && routes[p] == v;
      assert p == Prefix(p.num, p.len);
      assert Decode(live, ValueAt(bin, p.num, p.len)) == Lookup(routes, Prefix(p.num, p.len));
    }
    assert Elements(live) == routes.Values;
    DistinctSize(live);
  }

  // ---------------------------------------------------------------- trie nodes

  /** The first `t` bits of a prefix. */
  function Ancestor(p: Prefix, t: nat): Label
    requires t <= p.len
  {
    Label(Shr(p.num, p.len - t), t)
  }

  /** The prefixes on the way from the root, itself left out, to a prefix of length `k`. */
  function PathTo(p: Prefix, k: nat): set<Label>
    requires k <= p.len
  {
    set t | 1 <= t <= k :: Ancestor(p, t)
  }

  /** The prefixes on the way to some route, and the root. */
  function OnPaths<V>(routes: map<Prefix, V>): set<Label>
  {
    {Label(0, 0)} + set p, n | p in routes && n in PathTo(p, p.len) :: n
  }

  lemma InPaths<V>(routes: map<Prefix, V>, p: Prefix, t: nat)
    requires p in routes && 1 <= t <= p.len
    ensures Ancestor(p, t) in OnPaths(routes)
  {
    hide Ancestor;
    assert Ancestor(p, t) in PathTo(p, p.len);
  }

  /** A node stands for a prefix on the way to some route. */
  lemma NodeOnPath<V>(bin: seq<BinNode>, labels: seq<Label>, values: seq<V>, routes: map<Prefix, V>, bits: nat, n: nat)
    requires Exact(bin, labels, values, routes, bits) && n < |bin|
    ensures labels[n] in OnPaths(routes)
  {
    hide Shr, WalkTo, OnPaths, Represents;
    RootOnPath(routes);
    AtRoot(bin, labels, bits);
    var num, depth := labels[n].num, labels[n].depth;
    LabelFits(bin, labels, bits, n);
    assert WalkTo(bin, Some(0), num, depth) == Some(n);
    if depth == 0 {
      assert Pow2(0) == 1 && labels[n] == Label(0, 0);
    } else if Branches(bin, Some(n)) {
      var p := RouteBelow(bin, labels, values, routes, bits, num, depth);
      InPaths(routes, p, depth);
    } else if n > 0 {
      ValueIsRoute(bin, values, routes, bits, num, depth);
      InPaths(routes, Prefix(num, depth), depth);
      ShrOnce(num, 0);
    }
  }

  lemma RootOnPath<V>(routes: map<Prefix, V>)
    ensures Label(0, 0) in OnPaths(routes)
  {
  }

  /** Every prefix on the way to a route has a node. */
  lemma PathHasNode<V>(bin: seq<BinNode>, labels: seq<Label>, values: seq<V>, routes: map<Prefix, V>, bits: nat,
                       p: Prefix, t: nat)
    requires Exact(bin, labels, values, routes, bits) && p in routes && t <= p.len
    ensures Ancestor(p, t) in labels
  {
    hide Shr, WalkTo, Pow2, Reached, Tight, Branches;
    var v := Shr(p.num, p.len - t);
    AtRoot(bin, labels, bits);
    if t < p.len {
      RouteCrosses(bin, labels, values, routes, bits, p, t);
      BranchIsNode(bin, v, t);
    } else {
      ShrOnce(p.num, 0);
      assert p == Prefix(p.num, p.len);
      assert Decode(values, ValueAt(bin, p.num, p.len)) == Lookup(routes, Prefix(p.num, p.len));
    }
    WalkLabel(bin, labels, bits, 0, v, t);
  }

  lemma BranchIsNode(bin: seq<BinNode>, v: nat, t: nat)
    requires InArena(bin) && |bin| > 0 && v in BranchingAt(bin, Some(0), t)
    ensures v < Pow2(t) && WalkTo(bin, Some(0), v, t).Some?
  {
  }

  /** The trie has exactly one node per prefix on the way to a route. */
  lemma TrieSize<V>(bin: seq<BinNode>, labels: seq<Label>, values: seq<V>, routes: map<Prefix, V>, bits: nat)
    requires Exact(bin, labels, values, routes, bits)
    ensures |bin| == |OnPaths(routes)|
  {
    hide Shr, WalkTo, Pow2, Labelled, Tight, Represents;
    forall i, j | 0 <= i < j < |labels|
      ensures labels[i] != labels[j]
    {
      assert WalkTo(bin, Some(0), labels[i].num, labels[i].depth) == Some(i);
    }
    forall n | n in OnPaths(routes)
      ensures n in labels
    {
      if n == Label(0, 0) {
        AtRoot(bin, labels, bits);
      } else {
        var p :| p in routes && n in PathTo(p, p.len);
        PathHasNode(bin, labels, values, routes, bits, p, n.depth);
      }
    }
    forall n | n in labels
      ensures n in OnPaths(routes)
    {
      var i :| 0 <= i < |labels| && labels[i] == n;
      NodeOnPath(bin, labels, values, routes, bits, i);
    }
    assert Elements(labels) == OnPaths(routes);
    DistinctSize(labels);
  }

  lemma {:induction false} PathSize(p: Prefix, k: nat)
    requires k <= p.len
    ensures |PathTo(p, k)| <= k
  {
    hide Ancestor;
    if k == 0 {
      assert PathTo(p, k) == {};
    } else {
      PathSize(p, k - 1);
      assert PathTo(p, k) == PathTo(p, k - 1) + {Ancestor(p, k)};
    }
  }

  /** At most one trie node per route and bit, and the root. */
  lemma {:induction false} FewTrieNodes<V>(routes: map<Prefix, V>, bits: nat)
    requires RoutesOk(routes, bits)
    ensures |OnPaths(routes)| <= 1 + bits * |routes|
  {
    hide RoutesOk, PathTo;
    if routes.Keys == {} {
      assert OnPaths(routes) == {Label(0, 0)};
    } else {
      var p :| p in routes;
      RestOk(routes, bits, p);
      FewTrieNodes(routes - {p}, bits);
      MoreTrieNodes(routes, p);
      KeysSize(routes, p);
      OneMoreTimes(bits, |routes - {p}|);
    }
  }

  lemma RestOk<V>(routes: map<Prefix, V>, bits: nat, p: Prefix)
    requires RoutesOk(routes, bits) && p in routes
    ensures RoutesOk(routes - {p}, bits) && p.len <= bits
  {
    hide Pow2;
  }

  lemma MoreTrieNodes<V>(routes: map<Prefix, V>, p: Prefix)
    requires p in routes
    ensures |OnPaths(routes)| <= |OnPaths(routes - {p})| + p.len
  {
    hide OnPaths, PathTo;
    PathSize(p, p.len);
    OnePathMore(routes, p);
    SubsetSize(OnPaths(routes), OnPaths(routes - {p}) + PathTo(p, p.len));
  }

  lemma OneMoreTimes(a: nat, b: nat)
    ensures a * (b + 1) == a * b + a
  {
  }

  lemma OnePathMore<V>(routes: map<Prefix, V>, p: Prefix)
    requires p in routes
    ensures OnPaths(routes) <= OnPaths(routes - {p}) + PathTo(p, p.len)
  {
    hide PathTo;
    forall n | n in OnPaths(routes)
      ensures n in OnPaths(routes - {p}) + PathTo(p, p.len)
    {
      if n != Label(0, 0) {
        var q :| q in routes && n in PathTo(q, q.len);
        if q != p { assert q in routes - {p} && n in PathTo(q, q.len); }
      }
    }
  }

  // ---------------------------------------------------------------- bounds

  lemma {:induction false} ImageSize<V>(routes: map<Prefix, V>, t: nat)
    ensures |Crossed(routes, t)| <= |routes|
  {
    hide Shr;
    if routes.Keys == {} {
      assert Crossed(routes, t) == {};
    } else {
      var p :| p in routes;
      var rest := routes - {p};
      ImageSize(rest, t);
      assert Crossed(routes, t) <= Crossed(rest, t) + {if p.len > t then Shr(p.num, p.len - t) else 0};
      SubsetSize(Crossed(routes, t), Crossed(rest, t) + {if p.len > t then Shr(p.num, p.len - t) else 0});
      KeysSize(routes, p);
    }
  }

  lemma KeysSize<V>(routes: map<Prefix, V>, p: Prefix)
    requires p in routes
    ensures |routes - {p}| == |routes| - 1
  {
    assert (routes - {p}).Keys == routes.Keys - {p};
    assert |routes.Keys| == |routes| && |(routes - {p}).Keys| == |routes - {p}|;
  }

  lemma {:induction false} SubsetSize<T>(a: set<T>, b: set<T>)
    requires a <= b
    ensures |a| <= |b|
  {
    if a != {} {
      var x :| x in a;
      SubsetSize(a - {x}, b - {x});
    }
  }

  /** At most one node per route and stride. */
  lemma {:induction false} FewNodes<V>(routes: map<Prefix, V>, t: nat, strides: nat)
    ensures NodesNeeded(routes, t, strides) <= strides * |routes|
    decreases strides
  {
    hide Crossed;
    if strides > 0 {
      ImageSize(routes, t);
      FewNodes(routes, t + STRIDE, strides - 1);
      assert strides * |routes| == |routes| + (strides - 1) * |routes|;
    }
  }

  lemma {:induction false} FewValues<V>(routes: map<Prefix, V>)
    ensures |routes.Values| <= |routes|
  {
    if routes.Keys == {} {
      assert routes.Values == {};
    } else {
      var p :| p in routes;
      var rest := routes - {p};
      FewValues(rest);
      forall v | v in routes.Values
        ensures v in rest.Values + {routes[p]}
      {
        var q :| q in routes && routes[q] == v;
        if q != p { assert q in rest && rest[q] == v; }
      }
      SubsetSize(routes.Values, rest.Values + {routes[p]});
      KeysSize(routes, p);
    }
  }
}
