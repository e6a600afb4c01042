/** Collecting prefixes: the builder keeps a binary trie of value numbers and a table
    of distinct values, and together they represent the map of inserted routes in
    which the last insertion of a prefix wins. */
module PoptrieBuilder {
  import opened Bits
  import opened Wrappers
  import opened BinaryTrie

  /** A prefix named by its top `len` bits as a number. */
  datatype Prefix = Prefix(num: nat, len: nat)

  /** The prefix of length `len` that `key` starts with. */
  function PrefixOf(key: nat, bits: nat, len: nat): Prefix
    requires len <= bits
  {
    Prefix(Shr(key, bits - len), len)
  }

  /** The route of the longest prefix of `key`, among lengths up to `n`. */
  function LpmUpTo<V>(routes: map<Prefix, V>, key: nat, bits: nat, n: nat): Option<V>
    requires n <= bits
    decreases n
  {
    var p := PrefixOf(key, bits, n);
    if p in routes then Some(routes[p]) else if n == 0 then None else LpmUpTo(routes, key, bits, n - 1)
  }

  /** Longest-prefix match. */
  function Lpm<V>(routes: map<Prefix, V>, key: nat, bits: nat): Option<V>
  {
    LpmUpTo(routes, key, bits, bits)
  }

  /** Value number to value: zero is no route. */
  function Decode<V>(values: seq<V>, n: nat): Option<V>
    requires n <= |values|
  {
    if n == 0 then None else Some(values[n - 1])
  }

  function Lookup<K, V>(m: map<K, V>, k: K): Option<V> { if k in m then Some(m[k]) else None }

  ghost predicate ValuesInTable(bin: seq<BinNode>, count: nat)
  {
    forall n :: 0 <= n < |bin| ==> bin[n].value <= count
  }

  /** The trie and the value table say exactly what the route map says. */
  ghost predicate Represents<V>(bin: seq<BinNode>, values: seq<V>, routes: map<Prefix, V>, bits: nat)
    requires InArena(bin) && |bin| > 0 && ValuesInTable(bin, |values|)
  {
    forall v, s :: 0 <= s <= bits && 0 <= v < Pow2(s) ==>
      Decode(values, ValueAt(bin, v, s)) == Lookup(routes, Prefix(v, s))
  }

  /** Prefixes are no longer than a key. */
  ghost predicate RoutesOk<V>(routes: map<Prefix, V>, bits: nat)
  {
    forall p :: p in routes ==> p.len <= bits && p.num < Pow2(p.len)
  }

  /** Every node is the one its own label leads to. */
  ghost predicate Reached(bin: seq<BinNode>, labels: seq<Label>)
    requires InArena(bin) && |labels| == |bin| > 0
  {
    forall n :: 0 <= n < |bin| ==>
      labels[n].num < Pow2(labels[n].depth) && WalkTo(bin, Some(0), labels[n].num, labels[n].depth) == Some(n)
  }

  /** Every node but the root and `open` is there for a prefix that ends at or below it. */
  ghost predicate Tight(bin: seq<BinNode>, open: nat)
    requires InArena(bin)
  {
    forall n :: 0 < n < |bin| && n != open ==> Branches(bin, Some(n)) || bin[n].value != 0
  }

  /** Equal values have one number. */
  ghost predicate Interned<V>(values: seq<V>, index: map<V, nat>)
  {
    && (forall v :: v in index ==> 1 <= index[v] <= |values| && values[index[v] - 1] == v)
    && (forall i :: 0 <= i < |values| ==> values[i] in index && index[values[i]] == i + 1)
  }

  class Builder<V(==)> {
    const bits: nat
    var bin: seq<BinNode>
    var values: seq<V>
    var valueIndex: map<V, nat>
    ghost var labels: seq<Label>
    ghost var routes: map<Prefix, V>

    ghost predicate Valid()
      reads this
    {
      ValidBut(0)
    }

    /** Valid, but for a node `open` whose prefix is still being inserted. */
    ghost predicate ValidBut(open: nat)
      reads this
    {
      && InArena(bin) && |labels| == |bin| > 0
      && Labelled(bin, labels, bits) && Reached(bin, labels) && Tight(bin, open)
      && Interned(values, valueIndex) && RoutesOk(routes, bits)
      && ValuesInTable(bin, |values|) && Represents(bin, values, routes, bits)
    }

    constructor (bits: nat)
      ensures Valid() && this.bits == bits && routes == map[] && values == []
    {
      this.bits := bits;
      bin, values, valueIndex := [EMPTY_NODE], [], map[];
      labels, routes := [Label(0, 0)], map[];
      new;
      forall v, s | 0 <= s <= bits && 0 <= v < Pow2(s)
        ensures ValueAt(bin, v, s) == 0
      {
        if s > 0 { assert WalkTo(bin, None, BelowTop(v, s), s - 1) == None; }
      }
    }

    /** `intern`: the number of a value, new if it was not in the table. */
    method Intern(value: V) returns (index: nat)
      requires Valid()
      modifies this`values, this`valueIndex
      ensures Valid() && 1 <= index <= |values| && values[index - 1] == value
      ensures old(values) <= values && |values| <= |old(values)| + 1
    {
      hide Represents, Labelled, Reached, Tight, RoutesOk;
      if value in valueIndex {
        return valueIndex[value];
      }
      index := |values| + 1;
      MoreValues(bin, values, value, routes, bits);
      values := values + [value];
      valueIndex := valueIndex[value := index];
    }

    /** `insert`: the route map gains or replaces exactly this prefix; bits of the
        prefix below its length do not matter, and a length beyond the key width is
        refused (the code panics). */
    method Insert(prefix: nat, prefixLen: nat, value: V) returns (ok: bool)
      requires Valid() && prefix < Pow2(bits)
      modifies this
      ensures Valid() && ok == (prefixLen <= bits) && |values| <= |old(values)| + 1
      ensures routes == if ok then old(routes)[PrefixOf(prefix, bits, prefixLen) := value] else old(routes)
    {
      hide Represents, Interned, Labelled, Reached, Tight, WalkTo, Shr, Pow2, Bit;
      if prefixLen > bits { return false; }
      var valueId := Intern(value);
      ghost var was := routes;
      var node: nat := 0;
      ShrWhole(prefix, bits);
      AtRoot(bin, labels, bits);
      ShrBound(prefix, bits, prefixLen);
      for i := 0 to prefixLen
        invariant ValidBut(node) && routes == was && |values| <= |old(values)| + 1
        invariant 1 <= valueId <= |values| && values[valueId - 1] == value
        invariant InArena(bin) && |labels| == |bin| > 0
        invariant node < |bin| && labels[node] == Label(Shr(prefix, bits - i), i)
      {
        PrefixBit(prefix, bits, i);
        ShrBound(prefix, bits, i);
        node := Descend(node, Bit(prefix, bits - 1 - i));
      }
      SetValue(node, valueId, value);
      return true;
    }

    /** The child on a branch, created when missing. */
    method Descend(node: nat, branch: bool) returns (child: nat)
      requires node < |bin| && ValidBut(node) && labels[node].depth < bits
      modifies this`bin, this`labels
      ensures child < |bin| && ValidBut(child)
      ensures labels[child] == Label(2 * old(labels[node].num) + BitValue(branch), old(labels[node].depth) + 1)
    {
      hide Represents, Interned, Reached, Labelled, Pow2, WalkTo;
      match bin[node].Child(branch) {
        case Some(c) =>
          child := c;
          ChildLabel(bin, labels, bits, node, branch);
        case None =>
          AddChild(node, branch);
          child := |bin| - 1;
      }
    }

    /** Appends an empty node and links it. */
    method AddChild(node: nat, branch: bool)
      requires node < |bin| && ValidBut(node) && bin[node].Child(branch).None? && labels[node].depth < bits
      modifies this`bin, this`labels
      ensures |bin| == |old(bin)| + 1 && ValidBut(|old(bin)|)
      ensures labels == old(labels) + [Label(2 * old(labels)[node].num + BitValue(branch), old(labels)[node].depth + 1)]
    {
      hide Interned, Pow2, Reached, Tight, Labelled, Represents, WalkTo;
      NewChildLabelled(bin, labels, bits, node, branch);
      labels := labels + [Label(2 * labels[node].num + BitValue(branch), labels[node].depth + 1)];
      bin := WithNewChild(bin, node, branch);
      NewChildReached(old(bin), old(labels), node, branch);
      NewChildTight(old(bin), node, branch);
      NewChildRepresents(old(bin), node, branch, values, routes, bits);
    }

    method SetValue(node: nat, valueId: nat, value: V)
      requires node < |bin| && ValidBut(node) && 1 <= valueId <= |values| && values[valueId - 1] == value
      modifies this`bin, this`routes
      ensures Valid()
      ensures routes == old(routes)[Prefix(labels[node].num, labels[node].depth) := value]
    {
      hide Interned, Pow2, WalkTo, Tight, Represents, Labelled, Reached;
      ghost var at := labels[node];
      LabelFits(bin, labels, bits, node);
      SetValueRepresents(bin, labels, node, valueId, values, routes, bits);
      SetValueReached(bin, labels, node, valueId);
      routes := routes[Prefix(at.num, at.depth) := value];
      bin := bin[node := bin[node].(value := valueId)];
    }
  }

  lemma LabelFits(bin: seq<BinNode>, labels: seq<Label>, bits: nat, n: nat)
    requires Labelled(bin, labels, bits) && Reached(bin, labels) && n < |bin|
    ensures labels[n].depth <= bits && labels[n].num < Pow2(labels[n].depth)
  {
  }

  lemma SetValueRepresents<V>(bin: seq<BinNode>, labels: seq<Label>, node: nat, valueId: nat, values: seq<V>,
                              routes: map<Prefix, V>, bits: nat)
    requires node < |bin| && Labelled(bin, labels, bits) && Reached(bin, labels) && 1 <= valueId <= |values|
    requires ValuesInTable(bin, |values|) && Represents(bin, values, routes, bits)
    ensures var bin' := bin[node := bin[node].(value := valueId)];
      var routes' := routes[Prefix(labels[node].num, labels[node].depth) := values[valueId - 1]];
      && Labelled(bin', labels, bits) && ValuesInTable(bin', |values|) && Represents(bin', values, routes', bits)
  {
    hide Pow2, WalkTo;
    var bin' := bin[node := bin[node].(value := valueId)];
    SetValueLabelled(bin, labels, bits, node, valueId);
    forall v, s | 0 <= s <= bits && 0 <= v < Pow2(s)
      ensures Decode(values, ValueAt(bin', v, s))
           == Lookup(routes[Prefix(labels[node].num, labels[node].depth) := values[valueId - 1]], Prefix(v, s))
    {
      SetValueAt(bin, labels, bits, node, valueId, v, s);
      assert Decode(values, ValueAt(bin, v, s)) == Lookup(routes, Prefix(v, s));
    }
  }

  lemma SetValueLabelled(bin: seq<BinNode>, labels: seq<Label>, bits: nat, node: nat, valueId: nat)
    requires node < |bin| && Labelled(bin, labels, bits)
    ensures Labelled(bin[node := bin[node].(value := valueId)], labels, bits)
  {
    var bin' := bin[node := bin[node].(value := valueId)];
    forall n, b | 0 <= n < |bin'| && bin'[n].Child(b).Some?
      ensures bin'[n].Child(b) == bin[n].Child(b)
    {
    }
  }

  /** A longer value table says the same about every node. */
  lemma MoreValues<V>(bin: seq<BinNode>, values: seq<V>, value: V, routes: map<Prefix, V>, bits: nat)
    requires InArena(bin) && |bin| > 0 && ValuesInTable(bin, |values|) && Represents(bin, values, routes, bits)
    ensures ValuesInTable(bin, |values| + 1) && Represents(bin, values + [value], routes, bits)
  {
    hide WalkTo, Pow2;
    forall v, s | 0 <= s <= bits && 0 <= v < Pow2(s)
      ensures Decode(values + [value], ValueAt(bin, v, s)) == Lookup(routes, Prefix(v, s))
    {
      assert Decode(values, ValueAt(bin, v, s)) == Lookup(routes, Prefix(v, s));
    }
  }

  lemma NewChildReached(bin: seq<BinNode>, labels: seq<Label>, node: nat, branch: bool)
    requires InArena(bin) && |labels| == |bin| && node < |bin| && Reached(bin, labels)
    requires bin[node].Child(branch).None? && InArena(WithNewChild(bin, node, branch))
    ensures Reached(WithNewChild(bin, node, branch),
                    labels + [Label(2 * labels[node].num + BitValue(branch), labels[node].depth + 1)])
  {
    hide WalkTo;
    var bin' := WithNewChild(bin, node, branch);
    forall n | 0 <= n < |bin|
      ensures WalkTo(bin', Some(0), labels[n].num, labels[n].depth) == Some(n)
    {
      NewChildWalk(bin, node, branch, Some(0), labels[n].num, labels[n].depth);
    }
    WalkAppend(bin', Some(0), labels[node].num, labels[node].depth, branch);
  }

  lemma NewChildRepresents<V>(bin: seq<BinNode>, node: nat, branch: bool, values: seq<V>, routes: map<Prefix, V>,
                              bits: nat)
    requires InArena(bin) && node < |bin| && bin[node].Child(branch).None? && InArena(WithNewChild(bin, node, branch))
    requires ValuesInTable(bin, |values|) && Represents(bin, values, routes, bits)
    ensures ValuesInTable(WithNewChild(bin, node, branch), |values|)
    ensures Represents(WithNewChild(bin, node, branch), values, routes, bits)
  {
    hide Pow2, WalkTo;
    var bin' := WithNewChild(bin, node, branch);
    forall v, s | 0 <= s <= bits && 0 <= v < Pow2(s)
      ensures ValueAt(bin', v, s) == ValueAt(bin, v, s)
    {
      NewChildKeepsValues(bin, node, branch, v, s);
    }
  }

  lemma NewChildTight(bin: seq<BinNode>, node: nat, branch: bool)
    requires InArena(bin) && node < |bin| && InArena(WithNewChild(bin, node, branch)) && Tight(bin, node)
    ensures Tight(WithNewChild(bin, node, branch), |bin|)
  {
    var bin' := WithNewChild(bin, node, branch);
    forall n | 0 < n < |bin|
      ensures Branches(bin', Some(n)) || bin'[n].value != 0
    {
      if n != node { assert bin'[n] == bin[n]; }
    }
  }

  lemma SetValueReached(bin: seq<BinNode>, labels: seq<Label>, node: nat, value: nat)
    requires InArena(bin) && |labels| == |bin| && node < |bin| && value > 0
    requires Reached(bin, labels) && Tight(bin, node)
    ensures var bin' := bin[node := bin[node].(value := value)];
      InArena(bin') && Reached(bin', labels) && Tight(bin', 0)
  {
    hide WalkTo, Pow2;
    var bin' := bin[node := bin[node].(value := value)];
    forall n | 0 <= n < |bin|
      ensures InArena(bin') && WalkTo(bin', Some(0), labels[n].num, labels[n].depth) == Some(n)
      ensures 0 < n ==> Branches(bin', Some(n)) || bin'[n].value != 0
    {
      SetValueWalk(bin, node, value, Some(0), labels[n].num, labels[n].depth);
      if 0 < n && n != node { assert Branches(bin, Some(n)) || bin[n].value != 0; }
    }
  }

  lemma AtRoot(bin: seq<BinNode>, labels: seq<Label>, bits: nat)
    requires Labelled(bin, labels, bits)
    ensures labels[0] == Label(0, 0) && WalkTo(bin, Some(0), 0, 0) == Some(0)
  {
  }

  lemma ShrWhole(key: nat, bits: nat)
    requires key < Pow2(bits)
    ensures Shr(key, bits) == 0
  {
    ShrBound(key, bits, 0);
  }

  /** The branch taken for bit `i` of the prefix extends its first `i` bits by one. */
  lemma PrefixBit(prefix: nat, bits: nat, i: nat)
    requires i < bits
    ensures Shr(prefix, bits - i - 1) == 2 * Shr(prefix, bits - i) + BitValue(Bit(prefix, bits - 1 - i))
  {
    ShrShr(prefix, bits - 1 - i, 1);
    var hi := Shr(prefix, bits - 1 - i);
    assert Shr(hi, 1) == Shr(hi / 2, 0) == hi / 2;
  }

  // ---------------------------------------------------------------- compaction

  /** Same nodes and edges; value numbers may differ. */
  ghost predicate SameShape(a: seq<BinNode>, b: seq<BinNode>)
  {
    |a| == |b| && forall n :: 0 <= n < |a| ==> a[n].zero == b[n].zero && a[n].one == b[n].one
  }

  lemma {:induction false} SameShapeWalk(a: seq<BinNode>, b: seq<BinNode>, id: Option<nat>, v: nat, s: nat)
    requires SameShape(a, b) && InArena(a) && IdOk(a, id)
    ensures InArena(b) && WalkTo(b, id, v, s) == WalkTo(a, id, v, s)
    decreases s
  {
    if s > 0 && id.Some? {
      SameShapeWalk(a, b, a[id.value].Child(TopBit(v, s)), BelowTop(v, s), s - 1);
    }
  }

  /** The value a node stands for, whatever its number. */
  ghost predicate SameMeaning<V>(a: seq<BinNode>, values: seq<V>, b: seq<BinNode>, live: seq<V>)
    requires ValuesInTable(a, |values|) && ValuesInTable(b, |live|)
  {
    SameShape(a, b) && forall n :: 0 <= n < |a| ==> Decode(live, b[n].value) == Decode(values, a[n].value)
  }

  lemma SameMeaningRepresents<V>(a: seq<BinNode>, values: seq<V>, b: seq<BinNode>, live: seq<V>, routes: map<Prefix, V>,
                                 bits: nat)
    requires InArena(a) && |a| > 0 && ValuesInTable(a, |values|) && ValuesInTable(b, |live|)
    requires SameMeaning(a, values, b, live) && Represents(a, values, routes, bits)
    ensures InArena(b) && Represents(b, live, routes, bits)
  {
    SameShapeWalk(a, b, Some(0), 0, 0);
    forall v, s | 0 <= s <= bits && 0 <= v < Pow2(s)
      ensures Decode(live, ValueAt(b, v, s)) == Lookup(routes, Prefix(v, s))
    {
      SameShapeWalk(a, b, Some(0), v, s);
      assert Decode(values, ValueAt(a, v, s)) == Lookup(routes, Prefix(v, s));
    }
  }

  /** The new number of every value seen so far. */
  ghost predicate Remapped<V>(remap: seq<nat>, values: seq<V>, live: seq<V>)
  {
    |remap| == |values| + 1 && forall k :: 1 <= k < |remap| && remap[k] != 0 ==>
      remap[k] <= |live| && live[remap[k] - 1] == values[k - 1]
  }

  ghost predicate Distinct<T>(s: seq<T>) { forall i, j :: 0 <= i < j < |s| ==> s[i] != s[j] }

  /** Where each value kept came from; different places, since each has its own number. */
  ghost predicate Origins<V>(origin: seq<nat>, remap: seq<nat>, values: seq<V>, live: seq<V>)
  {
    && |origin| == |live| && |remap| == |values| + 1
    && forall j :: 0 <= j < |live| ==>
         1 <= origin[j] <= |values| && remap[origin[j]] == j + 1 && live[j] == values[origin[j] - 1]
  }

  lemma OriginsGrow<V>(origin: seq<nat>, remap: seq<nat>, values: seq<V>, live: seq<V>, was: nat)
    requires Origins(origin, remap, values, live) && 1 <= was <= |values| && remap[was] == 0
    ensures Origins(origin + [was], remap[was := |live| + 1], values, live + [values[was - 1]])
  {
  }

  lemma OriginsDistinct<V>(origin: seq<nat>, remap: seq<nat>, values: seq<V>, live: seq<V>)
    requires Origins(origin, remap, values, live) && Distinct(values)
    ensures Distinct(live)
  {
    forall i, j | 0 <= i < j < |live|
      ensures live[i] != live[j]
    {
      assert remap[origin[i]] != remap[origin[j]];
      if origin[i] < origin[j] {
        assert values[origin[i] - 1] != values[origin[j] - 1];
      } else {
        assert values[origin[j] - 1] != values[origin[i] - 1];
      }
    }
  }

  /** Some node among the first `upto` has this value number. */
  ghost predicate Uses(bin: seq<BinNode>, upto: nat, number: nat)
    requires upto <= |bin|
  {
    exists n :: 0 <= n < upto && bin[n].value == number
  }

  ghost predicate AllUsed(bin: seq<BinNode>, upto: nat, count: nat)
    requires upto <= |bin|
  {
    forall j :: 1 <= j <= count ==> Uses(bin, upto, j)
  }

  lemma NoneUsed(bin: seq<BinNode>)
    ensures AllUsed(bin, 0, 0)
  {
  }

  lemma StillUsed(before: seq<BinNode>, bin: seq<BinNode>, i: nat, count: nat, count': nat)
    requires i < |bin| == |before| && bin[..i] == before[..i] && AllUsed(before, i, count)
    requires count' == count || (count' == count + 1 == bin[i].value)
    ensures AllUsed(bin, i + 1, count')
  {
    var upto := i + 1;
    forall j | 1 <= j <= count' && !(j == count + 1 == count')
      ensures Uses(bin, upto, j)
    {
      assert Uses(before, i, j);
      var n :| 0 <= n < i && before[n].value == j;
      assert bin[..i][n] == before[..i][n];
      assert bin[n].value == j;
    }
    if count' == count + 1 { assert bin[i].value == count'; }
  }

  /** Gives a value a new number unless it has one. */
  method Renumber<V>(was: nat, remap0: seq<nat>, values: seq<V>, live0: seq<V>, ghost origin0: seq<nat>)
    returns (remap: seq<nat>, live: seq<V>, ghost origin: seq<nat>)
    requires Remapped(remap0, values, live0) && Origins(origin0, remap0, values, live0) && 1 <= was <= |values|
    ensures Remapped(remap, values, live) && Origins(origin, remap, values, live) && live0 <= live
    ensures |remap| == |values| + 1 && 1 <= remap[was] <= |live| && live[remap[was] - 1] == values[was - 1]
    ensures |live| == |live0| || (|live| == |live0| + 1 == remap[was])
  {
    remap, live, origin := remap0, live0, origin0;
    if remap[was] == 0 {
      OriginsGrow(origin, remap, values, live, was);
      hide Origins;
      var number := |live| + 1;
      remap := remap[was := number];
      live := live + [values[was - 1]];
      origin := origin + [was];
    }
  }

  /** `compact_live_values`: every node keeps its value, every value left in the table
      is the value of some node, and different values stay different. */
  method CompactLiveValues<V>(bin0: seq<BinNode>, values: seq<V>) returns (bin: seq<BinNode>, live: seq<V>)
    requires ValuesInTable(bin0, |values|)
    ensures ValuesInTable(bin, |live|) && SameMeaning(bin0, values, bin, live)
    ensures AllUsed(bin, |bin|, |live|) && (Distinct(values) ==> Distinct(live))
  {
    hide AllUsed, Distinct, CompactedTo, Origins, Remapped, SameMeaning;
    ghost var origin: seq<nat> := [];
    var remap := seq<nat>(|values| + 1, _ => 0);
    bin, live := bin0, [];
    NoneUsed(bin);
    NoneCompacted(bin0, values, remap);
    for i := 0 to |bin0|
      invariant |bin| == |bin0| && CompactedTo(bin0, values, bin, live, i)
      invariant Remapped(remap, values, live) && Origins(origin, remap, values, live)
      invariant AllUsed(bin, i, |live|)
    {
      bin, remap, live, origin := CompactNode(bin0, values, bin, remap, live, origin, i);
    }
    AllCompacted(bin0, values, bin, live);
    if Distinct(values) { OriginsDistinct(origin, remap, values, live); }
  }

  /** One node of the loop. */
  method CompactNode<V>(ghost bin0: seq<BinNode>, values: seq<V>, was: seq<BinNode>, remap0: seq<nat>, live0: seq<V>,
                        ghost origin0: seq<nat>, i: nat)
    returns (bin: seq<BinNode>, remap: seq<nat>, live: seq<V>, ghost origin: seq<nat>)
    requires i < |was| && CompactedTo(bin0, values, was, live0, i) && AllUsed(was, i, |live0|)
    requires Remapped(remap0, values, live0) && Origins(origin0, remap0, values, live0)
    ensures |bin| == |was| && CompactedTo(bin0, values, bin, live, i + 1) && AllUsed(bin, i + 1, |live|)
    ensures Remapped(remap, values, live) && Origins(origin, remap, values, live)
  {
    hide AllUsed, CompactedTo, Origins, Remapped;
    NotYetCompacted(bin0, values, was, live0, i);
    bin, remap, live, origin := was, remap0, live0, origin0;
    var number := was[i].value;
    if number != 0 {
      remap, live, origin := Renumber(number, remap, values, live, origin);
      bin := bin[i := bin[i].(value := remap[number])];
    }
    CompactStep(bin0, values, was, live0, live, i, bin[i].value);
    assert bin == was[i := was[i].(value := bin[i].value)];
    StillUsed(was, bin, i, |live0|, |live|);
  }

  /** The first `i` nodes have their new numbers and mean what they meant. */
  ghost predicate CompactedTo<V>(bin0: seq<BinNode>, values: seq<V>, bin: seq<BinNode>, live: seq<V>, i: nat)
  {
    && ValuesInTable(bin0, |values|) && SameShape(bin0, bin) && i <= |bin|
    && (forall n :: i <= n < |bin| ==> bin[n] == bin0[n])
    && (forall n :: 0 <= n < i ==>
        bin[n].value <= |live| && Decode(live, bin[n].value) == Decode(values, bin0[n].value))
  }

  lemma NoneCompacted<V>(bin0: seq<BinNode>, values: seq<V>, remap: seq<nat>)
    requires ValuesInTable(bin0, |values|) && |remap| == |values| + 1 && forall k :: 0 <= k < |remap| ==> remap[k] == 0
    ensures CompactedTo(bin0, values, bin0, [], 0)
    ensures Remapped(remap, values, []) && Origins([], remap, values, [])
  {
  }

  lemma NotYetCompacted<V>(bin0: seq<BinNode>, values: seq<V>, bin: seq<BinNode>, live: seq<V>, i: nat)
    requires i < |bin| && CompactedTo(bin0, values, bin, live, i)
    ensures |bin| == |bin0| && bin[i] == bin0[i] && bin[i].value <= |values|
  {
  }

  lemma CompactStep<V>(bin0: seq<BinNode>, values: seq<V>, bin: seq<BinNode>, live: seq<V>, live': seq<V>, i: nat,
                       number: nat)
    requires i < |bin| && CompactedTo(bin0, values, bin, live, i) && live <= live' && number <= |live'|
    requires bin[i].value <= |values| && Decode(live', number) == Decode(values, bin[i].value)
    ensures CompactedTo(bin0, values, bin[i := bin[i].(value := number)], live', i + 1)
  {
  }

  lemma AllCompacted<V>(bin0: seq<BinNode>, values: seq<V>, bin: seq<BinNode>, live: seq<V>)
    requires CompactedTo(bin0, values, bin, live, |bin|)
    ensures ValuesInTable(bin, |live|) && SameMeaning(bin0, values, bin, live)
  {
  }

  /** The trie's longest prefix is the route map's. */
  lemma {:induction false} LongestIsLpm<V>(bin: seq<BinNode>, values: seq<V>, routes: map<Prefix, V>, key: nat,
                                           bits: nat, n: nat)
    requires InArena(bin) && |bin| > 0 && ValuesInTable(bin, |values|) && Represents(bin, values, routes, bits)
    requires key < Pow2(bits) && n <= bits
    ensures LongestUpTo(bin, key, bits, n) <= |values|
    ensures Decode(values, LongestUpTo(bin, key, bits, n)) == LpmUpTo(routes, key, bits, n)
    decreases n
  {
    ShrBound(key, bits, n);
    var num := Shr(key, bits - n);
    assert Decode(values, ValueAt(bin, num, n)) == Lookup(routes, Prefix(num, n));
    if n > 0 { LongestIsLpm(bin, values, routes, key, bits, n - 1); }
  }
}
