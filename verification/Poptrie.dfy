/** Building and searching the compressed table.  For every list of insertions and
    every key the search, with all its unchecked indexing, gives the longest-prefix
    match of the inserted routes, which is what an exhaustive scan finds. */
module Poptrie {
  import opened Bits
  import opened Wrappers
  import opened BinaryTrie
  import opened PoptrieBuilder
  import opened PoptrieSize
  import opened PoptrieTable
  import opened PoptrieEmitter

  datatype Table<V> = Table(direct: seq<nat>, nodes: seq<Node>, leaves: seq<nat>, values: seq<V>)

  /** Widths that `build` accepts: at least one direct bit and whole strides below. */
  predicate WidthsOk(bits: nat, directBits: nat)
  {
    1 <= directBits < bits && (bits - directBits) % STRIDE == 0
  }

  function Strides(bits: nat, directBits: nat): (r: nat)
    requires WidthsOk(bits, directBits)
    ensures r > 0 && directBits + STRIDE * r == bits
  {
    (bits - directBits) / STRIDE
  }

  ghost predicate EmittedFrom<V>(t: Table<V>, bin: seq<BinNode>, bits: nat, directBits: nat)
    requires WidthsOk(bits, directBits)
  {
    && InArena(bin) && |bin| > 0 && ValuesInTable(bin, |t.values|)
    && |t.direct| == Pow2(directBits) && |t.nodes| < LEAF_FLAG && |t.values| < VALUE_MASK
    && DirectRange(bin, t.nodes, t.leaves, t.direct, Some(0), 0, 0, directBits, Strides(bits, directBits))
  }

  /** The table was emitted from a trie that represents these routes. */
  ghost predicate Answers<V(!new)>(t: Table<V>, routes: map<Prefix, V>, bits: nat, directBits: nat)
    requires WidthsOk(bits, directBits)
  {
    exists bin :: EmittedFrom(t, bin, bits, directBits) && Represents(bin, t.values, routes, bits)
  }

  // ---------------------------------------------------------------- build

  datatype BuildResult<V> = Built(table: Table<V>) | BadDirectBits | TooManyValues | TooManyNodes

  /** The table can be addressed: values by 31-bit numbers, nodes by 31-bit indexes. */
  ghost predicate ValuesFit<V>(routes: map<Prefix, V>) { |routes.Values| < VALUE_MASK }

  ghost predicate NodesFit<V>(routes: map<Prefix, V>, bits: nat, directBits: nat)
    requires WidthsOk(bits, directBits)
  {
    NodesNeeded(routes, directBits, Strides(bits, directBits)) < LEAF_FLAG
  }

  /** Exactly when `build` accepts these routes. */
  ghost predicate Fits<V>(routes: map<Prefix, V>, bits: nat, directBits: nat)
    requires WidthsOk(bits, directBits)
  {
    ValuesFit(routes) && NodesFit(routes, bits, directBits)
  }

  /** `build`; the three panics are the three other results, and the routes and widths
      alone decide which of the four it is. */
  method Build<V(==,!new)>(b: Builder<V>, directBits: nat) returns (r: BuildResult<V>)
    requires b.Valid()
    ensures r.BadDirectBits? <==> !WidthsOk(b.bits, directBits)
    ensures r.TooManyValues? <==> WidthsOk(b.bits, directBits) && !ValuesFit(b.routes)
    ensures r.TooManyNodes?
      <==> WidthsOk(b.bits, directBits) && ValuesFit(b.routes) && !NodesFit(b.routes, b.bits, directBits)
    ensures r.Built? ==> Answers(r.table, b.routes, b.bits, directBits)
    ensures r.Built? ==> |r.table.values| == |b.routes.Values| && |r.table.leaves| <= SLOTS * |r.table.nodes|
    ensures r.Built? ==> |r.table.nodes| == NodesNeeded(b.routes, directBits, Strides(b.bits, directBits))
    ensures |b.bin| == |OnPaths(b.routes)|
  {
    hide DirectRange, Represents, Interned, Reached, Tight, Labelled;
    hide AllUsed, SameShape, Distinct, NodesNeeded, Emitted, OnPaths;
    TrieSize(b.bin, b.labels, b.values, b.routes, b.bits);
    if !WidthsOk(b.bits, directBits) { return BadDirectBits; }
    ghost var strides := Strides(b.bits, directBits);
    var bin, values := CompactLiveValues(b.bin, b.values);
    SameMeaningRepresents(b.bin, b.values, bin, values, b.routes, b.bits);
    SameShapeLabelled(b.bin, bin, b.labels, b.bits);
    CompactedIsExact(b.bin, b.values, bin, values, b.labels, b.routes, b.bits);
    InternedDistinct(b.values, b.valueIndex);
    LiveValues(bin, b.labels, values, b.routes, b.bits);
    EmittedPerBoundary(bin, Some(0), directBits, strides);
    EmittedIsNeeded(bin, b.labels, values, b.routes, b.bits, directBits, strides);
    if |values| >= VALUE_MASK { return TooManyValues; }
    var emitter := new Emitter(bin);
    var direct := new nat[Pow2(directBits)](_ => 0);
    WholeRange(directBits);
    emitter.FillDirect(Some(0), 0, 0, 0, directBits, direct, b.labels, b.bits, strides);
    if |emitter.nodes| >= LEAF_FLAG { return TooManyNodes; }
    var t := Table(direct[..], emitter.nodes, emitter.leaves, values);
    assert EmittedFrom(t, bin, b.bits, directBits);
    r := Built(t);
  }

  lemma WholeRange(directBits: nat)
    ensures RangeStart(0, directBits) == 0 && Pow2(0) == 1
  {
  }

  lemma InternedDistinct<V>(values: seq<V>, index: map<V, nat>)
    requires Interned(values, index)
    ensures Distinct(values)
  {
  }

  /** Compaction leaves a trie that represents the routes and holds nothing else. */
  lemma CompactedIsExact<V>(a: seq<BinNode>, values: seq<V>, b: seq<BinNode>, live: seq<V>, labels: seq<Label>,
                            routes: map<Prefix, V>, bits: nat)
    requires Exact(a, labels, values, routes, bits)
    requires ValuesInTable(b, |live|) && SameMeaning(a, values, b, live)
    ensures Exact(b, labels, live, routes, bits)
  {
    hide WalkTo, Pow2;
    SameMeaningRepresents(a, values, b, live, routes, bits);
    SameShapeLabelled(a, b, labels, bits);
    forall n | 0 <= n < |b|
      ensures WalkTo(b, Some(0), labels[n].num, labels[n].depth) == Some(n)
      ensures n > 0 ==> Branches(b, Some(n)) || b[n].value != 0
    {
      SameShapeWalk(a, b, Some(0), labels[n].num, labels[n].depth);
      assert Decode(live, b[n].value) == Decode(values, a[n].value);
    }
  }

  /** Fewer routes than addresses, whatever they are, always fit. */
  lemma FewRoutesFit<V>(routes: map<Prefix, V>, bits: nat, directBits: nat)
    requires WidthsOk(bits, directBits) && Strides(bits, directBits) * |routes| < VALUE_MASK
    ensures Fits(routes, bits, directBits)
  {
    hide NodesNeeded;
    FewValues(routes);
    FewNodes(routes, directBits, Strides(bits, directBits));
    AtLeastOnce(Strides(bits, directBits), |routes|);
  }

  lemma AtLeastOnce(a: nat, b: nat)
    requires a > 0
    ensures b <= a * b
  {
  }

  lemma SameShapeLabelled(a: seq<BinNode>, b: seq<BinNode>, labels: seq<Label>, bits: nat)
    requires SameShape(a, b) && Labelled(a, labels, bits)
    ensures Labelled(b, labels, bits)
  {
    forall n, branch | 0 <= n < |b| && b[n].Child(branch).Some?
      ensures labels[b[n].Child(branch).value] == Label(2 * labels[n].num + BitValue(branch), labels[n].depth + 1)
    {
      assert b[n].Child(branch) == a[n].Child(branch);
    }
  }

  // ---------------------------------------------------------------- lookup

  lemma FlagBits()
    ensures LEAF_FLAG == Pow2(31) && VALUE_MASK == Pow2(31) - 1
  {
    assert Pow2(8) == 256 && Pow2(7) == 128;
    Pow2Add(8, 7);
    Pow2Add(8, 8);
    Pow2Add(16, 15);
  }

  /** Telling leaf entries from node entries by the top bit. */
  lemma EntryBits(n: nat)
    requires n < LEAF_FLAG
    ensures And(LEAF_FLAG + n, LEAF_FLAG) != 0 && And(LEAF_FLAG + n, VALUE_MASK) == n && And(n, LEAF_FLAG) == 0
  {
    hide Pow2, And, Bit;
    FlagBits();
    SetBit(n, 31, 31);
    NoHighBit(n, 31, 31);
    AndSingleBit(n + Pow2(31), 31);
    AndSingleBit(n, 31);
    AndLowMask(LEAF_FLAG + n, 31);
    JoinAt(1, n, 31);
  }

  /** Shifting the low bits is taking low bits of the shifted number. */
  lemma {:induction false} ShrOfLowBits(x: nat, s: nat, n: nat)
    ensures Shr(LowBits(x, s + n), n) == LowBits(Shr(x, n), s)
    decreases n
  {
    if n > 0 {
      ShrOfLowBits(x / 2, s, n - 1);
      assert LowBits(x, s + n) / 2 == LowBits(x / 2, s + n - 1);
    }
  }

  /** The six key bits at an offset are the first six of the bits still left. */
  lemma StrideOfKey(key: nat, w: nat)
    requires w >= STRIDE
    ensures And(Shr(key, w - STRIDE), SLOTS - 1) == Shr(LowBits(key, w), w - STRIDE) < SLOTS
    ensures LowBits(LowBits(key, w), w - STRIDE) == LowBits(key, w - STRIDE)
  {
    hide And, Shr, LowBits;
    StrideSlots();
    ShrOfLowBits(key, STRIDE, w - STRIDE);
    AndLowMask(Shr(key, w - STRIDE), STRIDE);
    LowBitsFit(Shr(key, w - STRIDE), STRIDE);
    LowBitsLowBits(key, w - STRIDE, w);
  }

  /** A node test and its two counts, as bits and ranks. */
  lemma NodeBits(node: Node, v: nat)
    ensures (And(node.vector, Pow2(v)) != 0) == Bit(node.vector, v)
    ensures PopCount(And(node.vector, Pow2(v) - 1)) == Rank(node.vector, v)
    ensures PopCount(And(node.leafvec, Pow2(v) + (Pow2(v) - 1))) == Rank(node.leafvec, v + 1)
  {
    hide And, PopCount, Rank, Bit;
    AndSingleBit(node.vector, v);
    MaskedCountIsRank(node.vector, v);
    MaskedCountIsRank(node.leafvec, v + 1);
  }

  /** `lookup`: every index is in bounds and the result is the longest-prefix match. */
  method Lookup<V(!new)>(t: Table<V>, bits: nat, directBits: nat, key: nat, ghost routes: map<Prefix, V>)
    returns (r: Option<V>)
    requires WidthsOk(bits, directBits) && Answers(t, routes, bits, directBits) && key < Pow2(bits)
    ensures r == Lpm(routes, key, bits)
  {
    hide And, Shr, LowBits, Pow2, Bit, Rank, PopCount, SlotAt, BinLpm, Represents;
    ghost var bin :| EmittedFrom(t, bin, bits, directBits) && Represents(bin, t.values, routes, bits);
    ghost var answer := LongestUpTo(bin, key, bits, bits);
    LongestIsLpm(bin, t.values, routes, key, bits, bits);
    WholeKey(bin, key, bits);
    ShrBound(key, bits, directBits);
    SlotSplitsLookup(bin, Some(0), 0, key, bits, directBits);

    var entry := t.direct[Shr(key, bits - directBits)];
    ghost var slot := SlotAt(bin, Some(0), 0, Shr(key, bits - directBits), directBits);
    assert DirectRep(bin, t.nodes, t.leaves, t.direct[0 + Shr(key, bits - directBits)], slot,
                     Strides(bits, directBits));
    EntryBits(if slot.Leaf? then slot.value else entry);
    if And(entry, LEAF_FLAG) != 0 {
      return Decode(t.values, And(entry, VALUE_MASK));
    }
    var nodeIndex: nat, offset: nat := entry, directBits;
    ghost var id: nat, inherited: nat, strides: nat := slot.node, slot.inherited, Strides(bits, directBits);
    while true
      invariant strides > 0 && offset + STRIDE * strides == bits
      invariant id < |bin| && Rep(bin, t.nodes, t.leaves, nodeIndex, 0, |t.nodes|, id, inherited, strides)
      invariant BinLpm(bin, Some(id), inherited, LowBits(key, bits - offset), bits - offset) == answer
      decreases strides
    {
      var node := t.nodes[nodeIndex];
      StrideOfKey(key, bits - offset);
      var v := And(Shr(key, bits - offset - STRIDE), SLOTS - 1);
      LowBitsFit(key, bits - offset);
      SlotSplitsLookup(bin, Some(id), inherited, LowBits(key, bits - offset), bits - offset, STRIDE);
      slot := SlotAt(bin, Some(id), inherited, v, STRIDE);
      assert SlotRep(bin, t.nodes, t.leaves, node, 0, |t.nodes|, v, slot, strides);
      NodeBits(node, v);
      offset := offset + STRIDE;
      var bit := Pow2(v);
      if And(node.vector, bit) != 0 {
        nodeIndex := node.base1 + PopCount(And(node.vector, bit - 1));
        id, inherited, strides := slot.node, slot.inherited, strides - 1;
      } else {
        // `bit | (bit - 1)`: the two have no bit in common.
        var runs := PopCount(And(node.leafvec, bit + (bit - 1)));
        return Decode(t.values, t.leaves[node.base0 + runs - 1]);
      }
    }
  }

  lemma LowBitsFit(key: nat, w: nat)
    ensures LowBits(key, w) < Pow2(w)
  {
    SplitAt(key, w);
  }

  /** Searching from the root with the whole key. */
  lemma WholeKey(bin: seq<BinNode>, key: nat, bits: nat)
    requires InArena(bin) && |bin| > 0 && key < Pow2(bits)
    ensures BinLpm(bin, Some(0), 0, key, bits) == LongestUpTo(bin, key, bits, bits)
  {
    BinLpmIsLongest(bin, key, bits, 0);
    LowBitsWhole(key, bits);
  }

  // ---------------------------------------------------------------- exhaustive scan

  datatype Insertion<V> = Insertion(prefix: nat, len: nat, value: V)

  ghost predicate InsertionsOk<V>(inserts: seq<Insertion<V>>, bits: nat)
  {
    forall i :: 0 <= i < |inserts| ==> inserts[i].prefix < Pow2(bits) && inserts[i].len <= bits
  }

  /** Route map after a list of insertions; the last one of a prefix wins. */
  function RoutesOf<V>(inserts: seq<Insertion<V>>, bits: nat): map<Prefix, V>
    requires forall i :: 0 <= i < |inserts| ==> inserts[i].len <= bits
  {
    if inserts == [] then map[]
    else var last := inserts[|inserts| - 1];
      RoutesOf(inserts[..|inserts| - 1], bits)[PrefixOf(last.prefix, bits, last.len) := last.value]
  }

  /** Masking with the high `bits - s` ones clears the low `s` bits. */
  lemma {:induction false} AndHighMask(x: nat, bits: nat, s: nat)
    requires s <= bits && x < Pow2(bits)
    ensures Pow2(s) <= Pow2(bits) && And(x, Pow2(bits) - Pow2(s)) == Shr(x, s) * Pow2(s)
    decreases s
  {
    hide And, Shr, LowBits;
    Pow2Mono(s, bits);
    ShrOnce(x, 0);
    if s == 0 {
      AndLowMask(x, bits);
      LowBitsWhole(x, bits);
    } else {
      AndHighMask(x / 2, bits - 1, s - 1);
      var mask, half := Pow2(bits) - Pow2(s), Pow2(s - 1);
      assert Pow2(s) == 2 * half && mask / 2 == Pow2(bits - 1) - half && mask % 2 == 0;
      hide Pow2;
      AndEven(x, mask);
      HalfShr(x, s);
      MulDouble(Shr(x / 2, s - 1), half, Pow2(s));
    }
  }

  lemma AndEven(x: nat, mask: nat)
    requires mask % 2 == 0
    ensures And(x, mask) == 2 * And(x / 2, mask / 2)
  {
  }

  /** `key & mask == prefix & mask` compares the first `len` bits. */
  lemma MaskedMatch(key: nat, prefix: nat, bits: nat, len: nat)
    requires len <= bits && key < Pow2(bits) && prefix < Pow2(bits)
    ensures Pow2(bits - len) <= Pow2(bits)
    ensures And(key, Pow2(bits) - Pow2(bits - len)) == And(prefix, Pow2(bits) - Pow2(bits - len))
       <==> PrefixOf(key, bits, len) == PrefixOf(prefix, bits, len)
  {
    AndHighMask(key, bits, bits - len);
    AndHighMask(prefix, bits, bits - len);
    QuotientOfEqual(Shr(key, bits - len), Shr(prefix, bits - len), Pow2(bits - len));
  }

  lemma QuotientOfEqual(a: nat, b: nat, d: nat)
    requires d > 0
    ensures a * d == b * d <==> a == b
  {
    if a * d == b * d { QuotientUnique(d, a, 0, b, 0); }
  }

  lemma {:induction false} LpmFound<V>(routes: map<Prefix, V>, key: nat, bits: nat, len: nat, n: nat)
    requires len <= n <= bits && PrefixOf(key, bits, len) in routes
    requires forall k :: len < k <= bits ==> PrefixOf(key, bits, k) !in routes
    ensures LpmUpTo(routes, key, bits, n) == Some(routes[PrefixOf(key, bits, len)])
    decreases n
  {
    if len < n { LpmFound(routes, key, bits, len, n - 1); }
  }

  lemma {:induction false} LpmMissing<V>(routes: map<Prefix, V>, key: nat, bits: nat, n: nat)
    requires n <= bits && forall k :: 0 <= k <= bits ==> PrefixOf(key, bits, k) !in routes
    ensures LpmUpTo(routes, key, bits, n) == None
    decreases n
  {
    if n > 0 { LpmMissing(routes, key, bits, n - 1); }
  }

  /** The best candidate of a scan so far. */
  ghost predicate IsBest<V>(best: Option<(nat, V)>, routes: map<Prefix, V>, key: nat, bits: nat)
  {
    match best
    case None => forall k :: 0 <= k <= bits ==> PrefixOf(key, bits, k) !in routes
    case Some((len, value)) =>
      && len <= bits && PrefixOf(key, bits, len) in routes && routes[PrefixOf(key, bits, len)] == value
      && forall k :: len < k <= bits ==> PrefixOf(key, bits, k) !in routes
  }

  lemma BestAfter<V>(best: Option<(nat, V)>, routes: map<Prefix, V>, key: nat, bits: nat, p: Insertion<V>)
    requires p.len <= bits && IsBest(best, routes, key, bits)
    ensures var matches := PrefixOf(key, bits, p.len) == PrefixOf(p.prefix, bits, p.len);
      IsBest(if matches && (best.None? || p.len >= best.value.0) then Some((p.len, p.value)) else best,
             routes[PrefixOf(p.prefix, bits, p.len) := p.value], key, bits)
  {
    hide Shr;
  }

  /** The exhaustive scan: the longest matching prefix, the later of equal ones. */
  method ReferenceLpm<V(!new)>(inserts: seq<Insertion<V>>, key: nat, bits: nat) returns (r: Option<V>)
    requires InsertionsOk(inserts, bits) && key < Pow2(bits)
    ensures r == Lpm(RoutesOf(inserts, bits), key, bits)
  {
    hide And, Pow2, Shr;
    var best: Option<(nat, V)> := None;
    for i := 0 to |inserts|
      invariant IsBest(best, RoutesOf(inserts[..i], bits), key, bits)
    {
      var p := inserts[i];
      MaskedMatch(key, p.prefix, bits, p.len);
      var mask := Pow2(bits) - Pow2(bits - p.len);
      BestAfter(best, RoutesOf(inserts[..i], bits), key, bits, p);
      assert inserts[..i + 1][..i] == inserts[..i];
      if And(key, mask) == And(p.prefix, mask) && (best.None? || p.len >= best.value.0) {
        best := Some((p.len, p.value));
      }
    }
    assert inserts[..|inserts|] == inserts;
    match best {
      case None =>
        LpmMissing(RoutesOf(inserts, bits), key, bits, bits);
        r := None;
      case Some((len, value)) =>
        LpmFound(RoutesOf(inserts, bits), key, bits, len, bits);
        r := Some(value);
    }
  }

  /** The first `len` bits of key and prefix agree. */
  predicate Covers<V>(p: Insertion<V>, key: nat, bits: nat)
    requires p.len <= bits
  {
    key / Pow2(bits - p.len) == p.prefix / Pow2(bits - p.len)
  }

  /** Insertion `i` covers the key, and every other one that does is shorter, or as long and earlier. */
  ghost predicate Wins<V>(inserts: seq<Insertion<V>>, key: nat, bits: nat, i: nat)
    requires forall j :: 0 <= j < |inserts| ==> inserts[j].len <= bits
  {
    && i < |inserts| && Covers(inserts[i], key, bits)
    && forall j :: 0 <= j < |inserts| && j != i && Covers(inserts[j], key, bits) ==>
         inserts[j].len < inserts[i].len || (inserts[j].len == inserts[i].len && j < i)
  }

  /** What a lookup must answer, on the list of insertions alone. */
  ghost predicate LongestLast<V>(inserts: seq<Insertion<V>>, key: nat, bits: nat, r: Option<V>)
    requires forall j :: 0 <= j < |inserts| ==> inserts[j].len <= bits
  {
    match r
    case None => forall i :: 0 <= i < |inserts| ==> !Covers(inserts[i], key, bits)
    case Some(v) => exists i: nat :: Wins(inserts, key, bits, i) && inserts[i].value == v
  }

  lemma CoversIsPrefix<V>(p: Insertion<V>, key: nat, bits: nat)
    requires p.len <= bits
    ensures Covers(p, key, bits) <==> PrefixOf(key, bits, p.len) == PrefixOf(p.prefix, bits, p.len)
  {
    ShrIsDiv(key, bits - p.len);
    ShrIsDiv(p.prefix, bits - p.len);
  }

  /** The winner among the first `n` insertions, as the scan finds it. */
  lemma {:induction false} WinnerOf<V>(inserts: seq<Insertion<V>>, key: nat, bits: nat)
    returns (best: Option<nat>)
    requires forall j :: 0 <= j < |inserts| ==> inserts[j].len <= bits
    ensures match best
      case None =>
        && IsBest(None, RoutesOf(inserts, bits), key, bits)
        && forall i :: 0 <= i < |inserts| ==> !Covers(inserts[i], key, bits)
      case Some(i) =>
        && Wins(inserts, key, bits, i)
        && IsBest(Some((inserts[i].len, inserts[i].value)), RoutesOf(inserts, bits), key, bits)
    decreases |inserts|
  {
    hide Covers, IsBest;
    if inserts == [] {
      best := None;
      NoBest<V>(key, bits);
    } else {
      var n := |inserts| - 1;
      var front, p := inserts[..n], inserts[n];
      assert forall j :: 0 <= j < n ==> front[j] == inserts[j];
      var before := WinnerOf(front, key, bits);
      var held := match before case None => None case Some(i) => Some((front[i].len, front[i].value));
      BestAfter(held, RoutesOf(front, bits), key, bits, p);
      CoversIsPrefix(p, key, bits);
      best := if Covers(p, key, bits) && (before.None? || p.len >= front[before.value].len) then Some(n) else before;
    }
  }

  lemma NoBest<V>(key: nat, bits: nat)
    ensures IsBest<V>(None, map[], key, bits)
  {
  }

  /** Longest-prefix match over the map of insertions is the value of the longest covering insertion, the later
      of equal ones, and none exactly when no insertion covers the key. */
  lemma LpmIsLongestLast<V>(inserts: seq<Insertion<V>>, key: nat, bits: nat)
    requires forall j :: 0 <= j < |inserts| ==> inserts[j].len <= bits
    ensures LongestLast(inserts, key, bits, Lpm(RoutesOf(inserts, bits), key, bits))
  {
    hide Shr, Pow2, RoutesOf;
    var best := WinnerOf(inserts, key, bits);
    var routes := RoutesOf(inserts, bits);
    match best
    case None => LpmMissing(routes, key, bits, bits);
    case Some(i) => LpmFound(routes, key, bits, inserts[i].len, bits);
  }

  /** Lengths of the vectors that the code casts to 32 bits. */
  datatype Sizes = Sizes(trieNodes: nat, interned: nat, nodes: nat, leaves: nat)
  {
    /** Every length fits, so that no cast changes a number. */
    predicate Fit() { trieNodes <= WORD && interned < WORD && nodes <= WORD && leaves <= WORD }
  }

  /** A condition on the insertions under which every cast length fits. */
  ghost predicate CastsFit<V>(inserts: seq<Insertion<V>>, bits: nat, directBits: nat)
    requires WidthsOk(bits, directBits) && InsertionsOk(inserts, bits)
  {
    var routes := RoutesOf(inserts, bits);
    && |OnPaths(routes)| <= WORD && |inserts| < WORD
    && SLOTS * NodesNeeded(routes, directBits, Strides(bits, directBits)) <= WORD
  }

  /** A builder with a list of prefixes inserted. */
  method InsertAll<V(==,!new)>(inserts: seq<Insertion<V>>, bits: nat) returns (builder: Builder<V>)
    requires InsertionsOk(inserts, bits)
    ensures fresh(builder) && builder.Valid() && builder.bits == bits && |builder.values| <= |inserts|
    ensures builder.routes == RoutesOf(inserts, bits)
  {
    hide Pow2, Shr, RoutesOk;
    builder := new Builder<V>(bits);
    for i := 0 to |inserts|
      invariant fresh(builder) && builder.Valid() && builder.bits == bits && |builder.values| <= i
      invariant builder.routes == RoutesOf(inserts[..i], bits)
    {
      assert inserts[..i + 1][..i] == inserts[..i];
      var _ := builder.Insert(inserts[i].prefix, inserts[i].len, inserts[i].value);
    }
    assert inserts[..|inserts|] == inserts;
  }

  /** Insert a list of prefixes, build, look up: the table is refused exactly when its
      routes cannot be addressed, and otherwise the result is that of the exhaustive
      scan over the same list.  The lengths are those of the vectors on the way. */
  method InsertBuildLookup<V(==,!new)>(inserts: seq<Insertion<V>>, key: nat, bits: nat, directBits: nat)
    returns (r: Option<V>, tooLarge: bool, ghost sizes: Sizes)
    requires WidthsOk(bits, directBits) && InsertionsOk(inserts, bits) && key < Pow2(bits)
    ensures tooLarge <==> !Fits(RoutesOf(inserts, bits), bits, directBits)
    ensures !tooLarge ==> r == Lpm(RoutesOf(inserts, bits), key, bits) && LongestLast(inserts, key, bits, r)
    ensures sizes.trieNodes == |OnPaths(RoutesOf(inserts, bits))| && sizes.interned <= |inserts|
    ensures !tooLarge ==> sizes.nodes == NodesNeeded(RoutesOf(inserts, bits), directBits, Strides(bits, directBits))
    ensures !tooLarge && CastsFit(inserts, bits, directBits) ==> sizes.Fit()
  {
    hide Pow2, Shr, Answers, ValuesFit, NodesFit, OnPaths, NodesNeeded, RoutesOk, Strides, LongestLast, RoutesOf, Lpm;
    LpmIsLongestLast(inserts, key, bits);
    var builder := InsertAll(inserts, bits);
    var built := Build(builder, directBits);
    sizes := Sizes(|builder.bin|, |builder.values|, 0, 0);
    if !built.Built? { return None, true, sizes; }
    sizes := sizes.(nodes := |built.table.nodes|, leaves := |built.table.leaves|);
    r := Lookup(built.table, bits, directBits, key, builder.routes);
    tooLarge := false;
  }

  lemma {:induction false} RoutesOfSize<V>(inserts: seq<Insertion<V>>, bits: nat)
    requires InsertionsOk(inserts, bits)
    ensures |RoutesOf(inserts, bits)| <= |inserts|
  {
    hide Shr;
    if inserts != [] {
      var front, last := inserts[..|inserts| - 1], inserts[|inserts| - 1];
      RoutesOfSize(front, bits);
      OneMoreKey(RoutesOf(front, bits), PrefixOf(last.prefix, bits, last.len), last.value);
    }
  }

  lemma OneMoreKey<V>(routes: map<Prefix, V>, p: Prefix, value: V)
    ensures |routes[p := value]| <= |routes| + 1
  {
    assert routes[p := value].Keys == routes.Keys + {p};
    assert |routes[p := value].Keys| == |routes[p := value]| && |routes.Keys| == |routes|;
  }

  lemma {:induction false} RoutesOfOk<V>(inserts: seq<Insertion<V>>, bits: nat)
    requires InsertionsOk(inserts, bits)
    ensures RoutesOk(RoutesOf(inserts, bits), bits)
  {
    hide Shr, Pow2;
    if inserts != [] {
      var last := inserts[|inserts| - 1];
      RoutesOfOk(inserts[..|inserts| - 1], bits);
      ShrBound(last.prefix, bits, last.len);
    }
  }

  /** A list of insertions below the address limits is never refused; with fewer still, by
      the key width and 64 leaves per node, no length on the way outgrows 32 bits. */
  lemma FewInsertionsFit<V>(inserts: seq<Insertion<V>>, bits: nat, directBits: nat)
    requires WidthsOk(bits, directBits) && InsertionsOk(inserts, bits)
    requires Strides(bits, directBits) * |inserts| < VALUE_MASK
    ensures Fits(RoutesOf(inserts, bits), bits, directBits)
    ensures bits * |inserts| < WORD && SLOTS * (Strides(bits, directBits) * |inserts|) <= WORD ==>
      CastsFit(inserts, bits, directBits)
  {
    hide Fits, RoutesOf, OnPaths, NodesNeeded, RoutesOk;
    var routes, strides := RoutesOf(inserts, bits), Strides(bits, directBits);
    RoutesOfSize(inserts, bits);
    RoutesOfOk(inserts, bits);
    MulMono(|routes|, |inserts|, strides);
    MulMono(|routes|, |inserts|, bits);
    FewRoutesFit(routes, bits, directBits);
    FewTrieNodes(routes, bits);
    FewNodes(routes, directBits, strides);
    AtLeastOnce(bits, |inserts|);
  }
}
