/** That the rings do move descriptors: every reservation takes as much as the true state of the ring
    allows, and a batch that fits is delivered whole, in order, and leaves its room free again. */
module RingDelivery {
  import opened Bits
  import opened Wrappers
  import opened Ring
  import opened RingProtocol

  /** Entries the ring can still take, counted with what the consumer has released. */
  function TrueRoom<T>(s: System<T>): int { s.Size() - (s.prod.Reserved() - s.mapping.released) }

  /** Entries waiting, counted with what the producer has published. */
  function Waiting<T>(s: System<T>): int { s.mapping.published - s.cons.Taken() }

  /** A reservation takes what was wanted or all the room there truly is, however stale the cached
      position was, and touches nothing else. */
  lemma ReservesTrueRoom<T>(s: System<T>, wanted: u32)
    requires Inv(s)
    ensures var t := Next(s, ProduceMany(wanted));
      && 0 <= TrueRoom(s)
      && t.prod.Reserved() == s.prod.Reserved() + Min(wanted, TrueRoom(s))
      && t.prod.input == s.prod.input && t.mapping == s.mapping && t.cons == s.cons && t.Size() == s.Size()
  {
    ProduceManyExact(s.prod.cursor, wanted, s.prod.Reserved(), s.prod.seenReleased, s.mapping.released);
  }

  lemma ReservesOneIfRoom<T>(s: System<T>)
    requires Inv(s)
    ensures var t := Next(s, Produce);
      && t.prod.Reserved() == s.prod.Reserved() + (if TrueRoom(s) > 0 then 1 else 0)
      && t.prod.input == s.prod.input && t.mapping == s.mapping && t.cons == s.cons && t.Size() == s.Size()
  {
    ProduceExact(s.prod.cursor, s.prod.Reserved(), s.prod.seenReleased, s.mapping.released);
  }

  /** A consumer takes what was wanted or everything published. */
  lemma TakesAllPublished<T>(s: System<T>, wanted: u32)
    requires Inv(s)
    ensures var t := Next(s, ConsumeMany(wanted));
      && 0 <= Waiting(s)
      && t.cons.Taken() == s.cons.Taken() + Min(wanted, Waiting(s))
      && t.cons.output == s.cons.output && t.mapping == s.mapping && t.prod == s.prod
  {
    ConsumeManyExact(s.cons.cursor, wanted, s.cons.Taken(), s.cons.seenPublished, s.mapping.published);
  }

  lemma TakesOneIfPublished<T>(s: System<T>)
    requires Inv(s)
    ensures var t := Next(s, Consume);
      && t.cons.Taken() == s.cons.Taken() + (if Waiting(s) > 0 then 1 else 0)
      && t.cons.output == s.cons.output && t.mapping == s.mapping && t.prod == s.prod
  {
    ConsumeExact(s.cons.cursor, s.cons.Taken(), s.cons.seenPublished, s.mapping.published);
  }

  // ---------------------------------------------------------------- a whole batch

  function Writes<T>(items: seq<T>): (r: seq<Step<T>>)
    ensures |r| == |items|
  {
    if items == [] then [] else [Write(items[0])] + Writes(items[1..])
  }

  function Reads<T>(n: nat): (r: seq<Step<T>>)
    ensures |r| == n
  {
    seq(n, _ => Read)
  }

  /** The state a run ends in, when it is a run. */
  ghost predicate LeadsTo<T>(s: System<T>, steps: seq<Step<T>>, t: System<T>)
  {
    IsRun(s, steps) && Exec(s, steps) == t
  }

  lemma {:induction false} LeadsOn<T>(s: System<T>, a: seq<Step<T>>, t: System<T>, b: seq<Step<T>>, u: System<T>)
    requires LeadsTo(s, a, t) && LeadsTo(t, b, u)
    ensures LeadsTo(s, a + b, u)
    decreases |a|
  {
    if a == [] {
      assert a + b == b;
    } else {
      LeadsOn(Next(s, a[0]), a[1..], t, b, u);
      assert (a + b)[0] == a[0] && (a + b)[1..] == a[1..] + b;
    }
  }

  lemma LeadsNowhere<T>(s: System<T>)
    ensures LeadsTo(s, [], s)
  {
  }

  lemma LeadsOne<T>(s: System<T>, step: Step<T>)
    requires Enabled(s, step)
    ensures LeadsTo(s, [step], Next(s, step))
  {
    assert [step][1..] == [];
  }

  /** One write, as far as the counts show it. */
  lemma WriteOne<T>(s: System<T>, item: T)
    requires Inv(s) && s.prod.pending != []
    ensures Enabled(s, Write(item))
    ensures var t := Next(s, Write(item));
      && Inv(t) && t.prod.input == s.prod.input + [item] && |t.prod.pending| == |s.prod.pending| - 1
      && t.cons == s.cons && t.Size() == s.Size() && t.mapping == s.mapping.(desc := t.mapping.desc)
  {
    WriteKeepsInv(s, item);
  }

  /** One read likewise. */
  lemma ReadOne<T>(s: System<T>)
    requires Inv(s) && s.cons.pending != []
    ensures Enabled(s, Read)
    ensures var t := Next(s, Read);
      && Inv(t) && |t.cons.output| == |s.cons.output| + 1 && |t.cons.pending| == |s.cons.pending| - 1
      && t.prod == s.prod && t.mapping == s.mapping
  {
    ReadKeepsInv(s);
  }

  lemma OutputIsPrefix<T>(s: System<T>)
    requires Inv(s)
    ensures s.cons.output <= s.prod.input
  {
  }

  /** Writing into the reserved slots. */
  lemma {:induction false} WritesAppend<T>(s: System<T>, items: seq<T>) returns (t: System<T>)
    requires Inv(s) && |items| == |s.prod.pending|
    ensures LeadsTo(s, Writes(items), t) && Inv(t)
    ensures t.prod.input == s.prod.input + items && t.prod.pending == [] && t.cons == s.cons && t.Size() == s.Size()
    ensures t.mapping == s.mapping.(desc := t.mapping.desc)
    decreases |items|
  {
    hide Inv, LeadsTo, Next, Enabled;
    if items == [] {
      t := s;
      LeadsNowhere(s);
      assert s.prod.input + items == s.prod.input;
    } else {
      WriteOne(s, items[0]);
      var next := Next(s, Write(items[0]));
      t := WritesAppend(next, items[1..]);
      LeadsOne(s, Write(items[0]));
      LeadsOn(s, [Write(items[0])], next, Writes(items[1..]), t);
      assert s.prod.input + [items[0]] + items[1..] == s.prod.input + items;
    }
  }

  /** Reading the taken slots gives the next of what was written. */
  lemma {:induction false} ReadsAppend<T>(s: System<T>, n: nat) returns (t: System<T>)
    requires Inv(s) && n == |s.cons.pending|
    ensures LeadsTo(s, Reads(n), t) && Inv(t)
    ensures t.prod == s.prod && t.mapping == s.mapping && t.cons.pending == []
    ensures |t.cons.output| == |s.cons.output| + n && t.cons.output <= s.prod.input
    decreases n
  {
    hide Inv, LeadsTo, Next, Enabled;
    if n == 0 {
      t := s;
      LeadsNowhere(s);
      OutputIsPrefix(s);
    } else {
      ReadOne(s);
      var next := Next(s, Read);
      t := ReadsAppend(next, n - 1);
      LeadsOne(s, Read);
      LeadsOn(s, [Read], next, Reads(n - 1), t);
      assert Reads<T>(n) == [Read] + Reads<T>(n - 1);
    }
  }

  /** One batch through the ring. */
  function Batch<T>(items: seq<T>): seq<Step<T>>
    requires |items| < WORD
  {
    [ProduceMany(|items|)] + Writes(items) + [Commit] + [ConsumeMany(|items|)] + Reads(|items|) + [Release]
  }

  /** Everything written was read and its room released. */
  predicate Drained<T>(s: System<T>)
  {
    s.prod.pending == [] && s.cons.pending == [] && s.mapping.released == |s.cons.output| == |s.prod.input|
  }

  lemma ProduceManyKeepsInv<T>(s: System<T>, n: u32)
    requires Inv(s)
    ensures Inv(Next(s, ProduceMany(n)))
  {
    StepKeepsInv(s, ProduceMany(n));
  }

  /** The producer's half. */
  lemma Produces<T>(s: System<T>, items: seq<T>) returns (t: System<T>)
    requires Inv(s) && s.prod.pending == [] && |items| <= TrueRoom(s) && |items| < WORD
    ensures LeadsTo(s, [ProduceMany(|items|)] + Writes(items), t) && Inv(t)
    ensures t.prod.input == s.prod.input + items && t.prod.pending == [] && t.cons == s.cons && t.Size() == s.Size()
  {
    hide Inv, LeadsTo;
    var n := |items|;
    var s1 := Next(s, ProduceMany(n));
    ReservesTrueRoom(s, n);
    ProduceManyKeepsInv(s, n);
    LeadsOne(s, ProduceMany(n));
    t := WritesAppend(s1, items);
    LeadsOn(s, [ProduceMany(n)], s1, Writes(items), t);
  }

  /** The consumer's half. */
  lemma Consumes<T>(s: System<T>, n: u32) returns (t: System<T>)
    requires Inv(s) && s.prod.pending == [] && s.cons.pending == [] && |s.prod.input| == |s.cons.output| + n
    ensures LeadsTo(s, [Commit] + [ConsumeMany(n)] + Reads(n) + [Release], t) && Inv(t)
    ensures Drained(t) && t.cons.output == s.prod.input && t.Size() == s.Size()
  {
    hide Inv, LeadsTo;
    var s1 := Next(s, Commit);
    StepKeepsInv(s, Commit);
    LeadsOne(s, Commit);
    var s2 := Next(s1, ConsumeMany(n));
    TakesAllPublished(s1, n);
    StepKeepsInv(s1, ConsumeMany(n));
    LeadsOne(s1, ConsumeMany(n));
    LeadsOn(s, [Commit], s1, [ConsumeMany(n)], s2);
    var s3 := ReadsAppend(s2, n);
    LeadsOn(s, [Commit] + [ConsumeMany(n)], s2, Reads(n), s3);
    t := Next(s3, Release);
    StepKeepsInv(s3, Release);
    LeadsOne(s3, Release);
    LeadsOn(s, [Commit] + [ConsumeMany(n)] + Reads(n), s3, [Release], t);
  }

  /** With the ring drained, any batch that fits its size is delivered whole and in order, and
      the ring is drained again. */
  lemma BatchDelivered<T>(s: System<T>, items: seq<T>) returns (t: System<T>)
    requires Inv(s) && Drained(s) && |items| <= s.Size()
    ensures LeadsTo(s, Batch(items), t) && Inv(t) && Drained(t) && t.Size() == s.Size()
    ensures t.cons.output == s.cons.output + items
  {
    assert s.cons.output == s.prod.input;
    hide Inv, LeadsTo;
    var n := |items|;
    var s2 := Produces(s, items);
    t := Consumes(s2, n);
    var rest := [Commit] + [ConsumeMany(n)] + Reads(n) + [Release];
    LeadsOn(s, [ProduceMany(n)] + Writes(items), s2, rest, t);
    assert [ProduceMany(n)] + Writes(items) + rest == Batch(items);
  }

  function Batches<T>(batches: seq<seq<T>>): seq<Step<T>>
    requires forall k :: 0 <= k < |batches| ==> |batches[k]| < WORD
  {
    if batches == [] then [] else Batch(batches[0]) + Batches(batches[1..])
  }

  function Concat<T>(batches: seq<seq<T>>): seq<T>
  {
    if batches == [] then [] else batches[0] + Concat(batches[1..])
  }

  lemma {:induction false} BatchesFrom<T>(s: System<T>, batches: seq<seq<T>>) returns (t: System<T>)
    requires Inv(s) && Drained(s) && forall k :: 0 <= k < |batches| ==> |batches[k]| <= s.Size()
    ensures LeadsTo(s, Batches(batches), t) && t.cons.output == s.cons.output + Concat(batches)
    decreases |batches|
  {
    hide Inv, LeadsTo, Drained, Batch;
    if batches == [] {
      t := s;
      LeadsNowhere(s);
    } else {
      var next := BatchDelivered(s, batches[0]);
      t := BatchesFrom(next, batches[1..]);
      LeadsOn(s, Batch(batches[0]), next, Batches(batches[1..]), t);
      assert s.cons.output + batches[0] + Concat(batches[1..]) == s.cons.output + Concat(batches);
    }
  }

  /** From a fresh ring any number of batches, each no larger than the ring, arrives whole and
      in order, however often the index words wrap. */
  lemma BatchesDelivered<T>(s: System<T>, batches: seq<seq<T>>)
    requires Init(s) && forall k :: 0 <= k < |batches| ==> |batches[k]| <= s.Size()
    ensures IsRun(s, Batches(batches)) && Exec(s, Batches(batches)).cons.output == Concat(batches)
  {
    var t := BatchesFrom(s, batches);
    assert s.cons.output + Concat(batches) == Concat(batches);
  }
}
