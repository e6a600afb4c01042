/** The ring protocol as a transition system: one producer and one consumer over
    the same index words and descriptor slots, interleaved step by step.  Cursors
    and words are 32 bits wide and wrap; the unbounded counts and the two
    histories `input` and `output` only record what happened. */
module RingProtocol {
  import opened Bits
  import opened Wrappers
  import opened Ring

  /** The producer's cursor, the reserved indexes it still has to write, and
      everything it has written so far. */
  datatype ProducerSide<T> = ProducerSide(cursor: ProducerCursor, pending: seq<u32>, input: seq<T>, seenReleased: nat)
  {
    function Reserved(): nat { |input| + |pending| }
  }

  /** The consumer's cursor, the taken indexes it still has to read, and
      everything it has read so far. */
  datatype ConsumerSide<T> = ConsumerSide(cursor: ConsumerCursor, pending: seq<u32>, output: seq<T>, seenPublished: nat)
  {
    function Taken(): nat { |output| + |pending| }
  }

  /** The shared mapping: two index words (with the counts behind them) and the slots. */
  datatype Mapping<T> = Mapping(producerWord: u32, published: nat, consumerWord: u32, released: nat, desc: seq<T>)

  datatype System<T> = System(mapping: Mapping<T>, prod: ProducerSide<T>, cons: ConsumerSide<T>)
  {
    function Size(): nat { prod.cursor.size }
  }

  datatype Step<T> =
    | ProducerSync(loadProducer: bool)
    | Produce
    | ProduceMany(wanted: u32)
    | Write(item: T)
    | Commit
    | ConsumerSync
    | Consume
    | ConsumeMany(want: u32)
    | Read
    | Release

  /** The order each side keeps: write every reserved slot before committing, read
      every taken slot before releasing.  The two sides are otherwise free. */
  predicate Enabled<T>(s: System<T>, step: Step<T>)
  {
    match step
    case Write(_) => s.prod.pending != [] && SlotsMapped(s)
    case Commit => s.prod.pending == []
    case Read => s.cons.pending != [] && SlotsMapped(s)
    case Release => s.cons.pending == []
    case ProducerSync(_) => s.mapping.published <= |s.prod.input|
    case _ => true
  }

  predicate SlotsMapped<T>(s: System<T>)
  {
    IsPow2(s.Size()) && |s.mapping.desc| == s.Size()
  }

  /** Slot of an index: `index & (size - 1)`. */
  function Slot(index: nat, size: nat): (r: nat)
    requires IsPow2(size)
    ensures r < size
  {
    AndSizeMask(index, size);
    And(index, size - 1)
  }

  function Next<T>(s: System<T>, step: Step<T>): System<T>
    requires Enabled(s, step)
  {
    match step
    case ProducerSync(load) => s.(prod := ProducerSynced(s.prod, s.mapping, load))
    case Produce => s.(prod := Produced(s.prod, s.mapping))
    case ProduceMany(wanted) => s.(prod := ManyProduced(s.prod, s.mapping, wanted))
    case Write(item) =>
      s.(mapping := s.mapping.(desc := s.mapping.desc[Slot(s.prod.pending[0], s.Size()) := item]),
         prod := s.prod.(pending := s.prod.pending[1..], input := s.prod.input + [item]))
    case Commit =>
      s.(mapping := s.mapping.(producerWord := s.prod.cursor.cachedProducer, published := s.prod.Reserved()))
    case ConsumerSync =>
      s.(cons := s.cons.(cursor := s.cons.cursor.Sync(s.mapping.producerWord), seenPublished := s.mapping.published))
    case Consume => s.(cons := Consumed(s.cons, s.mapping))
    case ConsumeMany(wanted) => s.(cons := ManyConsumed(s.cons, s.mapping, wanted))
    case Read =>
      s.(cons := s.cons.(pending := s.cons.pending[1..],
                         output := s.cons.output + [s.mapping.desc[Slot(s.cons.pending[0], s.Size())]]))
    case Release =>
      s.(mapping := s.mapping.(consumerWord := s.cons.cursor.cachedConsumer, released := s.cons.Taken()))
  }

  /** Reloading the producer word forgets everything that was not committed. */
  function ProducerSynced<T>(p: ProducerSide<T>, m: Mapping<T>, load: bool): ProducerSide<T>
    requires m.published <= |p.input|
  {
    ProducerSide(p.cursor.Sync(m.producerWord, m.consumerWord, load),
                 if load then [] else p.pending,
                 if load then p.input[..m.published] else p.input,
                 m.released)
  }

  function Produced<T>(p: ProducerSide<T>, m: Mapping<T>): ProducerSide<T>
  {
    var (c, range) := p.cursor.Produce(m.consumerWord);
    ProducerSide(c, p.pending + Indexes(range), p.input,
                 if p.cursor.InFlight() >= p.cursor.size then m.released else p.seenReleased)
  }

  function ManyProduced<T>(p: ProducerSide<T>, m: Mapping<T>, wanted: u32): ProducerSide<T>
  {
    var (c, range) := p.cursor.ProduceMany(wanted, m.consumerWord);
    ProducerSide(c, p.pending + Indexes(range), p.input,
                 if p.cursor.Available() < wanted then m.released else p.seenReleased)
  }

  function Consumed<T>(c: ConsumerSide<T>, m: Mapping<T>): ConsumerSide<T>
  {
    var (cursor, range) := c.cursor.Consume(m.producerWord);
    ConsumerSide(cursor, c.pending + Indexes(range), c.output,
                 if c.cursor.cachedConsumer == c.cursor.cachedProducer then m.published else c.seenPublished)
  }

  function ManyConsumed<T>(c: ConsumerSide<T>, m: Mapping<T>, wanted: u32): ConsumerSide<T>
  {
    var (cursor, range) := c.cursor.ConsumeMany(wanted, m.producerWord);
    ConsumerSide(cursor, c.pending + Indexes(range), c.output,
                 if c.cursor.Available() < wanted then m.published else c.seenPublished)
  }

  /** A ring as the kernel maps it: zero index words, fresh cursors. */
  ghost predicate Init<T>(s: System<T>)
  {
    && SlotsMapped(s)
    && s.mapping == Mapping(0, 0, 0, 0, s.mapping.desc)
    && s.prod == ProducerSide(ProducerCursor(0, 0, s.prod.cursor.size), [], [], 0)
    && s.cons == ConsumerSide(ConsumerCursor(0, 0), [], [], 0)
  }

  // ---------------------------------------------------------------- invariant

  /** `pending` holds the index words of the counts from `base` on. */
  predicate Consecutive(pending: seq<u32>, base: nat)
  {
    forall k :: 0 <= k < |pending| ==> pending[k] == AsWord(base + k)
  }

  /** Cursor words are the counts modulo the word size, and the producer is at most
      one ring ahead of the consumer position it has seen. */
  predicate ProducerOk<T>(p: ProducerSide<T>)
  {
    && p.cursor.cachedProducer == AsWord(p.Reserved()) && p.cursor.cachedConsumer == AsWord(p.seenReleased)
    && p.seenReleased <= p.Reserved() <= p.seenReleased + p.cursor.size
    && Consecutive(p.pending, |p.input|)
  }

  predicate ConsumerOk<T>(c: ConsumerSide<T>)
  {
    && c.cursor.cachedConsumer == AsWord(c.Taken()) && c.cursor.cachedProducer == AsWord(c.seenPublished)
    && c.Taken() <= c.seenPublished
    && Consecutive(c.pending, |c.output|)
  }

  /** The shared words are what the two sides last stored, and each side lags. */
  predicate MappingOk<T>(s: System<T>)
  {
    && s.mapping.producerWord == AsWord(s.mapping.published) && s.mapping.consumerWord == AsWord(s.mapping.released)
    && s.prod.seenReleased <= s.mapping.released <= |s.cons.output|
    && s.cons.seenPublished <= s.mapping.published <= |s.prod.input|
  }

  /** Every written, not yet released descriptor is intact in its slot. */
  ghost predicate SlotsIntact<T>(desc: seq<T>, released: nat, input: seq<T>)
    requires IsPow2(|desc|)
  {
    forall i :: released <= i < |input| ==> desc[Slot(i, |desc|)] == input[i]
  }

  ghost predicate Inv<T>(s: System<T>)
  {
    && SlotsMapped(s)
    && ProducerOk(s.prod) && ConsumerOk(s.cons) && MappingOk(s)
    && SlotsIntact(s.mapping.desc, s.mapping.released, s.prod.input)
    && s.cons.output <= s.prod.input
  }

  // ---------------------------------------------------------------- preservation

  lemma IndexesAreWords(start: nat, count: u32)
    ensures Indexes(RingRange(AsWord(start), count)) == seq(count, k requires 0 <= k < count => AsWord(start + k))
  {
    forall k | 0 <= k < count
      ensures WrappingAdd(AsWord(start), k) == AsWord(start + k)
    {
      WordAdvance(start, k);
    }
  }

  /** A reservation takes the next indexes, as many as wanted or as the (refreshed)
      room allows. */
  lemma ProduceManyExact(c: ProducerCursor, wanted: u32, reserved: nat, seen: nat, released: nat)
    requires c.cachedProducer == AsWord(reserved) && c.cachedConsumer == AsWord(seen)
    requires seen <= released <= reserved <= seen + c.size
    ensures c.Available() == c.size - (reserved - seen)
    ensures var seen' := if c.Available() < wanted then released else seen;
      var count := Min(wanted, c.size - (reserved - seen'));
      && c.ProduceMany(wanted, AsWord(released)).0 == ProducerCursor(AsWord(reserved + count), AsWord(seen'), c.size)
      && c.ProduceMany(wanted, AsWord(released)).1 == RingRange(if wanted == 0 then 0 else AsWord(reserved), count)
  {
    AvailableIsRoom(c, reserved, seen);
    var seen' := if c.Available() < wanted then released else seen;
    var c1 := c.(cachedConsumer := AsWord(seen'));
    AvailableIsRoom(c1, reserved, seen');
    WordAdvance(reserved, Min(wanted, c.size - (reserved - seen')));
  }

  lemma ProduceExact(c: ProducerCursor, reserved: nat, seen: nat, released: nat)
    requires c.cachedProducer == AsWord(reserved) && c.cachedConsumer == AsWord(seen)
    requires seen <= released <= reserved <= seen + c.size
    ensures c.InFlight() == reserved - seen
    ensures var seen' := if c.InFlight() >= c.size then released else seen;
      var count := if reserved - seen' < c.size then 1 else 0;
      && c.Produce(AsWord(released)).0 == ProducerCursor(AsWord(reserved + count), AsWord(seen'), c.size)
      && c.Produce(AsWord(released)).1 == RingRange(AsWord(reserved), count)
  {
    AvailableIsRoom(c, reserved, seen);
    var seen' := if c.InFlight() >= c.size then released else seen;
    AvailableIsRoom(c.(cachedConsumer := AsWord(seen')), reserved, seen');
    WordAdvance(reserved, 1);
  }

  lemma ConsumeManyExact(c: ConsumerCursor, wanted: u32, taken: nat, seen: nat, published: nat)
    requires c.cachedConsumer == AsWord(taken) && c.cachedProducer == AsWord(seen)
    requires taken <= seen <= published < taken + WORD
    ensures c.Available() == seen - taken
    ensures var seen' := if c.Available() < wanted then published else seen;
      var count := Min(wanted, seen' - taken);
      && c.ConsumeMany(wanted, AsWord(published)).0 == ConsumerCursor(AsWord(seen'), AsWord(taken + count))
      && c.ConsumeMany(wanted, AsWord(published)).1 == RingRange(if wanted == 0 then 0 else AsWord(taken), count)
  {
    WordDistance(seen, taken);
    var seen' := if c.Available() < wanted then published else seen;
    WordDistance(seen', taken);
    WordAdvance(taken, Min(wanted, seen' - taken));
  }

  lemma ConsumeExact(c: ConsumerCursor, taken: nat, seen: nat, published: nat)
    requires c.cachedConsumer == AsWord(taken) && c.cachedProducer == AsWord(seen)
    requires taken <= seen <= published < taken + WORD
    ensures c.cachedConsumer == c.cachedProducer <==> taken == seen
    ensures var seen' := if taken == seen then published else seen;
      var count := if taken < seen' then 1 else 0;
      && c.Consume(AsWord(published)).0 == ConsumerCursor(AsWord(seen'), AsWord(taken + count))
      && c.Consume(AsWord(published)).1 == RingRange(AsWord(taken), count)
  {
    WordDistance(seen, taken);
    WordDistance(published, taken);
    WordAdvance(taken, 1);
  }

  /** Appending the indexes that follow keeps the pending list consecutive. */
  lemma PendingExtends(pending: seq<u32>, base: nat, range: RingRange)
    requires Consecutive(pending, base)
    requires range.count > 0 ==> range.start == AsWord(base + |pending|)
    ensures Consecutive(pending + Indexes(range), base)
  {
    if range.count > 0 {
      IndexesAreWords(base + |pending|, range.count);
    }
  }

  lemma ProduceKeepsOk<T>(p: ProducerSide<T>, m: Mapping<T>)
    requires ProducerOk(p) && m.consumerWord == AsWord(m.released) && p.seenReleased <= m.released <= p.Reserved()
    ensures ProducerOk(Produced(p, m)) && p.seenReleased <= Produced(p, m).seenReleased <= m.released
  {
    ProduceExact(p.cursor, p.Reserved(), p.seenReleased, m.released);
    PendingExtends(p.pending, |p.input|, p.cursor.Produce(m.consumerWord).1);
  }

  lemma ProduceManyKeepsOk<T>(p: ProducerSide<T>, m: Mapping<T>, wanted: u32)
    requires ProducerOk(p) && m.consumerWord == AsWord(m.released) && p.seenReleased <= m.released <= p.Reserved()
    ensures ProducerOk(ManyProduced(p, m, wanted))
    ensures p.seenReleased <= ManyProduced(p, m, wanted).seenReleased <= m.released
  {
    ProduceManyExact(p.cursor, wanted, p.Reserved(), p.seenReleased, m.released);
    PendingExtends(p.pending, |p.input|, p.cursor.ProduceMany(wanted, m.consumerWord).1);
  }

  lemma ConsumeKeepsOk<T>(c: ConsumerSide<T>, m: Mapping<T>)
    requires ConsumerOk(c) && m.producerWord == AsWord(m.published) && c.seenPublished <= m.published < c.Taken() + WORD
    ensures ConsumerOk(Consumed(c, m)) && Consumed(c, m).seenPublished <= m.published
  {
    ConsumeExact(c.cursor, c.Taken(), c.seenPublished, m.published);
    PendingExtends(c.pending, |c.output|, c.cursor.Consume(m.producerWord).1);
  }

  lemma ConsumeManyKeepsOk<T>(c: ConsumerSide<T>, m: Mapping<T>, wanted: u32)
    requires ConsumerOk(c) && m.producerWord == AsWord(m.published) && c.seenPublished <= m.published < c.Taken() + WORD
    ensures ConsumerOk(ManyConsumed(c, m, wanted)) && ManyConsumed(c, m, wanted).seenPublished <= m.published
  {
    ConsumeManyExact(c.cursor, wanted, c.Taken(), c.seenPublished, m.published);
    PendingExtends(c.pending, |c.output|, c.cursor.ConsumeMany(wanted, m.producerWord).1);
  }

  /** A write lands in a slot that holds no unreleased descriptor. */
  lemma WriteHitsFreeSlot<T>(s: System<T>, i: nat)
    requires Inv(s) && s.prod.pending != []
    requires s.mapping.released <= i < |s.prod.input|
    ensures Slot(s.prod.pending[0], s.Size()) == Slot(|s.prod.input|, s.Size()) != Slot(i, s.Size())
  {
    SlotOfWord(|s.prod.input|, s.Size());
    SlotsDiffer(|s.prod.input|, i, s.Size());
  }

  lemma WriteKeepsSlots<T>(s: System<T>, item: T)
    requires Inv(s) && s.prod.pending != []
    ensures var s' := Next(s, Write(item)); SlotsIntact(s'.mapping.desc, s'.mapping.released, s'.prod.input)
  {
    var s' := Next(s, Write(item));
    SlotOfWord(|s.prod.input|, s.Size());
    forall i | s'.mapping.released <= i < |s'.prod.input|
      ensures s'.mapping.desc[Slot(i, s.Size())] == s'.prod.input[i]
    {
      if i < |s.prod.input| { WriteHitsFreeSlot(s, i); }
    }
  }

  /** A read returns the next descriptor the producer wrote. */
  lemma ReadIsNextInput<T>(s: System<T>)
    requires Inv(s) && s.cons.pending != []
    ensures Next(s, Read).cons.output == s.cons.output + [s.prod.input[|s.cons.output|]]
  {
    SlotOfWord(|s.cons.output|, s.Size());
    assert s.mapping.desc[Slot(|s.cons.output|, s.Size())] == s.prod.input[|s.cons.output|];
  }

  lemma WriteKeepsInv<T>(s: System<T>, item: T)
    requires Inv(s) && s.prod.pending != []
    ensures Inv(Next(s, Write(item)))
  {
    WriteKeepsSlots(s, item);
  }

  lemma ReadKeepsInv<T>(s: System<T>)
    requires Inv(s) && s.cons.pending != []
    ensures Inv(Next(s, Read))
  {
    ReadIsNextInput(s);
  }

  /** Syncs and stores of the index words. */
  lemma WordStepKeepsInv<T>(s: System<T>, step: Step<T>)
    requires Inv(s) && Enabled(s, step)
    requires step.ProducerSync? || step.Commit? || step.ConsumerSync? || step.Release?
    ensures Inv(Next(s, step))
  {
  }

  lemma StepKeepsInv<T>(s: System<T>, step: Step<T>)
    requires Inv(s) && Enabled(s, step)
    ensures Inv(Next(s, step))
  {
    match step
    case Produce => ProduceKeepsOk(s.prod, s.mapping);
    case ProduceMany(wanted) => ProduceManyKeepsOk(s.prod, s.mapping, wanted);
    case Consume => ConsumeKeepsOk(s.cons, s.mapping);
    case ConsumeMany(wanted) => ConsumeManyKeepsOk(s.cons, s.mapping, wanted);
    case Write(item) => WriteKeepsInv(s, item);
    case Read => ReadKeepsInv(s);
    case ProducerSync(_) => WordStepKeepsInv(s, step);
    case Commit => WordStepKeepsInv(s, step);
    case ConsumerSync => WordStepKeepsInv(s, step);
    case Release => WordStepKeepsInv(s, step);
  }

  // ---------------------------------------------------------------- whole runs

  predicate IsRun<T>(s: System<T>, steps: seq<Step<T>>)
    decreases |steps|
  {
    steps == [] || (Enabled(s, steps[0]) && IsRun(Next(s, steps[0]), steps[1..]))
  }

  function Exec<T>(s: System<T>, steps: seq<Step<T>>): System<T>
    requires IsRun(s, steps)
    decreases |steps|
  {
    if steps == [] then s else Exec(Next(s, steps[0]), steps[1..])
  }

  lemma {:induction false} RunKeepsInv<T>(s: System<T>, steps: seq<Step<T>>)
    requires Inv(s) && IsRun(s, steps)
    ensures Inv(Exec(s, steps))
    decreases |steps|
  {
    if steps != [] {
      StepKeepsInv(s, steps[0]);
      RunKeepsInv(Next(s, steps[0]), steps[1..]);
    }
  }

  /** For every power-of-two size and every interleaving of the two sides, however
      often the 32-bit indexes wrap: what the consumer has read is a prefix of what
      the producer has published, the ring never holds more than `size` entries, and
      the producer's free-slot count never underflows nor exceeds the true room. */
  lemma RunDeliversInOrder<T>(s: System<T>, steps: seq<Step<T>>)
    requires Init(s) && IsRun(s, steps)
    ensures var e := Exec(s, steps);
      && e.cons.output <= e.prod.input && |e.cons.output| <= e.mapping.published <= |e.prod.input|
      && e.prod.Reserved() - e.mapping.released <= e.Size()
      && e.prod.cursor.Available() == e.Size() - (e.prod.Reserved() - e.prod.seenReleased)
      && e.prod.cursor.Available() <= e.Size() - (e.prod.Reserved() - e.mapping.released)
      && e.cons.cursor.Available() == e.cons.seenPublished - e.cons.Taken()
  {
    RunKeepsInv(s, steps);
    var e := Exec(s, steps);
    AvailableIsRoom(e.prod.cursor, e.prod.Reserved(), e.prod.seenReleased);
    WordDistance(e.cons.seenPublished, e.cons.Taken());
  }

  /** Steps of the consumer side only. */
  predicate ConsumerStep<T>(step: Step<T>)
  {
    step.ConsumerSync? || step.Consume? || step.ConsumeMany? || step.Read? || step.Release?
  }

  /** Room the producer has seen stays usable whatever the consumer does meanwhile:
      a later batch no larger than that room is reserved whole. */
  lemma {:induction false} SeenRoomIsNotLost<T>(s: System<T>, steps: seq<Step<T>>, wanted: u32)
    requires Inv(s) && IsRun(s, steps)
    requires forall k :: 0 <= k < |steps| ==> ConsumerStep(steps[k])
    requires wanted <= s.prod.cursor.Available()
    ensures var e := Exec(s, steps);
      && e.prod == s.prod
      && Next(e, ProduceMany(wanted)).prod.Reserved() == s.prod.Reserved() + wanted
    decreases |steps|
  {
    if steps == [] {
      ProduceManyExact(s.prod.cursor, wanted, s.prod.Reserved(), s.prod.seenReleased, s.mapping.released);
    } else {
      StepKeepsInv(s, steps[0]);
      SeenRoomIsNotLost(Next(s, steps[0]), steps[1..], wanted);
    }
  }
}
