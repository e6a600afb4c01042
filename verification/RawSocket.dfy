/** Batch operations of the raw AF_XDP socket: descriptors copied between slices
    and ring slots in contiguous chunks, clipped at the ring boundary. */
module RawSocket {
  import opened Bits
  import opened Wrappers
  import opened Ring
  import opened RingProtocol
  import opened RingDelivery

  // ---------------------------------------------------------------- element-by-element copies

  /** Writes `src` one descriptor at a time, each to the slot of the next index. */
  function WriteAll<T>(desc: seq<T>, start: nat, src: seq<T>): (r: seq<T>)
    requires IsPow2(|desc|)
    ensures |r| == |desc|
    decreases |src|
  {
    if src == [] then desc
    else WriteAll(desc[Slot(AsWord(start), |desc|) := src[0]], start + 1, src[1..])
  }

  /** Reads `count` descriptors one at a time, each from the slot of the next index. */
  function ReadAll<T>(desc: seq<T>, start: nat, count: nat): (r: seq<T>)
    requires IsPow2(|desc|)
    ensures |r| == count
    decreases count
  {
    if count == 0 then [] else [desc[Slot(AsWord(start), |desc|)]] + ReadAll(desc, start + 1, count - 1)
  }

  lemma {:induction false} WriteAllAppend<T>(desc: seq<T>, start: nat, a: seq<T>, b: seq<T>)
    requires IsPow2(|desc|)
    ensures WriteAll(desc, start, a + b) == WriteAll(WriteAll(desc, start, a), start + |a|, b)
    decreases |a|
  {
    if a == [] {
      assert a + b == b;
    } else {
      assert (a + b)[0] == a[0] && (a + b)[1..] == a[1..] + b;
      WriteAllAppend(desc[Slot(AsWord(start), |desc|) := a[0]], start + 1, a[1..], b);
    }
  }

  lemma {:induction false} ReadAllAppend<T>(desc: seq<T>, start: nat, a: nat, b: nat)
    requires IsPow2(|desc|)
    ensures ReadAll(desc, start, a + b) == ReadAll(desc, start, a) + ReadAll(desc, start + a, b)
    decreases a
  {
    if a > 0 { ReadAllAppend(desc, start + 1, a - 1, b); }
  }

  /** The slot after slot `i` is `i + 1`, until the ring boundary. */
  lemma NextSlot(n: nat, size: nat)
    requires IsPow2(size) && size <= WORD
    requires Slot(AsWord(n), size) + 1 < size
    ensures Slot(AsWord(n + 1), size) == Slot(AsWord(n), size) + 1
  {
    SlotOfWord(n, size);
    SlotOfWord(n + 1, size);
    AndSizeMask(n, size);
    AndSizeMask(n + 1, size);
    ModSucc(n, size);
  }

  /** A run of writes that stays inside the ring is one contiguous block. */
  lemma {:induction false} WriteAllContiguous<T>(desc: seq<T>, start: nat, src: seq<T>)
    requires IsPow2(|desc|) && |desc| <= WORD
    requires Slot(AsWord(start), |desc|) + |src| <= |desc|
    ensures var i := Slot(AsWord(start), |desc|); WriteAll(desc, start, src) == desc[..i] + src + desc[i + |src|..]
    decreases |src|
  {
    var i := Slot(AsWord(start), |desc|);
    if src == [] {
    } else if |src| == 1 {
      assert WriteAll(desc, start, src) == desc[i := src[0]];
    } else {
      NextSlot(start, |desc|);
      WriteAllContiguous(desc[i := src[0]], start + 1, src[1..]);
    }
  }

  lemma {:induction false} ReadAllContiguous<T>(desc: seq<T>, start: nat, count: nat)
    requires IsPow2(|desc|) && |desc| <= WORD
    requires Slot(AsWord(start), |desc|) + count <= |desc|
    ensures var i := Slot(AsWord(start), |desc|); ReadAll(desc, start, count) == desc[i..i + count]
    decreases count
  {
    var i := Slot(AsWord(start), |desc|);
    if count == 0 {
    } else if count == 1 {
      assert ReadAll(desc, start, count) == [desc[i]] + [];
    } else {
      NextSlot(start, |desc|);
      ReadAllContiguous(desc, start + 1, count - 1);
      assert desc[i..i + count] == [desc[i]] + desc[i + 1..i + count];
    }
  }

  // ---------------------------------------------------------------- chunked copies

  /** Copies `src` into the ring chunk by chunk; the effect is that of writing it
      descriptor by descriptor, whatever the start index and however often the
      range passes the ring boundary or the 32-bit limit. */
  method CopySliceToRing<T>(ring: array<T>, size: u32, start: u32, src: seq<T>)
    requires IsPow2(size) && ring.Length == size
    modifies ring
    ensures ring[..] == WriteAll(old(ring[..]), start, src)
  {
    var copied := 0;
    while copied < |src|
      invariant 0 <= copied <= |src|
      invariant ring[..] == WriteAll(old(ring[..]), start, src[..copied])
    {
      ghost var before := ring[..];
      var ringIndex := And(WrappingAdd(start, AsWord(copied)), size - 1);
      ChunkStart(start, copied, size);
      var chunk := Min(|src| - copied, size - ringIndex);
      CopyNonoverlapping(ring, ringIndex, src[copied..copied + chunk]);
      WriteChunk(old(ring[..]), start, src, copied, chunk);
      copied := copied + chunk;
    }
    assert src[..copied] == src;
  }

  /** One more contiguous chunk of the element-by-element write. */
  lemma WriteChunk<T>(desc: seq<T>, start: nat, src: seq<T>, copied: nat, chunk: nat)
    requires IsPow2(|desc|) && |desc| <= WORD && copied + chunk <= |src|
    requires Slot(AsWord(start + copied), |desc|) + chunk <= |desc|
    ensures var before := WriteAll(desc, start, src[..copied]);
      var i := Slot(AsWord(start + copied), |desc|);
      WriteAll(desc, start, src[..copied + chunk]) == before[..i] + src[copied..copied + chunk] + before[i + chunk..]
  {
    var piece := src[copied..copied + chunk];
    assert src[..copied + chunk] == src[..copied] + piece;
    WriteAllAppend(desc, start, src[..copied], piece);
    WriteAllContiguous(WriteAll(desc, start, src[..copied]), start + copied, piece);
  }

  lemma ReadChunk<T>(desc: seq<T>, start: nat, copied: nat, chunk: nat)
    requires IsPow2(|desc|) && |desc| <= WORD
    requires Slot(AsWord(start + copied), |desc|) + chunk <= |desc|
    ensures var i := Slot(AsWord(start + copied), |desc|);
      ReadAll(desc, start, copied + chunk) == ReadAll(desc, start, copied) + desc[i..i + chunk]
  {
    ReadAllContiguous(desc, start + copied, chunk);
    ReadAllAppend(desc, start, copied, chunk);
  }

  lemma ChunkStart(start: u32, copied: nat, size: nat)
    requires IsPow2(size) && size <= WORD
    ensures And(WrappingAdd(start, AsWord(copied)), size - 1) == Slot(AsWord(start + copied), size) < size
  {
    WrappedSum(start, copied);
  }

  lemma WrappedSum(start: u32, copied: nat)
    ensures WrappingAdd(start, AsWord(copied)) == AsWord(start + copied)
  {
    WordAdvance(copied, start);
  }

  /** `ptr::copy_nonoverlapping` into the ring at `offset`. */
  method CopyNonoverlapping<T>(ring: array<T>, offset: nat, src: seq<T>)
    requires offset + |src| <= ring.Length
    modifies ring
    ensures ring[..] == old(ring[..offset]) + src + old(ring[offset + |src|..])
  {
    forall k | 0 <= k < |src| {
      ring[offset + k] := src[k];
    }
  }

  method CopyRingToVec<T>(ring: array<T>, size: u32, range: RingRange, out: seq<T>) returns (r: seq<T>)
    requires IsPow2(size) && ring.Length == size
    ensures r == out + ReadAll(ring[..], range.start, range.count)
  {
    assert ReadAll(ring[..], range.start, 0) == [];
    hide And, AsWord, WrappingAdd, ReadAll, IsPow2;
    r := out;
    var copied := 0;
    while copied < range.count
      invariant 0 <= copied <= range.count
      invariant r == out + ReadAll(ring[..], range.start, copied)
    {
      var ringIndex := And(WrappingAdd(range.start, AsWord(copied)), size - 1);
      ChunkStart(range.start, copied, size);
      var chunk := Min(range.count - copied, size - ringIndex);
      ReadChunk(ring[..], range.start, copied, chunk);
      assert ring[..][ringIndex..ringIndex + chunk] == ring[ringIndex..ringIndex + chunk];
      r := r + ring[ringIndex..ringIndex + chunk];
      copied := copied + chunk;
    }
  }

  // ---------------------------------------------------------------- ring halves

  lemma Advance(a: u32, b: u32, count: u32)
    ensures WrappingSub(a, b) + count < WORD ==> WrappingSub(WrappingAdd(a, count), b) == WrappingSub(a, b) + count
    ensures WrappingAdd(a, 0) == a
  {
  }

  lemma Difference(a: u32, b: u32)
    ensures b <= a ==> WrappingSub(a, b) == a - b
  {
  }

  /** Reserving keeps the cursor within the ring and takes what the room allows. */
  lemma Reserved(c: ProducerCursor, consumer: u32, wanted: u32)
    requires c.InFlight() <= c.size && WrappingSub(c.cachedProducer, consumer) <= c.InFlight()
    ensures var (c', range) := c.ProduceMany(wanted, consumer);
      && c'.size == c.size && c'.InFlight() <= c.size && WrappingSub(c'.cachedProducer, consumer) <= c'.InFlight()
      && range.count <= wanted && c'.cachedProducer == WrappingAdd(c.cachedProducer, range.count)
      && (range.count > 0 ==> range.start == c.cachedProducer)
      && range.count == if wanted <= c.Available() then wanted
         else Min(wanted, c.size - WrappingSub(c.cachedProducer, consumer))
  {
    hide WrappingSub, WrappingAdd;
    var (c', range) := c.ProduceMany(wanted, consumer);
    Difference(c.size, c.InFlight());
    Difference(c.size, WrappingSub(c.cachedProducer, consumer));
    Advance(c.cachedProducer, c'.cachedConsumer, range.count);
    Advance(c.cachedProducer, consumer, range.count);
  }

  lemma NothingWritten<T>(desc: seq<T>, start: nat)
    requires IsPow2(|desc|)
    ensures WriteAll(desc, start, []) == desc
  {
  }

  /** One userspace-produced ring (FILL or TX): cursor, index words, slots. */
  class ProducerRing<T> {
    const prod: RingProducer
    const desc: array<T>

    ghost predicate Valid()
      reads this, prod, prod.words
    {
      && IsPow2(prod.size) && desc.Length == prod.size
      && prod.Cursor().InFlight() <= prod.size
      && WrappingSub(prod.cachedProducer, prod.words.consumer) <= prod.Cursor().InFlight()
    }

    constructor (prod: RingProducer, desc: array<T>)
      requires IsPow2(prod.size) && desc.Length == prod.size
      requires prod.Cursor() == ProducerCursor(0, 0, prod.size) && prod.words.consumer == 0
      ensures this.prod == prod && this.desc == desc && Valid()
    {
      this.prod, this.desc := prod, desc;
    }

    /** Room after looking at the kernel's consumer index. */
    ghost function Room(): nat
      reads this, prod, prod.words
      requires Valid()
    {
      prod.size - WrappingSub(prod.cachedProducer, prod.words.consumer)
    }

    /** Free TX slots after refreshing the cursor: exactly the room in the ring. */
    method TxAvailable() returns (n: u32)
      requires Valid()
      modifies prod
      ensures Valid() && n == Room() == prod.Cursor().Available()
      ensures prod.cachedProducer == old(prod.cachedProducer)
    {
      prod.Sync(false);
      n := prod.Available();
    }

    /** Stages a batch: the longest prefix the ring has room for, copied to the
        slots of the next indexes and not yet published.  A batch no larger than the
        room already seen is staged whole. */
    method EnqueueBatch(items: seq<T>) returns (staged: nat)
      requires Valid()
      modifies prod, desc
      ensures Valid()
      ensures staged <= Min(|items|, WORD - 1)
      ensures |items| <= old(prod.Cursor().Available()) ==> staged == |items|
      ensures |items| > old(prod.Cursor().Available()) ==> staged == Min(|items|, old(Room()))
      ensures desc[..] == WriteAll(old(desc[..]), old(prod.cachedProducer), items[..staged])
      ensures prod.cachedProducer == WrappingAdd(old(prod.cachedProducer), staged)
    {
      NothingWritten(desc[..], prod.cachedProducer);
      hide And, AsWord, WriteAll, IsPow2, WrappingSub, WrappingAdd, ProducerCursor.ProduceMany;
      var wanted := Min(|items|, WORD - 1);
      Reserved(prod.Cursor(), prod.words.consumer, wanted);
      var range := prod.ProduceMany(wanted);
      if range.count == 0 {
        assert items[..0] == [];
        return 0;
      }
      staged := range.count;
      CopySliceToRing(desc, prod.size, range.start, items[..staged]);
    }

    method Commit()
      requires Valid()
      modifies prod.words`producer
      ensures Valid() && prod.words.producer == prod.cachedProducer
    {
      prod.Commit();
    }

    /** FILL replenish: refresh, stage as many addresses as fit, publish them. */
    method ReplenishBatch(items: seq<T>) returns (written: nat)
      requires Valid()
      modifies prod, desc, prod.words`producer
      ensures Valid()
      ensures written == Min(|items|, old(Room()))
      ensures desc[..] == WriteAll(old(desc[..]), old(prod.cachedProducer), items[..written])
      ensures prod.cachedProducer == WrappingAdd(old(prod.cachedProducer), written)
      ensures prod.words.producer == if written > 0 then prod.cachedProducer else old(prod.words.producer)
    {
      prod.Sync(false);
      written := EnqueueBatch(items);
      if written > 0 {
        Commit();
      }
    }
  }

  /** One kernel-produced ring (RX or COMPLETION). */
  class ConsumerRing<T> {
    const cons: RingConsumer
    const desc: array<T>

    ghost predicate Valid()
      reads this, cons, cons.words
    {
      IsPow2(desc.Length) && desc.Length < WORD
    }

    constructor (cons: RingConsumer, desc: array<T>)
      requires IsPow2(desc.Length) && desc.Length < WORD
      ensures this.cons == cons && this.desc == desc && Valid()
    {
      this.cons, this.desc := cons, desc;
    }

    /** Drains up to `max` entries, no more than the spare capacity of `out`: the
        oldest published ones, in order, appended to `out` and released. */
    method Drain(out: seq<T>, spare: nat, max: nat) returns (r: seq<T>, drained: nat)
      requires Valid()
      modifies cons, cons.words`consumer
      ensures Valid()
      ensures drained == Min(Min(max, spare), WrappingSub(cons.words.producer, old(cons.cachedConsumer)))
      ensures r == out + ReadAll(desc[..], old(cons.cachedConsumer), drained)
      ensures cons.cachedConsumer == WrappingAdd(old(cons.cachedConsumer), drained)
      ensures cons.words.consumer == if drained > 0 then cons.cachedConsumer else old(cons.words.consumer)
    {
      cons.Sync();
      var wanted := Min(Min(max, spare), WORD - 1);
      var range := cons.ConsumeMany(wanted);
      drained := range.count;
      r := out;
      if drained > 0 {
        r := CopyRingToVec(desc, desc.Length, range, out);
        cons.Release();
      }
    }

    /** Drains up to `max` entries as the two contiguous slices that back them: the
        second is empty unless the range passes the ring boundary, and together they
        are the entries in ring order. */
    method DrainSlices(max: nat) returns (first: seq<T>, second: seq<T>, completed: nat)
      requires Valid()
      requires WrappingSub(cons.words.producer, cons.cachedConsumer) <= desc.Length
      modifies cons, cons.words`consumer
      ensures Valid()
      ensures completed == Min(max, WrappingSub(cons.words.producer, old(cons.cachedConsumer)))
      ensures first + second == ReadAll(desc[..], old(cons.cachedConsumer), completed)
      ensures second != [] ==> Slot(old(cons.cachedConsumer), desc.Length) + completed > desc.Length
      ensures cons.cachedConsumer == WrappingAdd(old(cons.cachedConsumer), completed)
      ensures cons.words.consumer == if completed > 0 then cons.cachedConsumer else old(cons.words.consumer)
    {
      cons.Sync();
      var range := cons.ConsumeMany(Min(max, WORD - 1));
      completed := range.count;
      if completed == 0 {
        first, second := [], [];
        return;
      }
      first, second := RangeSlices(desc, range);
      cons.Release();
    }
  }

  /** The two contiguous slices behind a reserved range. */
  method RangeSlices<T>(desc: array<T>, range: RingRange) returns (first: seq<T>, second: seq<T>)
    requires IsPow2(desc.Length) && desc.Length < WORD && range.count <= desc.Length
    ensures first + second == ReadAll(desc[..], range.start, range.count)
    ensures second != [] ==> Slot(range.start, desc.Length) + range.count > desc.Length
  {
    var cap := desc.Length;
    var start := And(range.start, cap - 1);
    SliceStart(range.start, cap);
    var firstLen := Min(cap - start, range.count);
    first := desc[start..start + firstLen];
    var secondLen := range.count - firstLen;
    second := if secondLen > 0 then desc[..secondLen] else [];
    SlicesAreReads(desc[..], range.start, firstLen, secondLen);
  }

  lemma SliceStart(start: u32, cap: nat)
    requires IsPow2(cap) && cap <= WORD
    ensures And(start, cap - 1) == Slot(AsWord(start), cap) == Slot(start, cap) < cap
  {
  }

  /** The head slice up to the boundary and the tail slice from slot 0. */
  lemma SlicesAreReads<T>(desc: seq<T>, start: u32, firstLen: nat, secondLen: nat)
    requires IsPow2(|desc|) && |desc| <= WORD
    requires Slot(start, |desc|) + firstLen <= |desc| && secondLen <= |desc|
    requires secondLen > 0 ==> Slot(start, |desc|) + firstLen == |desc|
    ensures desc[Slot(start, |desc|)..Slot(start, |desc|) + firstLen] + desc[..secondLen]
         == ReadAll(desc, start, firstLen + secondLen)
  {
    SliceStart(start, |desc|);
    hide ReadAll, And, IsPow2, AsWord, Slot;
    ReadAllAppend(desc, start, firstLen, secondLen);
    ReadAllContiguous(desc, start, firstLen);
    if secondLen > 0 {
      SecondSlice(desc, start, firstLen, secondLen);
    } else {
      NoSlice(desc, start + firstLen);
    }
  }

  lemma SecondSlice<T>(desc: seq<T>, start: u32, firstLen: nat, secondLen: nat)
    requires IsPow2(|desc|) && |desc| <= WORD && secondLen <= |desc| && Slot(start, |desc|) + firstLen == |desc|
    ensures ReadAll(desc, start + firstLen, secondLen) == desc[..secondLen]
  {
    hide ReadAll, And, IsPow2, AsWord, Slot;
    BoundarySlot(start, firstLen, |desc|);
    ReadAllContiguous(desc, start + firstLen, secondLen);
  }

  lemma NoSlice<T>(desc: seq<T>, start: nat)
    requires IsPow2(|desc|)
    ensures ReadAll(desc, start, 0) == desc[..0]
  {
  }

  lemma BoundarySlot(start: nat, count: nat, size: nat)
    requires IsPow2(size) && size <= WORD && Slot(start, size) + count == size
    ensures Slot(AsWord(start + count), size) == 0
  {
    SlotOfWord(start + count, size);
    AndSizeMask(start, size);
    AndSizeMask(start + count, size);
    ModBoundary(start, count, size);
  }

  // ---------------------------------------------------------------- link to the protocol

  lemma WriteStepEffect<T>(s: System<T>, item: T)
    requires Inv(s) && s.prod.pending != []
    ensures Enabled(s, Write(item))
    ensures var s' := Next(s, Write(item));
      && Inv(s')
      && |s'.prod.pending| == |s.prod.pending| - 1
      && s'.prod.input == s.prod.input + [item]
      && s'.mapping.desc == s.mapping.desc[Slot(AsWord(|s.prod.input|), |s.mapping.desc|) := item]
  {
    WriteKeepsInv(s, item);
    assert s.prod.pending[0] == AsWord(|s.prod.input| + 0);
  }

  /** A batch copy is a run of single-slot write steps of the ring protocol. */
  lemma {:induction false} BatchCopyIsWriteSteps<T>(s: System<T>, items: seq<T>)
    requires Inv(s) && |items| <= |s.prod.pending|
    ensures IsRun(s, Writes(items))
    ensures Exec(s, Writes(items)).mapping.desc == WriteAll(s.mapping.desc, |s.prod.input|, items)
    ensures Exec(s, Writes(items)).prod.input == s.prod.input + items
    decreases |items|
  {
    hide Inv, Next, Enabled;
    if items == [] {
    } else {
      WriteStepEffect(s, items[0]);
      var s' := Next(s, Write(items[0]));
      BatchCopyIsWriteSteps(s', items[1..]);
      var steps := Writes(items);
      assert steps[0] == Write(items[0]) && steps[1..] == Writes(items[1..]);
      assert s.prod.input + items == s'.prod.input + items[1..];
    }
  }

  /** Reading from a wrapped index is reading from the count behind it. */
  lemma {:induction false} ReadAllFromWord<T>(desc: seq<T>, at: nat, n: nat)
    requires IsPow2(|desc|)
    ensures ReadAll(desc, AsWord(at), n) == ReadAll(desc, at, n)
    decreases n
  {
    hide IsPow2, Slot;
    ReadAllCongruent(desc, AsWord(at), at, n);
  }

  lemma {:induction false} ReadAllCongruent<T>(desc: seq<T>, a: nat, b: nat, n: nat)
    requires IsPow2(|desc|) && AsWord(a) == AsWord(b)
    ensures ReadAll(desc, a, n) == ReadAll(desc, b, n)
    decreases n
  {
    hide IsPow2, Slot, AsWord;
    if n > 0 {
      NextWord(a, b);
      ReadAllCongruent(desc, a + 1, b + 1, n - 1);
    }
  }

  lemma NextWord(a: nat, b: nat)
    requires AsWord(a) == AsWord(b)
    ensures AsWord(a + 1) == AsWord(b + 1)
  {
    WordAdvance(a, 1);
    WordAdvance(b, 1);
  }

  /** A written, not yet released entry is read from the slot of its wrapped index. */
  lemma SlotHoldsInput<T>(s: System<T>, at: nat)
    requires Inv(s) && s.mapping.released <= at < |s.prod.input|
    ensures IsPow2(|s.mapping.desc|) && s.mapping.desc[Slot(AsWord(at), |s.mapping.desc|)] == s.prod.input[at]
  {
    SlotOfWord(at, |s.mapping.desc|);
  }

  lemma RingIsPow2<T>(s: System<T>)
    requires Inv(s)
    ensures IsPow2(|s.mapping.desc|)
  {
  }

  /** A batch read of written, not yet released entries gives the producer's input, in order. */
  lemma {:induction false} BatchReadIsInput<T>(s: System<T>, at: nat, n: nat)
    requires Inv(s) && s.mapping.released <= at && at + n <= |s.prod.input|
    ensures IsPow2(|s.mapping.desc|) && ReadAll(s.mapping.desc, AsWord(at), n) == s.prod.input[at..at + n]
    decreases n
  {
    hide IsPow2, Inv, Slot, AsWord, ReadAll;
    RingIsPow2(s);
    var desc, input := s.mapping.desc, s.prod.input;
    ReadAllFromWord(desc, at, n);
    ReadAllHead(desc, at, n);
    if n > 0 {
      ReadAllFromWord(desc, at + 1, n - 1);
      BatchReadIsInput(s, at + 1, n - 1);
      SlotHoldsInput(s, at);
      assert input[at..at + n] == [input[at]] + input[at + 1..at + n];
    }
  }

  lemma ReadAllHead<T>(desc: seq<T>, start: nat, n: nat)
    requires IsPow2(|desc|)
    ensures ReadAll(desc, start, n)
         == if n == 0 then [] else [desc[Slot(AsWord(start), |desc|)]] + ReadAll(desc, start + 1, n - 1)
  {
    hide IsPow2, Slot, AsWord;
  }
}
