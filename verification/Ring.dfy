/** AF_XDP single-producer single-consumer ring cursors: 32-bit index words that
    wrap, cached copies on each side, and power-of-two slot masks. */
module Ring {
  import opened Bits
  import opened Wrappers

  type u32 = x: int | 0 <= x < 0x1_0000_0000

  function WrappingAdd(a: u32, b: u32): u32 { if a + b < WORD then a + b else a + b - WORD }

  function WrappingSub(a: u32, b: u32): u32 { if a >= b then a - b else a - b + WORD }

  datatype RingRange = RingRange(start: u32, count: u32)

  /** The absolute indexes of a reserved range, in order. */
  function Indexes(range: RingRange): (r: seq<u32>)
  {
    seq(range.count, k requires 0 <= k < range.count => WrappingAdd(range.start, k))
  }

  // ---------------------------------------------------------------- cursor values

  /** Userspace producer cursor state (FILL and TX rings). */
  datatype ProducerCursor = ProducerCursor(cachedProducer: u32, cachedConsumer: u32, size: u32) {

    function InFlight(): u32 { WrappingSub(cachedProducer, cachedConsumer) }

    /** `size - in_flight` in 32-bit arithmetic. */
    function Available(): u32 { WrappingSub(size, InFlight()) }

    function Sync(producer: u32, consumer: u32, loadProducer: bool): ProducerCursor
    {
      this.(cachedProducer := if loadProducer then producer else cachedProducer, cachedConsumer := consumer)
    }

    /** Reserves one index; `count == 0` stands for `None`. */
    function Produce(consumer: u32): (ProducerCursor, RingRange)
    {
      var c := if InFlight() >= size then this.(cachedConsumer := consumer) else this;
      if c.InFlight() >= size then (c, RingRange(c.cachedProducer, 0))
      else (c.(cachedProducer := WrappingAdd(c.cachedProducer, 1)), RingRange(c.cachedProducer, 1))
    }

    function ProduceMany(wanted: u32, consumer: u32): (ProducerCursor, RingRange)
    {
      if wanted == 0 then (this, RingRange(0, 0))
      else
        var c := if Available() < wanted then this.(cachedConsumer := consumer) else this;
        var count := Min(wanted, c.Available());
        (c.(cachedProducer := WrappingAdd(c.cachedProducer, count)), RingRange(c.cachedProducer, count))
    }
  }

  /** Userspace consumer cursor state (RX and COMPLETION rings). */
  datatype ConsumerCursor = ConsumerCursor(cachedProducer: u32, cachedConsumer: u32) {

    function Available(): u32 { WrappingSub(cachedProducer, cachedConsumer) }

    function Sync(producer: u32): ConsumerCursor { this.(cachedProducer := producer) }

    function Consume(producer: u32): (ConsumerCursor, RingRange)
    {
      var c := if cachedConsumer == cachedProducer then this.(cachedProducer := producer) else this;
      if c.cachedConsumer == c.cachedProducer then (c, RingRange(c.cachedConsumer, 0))
      else (c.(cachedConsumer := WrappingAdd(c.cachedConsumer, 1)), RingRange(c.cachedConsumer, 1))
    }

    function ConsumeMany(wanted: u32, producer: u32): (ConsumerCursor, RingRange)
    {
      if wanted == 0 then (this, RingRange(0, 0))
      else
        var c := if Available() < wanted then this.(cachedProducer := producer) else this;
        var count := Min(wanted, c.Available());
        (c.(cachedConsumer := WrappingAdd(c.cachedConsumer, count)), RingRange(c.cachedConsumer, count))
    }
  }

  // ---------------------------------------------------------------- cursor objects

  /** The two index words in the ring mapping shared with the kernel. */
  class RingWords {
    var producer: u32
    var consumer: u32

    constructor ()
      ensures producer == 0 && consumer == 0
    {
      producer, consumer := 0, 0;
    }
  }

  class RingProducer {
    const words: RingWords
    const size: u32
    var cachedProducer: u32
    var cachedConsumer: u32

    ghost function Cursor(): ProducerCursor
      reads this
    {
      ProducerCursor(cachedProducer, cachedConsumer, size)
    }

    constructor (words: RingWords, size: u32)
      ensures this.words == words && this.size == size
      ensures Cursor() == ProducerCursor(0, 0, size)
    {
      this.words, this.size := words, size;
      cachedProducer, cachedConsumer := 0, 0;
    }

    method Sync(loadProducer: bool)
      modifies this
      ensures Cursor() == old(Cursor()).Sync(words.producer, words.consumer, loadProducer)
    {
      if loadProducer {
        cachedProducer := words.producer;
      }
      cachedConsumer := words.consumer;
    }

    method Available() returns (n: u32)
      ensures n == Cursor().Available()
    {
      var inFlight := WrappingSub(cachedProducer, cachedConsumer);
      n := WrappingSub(size, inFlight);
    }

    method Produce() returns (range: RingRange)
      modifies this
      ensures (Cursor(), range) == old(Cursor()).Produce(words.consumer)
    {
      if WrappingSub(cachedProducer, cachedConsumer) >= size {
        Sync(false);
        if WrappingSub(cachedProducer, cachedConsumer) >= size {
          return RingRange(cachedProducer, 0);
        }
      }
      range := RingRange(cachedProducer, 1);
      cachedProducer := WrappingAdd(cachedProducer, 1);
    }

    method ProduceMany(wanted: u32) returns (range: RingRange)
      modifies this
      ensures (Cursor(), range) == old(Cursor()).ProduceMany(wanted, words.consumer)
    {
      if wanted == 0 {
        return RingRange(0, 0);
      }
      var available := Available();
      if available < wanted {
        Sync(false);
        available := Available();
      }
      var count := Min(wanted, available);
      range := RingRange(cachedProducer, count);
      cachedProducer := WrappingAdd(cachedProducer, count);
    }

    method Commit()
      modifies words`producer
      ensures words.producer == cachedProducer
    {
      words.producer := cachedProducer;
    }
  }

  class RingConsumer {
    const words: RingWords
    var cachedProducer: u32
    var cachedConsumer: u32

    ghost function Cursor(): ConsumerCursor
      reads this
    {
      ConsumerCursor(cachedProducer, cachedConsumer)
    }

    constructor (words: RingWords)
      ensures this.words == words
      ensures Cursor() == ConsumerCursor(0, 0)
    {
      this.words := words;
      cachedProducer, cachedConsumer := 0, 0;
    }

    method Sync()
      modifies this
      ensures Cursor() == old(Cursor()).Sync(words.producer)
    {
      cachedProducer := words.producer;
    }

    method Available() returns (n: u32)
      ensures n == Cursor().Available()
    {
      n := WrappingSub(cachedProducer, cachedConsumer);
    }

    method Consume() returns (range: RingRange)
      modifies this
      ensures (Cursor(), range) == old(Cursor()).Consume(words.producer)
    {
      if cachedConsumer == cachedProducer {
        Sync();
        if cachedConsumer == cachedProducer {
          return RingRange(cachedConsumer, 0);
        }
      }
      range := RingRange(cachedConsumer, 1);
      cachedConsumer := WrappingAdd(cachedConsumer, 1);
    }

    method ConsumeMany(wanted: u32) returns (range: RingRange)
      modifies this
      ensures (Cursor(), range) == old(Cursor()).ConsumeMany(wanted, words.producer)
    {
      if wanted == 0 {
        return RingRange(0, 0);
      }
      var available := Available();
      if available < wanted {
        Sync();
        available := Available();
      }
      var count := Min(wanted, available);
      range := RingRange(cachedConsumer, count);
      cachedConsumer := WrappingAdd(cachedConsumer, count);
    }

    method Release()
      modifies words`consumer
      ensures words.consumer == cachedConsumer
    {
      words.consumer := cachedConsumer;
    }
  }

  // ---------------------------------------------------------------- word arithmetic

  /** Subtracting index words gives the true distance as long as it fits a word. */
  lemma WordDistance(a: nat, b: nat)
    requires b <= a < b + WORD
    ensures WrappingSub(AsWord(a), AsWord(b)) == a - b
    ensures AsWord(a) == AsWord(b) <==> a == b
  {
  }

  lemma WordAdvance(a: nat, k: u32)
    ensures WrappingAdd(AsWord(a), k) == AsWord(a + k)
  {
  }

  /** `size - in_flight` does not underflow while the ring holds at most `size` entries. */
  lemma AvailableIsRoom(c: ProducerCursor, reserved: nat, seen: nat)
    requires c.cachedProducer == AsWord(reserved) && c.cachedConsumer == AsWord(seen)
    requires seen <= reserved <= seen + c.size
    ensures c.InFlight() == reserved - seen
    ensures c.Available() == c.size - (reserved - seen)
  {
    WordDistance(reserved, seen);
  }

  /** The slot of a wrapped index word is the slot of the unbounded count. */
  lemma SlotOfWord(n: nat, size: nat)
    requires IsPow2(size) && size <= WORD
    ensures And(AsWord(n), size - 1) == And(n, size - 1)
  {
    hide And, Shr, LowBits, Pow2, IsPow2, AsWord;
    var k := Log2(size);
    LogOfWord(k);
    AndLowMask(AsWord(n), k);
    AndLowMask(n, k);
    WordIsLowBits(n);
    LowBitsLowBits(n, k, 32);
  }

  lemma LogOfWord(k: nat)
    requires Pow2(k) <= WORD
    ensures k <= 32
  {
    if k > 32 {
      WordSizes();
      Pow2Mono(33, k);
      assert false;
    }
  }

  lemma WordIsLowBits(n: nat)
    ensures AsWord(n) == LowBits(n, 32)
  {
    hide Pow2, Shr, LowBits;
    WordSizes();
    ShrIsDiv(n, 32);
  }

  /** Counts less than `size` apart occupy different slots. */
  lemma SlotsDiffer(i: nat, j: nat, size: nat)
    requires IsPow2(size) && j < i < j + size
    ensures And(i, size - 1) != And(j, size - 1)
  {
    AndSizeMask(i, size);
    AndSizeMask(j, size);
    if i % size == j % size {
      QuotientsDiffer(i, j, size);
      assert false;
    }
  }

  lemma QuotientsDiffer(i: nat, j: nat, size: nat)
    requires j < i < j + size
    ensures i % size != j % size
  {
    var qi, qj := i / size, j / size;
    if i % size == j % size {
      assert i - j == (qi - qj) * size;
      if qi - qj >= 1 {
        MulMono(1, qi - qj, size);
      } else {
        MulMono(qi - qj, 0, size);
      }
      assert false;
    }
  }
}
