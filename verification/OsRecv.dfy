/** The Linux receive path: one buffer per message slot, kept in the slot until a
    datagram is delivered in it, so no buffer is lost between calls. */
module OsRecv {
  import opened Wrappers

  datatype Error = Truncated | Kernel(code: int)

  /** What the kernel reports for one message. */
  datatype Message = Message(truncated: bool, sourceOk: bool, len: nat)

  datatype KernelAnswer = Received(messages: seq<Message>) | WouldBlock | Failure(code: int)

  datatype Outcome = Delivered(n: nat) | Failed(error: Error)

  function OneOf<B>(slot: Option<B>): multiset<B> { if slot.Some? then multiset{slot.value} else multiset{} }

  function BuffersIn<B>(slots: seq<Option<B>>): multiset<B>
  {
    if slots == [] then multiset{} else OneOf(slots[0]) + BuffersIn(slots[1..])
  }

  lemma Regroup<B>(a: multiset<B>, b': multiset<B>, p: multiset<B>, b: multiset<B>, q: multiset<B>)
    requires b' + p == b + q
    ensures (a + b') + p == (a + b) + q
  {
    assert (a + b') + p == a + (b' + p);
    assert (a + b) + q == a + (b + q);
  }

  lemma {:induction false} BuffersInUpdate<B>(slots: seq<Option<B>>, i: nat, x: Option<B>)
    requires i < |slots|
    ensures BuffersIn(slots[i := x]) + OneOf(slots[i]) == BuffersIn(slots) + OneOf(x)
    decreases |slots|
  {
    if i == 0 {
      assert slots[0 := x][1..] == slots[1..];
    } else {
      hide OneOf;
      BuffersInUpdate(slots[1..], i - 1, x);
      assert slots[i := x][1..] == slots[1..][i - 1 := x];
      Regroup(OneOf(slots[0]), BuffersIn(slots[1..][i - 1 := x]), OneOf(slots[i]), BuffersIn(slots[1..]), OneOf(x));
    }
  }

  /** A buffer moves from the pool into an empty slot. */
  lemma SlotFilled<B>(slots: seq<Option<B>>, pool: seq<B>, i: nat)
    requires i < |slots| && slots[i].None? && pool != []
    ensures BuffersIn(slots[i := Some(pool[0])]) + multiset(pool[1..]) == BuffersIn(slots) + multiset(pool)
  {
    hide BuffersIn;
    BuffersInUpdate(slots, i, Some(pool[0]));
    assert pool == [pool[0]] + pool[1..];
    assert BuffersIn(slots[i := Some(pool[0])]) == BuffersIn(slots) + multiset{pool[0]};
  }

  /** A buffer leaves its slot. */
  lemma SlotEmptied<B>(slots: seq<Option<B>>, pool: seq<B>, i: nat, out: multiset<B>)
    requires i < |slots| && slots[i].Some?
    ensures (BuffersIn(slots[i := None]) + multiset(pool)) + (out + multiset{slots[i].value})
      == (BuffersIn(slots) + multiset(pool)) + out
  {
    hide BuffersIn;
    BuffersInUpdate(slots, i, None);
    var a, b, x := BuffersIn(slots[i := None]), BuffersIn(slots), multiset{slots[i].value};
    assert (a + multiset(pool)) + (out + x) == (a + x) + multiset(pool) + out;
  }

  /** A message whose datagram is handed to the caller. */
  predicate Good(m: Message) { !m.truncated && m.sourceOk }

  // ---------------------------------------------------------------- which buffer a slot gets

  /** Empty slots among the first `n`. */
  function Empties<B>(slots: seq<Option<B>>, n: nat): (r: nat)
    requires n <= |slots|
    ensures r <= n
  {
    if n == 0 then 0 else Empties(slots, n - 1) + if slots[n - 1].None? then 1 else 0
  }

  /** Slots that end up with a buffer: all that are wanted, or those in front of the
      first empty slot for which the pool has none left. */
  function PreparedCount<B>(slots: seq<Option<B>>, room: nat, wanted: nat): (r: nat)
    requires wanted <= |slots|
    ensures r <= wanted && Empties(slots, r) <= room
    ensures r < wanted ==> slots[r].None? && Empties(slots, r) == room
  {
    if wanted == 0 then 0
    else
      var c := PreparedCount(slots, room, wanted - 1);
      if c == wanted - 1 && (slots[c].Some? || Empties(slots, c) < room) then wanted else c
  }

  lemma {:induction false} EmptiesMono<B>(slots: seq<Option<B>>, i: nat, n: nat)
    requires i < n <= |slots|
    ensures Empties(slots, i) + (if slots[i].None? then 1 else 0) <= Empties(slots, n)
    decreases n
  {
    if i < n - 1 { EmptiesMono(slots, i, n - 1); }
  }

  /** Only one count stops where the pool runs out. */
  lemma PreparedCountUnique<B>(slots: seq<Option<B>>, room: nat, wanted: nat, c: nat)
    requires c <= wanted <= |slots| && Empties(slots, c) <= room
    requires c < wanted ==> slots[c].None? && Empties(slots, c) == room
    ensures c == PreparedCount(slots, room, wanted)
  {
    var r := PreparedCount(slots, room, wanted);
    if c < r { EmptiesMono(slots, c, r); }
    if r < c { EmptiesMono(slots, r, c); }
  }

  /** A slot keeps its buffer; an empty one gets the next of the pool. */
  function SlotBuffer<B>(slots: seq<Option<B>>, pool: seq<B>, i: nat): B
    requires i < |slots| && (slots[i].None? ==> Empties(slots, i) < |pool|)
  {
    if slots[i].Some? then slots[i].value else pool[Empties(slots, i)]
  }

  /** The first `count` slots can be given buffers. */
  ghost predicate CanPrepare<B>(slots: seq<Option<B>>, pool: seq<B>, count: nat)
  {
    count <= |slots| && forall i :: 0 <= i < count && slots[i].None? ==> Empties(slots, i) < |pool|
  }

  /** Slots and pool once the first `count` slots hold buffers. */
  ghost predicate IsPrepared<B>(slots: seq<Option<B>>, pool: seq<B>, count: nat, slots': seq<Option<B>>, pool': seq<B>)
    requires CanPrepare(slots, pool, count)
  {
    && |slots'| == |slots| && Empties(slots, count) <= |pool| && pool' == pool[Empties(slots, count)..]
    && forall i :: 0 <= i < |slots| ==> slots'[i] == if i < count then Some(SlotBuffer(slots, pool, i)) else slots[i]
  }

  /** The delivered datagrams: good messages in order, each with its slot's buffer. */
  ghost function DeliveredFrom<B>(slots: seq<Option<B>>, pool: seq<B>, messages: seq<Message>,
                                  n: nat): (r: seq<(B, nat)>)
    requires n <= |messages| && CanPrepare(slots, pool, n)
    ensures |r| <= n
  {
    if n == 0 then []
    else
      DeliveredFrom(slots, pool, messages, n - 1)
      + if Good(messages[n - 1]) then [(SlotBuffer(slots, pool, n - 1), messages[n - 1].len)] else []
  }

  /** Messages among the first `n` that came whole and from an address that could be read. */
  function Whole(messages: seq<Message>, n: nat): nat
    requires n <= |messages|
  {
    if n == 0 then 0
    else Whole(messages, n - 1) + if !messages[n - 1].truncated && messages[n - 1].sourceOk then 1 else 0
  }

  /** Exactly those are delivered, in message order, each with its length, in the buffer its slot
      held or, if the slot was empty, in one of the pool. */
  lemma {:induction false} DeliveredExact<B>(slots: seq<Option<B>>, pool: seq<B>, messages: seq<Message>, n: nat,
                                             i: nat)
    requires n <= |messages| && CanPrepare(slots, pool, n)
    ensures var r := DeliveredFrom(slots, pool, messages, n);
      && |r| == Whole(messages, n)
      && (i < n && !messages[i].truncated && messages[i].sourceOk ==>
            var k := Whole(messages, i);
            && k < |r| && r[k].1 == messages[i].len
            && match slots[i] case Some(b) => r[k].0 == b case None => r[k].0 in pool)
  {
    hide Empties;
    if n > 0 { DeliveredExact(slots, pool, messages, n - 1, i); }
  }

  // ---------------------------------------------------------------- the call as a whole

  /** Messages looked at: as many as came, among the slots that were prepared. */
  function Looked(answer: KernelAnswer, count: nat): nat
  {
    if answer.Received? then Min(|answer.messages|, count) else 0
  }

  ghost predicate AnyTruncated(messages: seq<Message>, n: nat)
    requires n <= |messages|
  {
    exists i :: 0 <= i < n && messages[i].truncated
  }

  /** What the call returns. */
  ghost predicate OutcomeOk(answer: KernelAnswer, count: nat, delivered: nat, r: Outcome)
  {
    r == if count == 0 then Delivered(0)
         else match answer
           case WouldBlock => Delivered(0)
           case Failure(code) => Failed(Kernel(code))
           case Received(messages) =>
             if delivered == 0 && AnyTruncated(messages, Looked(answer, count)) then Failed(Truncated)
             else Delivered(delivered)
  }

  /** Slots after the call: a delivered buffer is gone, every other one is still there. */
  ghost predicate SlotsAfter<B>(slots: seq<Option<B>>, pool: seq<B>, answer: KernelAnswer, count: nat,
                                slots': seq<Option<B>>)
    requires CanPrepare(slots, pool, count)
  {
    && |slots'| == |slots|
    && forall i :: 0 <= i < |slots| ==>
         slots'[i] == if i < Looked(answer, count) && Good(answer.messages[i]) then None
                      else if i < count then Some(SlotBuffer(slots, pool, i))
                      else slots[i]
  }

  function Firsts<B>(delivered: seq<(B, nat)>): multiset<B>
  {
    if delivered == [] then multiset{}
    else Firsts(delivered[..|delivered| - 1]) + multiset{delivered[|delivered| - 1].0}
  }

  lemma NoFirsts<B>()
    ensures Firsts<B>([]) == multiset{}
  {
  }

  lemma FirstsAppend<B>(delivered: seq<(B, nat)>, b: B, len: nat)
    ensures Firsts(delivered + [(b, len)]) == Firsts(delivered) + multiset{b}
  {
    assert (delivered + [(b, len)])[..|delivered|] == delivered;
  }

  class Receiver<B(==)> {
    /** `recv_buffers`: buffers waiting in their message slots. */
    var slots: seq<Option<B>>
    /** Buffers the pool can still give. */
    var pool: seq<B>

    constructor (maxBatch: nat, pool: seq<B>)
      ensures slots == seq(maxBatch, _ => None) && this.pool == pool
    {
      slots, this.pool := seq(maxBatch, _ => None), pool;
    }

    ghost function Owned(): multiset<B>
      reads this
    {
      BuffersIn(slots) + multiset(pool)
    }

    /** Fills empty slots from the pool; stops at the first slot it cannot fill. */
    method PrepareSlots(wanted: nat) returns (count: nat)
      requires wanted <= |slots|
      modifies this
      ensures count == PreparedCount(old(slots), |old(pool)|, wanted) && CanPrepare(old(slots), old(pool), count)
      ensures IsPrepared(old(slots), old(pool), count, slots, pool) && Owned() == old(Owned())
    {
      hide BuffersIn, PreparedCount;
      ghost var was, all := slots, pool;
      for i := 0 to wanted
        invariant |slots| == |was| && Owned() == old(Owned())
        invariant CanPrepare(was, all, i) && IsPrepared(was, all, i, slots, pool)
      {
        if slots[i].Some? { continue; }
        if pool == [] {
          PreparedCountUnique(was, |all|, wanted, i);
          return i;
        }
        SlotFilled(slots, pool, i);
        slots := slots[i := Some(pool[0])];
        pool := pool[1..];
      }
      PreparedCountUnique(was, |all|, wanted, wanted);
      return wanted;
    }

    /** `recv_impl`: delivers the good messages in kernel order, each in the buffer of its
        slot; every other buffer stays in its slot or in the pool. */
    method Recv(remaining: nat, answer: KernelAnswer) returns (r: Outcome, delivered: seq<(B, nat)>)
      modifies this
      ensures var count := PreparedCount(old(slots), |old(pool)|, Min(remaining, |old(slots)|));
        && CanPrepare(old(slots), old(pool), count)
        && delivered == (if answer.Received? then
             DeliveredFrom(old(slots), old(pool), answer.messages, Looked(answer, count)) else [])
        && OutcomeOk(answer, count, |delivered|, r)
        && SlotsAfter(old(slots), old(pool), answer, count, slots)
        && pool == old(pool)[Empties(old(slots), count)..]
      ensures Owned() + Firsts(delivered) == old(Owned())
      ensures r.Delivered? ==> r.n == |delivered| <= remaining
    {
      hide BuffersIn, Firsts, PreparedCount;
      delivered := [];
      NoFirsts<B>();
      ghost var was, all := slots, pool;
      var wanted := Min(remaining, |slots|);
      var count := PrepareSlots(wanted);
      assert answer.Received? ==> DeliveredFrom(was, all, answer.messages, 0) == [];
      if count == 0 { return Delivered(0), []; }
      match answer {
        case WouldBlock => return Delivered(0), [];
        case Failure(code) => return Failed(Kernel(code)), [];
        case Received(messages) =>
          var received := Min(|messages|, count);
          var hadTruncation;
          delivered, hadTruncation := Deliver(messages, received, was, all, count);
          if delivered == [] && hadTruncation { return Failed(Truncated), delivered; }
          return Delivered(|delivered|), delivered;
      }
    }

    /** Hands out the buffers of the good messages among the first `received`. */
    method Deliver(messages: seq<Message>, received: nat, ghost was: seq<Option<B>>, ghost all: seq<B>,
                   ghost count: nat)
      returns (delivered: seq<(B, nat)>, hadTruncation: bool)
      requires received == Min(|messages|, count) && CanPrepare(was, all, count)
      requires IsPrepared(was, all, count, slots, pool)
      modifies this`slots
      ensures delivered == DeliveredFrom(was, all, messages, received)
      ensures Owned() + Firsts(delivered) == old(Owned())
      ensures SlotsAfter(was, all, Received(messages), count, slots)
      ensures hadTruncation <==> AnyTruncated(messages, received)
    {
      hide BuffersIn, Firsts, SlotBuffer, Empties;
      delivered, hadTruncation := [], false;
      NoFirsts<B>();
      for i := 0 to received
        invariant |slots| == |was| && |delivered| <= i
        invariant forall j :: 0 <= j < |was| ==>
          slots[j] == if j < i && Good(messages[j]) then None else old(slots)[j]
        invariant delivered == DeliveredFrom(was, all, messages, i)
        invariant Owned() + Firsts(delivered) == old(Owned())
        invariant hadTruncation <==> AnyTruncated(messages, i)
      {
        if messages[i].truncated { hadTruncation := true; continue; }
        if !messages[i].sourceOk { continue; }
        var b := slots[i].value;
        SlotEmptied(slots, pool, i, Firsts(delivered));
        FirstsAppend(delivered, b, messages[i].len);
        slots := slots[i := None];
        delivered := delivered + [(b, messages[i].len)];
      }
    }
  }
}
