/** The Linux send path: chunked `sendmmsg` with recovery of short sends.  The kernel
    answers from an arbitrary finite script. */
module OsSend {
  import opened Wrappers
  import opened Batch

  datatype Error = OversizeForMtu | InvalidPacket | InvalidBatch | Kernel(code: int)

  /** One system call: packets dispatched, or why none was. */
  datatype KernelAnswer = Sent(n: nat) | Interrupted | WouldBlock | Failure(code: int)

  datatype Transmit<+P> = Transmit(packet: P, len: nat, unsupportedOptions: bool)

  class Kernel<P> {
    var answers: seq<KernelAnswer>
    /** Packets dispatched, in order. */
    var wire: seq<P>

    constructor (answers: seq<KernelAnswer>)
      ensures this.answers == answers && wire == []
    {
      this.answers, wire := answers, [];
    }

    /** `sendmmsg`: dispatches a prefix of the messages or fails as a whole. */
    method SendMmsg(messages: seq<P>) returns (r: KernelAnswer)
      requires answers != []
      modifies this
      ensures answers == old(answers)[1..]
      ensures r == match old(answers)[0] case Sent(n) => Sent(Min(n, |messages|)) case other => other
      ensures wire == if r.Sent? then old(wire) + messages[..r.n] else old(wire)
    {
      r := answers[0];
      answers := answers[1..];
      if r.Sent? {
        if r.n > |messages| { r := Sent(|messages|); }
        wire := wire + messages[..r.n];
      }
    }

    /** `sendmsg`: one message, dispatched or not. */
    method SendMsg(message: P) returns (r: KernelAnswer)
      requires answers != []
      modifies this
      ensures answers == old(answers)[1..] && r == old(answers)[0]
      ensures wire == if r.Sent? then old(wire) + [message] else old(wire)
    {
      r := answers[0];
      answers := answers[1..];
      if r.Sent? { wire := wire + [message]; }
    }
  }

  /** The checks a slot must pass before it is handed to the kernel. */
  function Validate<P>(slot: TxSlot<Transmit<P>>, mtu: nat): Option<Error>
  {
    match slot
    case Taken => Some(InvalidBatch)
    case Ready(tx) =>
      if tx.len > mtu then Some(OversizeForMtu) else if tx.unsupportedOptions then Some(InvalidPacket) else None
  }

  /** Packets of the ready slots `from..to`. */
  function Packets<P>(slots: seq<TxSlot<Transmit<P>>>, from: nat, to: nat): (r: seq<P>)
    requires from <= to <= |slots| && forall i :: from <= i < to ==> slots[i].Ready?
    ensures |r| == to - from && forall i :: 0 <= i < to - from ==> r[i] == slots[from + i].item.packet
  {
    seq(to - from, i requires 0 <= i < to - from => slots[from + i].item.packet)
  }

  /** The slots from `accepted` on that pass, at most `max` of them. */
  method ChunkLength<P>(batch: array<TxSlot<Transmit<P>>>, accepted: nat, mtu: nat, max: nat)
    returns (len: nat, bad: Option<Error>)
    requires accepted < batch.Length && max >= 1
    ensures accepted + len <= batch.Length && len <= max
    ensures forall i :: accepted <= i < accepted + len ==> Validate(batch[i], mtu).None?
    ensures len < max && accepted + len < batch.Length ==> Validate(batch[accepted + len], mtu).Some?
    ensures bad == if len == 0 then Validate(batch[accepted], mtu) else None
  {
    var maxChunk := if batch.Length - accepted <= max then batch.Length - accepted else max;
    len := 0;
    while len < maxChunk
      invariant 0 <= len <= maxChunk
      invariant forall i :: accepted <= i < accepted + len ==> Validate(batch[i], mtu).None?
    {
      var error := Validate(batch[accepted + len], mtu);
      if error.Some? {
        return len, if len == 0 then error else None;
      }
      len := len + 1;
    }
    bad := None;
  }

  /** Takes the slots `from..from + n`. */
  method TakeSlots<T>(batch: array<TxSlot<T>>, from: nat, n: nat)
    requires from + n <= batch.Length
    modifies batch
    ensures forall i :: 0 <= i < batch.Length ==> batch[i] == if from <= i < from + n then Taken else old(batch[i])
  {
    for i := from to from + n
      invariant forall j :: 0 <= j < batch.Length ==> batch[j] == if from <= j < i then Taken else old(batch[j])
    {
      batch[i] := Taken;
    }
  }

  lemma TookPrefixGrows<T>(before: seq<TxSlot<T>>, mid: seq<TxSlot<T>>, after: seq<TxSlot<T>>, k: nat, n: nat)
    requires TookPrefix(before, mid, k) && k + n <= |mid| == |after|
    requires forall i :: k <= i < k + n ==> mid[i].Ready?
    requires forall i :: 0 <= i < |mid| ==> after[i] == if k <= i < k + n then Taken else mid[i]
    ensures TookPrefix(before, after, k + n) && AllReady(before, k + n)
    ensures forall i :: k <= i < k + n ==> mid[i] == before[i]
  {
  }

  // ---------------------------------------------------------------- one answer at a time

  /** Slots accepted so far, and whether the next call is for the one slot that a short
      send left behind. */
  datatype Progress = Progress(accepted: nat, single: bool)

  /** Leading slots that pass all checks. */
  function Sendable<P>(slots: seq<TxSlot<Transmit<P>>>, mtu: nat): nat
  {
    Leading(slots, slot => Validate(slot, mtu).None?)
  }

  /** What one system call does to the progress, when `room` leading slots can be sent. */
  function Step(room: nat, maxBatch: nat, p: Progress, answer: KernelAnswer): (r: Progress)
    requires p.accepted <= room && (p.single ==> p.accepted < room)
    ensures r.accepted <= room && (r.single ==> r.accepted < room)
  {
    if !answer.Sent? then p
    else if p.single then Progress(p.accepted + 1, false)
    else
      var chunk := Min(maxBatch, room - p.accepted);
      var n := Min(answer.n, chunk);
      Progress(p.accepted + n, n < chunk)
  }

  /** Progress after the first `k` answers. */
  function After(room: nat, maxBatch: nat, answers: seq<KernelAnswer>, k: nat): (r: Progress)
    requires k <= |answers|
    ensures r.accepted <= room && (r.single ==> r.accepted < room)
  {
    if k == 0 then Progress(0, false) else Step(room, maxBatch, After(room, maxBatch, answers, k - 1), answers[k - 1])
  }

  /** Every one of the first `k` answers was asked for while slots of the room were left,
      and none of them ended the call. */
  ghost predicate Going(room: nat, maxBatch: nat, answers: seq<KernelAnswer>, k: nat)
  {
    && k <= |answers|
    && forall i :: 0 <= i < k ==>
         (answers[i].Sent? || answers[i].Interrupted?) && After(room, maxBatch, answers, i).accepted < room
  }

  /** How a send of `len` slots ends after `k` answers. */
  ghost predicate SendOutcome(room: nat, len: nat, slotError: Option<Error>, maxBatch: nat, answers: seq<KernelAnswer>,
                              k: nat, r: SendResult<Error>, finished: bool)
    requires k <= |answers|
  {
    && r.accepted == After(room, maxBatch, answers, k).accepted
    && if !finished then
         k == |answers| && Going(room, maxBatch, answers, k) && r == Accepted(r.accepted) && r.accepted < room
       else if r.accepted == room then
         && Going(room, maxBatch, answers, k)
         && (if room == len then r == Accepted(room) else slotError.Some? && r == Rejected(room, slotError.value))
       else
         && k > 0 && Going(room, maxBatch, answers, k - 1)
         && match answers[k - 1]
            case WouldBlock => r == Accepted(r.accepted)
            case Failure(code) => r == Rejected(r.accepted, Kernel(code))
            case _ => false
  }

  lemma NothingAsked(room: nat, maxBatch: nat, answers: seq<KernelAnswer>)
    ensures Going(room, maxBatch, answers, 0) && After(room, maxBatch, answers, 0) == Progress(0, false)
  {
  }

  /** The next answer: the call goes on, or this answer ends it. */
  lemma NextAnswer(room: nat, len: nat, slotError: Option<Error>, maxBatch: nat, answers: seq<KernelAnswer>, k: nat)
    requires Going(room, maxBatch, answers, k) && After(room, maxBatch, answers, k).accepted < room
    ensures var p := After(room, maxBatch, answers, k);
      if k == |answers| then SendOutcome(room, len, slotError, maxBatch, answers, k, Accepted(p.accepted), false)
      else
        && After(room, maxBatch, answers, k + 1) == Step(room, maxBatch, p, answers[k])
        && match answers[k]
           case WouldBlock => SendOutcome(room, len, slotError, maxBatch, answers, k + 1, Accepted(p.accepted), true)
           case Failure(code) => SendOutcome(room, len, slotError, maxBatch, answers, k + 1,
                                             Rejected(p.accepted, Kernel(code)), true)
           case _ => Going(room, maxBatch, answers, k + 1)
  {
  }

  lemma EndOfRoom(room: nat, len: nat, slotError: Option<Error>, maxBatch: nat, answers: seq<KernelAnswer>, k: nat)
    requires Going(room, maxBatch, answers, k) && After(room, maxBatch, answers, k).accepted == room
    ensures room == len ==> SendOutcome(room, len, slotError, maxBatch, answers, k, Accepted(room), true)
    ensures room < len && slotError.Some? ==>
      SendOutcome(room, len, slotError, maxBatch, answers, k, Rejected(room, slotError.value), true)
  {
    hide After;
  }

  /** What is wrong with the first slot that cannot be sent. */
  function StopError<P>(slots: seq<TxSlot<Transmit<P>>>, mtu: nat): (r: Option<Error>)
    ensures r.Some? <==> Sendable(slots, mtu) < |slots|
  {
    var n := Sendable(slots, mtu);
    if n < |slots| then Validate(slots[n], mtu) else None
  }

  /** The room is the longest front of slots that are ready, within the MTU and without unsupported options; what
      stops it is a taken slot, an oversized packet or an unsupported option, in this order. */
  lemma SendableExact<P>(slots: seq<TxSlot<Transmit<P>>>, mtu: nat)
    ensures var room := Sendable(slots, mtu);
      && room <= |slots|
      && (forall i :: 0 <= i < room ==>
            slots[i].Ready? && slots[i].item.len <= mtu && !slots[i].item.unsupportedOptions)
      && (room == |slots| ==> StopError(slots, mtu) == None)
      && (room < |slots| ==>
            match slots[room]
            case Taken => StopError(slots, mtu) == Some(InvalidBatch)
            case Ready(tx) =>
              if tx.len > mtu then StopError(slots, mtu) == Some(OversizeForMtu)
              else tx.unsupportedOptions && StopError(slots, mtu) == Some(InvalidPacket))
  {
    hide Leading;
    var room := Sendable(slots, mtu);
    assert forall i :: 0 <= i < room ==> Validate(slots[i], mtu).None?;
    assert room < |slots| ==> Validate(slots[room], mtu).Some?;
  }

  /** A call that meets no error dispatches a packet or leaves one slot to ask for alone. */
  lemma StepMoves(room: nat, maxBatch: nat, p: Progress, answer: KernelAnswer)
    requires maxBatch >= 1 && p.accepted < room && answer.Sent?
    ensures var r := Step(room, maxBatch, p, answer);
      && (r.accepted > p.accepted || (r == Progress(p.accepted, true) && !p.single))
      && (answer.n >= 1 ==> r.accepted > p.accepted)
  {
  }

  /** Of any two calls that dispatched something or nothing, one dispatched a packet: a short send is
      followed by a call for the one slot it left behind.  So the calls of a send that meets
      no error are at most twice its packets. */
  lemma {:induction false} SendsProgress(room: nat, maxBatch: nat, answers: seq<KernelAnswer>, k: nat)
    requires maxBatch >= 1 && Going(room, maxBatch, answers, k)
    requires forall i :: 0 <= i < k ==> answers[i].Sent?
    ensures var p := After(room, maxBatch, answers, k);
      2 * p.accepted + (if p.single then 1 else 0) >= k
  {
    hide Step;
    if k > 0 {
      SendsProgress(room, maxBatch, answers, k - 1);
      StepMoves(room, maxBatch, After(room, maxBatch, answers, k - 1), answers[k - 1]);
    }
  }

  /** With a kernel that dispatches something in every call, at most as many calls as packets. */
  lemma {:induction false} SendsAtLeastOne(room: nat, maxBatch: nat, answers: seq<KernelAnswer>, k: nat)
    requires maxBatch >= 1 && Going(room, maxBatch, answers, k)
    requires forall i :: 0 <= i < k ==> answers[i].Sent? && answers[i].n >= 1
    ensures After(room, maxBatch, answers, k).accepted >= k
  {
    hide Step;
    if k > 0 {
      SendsAtLeastOne(room, maxBatch, answers, k - 1);
      StepMoves(room, maxBatch, After(room, maxBatch, answers, k - 1), answers[k - 1]);
    }
  }

  // ---------------------------------------------------------------- sending

  /** `send_impl`: whatever the kernel answers, exactly the first `accepted` slots are
      taken, each was dispatched once and in order, and every later slot holds its
      original packet.  The nested loops use up the answers as the one-answer-at-a-time
      steps do, and end only with the room, the script, back-pressure or an error. */
  method SendImpl<P>(kernel: Kernel<P>, batch: array<TxSlot<Transmit<P>>>, mtu: nat, maxBatch: nat)
    returns (r: SendResult<Error>, finished: bool)
    requires maxBatch >= 1
    modifies kernel, batch
    ensures TookPrefix(old(batch[..]), batch[..], r.accepted)
    ensures kernel.wire == old(kernel.wire) + Packets(old(batch[..]), 0, r.accepted)
    ensures |kernel.answers| <= |old(kernel.answers)|
    ensures var k := |old(kernel.answers)| - |kernel.answers|;
      && kernel.answers == old(kernel.answers)[k..]
      && SendOutcome(Sendable(old(batch[..]), mtu), batch.Length, StopError(old(batch[..]), mtu), maxBatch,
                     old(kernel.answers), k,
                     r, finished)
  {
    hide TookPrefix, Packets, Sendable, StopError, SendOutcome, Going, After, Step;
    ghost var before := batch[..];
    ghost var room, stop, script := Sendable(before, mtu), StopError(before, mtu), kernel.answers;
    ghost var k := 0;
    NothingSent(before);
    NothingAsked(room, maxBatch, script);
    SendableBound(before, mtu);
    var accepted := 0;
    while accepted < batch.Length
      invariant 0 <= accepted <= room && TookPrefix(before, batch[..], accepted) && AllReady(before, accepted)
      invariant kernel.wire == old(kernel.wire) + Packets(before, 0, accepted)
      invariant k <= |script| && kernel.answers == script[k..] && Going(room, maxBatch, script, k)
      invariant After(room, maxBatch, script, k) == Progress(accepted, false)
      decreases |kernel.answers|
    {
      var chunkLen, bad := ChunkLength(batch, accepted, mtu, maxBatch);
      ChunkIsRoom(before, batch[..], accepted, mtu, maxBatch, chunkLen, bad);
      if bad.Some? {
        EndOfRoom(room, batch.Length, stop, maxBatch, script, k);
        return Rejected(accepted, bad.value), true;
      }
      var answer, done;
      accepted, answer, done, k := SendChunkAndRetry(kernel, batch, accepted, chunkLen, before, room, stop, maxBatch,
                                                     script, k,
                                                       old(kernel.wire));
      if !done { return Accepted(accepted), false; }
      if answer.WouldBlock? { return Accepted(accepted), true; }
      if answer.Failure? { return Rejected(accepted, Kernel(answer.code)), true; }
    }
    EndOfRoom(room, batch.Length, stop, maxBatch, script, k);
    return Accepted(accepted), true;
  }

  lemma SendableBound<P>(slots: seq<TxSlot<Transmit<P>>>, mtu: nat)
    ensures Sendable(slots, mtu) <= |slots|
  {
  }

  /** The chunk is the rest of the room, at most a batch; an empty one has the error of
      the slot behind the room. */
  lemma ChunkIsRoom<P>(before: seq<TxSlot<Transmit<P>>>, now: seq<TxSlot<Transmit<P>>>, accepted: nat, mtu: nat,
                       maxBatch: nat, chunkLen: nat, bad: Option<Error>)
    requires TookPrefix(before, now, accepted) && accepted <= Sendable(before, mtu) && accepted < |now| && maxBatch >= 1
    requires accepted + chunkLen <= |now| && chunkLen <= maxBatch
    requires forall i :: accepted <= i < accepted + chunkLen ==> Validate(now[i], mtu).None?
    requires chunkLen < maxBatch && accepted + chunkLen < |now| ==> Validate(now[accepted + chunkLen], mtu).Some?
    requires bad == if chunkLen == 0 then Validate(now[accepted], mtu) else None
    ensures chunkLen == Min(maxBatch, Sendable(before, mtu) - accepted)
    ensures bad.Some? ==> accepted == Sendable(before, mtu) && bad == StopError(before, mtu)
    ensures bad.None? ==> accepted < Sendable(before, mtu)
  {
    var good := (slot: TxSlot<Transmit<P>>) => Validate(slot, mtu).None?;
    var room := Sendable(before, mtu);
    LeadingUnique(before, good, room);
    assert forall i :: accepted <= i < |now| ==> now[i] == before[i];
    assert room < |before| ==> !good(before[room]);
    if accepted + chunkLen < room { assert good(before[accepted + chunkLen]); }
  }

  /** One chunk, and the first slot that a short send left behind. */
  method SendChunkAndRetry<P>(kernel: Kernel<P>, batch: array<TxSlot<Transmit<P>>>, accepted0: nat, chunkLen: nat,
                              ghost before: seq<TxSlot<Transmit<P>>>, ghost room: nat, ghost stop: Option<Error>,
                              ghost maxBatch: nat, ghost script: seq<KernelAnswer>, ghost k0: nat, ghost base: seq<P>)
    returns (accepted: nat, answer: KernelAnswer, done: bool, ghost k: nat)
    requires room <= batch.Length && TookPrefix(before, batch[..], accepted0) && AllReady(before, accepted0)
    requires kernel.wire == base + Packets(before, 0, accepted0)
    requires accepted0 < room && chunkLen == Min(maxBatch, room - accepted0) && chunkLen > 0
    requires forall i :: accepted0 <= i < accepted0 + chunkLen ==> batch[i].Ready?
    requires k0 <= |script| && kernel.answers == script[k0..] && Going(room, maxBatch, script, k0)
    requires After(room, maxBatch, script, k0) == Progress(accepted0, false)
    modifies kernel, batch
    ensures k0 <= k <= |script| && kernel.answers == script[k..] && (done ==> k0 < k)
    ensures accepted0 <= accepted <= room && TookPrefix(before, batch[..], accepted) && AllReady(before, accepted)
    ensures kernel.wire == base + Packets(before, 0, accepted)
    ensures if !done then SendOutcome(room, batch.Length, stop, maxBatch, script, k, Accepted(accepted), false)
      else match answer
        case WouldBlock => SendOutcome(room, batch.Length, stop, maxBatch, script, k, Accepted(accepted), true)
        case Failure(code) => SendOutcome(room, batch.Length, stop, maxBatch, script, k,
                                          Rejected(accepted, Kernel(code)), true)
        case _ => Going(room, maxBatch, script, k) && After(room, maxBatch, script, k) == Progress(accepted, false)
  {
    hide TookPrefix, Packets, SendOutcome, Going, After;
    accepted := accepted0;
    answer, done, k := SendChunk(kernel, batch, accepted, chunkLen, before, room, stop, maxBatch, script, k0);
    if done && answer.Sent? {
      PacketsJoin(before, batch[..], 0, accepted, accepted + answer.n);
      accepted := accepted + answer.n;
      if answer.n < chunkLen {
        SameSlot(before, batch[..], accepted);
        OnePacket(before, accepted);
        answer, done, k := SendOne(kernel, batch, accepted, before, room, stop, maxBatch, script, k);
        if done && answer.Sent? {
          PacketsJoin(before, batch[..], 0, accepted, accepted + 1);
          accepted := accepted + 1;
        }
      }
    }
  }

  lemma NothingSent<P>(slots: seq<TxSlot<Transmit<P>>>)
    ensures TookPrefix(slots, slots, 0) && Packets(slots, 0, 0) == []
  {
  }

  lemma PacketsJoin<P>(before: seq<TxSlot<Transmit<P>>>, after: seq<TxSlot<Transmit<P>>>, a: nat, b: nat, c: nat)
    requires a <= b <= c && TookPrefix(before, after, c)
    ensures AllReady(before, c) && Packets(before, a, b) + Packets(before, b, c) == Packets(before, a, c)
  {
  }

  lemma SameSlot<T>(before: seq<TxSlot<T>>, after: seq<TxSlot<T>>, k: nat)
    requires TookPrefix(before, after, k)
    ensures |after| == |before| && AllReady(before, k)
    ensures forall i :: k <= i < |before| ==> after[i] == before[i]
  {
  }

  /** One `sendmmsg`, retried while interrupted; the dispatched slots are taken. */
  method SendChunk<P>(kernel: Kernel<P>, batch: array<TxSlot<Transmit<P>>>, accepted: nat, chunkLen: nat,
                      ghost before: seq<TxSlot<Transmit<P>>>, ghost room: nat, ghost stop: Option<Error>,
                      ghost maxBatch: nat, ghost script: seq<KernelAnswer>, ghost k0: nat)
    returns (answer: KernelAnswer, done: bool, ghost k: nat)
    requires room <= batch.Length && TookPrefix(before, batch[..], accepted)
    requires accepted < room && chunkLen == Min(maxBatch, room - accepted)
    requires forall i :: accepted <= i < accepted + chunkLen ==> batch[i].Ready?
    requires k0 <= |script| && kernel.answers == script[k0..] && Going(room, maxBatch, script, k0)
    requires After(room, maxBatch, script, k0) == Progress(accepted, false)
    modifies kernel, batch
    ensures k0 <= k <= |script| && kernel.answers == script[k..] && (done ==> k0 < k)
    ensures !done ==> SendOutcome(room, batch.Length, stop, maxBatch, script, k, Accepted(accepted), false)
    ensures done ==> !answer.Interrupted? && Answered(room, batch.Length, stop, maxBatch, script, k, accepted, answer)
    ensures done && answer.Sent? ==>
      answer.n <= chunkLen && After(room, maxBatch, script, k) == Progress(accepted + answer.n, answer.n < chunkLen)
    ensures var n := if done && answer.Sent? then answer.n else 0;
      && TookPrefix(before, batch[..], accepted + n)
      && kernel.wire == old(kernel.wire) + Packets(before, accepted, accepted + n)
      && (forall i :: accepted + n <= i < accepted + chunkLen ==> batch[i].Ready?)
  {
    hide Going, After, SendOutcome, Answered, Step, TookPrefix, Packets;
    SameSlot(before, batch[..], accepted);
    assert forall i :: accepted <= i < accepted + chunkLen ==> batch[i] == before[i];
    PacketsOfChunk(before, batch[..], accepted, chunkLen);
    var messages := Packets(batch[..], accepted, accepted + chunkLen);
    ghost var mid := batch[..];
    answer, done, k := AskChunk(kernel, messages, Progress(accepted, false), room, batch.Length, stop, maxBatch, script,
                                k0);
    if done && answer.Sent? {
      TakeSlots(batch, accepted, answer.n);
      TookPrefixGrows(before, mid, batch[..], accepted, answer.n);
      PacketsPrefix(before, accepted, chunkLen, answer.n);
    } else {
      PacketsPrefix(before, accepted, chunkLen, 0);
    }
  }

  /** The chunk's packets are those of the original slots. */
  lemma PacketsOfChunk<P>(before: seq<TxSlot<Transmit<P>>>, now: seq<TxSlot<Transmit<P>>>, from: nat, len: nat)
    requires |before| == |now| && from + len <= |now| && forall i :: from <= i < from + len ==>
      now[i].Ready? && now[i] == before[i]
    ensures Packets(now, from, from + len) == Packets(before, from, from + len)
  {
  }

  lemma PacketsPrefix<P>(slots: seq<TxSlot<Transmit<P>>>, from: nat, len: nat, n: nat)
    requires from + len <= |slots| && n <= len && forall i :: from <= i < from + len ==> slots[i].Ready?
    ensures Packets(slots, from, from + len)[..n] == Packets(slots, from, from + n) && Packets(slots, from, from) == []
  {
  }

  /** `sendmmsg` until it is not interrupted. */
  method AskChunk<P>(kernel: Kernel<P>, messages: seq<P>, ghost p: Progress, ghost room: nat, ghost len: nat,
                     ghost stop: Option<Error>, ghost maxBatch: nat, ghost script: seq<KernelAnswer>, ghost k0: nat)
    returns (answer: KernelAnswer, done: bool, ghost k: nat)
    requires p.accepted < room && !p.single && |messages| == Min(maxBatch, room - p.accepted)
    requires k0 <= |script| && kernel.answers == script[k0..] && Going(room, maxBatch, script, k0)
    requires After(room, maxBatch, script, k0) == p
    modifies kernel
    ensures k0 <= k <= |script| && kernel.answers == script[k..] && (done ==> k0 < k)
    ensures !done ==> SendOutcome(room, len, stop, maxBatch, script, k, Accepted(p.accepted), false)
    ensures done ==> !answer.Interrupted? && Answered(room, len, stop, maxBatch, script, k, p.accepted, answer)
    ensures done && answer.Sent? ==>
      answer.n <= |messages|
        && After(room, maxBatch, script, k) == Progress(p.accepted + answer.n, answer.n < |messages|)
    ensures kernel.wire == old(kernel.wire) + messages[..if done && answer.Sent? then answer.n else 0]
  {
    hide Going, After, SendOutcome;
    answer, done, k := Interrupted, false, k0;
    while true
      invariant kernel.wire == old(kernel.wire)
      invariant k0 <= k <= |script| && kernel.answers == script[k..] && Going(room, maxBatch, script, k)
      invariant After(room, maxBatch, script, k) == p
      decreases |kernel.answers|
    {
      NextAnswer(room, len, stop, maxBatch, script, k);
      if kernel.answers == [] { return; }
      answer := kernel.SendMmsg(messages);
      k := k + 1;
      if !answer.Interrupted? { break; }
    }
    done := true;
  }

  /** What an answer that is not an interruption means for the call. */
  ghost predicate Answered(room: nat, len: nat, stop: Option<Error>, maxBatch: nat, script: seq<KernelAnswer>, k: nat,
                           accepted: nat, answer: KernelAnswer)
    requires k <= |script|
  {
    match answer
    case WouldBlock => SendOutcome(room, len, stop, maxBatch, script, k, Accepted(accepted), true)
    case Failure(code) => SendOutcome(room, len, stop, maxBatch, script, k, Rejected(accepted, Kernel(code)), true)
    case _ => Going(room, maxBatch, script, k)
  }

  lemma OnePacket<P>(slots: seq<TxSlot<Transmit<P>>>, i: nat)
    requires i < |slots|
    ensures Packets(slots, i, i) == []
    ensures slots[i].Ready? ==> Packets(slots, i, i + 1) == [slots[i].item.packet]
  {
  }

  /** `sendmsg` on the first slot a short send left, retried while interrupted. */
  method SendOne<P>(kernel: Kernel<P>, batch: array<TxSlot<Transmit<P>>>, accepted: nat,
                    ghost before: seq<TxSlot<Transmit<P>>>, ghost room: nat, ghost stop: Option<Error>,
                    ghost maxBatch: nat, ghost script: seq<KernelAnswer>, ghost k0: nat)
    returns (answer: KernelAnswer, done: bool, ghost k: nat)
    requires accepted < room <= batch.Length && TookPrefix(before, batch[..], accepted) && batch[accepted].Ready?
    requires k0 <= |script| && kernel.answers == script[k0..] && Going(room, maxBatch, script, k0)
    requires After(room, maxBatch, script, k0) == Progress(accepted, true)
    modifies kernel, batch
    ensures k0 <= k <= |script| && kernel.answers == script[k..]
    ensures !done ==> SendOutcome(room, batch.Length, stop, maxBatch, script, k, Accepted(accepted), false)
    ensures done ==> !answer.Interrupted? && Answered(room, batch.Length, stop, maxBatch, script, k, accepted, answer)
    ensures done && answer.Sent? ==> After(room, maxBatch, script, k) == Progress(accepted + 1, false)
    ensures TookPrefix(before, batch[..], accepted + if done && answer.Sent? then 1 else 0)
    ensures kernel.wire == old(kernel.wire) + if done && answer.Sent? then [old(batch[accepted]).item.packet] else []
  {
    hide Going, After, SendOutcome, Answered, Step, TookPrefix, Packets;
    SameSlot(before, batch[..], accepted);
    ghost var mid := batch[..];
    assert mid[accepted] == before[accepted];
    answer, done, k := AskOne(kernel, batch[accepted].item.packet, Progress(accepted, true), room, batch.Length, stop,
                              maxBatch,
                              script, k0);
    assert batch[..] == mid;
    if done && answer.Sent? {
      TakeSlots(batch, accepted, 1);
      TookPrefixGrows(before, mid, batch[..], accepted, 1);
    }
  }

  /** `sendmsg` until it is not interrupted. */
  method AskOne<P>(kernel: Kernel<P>, message: P, ghost p: Progress, ghost room: nat, ghost len: nat,
                   ghost stop: Option<Error>, ghost maxBatch: nat, ghost script: seq<KernelAnswer>, ghost k0: nat)
    returns (answer: KernelAnswer, done: bool, ghost k: nat)
    requires p.accepted < room && p.single
    requires k0 <= |script| && kernel.answers == script[k0..] && Going(room, maxBatch, script, k0)
    requires After(room, maxBatch, script, k0) == p
    modifies kernel
    ensures k0 <= k <= |script| && kernel.answers == script[k..]
    ensures !done ==> SendOutcome(room, len, stop, maxBatch, script, k, Accepted(p.accepted), false)
    ensures done ==> !answer.Interrupted? && Answered(room, len, stop, maxBatch, script, k, p.accepted, answer)
    ensures done && answer.Sent? ==> After(room, maxBatch, script, k) == Progress(p.accepted + 1, false)
    ensures kernel.wire == old(kernel.wire) + if done && answer.Sent? then [message] else []
  {
    hide Going, After, SendOutcome;
    answer, done, k := Interrupted, false, k0;
    while true
      invariant kernel.wire == old(kernel.wire)
      invariant k0 <= k <= |script| && kernel.answers == script[k..] && Going(room, maxBatch, script, k)
      invariant After(room, maxBatch, script, k) == p
      decreases |kernel.answers|
    {
      NextAnswer(room, len, stop, maxBatch, script, k);
      if kernel.answers == [] { return; }
      answer := kernel.SendMsg(message);
      k := k + 1;
      if !answer.Interrupted? { break; }
    }
    done := true;
  }
}
