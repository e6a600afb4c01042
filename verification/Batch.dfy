/** Batch sending: a socket accepts a prefix of the slots, takes those and leaves the
    rest alone.  Sockets and kernels answer from an arbitrary finite script; a call that
    is still waiting when the script ends is reported as unfinished, and contracts say
    which answers were used up and what each of them did. */
module Batch {
  import opened Wrappers

  datatype TxSlot<+T> = Ready(item: T) | Taken

  datatype SendResult<+E> = Accepted(accepted: nat) | Rejected(accepted: nat, error: E)

  predicate AllReady<T>(slots: seq<TxSlot<T>>, k: nat)
  {
    k <= |slots| && forall i :: 0 <= i < k ==> slots[i].Ready?
  }

  /** The packets of the first `k` slots, all of them ready. */
  function Items<T>(slots: seq<TxSlot<T>>, k: nat): (r: seq<T>)
    requires AllReady(slots, k)
    ensures |r| == k && forall i :: 0 <= i < k ==> r[i] == slots[i].item
  {
    seq(k, i requires 0 <= i < k => slots[i].item)
  }

  /** Exactly the first `k` slots of `before` were taken; every other slot is as it was. */
  ghost predicate TookPrefix<T>(before: seq<TxSlot<T>>, after: seq<TxSlot<T>>, k: nat)
  {
    && |before| == |after| && AllReady(before, k)
    && (forall i :: 0 <= i < k ==> after[i].Taken?)
    && (forall i :: k <= i < |before| ==> after[i] == before[i])
  }

  lemma NothingTaken<T>(slots: seq<TxSlot<T>>)
    ensures TookPrefix(slots, slots, 0) && AllReady(slots, 0) && Items(slots, 0) == []
  {
  }

  /** Taking a prefix and then a prefix of the rest is taking a longer prefix. */
  lemma TookMore<T>(a: seq<TxSlot<T>>, b: seq<TxSlot<T>>, c: seq<TxSlot<T>>, k: nat, n: nat)
    requires TookPrefix(a, b, k) && k <= |b| && TookPrefix(b[k..], c, n)
    ensures k + n <= |b| && AllReady(a, k + n) && AllReady(b[k..], n) && TookPrefix(a, b[..k] + c, k + n)
    ensures Items(a, k) + Items(b[k..], n) == Items(a, k + n)
  {
    assert forall i :: k <= i < |a| ==> b[k..][i - k] == a[i];
  }

  // ---------------------------------------------------------------- leading slots

  /** Length of the longest prefix of good elements. */
  function Leading<T>(s: seq<T>, good: T -> bool): (r: nat)
    ensures r <= |s| && (forall i :: 0 <= i < r ==> good(s[i])) && (r < |s| ==> !good(s[r]))
  {
    if s == [] || !good(s[0]) then 0 else 1 + Leading(s[1..], good)
  }

  lemma LeadingUnique<T>(s: seq<T>, good: T -> bool, n: nat)
    requires n <= |s| && (forall i :: 0 <= i < n ==> good(s[i])) && (n < |s| ==> !good(s[n]))
    ensures n == Leading(s, good)
  {
  }

  lemma LeadingRest<T>(s: seq<T>, t: seq<T>, good: T -> bool, k: nat)
    requires k <= |s| && |t| == |s| - k && forall i :: 0 <= i < |t| ==> t[i] == s[k + i]
    requires forall i :: 0 <= i < k ==> good(s[i])
    ensures k <= Leading(s, good) && Leading(t, good) == Leading(s, good) - k
  {
    var n := Leading(s, good);
    assert n < |s| ==> t[n - k] == s[n];
    LeadingUnique(t, good, n - k);
  }

  predicate IsReady<T>(slot: TxSlot<T>) { slot.Ready? }

  // ---------------------------------------------------------------- what a script of answers amounts to

  /** One answer of a socket: how many of the ready slots it takes, then maybe an error. */
  datatype Answer<+E> = Answer(takes: nat, error: Option<E>)

  function SumTakes<E>(answers: seq<Answer<E>>, k: nat): nat
    requires k <= |answers|
  {
    if k == 0 then 0 else SumTakes(answers, k - 1) + answers[k - 1].takes
  }

  /** Slots taken by the first `k` answers when `room` leading slots can be taken. */
  function TakenAfter<E>(room: nat, answers: seq<Answer<E>>, k: nat): (r: nat)
    requires k <= |answers|
    ensures r <= room
  {
    Min(room, SumTakes(answers, k))
  }

  /** Answers among the first `k` that took nothing. */
  function Stalls<E>(room: nat, answers: seq<Answer<E>>, k: nat): (r: nat)
    requires k <= |answers|
    ensures r <= k
  {
    if k == 0 then 0
    else
      Stalls(room, answers, k - 1)
      + if TakenAfter(room, answers, k) == TakenAfter(room, answers, k - 1) then 1 else 0
  }

  ghost predicate NoErrors<E>(answers: seq<Answer<E>>, k: nat)
  {
    k <= |answers| && forall i :: 0 <= i < k ==> answers[i].error.None?
  }

  ghost predicate NoFailures<E>(drains: seq<Option<E>>, d: nat)
  {
    d <= |drains| && forall i :: 0 <= i < d ==> drains[i].None?
  }

  lemma OneMoreAnswer<E>(room: nat, answers: seq<Answer<E>>, k: nat)
    requires k < |answers|
    ensures var taken := TakenAfter(room, answers, k);
      var n := Min(answers[k].takes, room - taken);
      && TakenAfter(room, answers, k + 1) == taken + n
      && Stalls(room, answers, k + 1) == Stalls(room, answers, k) + if n == 0 then 1 else 0
  {
  }

  /** Outcome of sending to completion: `k` answers and `d` drains of the script were
      used, every one of them while slots up to `stop` were left, each answer that took
      nothing was followed by a drain, and an error is that of the last answer, of the
      last drain or of the slot behind the room. */
  ghost predicate ScriptOutcome<E>(room: nat, len: nat, slotError: Option<E>, answers: seq<Answer<E>>,
                                   drains: seq<Option<E>>, k: nat, d: nat, r: SendResult<E>, finished: bool)
    requires k <= |answers| && d <= |drains|
  {
    var stop := if slotError.Some? then room else len;
    && r.accepted == TakenAfter(room, answers, k)
    && (k > 0 ==> NoErrors(answers, k - 1) && TakenAfter(room, answers, k - 1) < stop)
    && match r
       case Rejected(n, e) =>
         && finished
         && (|| (k > 0 && answers[k - 1].error == Some(e) && d == Stalls(room, answers, k - 1) && NoFailures(drains, d))
             || (NoErrors(answers, k) && 0 < d == Stalls(room, answers, k) && NoFailures(drains, d - 1)
                 && drains[d - 1] == Some(e))
             || (NoErrors(answers, k) && d == Stalls(room, answers, k) && NoFailures(drains, d) && n == room < len
                 && slotError == Some(e)))
       case Accepted(n) =>
         && NoErrors(answers, k) && NoFailures(drains, d)
         && if finished then n == len && d == Stalls(room, answers, k)
            else
              && n < stop
              && (|| (k == |answers| && d == Stalls(room, answers, k))
                  || (d == |drains| && d + 1 == Stalls(room, answers, k)))
  }

  /** In the middle of sending: no error so far, and slots up to `stop` were left before
      every answer. */
  ghost predicate Running<E>(room: nat, stop: nat, answers: seq<Answer<E>>, drains: seq<Option<E>>, k: nat, d: nat,
                             total: nat)
  {
    && NoErrors(answers, k) && NoFailures(drains, d)
    && total == TakenAfter(room, answers, k) && d == Stalls(room, answers, k)
    && (k > 0 ==> TakenAfter(room, answers, k - 1) < stop)
  }

  lemma NoAnswers<E>(room: nat, stop: nat, answers: seq<Answer<E>>, drains: seq<Option<E>>)
    ensures Running(room, stop, answers, drains, 0, 0, 0)
  {
  }

  lemma AllTaken<E>(room: nat, len: nat, slotError: Option<E>, answers: seq<Answer<E>>, drains: seq<Option<E>>, k: nat,
                    d: nat, total: nat)
    requires Running(room, if slotError.Some? then room else len, answers, drains, k, d, total)
    ensures k <= |answers| && d <= |drains|
    ensures total == len ==> ScriptOutcome(room, len, slotError, answers, drains, k, d, Accepted(total), true)
    ensures total == room < len && slotError.Some? ==>
      ScriptOutcome(room, len, slotError, answers, drains, k, d, Rejected(total, slotError.value), true)
  {
    hide TakenAfter, Stalls;
  }

  /** What the next answer, and the drain after it, lead to. */
  lemma NextAnswer<E>(room: nat, len: nat, slotError: Option<E>, answers: seq<Answer<E>>, drains: seq<Option<E>>,
                      k: nat, d: nat, total: nat)
    requires var stop := if slotError.Some? then room else len;
      Running(room, stop, answers, drains, k, d, total) && total < stop
    ensures total <= room && k <= |answers| && d <= |drains|
    ensures k == |answers| ==> ScriptOutcome(room, len, slotError, answers, drains, k, d, Accepted(total), false)
    ensures k < |answers| ==>
      var n := Min(answers[k].takes, room - total);
      match answers[k].error
      case Some(e) => ScriptOutcome(room, len, slotError, answers, drains, k + 1, d, Rejected(total + n, e), true)
      case None =>
        if n > 0 then Running(room, if slotError.Some? then room else len, answers, drains, k + 1, d, total + n)
        else if d == |drains| then
          ScriptOutcome(room, len, slotError, answers, drains, k + 1, d, Accepted(total), false)
        else match drains[d]
          case Some(e) => ScriptOutcome(room, len, slotError, answers, drains, k + 1, d + 1, Rejected(total, e), true)
          case None => Running(room, if slotError.Some? then room else len, answers, drains, k + 1, d + 1, total)
  {
    hide TakenAfter, Stalls;
    if k < |answers| { OneMoreAnswer(room, answers, k); }
  }

  // ---------------------------------------------------------------- a socket with the prefix contract

  class PrefixSocket<T, E> {
    var answers: seq<Answer<E>>
    var drains: seq<Option<E>>
    var sent: seq<T>

    constructor (answers: seq<Answer<E>>, drains: seq<Option<E>>)
      ensures this.answers == answers && this.drains == drains && sent == []
    {
      this.answers, this.drains, this.sent := answers, drains, [];
    }

    /** `send` of any socket that keeps the prefix contract. */
    method Send(slots: seq<TxSlot<T>>) returns (r: SendResult<E>, after: seq<TxSlot<T>>)
      requires answers != []
      modifies this`answers, this`sent
      ensures answers == old(answers)[1..]
      ensures TookPrefix(slots, after, r.accepted) && sent == old(sent) + Items(slots, r.accepted)
      ensures r.accepted == Min(old(answers)[0].takes, Leading(slots, IsReady))
      ensures r == match old(answers)[0].error case None => Accepted(r.accepted) case Some(e) => Rejected(r.accepted, e)
    {
      var answer := answers[0];
      answers := answers[1..];
      after := slots;
      var k := 0;
      while k < |slots| && k < answer.takes && slots[k].Ready?
        invariant 0 <= k <= |slots| && TookPrefix(slots, after, k) && sent == old(sent) + Items(slots, k)
        invariant answers == old(answers)[1..] && k <= answer.takes
      {
        assert Items(slots, k + 1) == Items(slots, k) + [slots[k].item];
        sent := sent + [slots[k].item];
        after := after[k := Taken];
        k := k + 1;
      }
      assert k <= Leading(slots, IsReady) by { LeadingRest(slots, slots[k..], IsReady, k); }
      r := match answer.error case None => Accepted(k) case Some(e) => Rejected(k, e);
    }

    method DrainTxCompletions() returns (error: Option<E>)
      requires drains != []
      modifies this`drains
      ensures drains == old(drains)[1..] && error == old(drains)[0]
    {
      error := drains[0];
      drains := drains[1..];
    }

    /** `send_all`: keeps the prefix contract over all its calls, stops only when every
        slot was taken or an answer or a drain failed, and drains after every answer that
        took nothing. */
    method SendAll(batch: array<TxSlot<T>>) returns (r: SendResult<E>, finished: bool)
      modifies this, batch
      ensures TookPrefix(old(batch[..]), batch[..], r.accepted) && sent == old(sent) + Items(old(batch[..]), r.accepted)
      ensures |answers| <= |old(answers)| && |drains| <= |old(drains)|
      ensures var k, d := |old(answers)| - |answers|, |old(drains)| - |drains|;
        && answers == old(answers)[k..] && drains == old(drains)[d..]
        && ScriptOutcome(Leading(old(batch[..]), IsReady), batch.Length, None, old(answers), old(drains), k, d, r,
                         finished)
    {
      hide TookPrefix, Items, Leading, Running, ScriptOutcome;
      var total := 0;
      ghost var before := batch[..];
      ghost var room := Leading(before, IsReady);
      ghost var script, waits := answers, drains;
      ghost var k, d := 0, 0;
      NothingTaken(before);
      NoAnswers(room, batch.Length, script, waits);
      while total < batch.Length
        invariant 0 <= total <= batch.Length && TookPrefix(before, batch[..], total) && AllReady(before, total)
        invariant sent == old(sent) + Items(before, total)
        invariant k <= |script| && answers == script[k..] && d <= |waits| && drains == waits[d..]
        invariant Running(room, batch.Length, script, waits, k, d, total)
        decreases |answers|
      {
        NextAnswer(room, batch.Length, None, script, waits, k, d, total);
        if answers == [] { return Accepted(total), false; }
        var result := SendFrom(batch, total, before, old(sent));
        k := k + 1;
        match result {
          case Rejected(accepted, error) => return Rejected(total + accepted, error), true;
          case Accepted(n) =>
            if n == 0 {
              if drains == [] { return Accepted(total), false; }
              var error := DrainTxCompletions();
              d := d + 1;
              if error.Some? { return Rejected(total, error.value), true; }
            }
            total := total + n;
        }
      }
      AllTaken(room, batch.Length, None, script, waits, k, d, total);
      return Accepted(total), true;
    }

    /** One `send` of the slots from `total` on. */
    method SendFrom(batch: array<TxSlot<T>>, total: nat, ghost before: seq<TxSlot<T>>, ghost base: seq<T>)
      returns (r: SendResult<E>)
      requires answers != [] && total <= batch.Length && TookPrefix(before, batch[..], total) && AllReady(before, total)
      requires sent == base + Items(before, total)
      modifies this`answers, this`sent, batch
      ensures answers == old(answers)[1..] && total <= Leading(before, IsReady)
      ensures r.accepted == Min(old(answers)[0].takes, Leading(before, IsReady) - total)
      ensures r == match old(answers)[0].error case None => Accepted(r.accepted) case Some(e) => Rejected(r.accepted, e)
      ensures total + r.accepted <= batch.Length && TookPrefix(before, batch[..], total + r.accepted)
      ensures AllReady(before, total + r.accepted)
      ensures sent == base + Items(before, total + r.accepted)
    {
      hide TookPrefix, Items, Leading;
      ghost var mid := batch[..];
      var after;
      r, after := Send(batch[total..]);
      RestReady(before, mid, total);
      TookMore(before, mid, after, total, r.accepted);
      WriteBack(batch, total, after);
      assert batch[..] == mid[..total] + after;
    }
  }

  lemma RestReady<T>(before: seq<TxSlot<T>>, mid: seq<TxSlot<T>>, total: nat)
    requires TookPrefix(before, mid, total) && total <= |mid|
    ensures total <= Leading(before, IsReady) && Leading(mid[total..], IsReady) == Leading(before, IsReady) - total
  {
    RestOfBatch(before, mid, total, IsReady);
  }

  /** The slots behind a taken prefix offer what is left of the room. */
  lemma RestOfBatch<T>(before: seq<TxSlot<T>>, mid: seq<TxSlot<T>>, total: nat, good: TxSlot<T> -> bool)
    requires TookPrefix(before, mid, total) && total <= |mid| && forall i :: 0 <= i < total ==> good(before[i])
    ensures total <= Leading(before, good) && Leading(mid[total..], good) == Leading(before, good) - total
  {
    LeadingRest(before, mid[total..], good, total);
  }

  /** Slots changed through a sub-slice of the batch. */
  method WriteBack<T>(batch: array<T>, from: nat, slots: seq<T>)
    requires from + |slots| == batch.Length
    modifies batch
    ensures batch[..] == old(batch[..from]) + slots
  {
    forall i | from <= i < batch.Length { batch[i] := slots[i - from]; }
  }

  /** The slots from `from` on, as the sub-slice handed to an inner send. */
  method SubSlice<T>(batch: array<T>, from: nat) returns (rest: array<T>)
    requires from <= batch.Length
    ensures fresh(rest) && rest[..] == batch[from..]
  {
    rest := new T[batch.Length - from](i requires 0 <= i < batch.Length - from reads batch => batch[from + i]);
  }

  // ---------------------------------------------------------------- generic endpoint

  /** Send through a prepared endpoint: a packet becomes a full transmit request. */
  datatype Endpoint<!P(!new), !U, !E> = Endpoint(convert: P -> U, packet: U -> P, validate: P -> Option<E>,
                                                 invalidBatch: E)
  {
    ghost predicate Lawful() { forall p :: packet(convert(p)) == p }
  }

  function Converted<P, U>(convert: P -> U, items: seq<P>): (r: seq<U>)
    ensures |r| == |items| && forall i :: 0 <= i < |items| ==> r[i] == convert(items[i])
  {
    seq(|items|, i requires 0 <= i < |items| => convert(items[i]))
  }

  /** What is wrong with a slot, if anything. */
  function SlotError<P(!new), U, E>(endpoint: Endpoint<P, U, E>, slot: TxSlot<P>): Option<E>
  {
    match slot
    case Taken => Some(endpoint.invalidBatch)
    case Ready(p) => endpoint.validate(p)
  }

  /** Leading slots that hold a packet the endpoint can send. */
  function Sendable<P(!new), U, E>(endpoint: Endpoint<P, U, E>, slots: seq<TxSlot<P>>): nat
  {
    Leading(slots, slot => SlotError(endpoint, slot).None?)
  }

  /** The error of the first slot that cannot be sent. */
  function StopError<P(!new), U, E>(endpoint: Endpoint<P, U, E>, slots: seq<TxSlot<P>>): (r: Option<E>)
    ensures r.Some? <==> Sendable(endpoint, slots) < |slots|
  {
    var n := Sendable(endpoint, slots);
    if n < |slots| then SlotError(endpoint, slots[n]) else None
  }

  /** Result of one endpoint send: an error of the socket comes first, then the error of
      the slot that ended the prefix, and only once the whole prefix was accepted. */
  function EndpointResult<P(!new), U, E>(endpoint: Endpoint<P, U, E>, slots: seq<TxSlot<P>>,
                                         answers: seq<Answer<E>>): SendResult<E>
    requires Sendable(endpoint, slots) > 0 ==> answers != []
  {
    var room := Sendable(endpoint, slots);
    var n := if room == 0 then 0 else Min(answers[0].takes, room);
    var error := if room > 0 && answers[0].error.Some? then answers[0].error
                 else if n == room then StopError(endpoint, slots)
                 else None;
    match error case None => Accepted(n) case Some(e) => Rejected(n, e)
  }

  /** The room is the longest front of slots that are ready with a packet the endpoint accepts; what
      stops it is a taken slot or the endpoint's own verdict on the packet behind it. */
  lemma SendableExact<P(!new), U, E>(endpoint: Endpoint<P, U, E>, slots: seq<TxSlot<P>>)
    ensures var room := Sendable(endpoint, slots);
      && room <= |slots|
      && (forall i :: 0 <= i < room ==> slots[i].Ready? && endpoint.validate(slots[i].item) == None)
      && (room == |slots| ==> StopError(endpoint, slots) == None)
      && (room < |slots| ==>
            match slots[room]
            case Taken => StopError(endpoint, slots) == Some(endpoint.invalidBatch)
            case Ready(p) => endpoint.validate(p).Some? && StopError(endpoint, slots) == endpoint.validate(p))
  {
    hide Leading;
    var room := Sendable(endpoint, slots);
    assert forall i :: 0 <= i < room ==> SlotError(endpoint, slots[i]).None?;
    assert room < |slots| ==> SlotError(endpoint, slots[room]).Some?;
  }

  /** One endpoint send is what sending to completion would be with a single answer. */
  lemma EndpointResultIsOneAnswer<P(!new), U, E>(endpoint: Endpoint<P, U, E>, slots: seq<TxSlot<P>>,
                                                 answers: seq<Answer<E>>)
    requires Sendable(endpoint, slots) > 0 ==> answers != []
    ensures var room := Sendable(endpoint, slots); var k := if room > 0 then 1 else 0;
      var r := EndpointResult(endpoint, slots, answers);
      ScriptOutcome(room, |slots|, StopError(endpoint, slots), answers[..k], [], k, 0, r,
                    r.Rejected? || r.accepted == |slots|)
  {
    hide Sendable, StopError;
    var room := Sendable(endpoint, slots);
    SendableExact(endpoint, slots);
    if room > 0 {
      var one := answers[..1];
      OneMoreAnswer(room, one, 0);
      assert one[0] == answers[0];
    }
  }

  /** `send_generic_udp_endpoint`: validates a prefix, converts and sends it, and puts the
      packets that were not accepted back into their own slots. */
  method SendGenericEndpoint<P(!new), U, E>(socket: PrefixSocket<U, E>, endpoint: Endpoint<P, U, E>,
                                            batch: array<TxSlot<P>>)
    returns (r: SendResult<E>)
    requires endpoint.Lawful() && (Sendable(endpoint, batch[..]) > 0 ==> socket.answers != [])
    modifies socket`answers, socket`sent, batch
    ensures socket.answers == if Sendable(endpoint, old(batch[..])) > 0 then old(socket.answers)[1..]
      else old(socket.answers)
    ensures TookPrefix(old(batch[..]), batch[..], r.accepted)
    ensures socket.sent == old(socket.sent) + Converted(endpoint.convert, Items(old(batch[..]), r.accepted))
    ensures r == EndpointResult(endpoint, old(batch[..]), old(socket.answers))
  {
    hide Sendable, StopError, Leading;
    ghost var before := batch[..];
    var prefixLen := 0;
    var deferred: Option<E> := None;
    while prefixLen < batch.Length
      invariant 0 <= prefixLen <= batch.Length && deferred.None?
      invariant forall i :: 0 <= i < prefixLen ==> SlotError(endpoint, batch[i]).None?
    {
      if batch[prefixLen].Taken? {
        deferred := Some(endpoint.invalidBatch);
        break;
      }
      var error := endpoint.validate(batch[prefixLen].item);
      if error.Some? {
        deferred := error;
        break;
      }
      prefixLen := prefixLen + 1;
    }
    PrefixIsSendable(endpoint, before, prefixLen, deferred);
    if prefixLen == 0 {
      return match deferred case Some(kind) => Rejected(0, kind) case None => Accepted(0);
    }
    var converted := TakePrefix(endpoint, batch, prefixLen);
    LeadingUnique(converted, IsReady, prefixLen);
    var result, after := socket.Send(converted);
    RestoreUnaccepted(endpoint, batch, after, result.accepted, before, converted);
    assert Items(converted, result.accepted) == Converted(endpoint.convert, Items(before, result.accepted));
    match result {
      case Rejected(accepted, kind) => return result;
      case Accepted(accepted) =>
        if accepted < prefixLen { return Accepted(accepted); }
        return match deferred case Some(kind) => Rejected(prefixLen, kind) case None => Accepted(prefixLen);
    }
  }

  lemma PrefixIsSendable<P(!new), U, E>(endpoint: Endpoint<P, U, E>, slots: seq<TxSlot<P>>, n: nat, deferred: Option<E>)
    requires n <= |slots| && forall i :: 0 <= i < n ==> SlotError(endpoint, slots[i]).None?
    requires deferred == if n < |slots| then SlotError(endpoint, slots[n]) else None
    requires n < |slots| ==> deferred.Some?
    ensures n == Sendable(endpoint, slots) && deferred == StopError(endpoint, slots)
  {
    LeadingUnique(slots, slot => SlotError(endpoint, slot).None?, n);
  }

  /** Takes the first slots out of the batch and converts them. */
  method TakePrefix<P(!new), U, E>(endpoint: Endpoint<P, U, E>, batch: array<TxSlot<P>>, n: nat)
    returns (converted: seq<TxSlot<U>>)
    requires AllReady(batch[..], n)
    modifies batch
    ensures |converted| == n && forall j :: 0 <= j < n ==> converted[j] == Ready(endpoint.convert(old(batch[j]).item))
    ensures TookPrefix(old(batch[..]), batch[..], n)
  {
    assert forall j :: 0 <= j < n ==> batch[..][j].Ready?;
    converted := [];
    for i := 0 to n
      invariant |converted| == i && forall j :: 0 <= j < i ==>
        converted[j] == Ready(endpoint.convert(old(batch[j]).item))
      invariant forall j :: 0 <= j < i ==> batch[j] == Taken
      invariant forall j :: i <= j < batch.Length ==> batch[j] == old(batch[j])
    {
      converted := converted + [Ready(endpoint.convert(batch[i].item))];
      batch[i] := Taken;
    }
  }

  /** `restore_unaccepted_endpoint_slots`. */
  method RestoreUnaccepted<P(!new), U, E>(endpoint: Endpoint<P, U, E>, batch: array<TxSlot<P>>, after: seq<TxSlot<U>>,
                                          accepted: nat, ghost before: seq<TxSlot<P>>, ghost converted: seq<TxSlot<U>>)
    requires endpoint.Lawful() && |after| <= batch.Length
    requires TookPrefix(converted, after, accepted) && TookPrefix(before, batch[..], |after|)
    requires forall j :: 0 <= j < |converted| ==> converted[j] == Ready(endpoint.convert(before[j].item))
    modifies batch
    ensures TookPrefix(before, batch[..], accepted)
  {
    assert forall j :: 0 <= j < |after| ==> batch[..][j] == Taken;
    assert forall j :: |after| <= j < batch.Length ==> batch[..][j] == before[j];
    for i := accepted to |after|
      invariant forall j :: 0 <= j < accepted ==> batch[j] == Taken
      invariant forall j :: accepted <= j < i ==> batch[j] == before[j]
      invariant forall j :: i <= j < |after| ==> batch[j] == Taken
      invariant forall j :: |after| <= j < batch.Length ==> batch[j] == before[j]
    {
      if after[i].Ready? { batch[i] := Ready(endpoint.packet(after[i].item)); }
    }
  }

  /** `send_all_to_udp_endpoint`: as `send_all`, and it stops at the first slot that the
      endpoint cannot send, with that slot's error, once all slots before it are taken. */
  method SendAllToEndpoint<P(!new), U, E>(socket: PrefixSocket<U, E>, endpoint: Endpoint<P, U, E>,
                                          batch: array<TxSlot<P>>)
    returns (r: SendResult<E>, finished: bool)
    requires endpoint.Lawful()
    modifies socket, batch
    ensures TookPrefix(old(batch[..]), batch[..], r.accepted)
    ensures socket.sent == old(socket.sent) + Converted(endpoint.convert, Items(old(batch[..]), r.accepted))
    ensures |socket.answers| <= |old(socket.answers)| && |socket.drains| <= |old(socket.drains)|
    ensures var k, d := |old(socket.answers)| - |socket.answers|, |old(socket.drains)| - |socket.drains|;
      && socket.answers == old(socket.answers)[k..] && socket.drains == old(socket.drains)[d..]
      && ScriptOutcome(Sendable(endpoint, old(batch[..])), batch.Length, StopError(endpoint, old(batch[..])),
                       old(socket.answers), old(socket.drains), k, d, r, finished)
  {
    hide TookPrefix, Items, Converted, Sendable, StopError, Running, ScriptOutcome, EndpointResult;
    var total := 0;
    ghost var before := batch[..];
    ghost var room, stopError := Sendable(endpoint, before), StopError(endpoint, before);
    ghost var stop := if stopError.Some? then room else batch.Length;
    ghost var script, waits := socket.answers, socket.drains;
    ghost var k, d := 0, 0;
    NothingTaken(before);
    NoAnswers(room, stop, script, waits);
    SendableBound(endpoint, before);
    ConvertedNone<P, U>(endpoint.convert);
    while total < batch.Length
      invariant 0 <= total <= batch.Length && TookPrefix(before, batch[..], total) && AllReady(before, total)
      invariant socket.sent == old(socket.sent) + Converted(endpoint.convert, Items(before, total))
      invariant k <= |script| && socket.answers == script[k..] && d <= |waits| && socket.drains == waits[d..]
      invariant Running(room, stop, script, waits, k, d, total) && total <= room
      invariant (k > 0 && total == room ==> room == batch.Length)
      decreases |socket.answers|
    {
      var over: bool;
      over, r, finished, total, k, d := EndpointRound(socket, endpoint, batch, total, before, script, waits, k, d,
                                                      old(socket.sent));
      if over { return; }
    }
    AllTaken(room, batch.Length, stopError, script, waits, k, d, total);
    return Accepted(total), true;
  }

  /** One turn of the loop: the call is over, or it goes on with fewer answers left. */
  method EndpointRound<P(!new), U, E>(socket: PrefixSocket<U, E>, endpoint: Endpoint<P, U, E>, batch: array<TxSlot<P>>,
                                      total0: nat, ghost before: seq<TxSlot<P>>, ghost script: seq<Answer<E>>,
                                      ghost waits: seq<Option<E>>, ghost k0: nat, ghost d0: nat, ghost base: seq<U>)
    returns (over: bool, r: SendResult<E>, finished: bool, total: nat, ghost k: nat, ghost d: nat)
    requires endpoint.Lawful() && total0 < batch.Length && |before| == batch.Length
    requires TookPrefix(before, batch[..], total0) && AllReady(before, total0)
    requires socket.sent == base + Converted(endpoint.convert, Items(before, total0))
    requires k0 <= |script| && socket.answers == script[k0..] && d0 <= |waits| && socket.drains == waits[d0..]
    requires var room := Sendable(endpoint, before);
      var stop := if StopError(endpoint, before).Some? then room else batch.Length;
      && Running(room, stop, script, waits, k0, d0, total0) && total0 <= room
         && (k0 > 0 && total0 == room ==> room == batch.Length)
    modifies socket, batch
    ensures k0 <= k <= |script| && socket.answers == script[k..] && d0 <= d <= |waits| && socket.drains == waits[d..]
    ensures over ==>
      r.accepted == total
        && ScriptOutcome(Sendable(endpoint, before), batch.Length, StopError(endpoint, before), script, waits, k, d, r,
                         finished)
    ensures total <= batch.Length && TookPrefix(before, batch[..], total) && AllReady(before, total)
    ensures socket.sent == base + Converted(endpoint.convert, Items(before, total))
    ensures !over ==>
      var room := Sendable(endpoint, before);
      var stop := if StopError(endpoint, before).Some? then room else batch.Length;
      && k > k0 && Running(room, stop, script, waits, k, d, total) && total <= room
         && (total == room ==> room == batch.Length)
  {
    hide TookPrefix, Items, Converted, Sendable, StopError, Running, ScriptOutcome;
    ghost var room, stopError := Sendable(endpoint, before), StopError(endpoint, before);
    over, finished, total, k, d := true, true, total0, k0, d0;
    RestSendable(endpoint, before, batch[..], total);
    SendableBound(endpoint, before);
    AllTaken(room, batch.Length, stopError, script, waits, k, d, total);
    if total < room { NextAnswer(room, batch.Length, stopError, script, waits, k, d, total); }
    if socket.answers == [] && Sendable(endpoint, batch[total..]) > 0 {
      r, finished := Accepted(total), false;
      return;
    }
    var result := SendEndpointFrom(socket, endpoint, batch, total, before, base);
    total := total + result.accepted;
    if total0 < room {
      k := k + 1;
      if result.Rejected? && script[k - 1].error.None? {
        AllTaken(room, batch.Length, stopError, script, waits, k, d, total);
      }
    }
    match result {
      case Rejected(_, error) => r := Rejected(total, error);
      case Accepted(n) =>
        r := Accepted(total);
        if n == 0 {
          finished := false;
          if socket.drains == [] { return; }
          var error := socket.DrainTxCompletions();
          d := d + 1;
          finished := true;
          if error.Some? {
            r := Rejected(total, error.value);
            return;
          }
        }
        over := false;
    }
  }

  /** One endpoint send of the slots from `total` on. */
  method SendEndpointFrom<P(!new), U, E>(socket: PrefixSocket<U, E>, endpoint: Endpoint<P, U, E>,
                                         batch: array<TxSlot<P>>, total: nat, ghost before: seq<TxSlot<P>>,
                                         ghost base: seq<U>)
    returns (r: SendResult<E>)
    requires endpoint.Lawful() && total <= batch.Length
    requires TookPrefix(before, batch[..], total) && AllReady(before, total)
    requires total <= Sendable(endpoint, before) && (total < Sendable(endpoint, before) ==> socket.answers != [])
    requires socket.sent == base + Converted(endpoint.convert, Items(before, total))
    modifies socket`answers, socket`sent, batch
    ensures var room := Sendable(endpoint, before);
      var n := if total == room then 0 else Min(old(socket.answers)[0].takes, room - total);
      && socket.answers == (if total == room then old(socket.answers) else old(socket.answers)[1..])
      && r.accepted == n && total + n <= room
      && r == if total < room && old(socket.answers)[0].error.Some? then Rejected(n, old(socket.answers)[0].error.value)
              else if total + n == room && StopError(endpoint, before).Some? then
                Rejected(n, StopError(endpoint, before).value)
              else Accepted(n)
    ensures total + r.accepted <= batch.Length && TookPrefix(before, batch[..], total + r.accepted)
    ensures AllReady(before, total + r.accepted)
    ensures socket.sent == base + Converted(endpoint.convert, Items(before, total + r.accepted))
  {
    hide TookPrefix, Items, Converted, Sendable, StopError, Leading;
    ghost var mid := batch[..];
    var rest := SubSlice(batch, total);
    RestSendable(endpoint, before, mid, total);
    r := SendGenericEndpoint(socket, endpoint, rest);
    TookMore(before, mid, rest[..], total, r.accepted);
    ConvertedAppend(endpoint.convert, Items(before, total), Items(mid[total..], r.accepted));
    WriteBack(batch, total, rest[..]);
    assert batch[..] == mid[..total] + rest[..];
  }

  lemma SendableBound<P(!new), U, E>(endpoint: Endpoint<P, U, E>, slots: seq<TxSlot<P>>)
    ensures Sendable(endpoint, slots) <= |slots|
    ensures (StopError(endpoint, slots).Some? <==> Sendable(endpoint, slots) < |slots|)
  {
  }

  /** Behind a taken prefix of sendable slots the same slot stops the send. */
  lemma RestSendable<P(!new), U, E>(endpoint: Endpoint<P, U, E>, before: seq<TxSlot<P>>, mid: seq<TxSlot<P>>,
                                    total: nat)
    requires TookPrefix(before, mid, total) && total <= |mid| && total <= Sendable(endpoint, before)
    ensures Sendable(endpoint, mid[total..]) == Sendable(endpoint, before) - total
    ensures StopError(endpoint, mid[total..]) == StopError(endpoint, before)
  {
    var good := (slot: TxSlot<P>) => SlotError(endpoint, slot).None?;
    RestOfBatch(before, mid, total, good);
    var n := Sendable(endpoint, before);
    assert n == Leading(before, good) by { LeadingUnique(before, good, n); }
    assert Sendable(endpoint, mid[total..]) == n - total by {
      LeadingUnique(mid[total..], good, Sendable(endpoint, mid[total..]));
    }
    assert n < |before| ==> mid[total..][n - total] == before[n];
  }

  lemma ConvertedNone<P, U>(convert: P -> U)
    ensures Converted(convert, []) == []
  {
  }

  lemma ConvertedAppend<P, U>(convert: P -> U, a: seq<P>, b: seq<P>)
    ensures Converted(convert, a + b) == Converted(convert, a) + Converted(convert, b)
  {
  }
}
