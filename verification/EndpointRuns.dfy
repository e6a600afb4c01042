/** Route updates interleaved with sends through a prepared endpoint: the cached header
    is rebuilt when the route generation moved, so every send agrees with the plain
    path under the snapshot current at that moment. */
module EndpointRuns {
  import opened Wrappers
  import opened Headers
  import opened Routes
  import opened RouteSnapshot
  import opened Endpoint
  import opened EndpointPackets

  const GENERATIONS: nat := 0x1_0000_0000_0000_0000

  /** Queue-local routes.  `history` lists every snapshot ever adopted. */
  class XdpLocalRoutes {
    var snapshot: Facts
    var pending: seq<Facts>
    var generation: nat
    ghost var history: seq<Facts>

    ghost predicate Valid()
      reads this
    {
      && history != [] && snapshot == history[|history| - 1]
      && generation == (|history| - 1) % GENERATIONS
    }

    constructor (initial: Facts)
      ensures Valid() && history == [initial] && pending == []
    {
      snapshot, pending, generation, history := initial, [], 0, [initial];
    }

    method PushUpdate(update: Facts)
      requires Valid()
      modifies this`pending
      ensures Valid() && pending == old(pending) + [update]
    {
      pending := pending + [update];
    }

    /** `apply_updates`: adopts the queued snapshots in order; the generation advances by
        their number, wrapping at 64 bits. */
    method ApplyUpdates() returns (applied: nat)
      requires Valid()
      modifies this
      ensures Valid() && pending == [] && applied == |old(pending)| && history == old(history) + old(pending)
    {
      applied := 0;
      ghost var all := pending;
      while pending != []
        invariant 0 <= applied <= |all| && pending == all[applied..]
        invariant history == old(history) + all[..applied] && snapshot == history[|history| - 1]
        invariant generation == old(generation)
        decreases |pending|
      {
        snapshot := pending[0];
        history := history + [pending[0]];
        pending := pending[1..];
        assert all[..applied + 1] == all[..applied] + [all[applied]];
        applied := applied + 1;
      }
      assert all[..|all|] == all;
      if applied != 0 {
        WrappingAdd(|old(history)| - 1, applied);
        generation := (generation + applied) % GENERATIONS;
      }
    }
  }

  lemma WrappingAdd(n: nat, k: nat)
    ensures (n % GENERATIONS + k) % GENERATIONS == (n + k) % GENERATIONS
  {
  }

  /** Equal generations less than 2^64 updates apart mean no update in between. */
  lemma SameGeneration(m: nat, n: nat)
    requires m <= n
    ensures n - m < GENERATIONS ==> (m % GENERATIONS == n % GENERATIONS <==> m == n)
  {
  }

  // ---------------------------------------------------------------- what a send does to the cache

  /** A cache: the adopted snapshot it was built under and the lengths its header was
      patched to since then. */
  datatype Built = Built(at: nat, patched: seq<nat>)

  function RouteAt(socket: Socket, spec: Spec, facts: Facts): Option<ResolvedL2>
  {
    Resolve(facts, socket, spec.destination)
  }

  /** Why no cache can be built under these facts, if it cannot. */
  function BuildError(socket: Socket, spec: Spec, facts: Facts): Option<Error>
  {
    match BuildCache(socket, spec, RouteAt(socket, spec, facts), 0)
    case Err(e) => Some(e)
    case Ok(_) => None
  }

  /** The cache that a send uses: the one there is while its generation, which wraps at
      64 bits, is the current one, else a new one. */
  function Refreshed(socket: Socket, spec: Spec, history: seq<Facts>, b: Option<Built>): (r: Option<Built>)
    requires history != []
    ensures r.Some? && b != r ==> r == Some(Built(|history| - 1, []))
  {
    var now := |history| - 1;
    if b.Some? && b.value.at % GENERATIONS == now % GENERATIONS then b
    else if BuildError(socket, spec, history[now]).None? then Some(Built(now, []))
    else None
  }

  /** Why a packet is refused under these facts, if it is. */
  function Refusal(socket: Socket, spec: Spec, facts: Facts, p: Packet): Option<Error>
    requires p.Valid()
  {
    match RouteAt(socket, spec, facts)
    case None => Some(NoEgressRoute)
    case Some(r) => if r.ipMtu < 28 then Some(InvalidPacket) else PacketError(LimitsOf(spec, r), |r.l2Header| + 28, p)
  }

  /** Packets in front of the first refused one, among the first `n`. */
  function Taken(socket: Socket, spec: Spec, facts: Facts, batch: seq<Packet>, n: nat): (r: nat)
    requires n <= |batch| && BatchOk(socket, batch)
    ensures r <= n && forall k :: 0 <= k < r ==> Refusal(socket, spec, facts, batch[k]).None?
    ensures r < n ==> Refusal(socket, spec, facts, batch[r]).Some?
  {
    if n == 0 then 0
    else
      var t := Taken(socket, spec, facts, batch, n - 1);
      if t == n - 1 && Refusal(socket, spec, facts, batch[t]).None? then n else t
  }

  lemma {:induction false} TakenIs(socket: Socket, spec: Spec, facts: Facts, batch: seq<Packet>, n: nat, k: nat)
    requires k <= n <= |batch| && BatchOk(socket, batch)
    requires forall j :: 0 <= j < k ==> Refusal(socket, spec, facts, batch[j]).None?
    requires k < n ==> Refusal(socket, spec, facts, batch[k]).Some?
    ensures Taken(socket, spec, facts, batch, n) == k
  {
    hide Refusal;
  }

  /** The patch a packet causes under these facts, if any: a packet refused for its length
      causes none, one refused for the room in front of it does. */
  function PatchUnder(socket: Socket, spec: Spec, facts: Facts, p: Packet): seq<nat>
    requires p.Valid()
  {
    match RouteAt(socket, spec, facts)
    case None => []
    case Some(r) => if r.ipMtu < 28 then [] else PatchOf(spec, LimitsOf(spec, r), p)
  }

  /** The patches of the first `k` packets, in order. */
  function Patches(socket: Socket, spec: Spec, facts: Facts, batch: seq<Packet>, k: nat): seq<nat>
    requires k <= |batch| && BatchOk(socket, batch)
  {
    if k == 0 then []
    else Patches(socket, spec, facts, batch, k - 1) + PatchUnder(socket, spec, facts, batch[k - 1])
  }

  function MinLen(batch: seq<Packet>, limit: nat): nat { Min(|batch|, limit) }

  predicate BatchOk(socket: Socket, batch: seq<Packet>)
  {
    forall k :: 0 <= k < |batch| ==> batch[k].Valid() && socket.l2Headroom <= batch[k].start
  }

  /** The cache after a send: patched for every packet taken, and for the one refused. */
  function AfterSend(socket: Socket, spec: Spec, history: seq<Facts>, b: Option<Built>, batch: seq<Packet>, limit: nat)
    : Option<Built>
    requires history != [] && BatchOk(socket, batch) && (b.Some? ==> b.value.at < |history|)
  {
    match Refreshed(socket, spec, history, b)
    case None => None
    case Some(c) =>
      var facts, n := history[c.at], MinLen(batch, limit);
      var t := Taken(socket, spec, facts, batch, n);
      Some(c.(patched := c.patched + Patches(socket, spec, facts, batch, if t < n then t + 1 else t)))
  }

  /** What the plain path would submit for this packet is what was submitted if and only if
      these patches leave the right header. */
  ghost predicate AsPlainIff(socket: Socket, spec: Spec, facts: Facts, patched: seq<nat>, p: Packet, sent: Submitted)
    requires p.Valid() && socket.l2Headroom <= p.start
  {
    var plain := PlainPrepare(socket, spec, RouteAt(socket, spec, facts), p);
    plain.Ok? ==> (plain.value == sent <==> HeaderIsRight(socket, spec, patched))
  }

  /** Besides, the packet is on the wire as asked for, and its checksum verifies if these
      patches leave the right header. */
  ghost predicate PacketExact(socket: Socket, spec: Spec, facts: Facts, patched: seq<nat>, p: Packet, sent: Submitted)
    requires p.Valid() && socket.l2Headroom <= p.start
  {
    && AsPlainIff(socket, spec, facts, patched, p, sent)
    && OnTheWire(facts, socket, spec, p, sent)
    && (HeaderIsRight(socket, spec, patched) ==> ChecksumVerifies(Wire(p, sent)))
  }

  /** The plain path refuses the packet too, unless only a fixed length stood against it. */
  ghost predicate PlainRefuses(socket: Socket, spec: Spec, facts: Facts, p: Packet)
    requires p.Valid() && socket.l2Headroom <= p.start
  {
    || PlainPrepare(socket, spec, RouteAt(socket, spec, facts), p).Err?
    || (spec.payloadLen.Some? && p.Len() != spec.payloadLen.value)
  }

  /** One send with a cache `c`, packet by packet against the plain path under the facts the
      cache was built from. */
  ghost predicate SendExact(socket: Socket, spec: Spec, facts: Facts, patched: seq<nat>, batch: seq<Packet>, limit: nat,
                            sent: seq<Submitted>, error: Option<Error>)
    requires BatchOk(socket, batch)
  {
    var n := MinLen(batch, limit);
    var t := Taken(socket, spec, facts, batch, n);
    && |sent| == t && error == (if t < n then Refusal(socket, spec, facts, batch[t]) else None)
    && (t < n ==> PlainRefuses(socket, spec, facts, batch[t]))
    && forall k :: 0 <= k < t ==>
         PacketExact(socket, spec, facts, patched + Patches(socket, spec, facts, batch, k + 1), batch[k], sent[k])
  }

  // ---------------------------------------------------------------- the endpoint

  class XdpUdpEndpoint {
    const socket: Socket
    const spec: Spec
    var info: Info
    var cached: Option<Cache>
    /** When the cache was built and what it was patched to since then. */
    ghost var built: Built

    ghost predicate Valid(routes: XdpLocalRoutes)
      reads this, routes
    {
      && routes.Valid()
      && (cached.Some? ==>
            && built.at < |routes.history| && cached.value.generation == built.at % GENERATIONS
            && CacheAfter(cached.value, info, socket, spec, RouteAt(socket, spec, routes.history[built.at]),
                          built.patched))
    }

    /** What a replay of the operations knows of the cache. */
    ghost function View(): Option<Built>
      reads this
    {
      if cached.Some? then Some(built) else None
    }

    constructor (socket: Socket, spec: Spec, routes: XdpLocalRoutes)
      requires routes.Valid()
      ensures Valid(routes) && View() == None && this.socket == socket && this.spec == spec
    {
      this.socket, this.spec := socket, spec;
      info, cached := Info(0, None), None;
    }

    /** `refresh_udp_endpoint_cache`: rebuilds the cache when the generation moved. */
    method Refresh(routes: XdpLocalRoutes) returns (error: Option<Error>)
      requires Valid(routes)
      modifies this
      ensures Valid(routes) && View() == Refreshed(socket, spec, routes.history, old(View()))
      ensures error == if cached.Some? then None else BuildError(socket, spec, routes.snapshot)
      ensures error.None? <==> cached.Some?
    {
      hide CacheAfter, RouteAt, BuildCache;
      if cached.Some? && cached.value.generation != routes.generation {
        cached := None;
      }
      if cached.None? {
        var resolved := RouteAt(socket, spec, routes.snapshot);
        BuiltIsFresh(socket, spec, resolved, routes.generation);
        match BuildCache(socket, spec, resolved, routes.generation) {
          case Err(e) => return Some(e);
          case Ok((c, i)) =>
            info, cached := i, Some(c);
            built := Built(|routes.history| - 1, []);
        }
      }
      return None;
    }

    /** `send_udp_endpoint_inner`, the packet loop: stops at the first packet that cannot
        be prepared.  Every accepted packet has the descriptor and frame bytes of the plain
        path, under the facts the cache was built from, if and only if the patches since
        then leave the right header; and the plain path refuses the packet it stopped at,
        but for a fixed length. */
    method SendBatch(routes: XdpLocalRoutes, batch: seq<Packet>, limit: nat)
      returns (sent: seq<Submitted>, error: Option<Error>)
      requires Valid(routes) && BatchOk(socket, batch)
      modifies this
      ensures Valid(routes) && View() == AfterSend(socket, spec, routes.history, old(View()), batch, limit)
      ensures match Refreshed(socket, spec, routes.history, old(View()))
        case None => sent == [] && error == BuildError(socket, spec, routes.snapshot) && error.Some?
        case Some(c) => SendExact(socket, spec, routes.history[c.at], c.patched, batch, limit, sent, error)
    {
      hide CacheAfter, RouteAt, SendExact, Taken, Patches, Refreshed;
      sent := [];
      error := Refresh(routes);
      if error.Some? { return; }
      sent, error := SendPackets(routes, batch, MinLen(batch, limit), limit);
    }

    /** The packets of a send, once the cache is current. */
    method SendPackets(routes: XdpLocalRoutes, batch: seq<Packet>, n: nat, ghost limit: nat)
      returns (sent: seq<Submitted>, error: Option<Error>)
      requires Valid(routes) && cached.Some? && BatchOk(socket, batch) && n == MinLen(batch, limit)
      modifies this`cached, this`built
      ensures Valid(routes) && cached.Some?
      ensures var facts := routes.history[old(built).at];
        var t := Taken(socket, spec, facts, batch, n);
        && built == old(built).(patched := old(built).patched
                                + Patches(socket, spec, facts, batch, if t < n then t + 1 else t))
        && SendExact(socket, spec, facts, old(built).patched, batch, limit, sent, error)
    {
      hide CacheAfter, RouteAt, Refusal, PatchUnder, PacketExact, PlainRefuses, Taken, Patches;
      ghost var c := built;
      ghost var facts := routes.history[c.at];
      sent, error := [], None;
      var i := 0;
      NothingPatched(socket, spec, facts, batch, c.patched);
      while i < n
        invariant 0 <= i <= n && |sent| == i && Valid(routes) && cached.Some? && error.None?
        invariant built == c.(patched := c.patched + Patches(socket, spec, facts, batch, i))
        invariant forall k :: 0 <= k < i ==> Refusal(socket, spec, facts, batch[k]).None?
        invariant forall k :: 0 <= k < i ==>
          PacketExact(socket, spec, facts, c.patched + Patches(socket, spec, facts, batch, k + 1), batch[k], sent[k])
      {
        var r := SendOne(routes, batch[i]);
        PatchesNext(socket, spec, facts, batch, i, c.patched);
        if r.Err? {
          TakenIs(socket, spec, facts, batch, n, i);
          return sent, Some(r.error);
        }
        sent := sent + [r.value];
        i := i + 1;
      }
      TakenIs(socket, spec, facts, batch, n, n);
    }

    method SendOne(routes: XdpLocalRoutes, p: Packet) returns (r: Result<Submitted>)
      requires Valid(routes) && cached.Some? && p.Valid() && socket.l2Headroom <= p.start
      modifies this`cached, this`built
      ensures Valid(routes) && cached.Some? && built.at == old(built.at)
      ensures var facts := routes.history[built.at];
        && built.patched == old(built.patched) + PatchUnder(socket, spec, facts, p)
        && Refusal(socket, spec, facts, p) == (match r case Ok(_) => None case Err(e) => Some(e))
        && (r.Ok? ==> PacketExact(socket, spec, facts, built.patched, p, r.value))
        && (r.Err? ==> PlainRefuses(socket, spec, facts, p))
    {
      hide EndpointPrepare, PlainPrepare, PacketError, HeaderIsRight, PatchOf, Resolve, CacheWith, OnTheWire;
      hide ChecksumVerifies, Wire;
      ghost var facts := routes.history[built.at];
      ghost var resolved := RouteAt(socket, spec, facts);
      CacheHasRoute(cached.value, info, socket, spec, resolved, built.patched);
      PathsAgreeAfter(socket, spec, resolved, cached.value, info, built.patched, p);
      RefusedWhen(cached.value, info, p);
      if EndpointPrepare(cached.value, info, p).1.Ok? {
        EndpointOnTheWire(facts, socket, spec, cached.value, info, built.patched, p);
      }
      hide CacheAfter;
      var (cache, result) := EndpointPrepare(cached.value, info, p);
      cached := Some(cache);
      built := built.(patched := built.patched + PatchOf(spec, info, p));
      r := result;
    }
  }

  lemma CacheHasRoute(cache: Cache, info: Info, socket: Socket, spec: Spec, resolved: Option<ResolvedL2>,
                      patched: seq<nat>)
    requires CacheAfter(cache, info, socket, spec, resolved, patched)
    ensures resolved.Some? && resolved.value.ipMtu >= 28 && info == LimitsOf(spec, resolved.value)
    ensures cache.l2Len == |resolved.value.l2Header|
  {
  }

  lemma NothingPatched(socket: Socket, spec: Spec, facts: Facts, batch: seq<Packet>, patched: seq<nat>)
    requires BatchOk(socket, batch)
    ensures patched + Patches(socket, spec, facts, batch, 0) == patched
  {
  }

  lemma PatchesNext(socket: Socket, spec: Spec, facts: Facts, batch: seq<Packet>, i: nat, patched: seq<nat>)
    requires i < |batch| && BatchOk(socket, batch)
    ensures patched + Patches(socket, spec, facts, batch, i) + PatchUnder(socket, spec, facts, batch[i])
         == patched + Patches(socket, spec, facts, batch, i + 1)
  {
  }

  /** A cache that was just built has no patches; whether one can be built does not depend
      on the generation. */
  lemma BuiltIsFresh(socket: Socket, spec: Spec, resolved: Option<ResolvedL2>, generation: nat)
    ensures match BuildCache(socket, spec, resolved, generation)
      case Err(e) => BuildCache(socket, spec, resolved, 0) == Err(e)
      case Ok((c, i)) =>
        && BuildCache(socket, spec, resolved, 0).Ok? && c.generation == generation
        && CacheAfter(c, i, socket, spec, resolved, [])
  {
    BuiltCacheFits(socket, spec, resolved, generation);
    hide CacheWith;
  }

  // ---------------------------------------------------------------- whole runs

  datatype Op = Push(update: Facts) | Apply | Send(batch: seq<Packet>, limit: nat)

  /** What a send of a run gave. */
  datatype Outcome = Nothing | Outcome(sent: seq<Submitted>, error: Option<Error>)

  /** Snapshots adopted so far, those still queued, and the endpoint's cache. */
  datatype Replay = Replay(history: seq<Facts>, pending: seq<Facts>, cache: Option<Built>)
  {
    ghost predicate Valid() { history != [] && (cache.Some? ==> cache.value.at < |history|) }

    /** The snapshot in use. */
    function Snapshot(): Facts
      requires history != []
    {
      history[|history| - 1]
    }
  }

  predicate OpOk(socket: Socket, op: Op) { op.Send? ==> BatchOk(socket, op.batch) }

  predicate OpsOk(socket: Socket, ops: seq<Op>) { forall j :: 0 <= j < |ops| ==> OpOk(socket, ops[j]) }

  function ReplayOne(socket: Socket, spec: Spec, s: Replay, op: Op): (r: Replay)
    requires s.Valid() && OpOk(socket, op)
    ensures r.Valid()
  {
    match op
    case Push(update) => s.(pending := s.pending + [update])
    case Apply => s.(history := s.history + s.pending, pending := [])
    case Send(batch, limit) => s.(cache := AfterSend(socket, spec, s.history, s.cache, batch, limit))
  }

  function ReplayAll(socket: Socket, spec: Spec, initial: Facts, ops: seq<Op>): (r: Replay)
    requires OpsOk(socket, ops)
    ensures r.Valid()
    decreases |ops|
  {
    if ops == [] then Replay([initial], [], None)
    else ReplayOne(socket, spec, ReplayAll(socket, spec, initial, ops[..|ops| - 1]), ops[|ops| - 1])
  }

  /** One operation of a run.  A send either finds that no cache can be built under the
      snapshot in use, or sends with a cache exactly as `SendExact` says; the facts that
      cache was built from are the snapshot in use unless 2^64 snapshots or more were
      adopted since then. */
  ghost predicate OpExact(socket: Socket, spec: Spec, s: Replay, op: Op, r: Outcome)
    requires s.Valid() && OpOk(socket, op)
  {
    if !op.Send? then r == Nothing
    else
      r.Outcome? && match Refreshed(socket, spec, s.history, s.cache)
        case None => r.sent == [] && r.error.Some? && r.error == BuildError(socket, spec, s.Snapshot())
        case Some(c) =>
          && SendExact(socket, spec, s.history[c.at], c.patched, op.batch, op.limit, r.sent, r.error)
          && (|s.history| - 1 - c.at < GENERATIONS ==> s.history[c.at] == s.Snapshot())
  }

  ghost predicate RunExact(socket: Socket, spec: Spec, initial: Facts, ops: seq<Op>, results: seq<Outcome>)
    requires OpsOk(socket, ops) && |results| <= |ops|
  {
    forall j :: 0 <= j < |results| ==>
      OpExact(socket, spec, ReplayAll(socket, spec, initial, ops[..j]), ops[j], results[j])
  }

  /** Route updates pushed and adopted at any moments, and sends through one endpoint in
      between, for every run: every packet accepted by every send has the descriptor and
      frame bytes that the plain path gives it if and only if the patches of the cached
      header since it was last built, this packet's included, leave the right header. */
  method Run(socket: Socket, spec: Spec, initial: Facts, ops: seq<Op>) returns (results: seq<Outcome>)
    requires OpsOk(socket, ops)
    ensures |results| == |ops| && RunExact(socket, spec, initial, ops, results)
  {
    hide CacheAfter, OpExact, ReplayOne, OpOk;
    var routes := new XdpLocalRoutes(initial);
    var endpoint := new XdpUdpEndpoint(socket, spec, routes);
    results := [];
    assert ops[..0] == [];
    for i := 0 to |ops|
      invariant fresh(routes) && fresh(endpoint) && |results| == i && endpoint.socket == socket && endpoint.spec == spec
      invariant InReplay(routes, endpoint, ReplayAll(socket, spec, initial, ops[..i]))
      invariant RunExact(socket, spec, initial, ops, results)
    {
      assert ops[..i + 1][..i] == ops[..i];
      var r := RunOne(routes, endpoint, ReplayAll(socket, spec, initial, ops[..i]), ops[i]);
      results := results + [r];
    }
  }

  /** The objects hold what the replay says. */
  ghost predicate InReplay(routes: XdpLocalRoutes, endpoint: XdpUdpEndpoint, s: Replay)
    reads routes, endpoint
  {
    endpoint.Valid(routes) && s == Replay(routes.history, routes.pending, endpoint.View())
  }

  /** One operation of a run. */
  method RunOne(routes: XdpLocalRoutes, endpoint: XdpUdpEndpoint, ghost s: Replay, op: Op) returns (r: Outcome)
    requires s.Valid() && OpOk(endpoint.socket, op) && InReplay(routes, endpoint, s)
    modifies routes, endpoint
    ensures InReplay(routes, endpoint, ReplayOne(endpoint.socket, endpoint.spec, s, op))
    ensures OpExact(endpoint.socket, endpoint.spec, s, op, r)
  {
    hide CacheAfter, RouteAt, SendExact, Refreshed, AfterSend, BuildError;
    r := Nothing;
    match op {
      case Push(update) => routes.PushUpdate(update);
      case Apply => RunApply(routes, endpoint);
      case Send(batch, limit) =>
        CurrentFacts(endpoint.socket, endpoint.spec, s);
        var sent, error := endpoint.SendBatch(routes, batch, limit);
        r := Outcome(sent, error);
    }
  }

  /** A cache that is still used after fewer than 2^64 updates was built under the snapshot
      in use. */
  lemma CurrentFacts(socket: Socket, spec: Spec, s: Replay)
    requires s.Valid()
    ensures var c := Refreshed(socket, spec, s.history, s.cache);
      c.Some? ==>
        && c.value.at < |s.history|
        && (|s.history| - 1 - c.value.at < GENERATIONS ==> c.value.at == |s.history| - 1)
  {
    hide BuildError;
    if s.cache.Some? { SameGeneration(s.cache.value.at, |s.history| - 1); }
  }

  /** Adopting updates keeps what an endpoint knows about its cache. */
  method RunApply(routes: XdpLocalRoutes, endpoint: XdpUdpEndpoint)
    requires endpoint.Valid(routes)
    modifies routes
    ensures endpoint.Valid(routes) && routes.pending == []
    ensures routes.history == old(routes.history) + old(routes.pending)
  {
    hide CacheAfter, RouteAt;
    var _ := routes.ApplyUpdates();
  }

  // ---------------------------------------------------------------- what the exact condition gives

  lemma {:induction false} NoPatchWhenFixed(socket: Socket, spec: Spec, facts: Facts, batch: seq<Packet>, k: nat)
    requires k <= |batch| && BatchOk(socket, batch) && spec.payloadLen.Some?
    ensures Patches(socket, spec, facts, batch, k) == []
  {
    hide RouteAt;
    if k > 0 { NoPatchWhenFixed(socket, spec, facts, batch, k - 1); }
  }

  /** The caches of a fixed-length endpoint are never patched. */
  lemma {:induction false} FixedLengthReplay(socket: Socket, spec: Spec, initial: Facts, ops: seq<Op>)
    requires OpsOk(socket, ops) && spec.payloadLen.Some?
    ensures var s := ReplayAll(socket, spec, initial, ops); s.cache.Some? ==> s.cache.value.patched == []
    decreases |ops|
  {
    hide RouteAt, BuildError, Taken;
    if ops != [] {
      var front, op := ops[..|ops| - 1], ops[|ops| - 1];
      FixedLengthReplay(socket, spec, initial, front);
      var s := ReplayAll(socket, spec, initial, front);
      if op.Send? && Refreshed(socket, spec, s.history, s.cache).Some? {
        var c := Refreshed(socket, spec, s.history, s.cache).value;
        var n := MinLen(op.batch, op.limit);
        var t := Taken(socket, spec, s.history[c.at], op.batch, n);
        NoPatchWhenFixed(socket, spec, s.history[c.at], op.batch, if t < n then t + 1 else t);
      }
    }
  }

  lemma {:induction false} PatchesFit(socket: Socket, spec: Spec, facts: Facts, batch: seq<Packet>, k: nat)
    requires k <= |batch| && BatchOk(socket, batch)
    ensures LengthsOk(Patches(socket, spec, facts, batch, k))
  {
    hide RouteAt;
    if k > 0 { PatchesFit(socket, spec, facts, batch, k - 1); }
  }

  /** Every length a header is built for or patched to fits its length fields. */
  ghost predicate LengthsFit(spec: Spec, patched: seq<nat>) { BuiltLen(spec) + 28 < 0x1_0000 && LengthsOk(patched) }

  lemma RefreshedFits(socket: Socket, spec: Spec, history: seq<Facts>, b: Option<Built>)
    requires history != [] && (b.Some? ==> LengthsFit(spec, b.value.patched))
    ensures var r := Refreshed(socket, spec, history, b); r.Some? ==> LengthsFit(spec, r.value.patched)
  {
    hide RouteAt;
  }

  lemma {:induction false} ReplayFits(socket: Socket, spec: Spec, initial: Facts, ops: seq<Op>)
    requires OpsOk(socket, ops)
    ensures var s := ReplayAll(socket, spec, initial, ops); s.cache.Some? ==> LengthsFit(spec, s.cache.value.patched)
    decreases |ops|
  {
    hide RouteAt, BuildError, Taken, Refreshed, Patches;
    if ops != [] {
      var front, op := ops[..|ops| - 1], ops[|ops| - 1];
      ReplayFits(socket, spec, initial, front);
      var s := ReplayAll(socket, spec, initial, front);
      if op.Send? && Refreshed(socket, spec, s.history, s.cache).Some? {
        RefreshedFits(socket, spec, s.history, s.cache);
        var c := Refreshed(socket, spec, s.history, s.cache).value;
        var n := MinLen(op.batch, op.limit);
        var t := Taken(socket, spec, s.history[c.at], op.batch, n);
        PatchesFit(socket, spec, s.history[c.at], op.batch, if t < n then t + 1 else t);
      }
    }
  }

  /** What the plain path would submit for this packet is what was submitted. */
  ghost predicate AsPlain(socket: Socket, spec: Spec, facts: Facts, p: Packet, sent: Submitted)
    requires p.Valid() && socket.l2Headroom <= p.start
  {
    var plain := PlainPrepare(socket, spec, RouteAt(socket, spec, facts), p);
    plain.Ok? ==> plain.value == sent
  }

  /** The patches of the cached header up to and including packet `k` of a send. */
  function PatchesUpTo(socket: Socket, spec: Spec, s: Replay, batch: seq<Packet>, k: nat): seq<nat>
    requires s.Valid() && k < |batch| && BatchOk(socket, batch) && Refreshed(socket, spec, s.history, s.cache).Some?
  {
    var c := Refreshed(socket, spec, s.history, s.cache).value;
    c.patched + Patches(socket, spec, s.history[c.at], batch, k + 1)
  }

  /** In a run with fewer than 2^64 adopted updates, a packet is submitted as the plain path
      would under the snapshot in use whenever no patch since the cache was built goes over
      the carry case; in particular always for a fixed length. */
  lemma CleanPacketsAsPlain(socket: Socket, spec: Spec, initial: Facts, ops: seq<Op>, results: seq<Outcome>, j: nat,
                            k: nat)
    requires OpsOk(socket, ops) && |results| == |ops| && RunExact(socket, spec, initial, ops, results)
    requires j < |ops| && ops[j].Send? && results[j].Outcome? && k < |results[j].sent|
    ensures var s := ReplayAll(socket, spec, initial, ops[..j]);
      && k < |ops[j].batch| && OpOk(socket, ops[j]) && Refreshed(socket, spec, s.history, s.cache).Some?
      && var patches := PatchesUpTo(socket, spec, s, ops[j].batch, k);
         && LengthsFit(spec, patches) && (spec.payloadLen.Some? ==> patches == [])
         && (|s.history| <= GENERATIONS
             && NoCarryOnTheWay(FieldsOf(socket, spec), BuiltLen(spec), patches) ==>
               AsPlain(socket, spec, s.Snapshot(), ops[j].batch[k], results[j].sent[k]))
  {
    hide RouteAt, BuildError, FieldsOf, PlainPrepare, ChainIsRight, Taken, ReplayAll, PatchUnder, Refreshed, Patches;
    hide OnTheWire, ChecksumVerifies;
    var s := ReplayAll(socket, spec, initial, ops[..j]);
    assert OpOk(socket, ops[j]) && OpExact(socket, spec, s, ops[j], results[j]);
    var c := Refreshed(socket, spec, s.history, s.cache).value;
    var patches := PatchesUpTo(socket, spec, s, ops[j].batch, k);
    ReplayFits(socket, spec, initial, ops[..j]);
    RefreshedFits(socket, spec, s.history, s.cache);
    PatchesFit(socket, spec, s.history[c.at], ops[j].batch, k + 1);
    if spec.payloadLen.Some? {
      FixedLengthReplay(socket, spec, initial, ops[..j]);
      NoPatchWhenFixed(socket, spec, s.history[c.at], ops[j].batch, k + 1);
    }
    CleanChainIsRight(FieldsOf(socket, spec), BuiltLen(spec), patches);
  }

  // ---------------------------------------------------------------- refusals on the facts

  /** A packet is refused exactly when there is no way out, the MTU has no room for IP and
      UDP headers, a fixed length is not met, the datagram exceeds the MTU or 16 bits, or
      its headers do not fit in front of it; in this order. */
  lemma RefusalIff(socket: Socket, spec: Spec, facts: Facts, p: Packet)
    requires p.Valid() && FactsOk(facts)
    ensures var e := Refusal(socket, spec, facts, p);
      && (e == Some(NoEgressRoute) <==> NoWayOut(facts, spec.destination, socket.ifindex))
      && forall header, mtu: nat :: RoutedBy(facts, socket, spec.destination, header, mtu) ==>
           var wrongLen := spec.payloadLen.Some? && spec.payloadLen.value != p.Len();
           var tooLong := p.Len() + 28 > mtu || p.Len() + 28 > 0xFFFF;
           && (e == Some(InvalidPacket) <==> mtu < 28 || wrongLen)
           && (e == Some(OversizeForMtu) <==> mtu >= 28 && !wrongLen && tooLong)
           && (e == Some(Backend) <==> !wrongLen && !tooLong && p.start < 42)
           && (e == None <==> !wrongLen && !tooLong && p.start >= 42)
  {
    hide Resolve, NoWayOut, RoutedBy;
    RouteMeans(socket, spec, facts);
  }

  /** No cache can be built exactly for a segmented endpoint, without a way out, or when the
      fixed length, or the headers alone, exceed the MTU or 16 bits. */
  lemma BuildErrorIff(socket: Socket, spec: Spec, facts: Facts)
    requires FactsOk(facts)
    ensures var e := BuildError(socket, spec, facts);
      && (e == Some(NoEgressRoute) <==> !spec.gso && NoWayOut(facts, spec.destination, socket.ifindex))
      && forall header, mtu: nat :: RoutedBy(facts, socket, spec.destination, header, mtu) ==>
           var len := match spec.payloadLen case Some(len) => len case None => 0;
           && (e == Some(InvalidPacket) <==> spec.gso || mtu < 28)
           && (e == Some(OversizeForMtu) <==> !spec.gso && mtu >= 28 && (len + 28 > mtu || len + 28 > 0xFFFF))
           && (e == None <==> !spec.gso && len + 28 <= mtu && len + 28 <= 0xFFFF)
  {
    hide Resolve, NoWayOut, RoutedBy, FieldsOf, Template;
    RouteMeans(socket, spec, facts);
  }

  lemma RouteMeans(socket: Socket, spec: Spec, facts: Facts)
    requires FactsOk(facts)
    ensures match RouteAt(socket, spec, facts)
      case None =>
        && NoWayOut(facts, spec.destination, socket.ifindex)
        && forall header, mtu: nat :: !RoutedBy(facts, socket, spec.destination, header, mtu)
      case Some(r) =>
        && !NoWayOut(facts, spec.destination, socket.ifindex) && |r.l2Header| == 14
        && forall header, mtu: nat :: RoutedBy(facts, socket, spec.destination, header, mtu) ==>
             header == r.l2Header && mtu == r.ipMtu
  {
    hide Resolve, NoWayOut, RoutedBy;
    ResolveMeans(facts, socket, spec.destination);
    NeverBoth(facts, socket, spec.destination);
    match Resolve(facts, socket, spec.destination)
    case None =>
    case Some(r) =>
      ResolvedIsIpv4(facts, socket, spec.destination);
      OneRoute(facts, socket, spec.destination, r.l2Header, r.ipMtu);
  }
}
