/** The snapshot: facts plus the longest-prefix index and the folded per-interface
    egress arrays, kept in step by every update, and the lookups that use them. */
module RouteSnapshot {
  import opened Bits
  import opened Wrappers
  import opened Egress
  import opened BinaryTrie
  import opened PoptrieBuilder
  import opened Poptrie
  import opened PoptrieSize
  import opened Routes

  const DIRECT_BITS: nat := 14
  const EGRESS_NONE: nat := 0xFFFF_FFFF
  const EGRESS_ON_LINK: nat := 0xFFFF_FFFE

  datatype InterfaceEgress = InterfaceEgress(slots: seq<nat>, egresses: seq<ResolvedEgress>)

  // ---------------------------------------------------------------- what the folded arrays hold

  /** Slot of one route on one interface. */
  ghost predicate SlotOk(neighbors: map<(nat, Ipv4), Mac>, interface: InterfaceInfo, route: Ipv4Route, slot: nat,
                         egresses: seq<ResolvedEgress>)
  {
    if !Leaves(interface, route) then slot == EGRESS_NONE
    else match route.gateway
      case None => slot == EGRESS_ON_LINK
      case Some(gateway) =>
        match NeighborMac(neighbors, interface.ifindex, route, gateway)
        case None => slot == EGRESS_NONE
        case Some(mac) =>
          slot < |egresses| && slot < EGRESS_ON_LINK
            && egresses[slot] == FromEgress(RouteEgress(interface, route, interface.queue, mac))
  }

  ghost predicate SlotsOk(f: Facts, interface: InterfaceInfo, n: nat, slots: seq<nat>, egresses: seq<ResolvedEgress>)
    requires n <= |f.routes| == |slots|
  {
    forall i :: 0 <= i < n ==> SlotOk(f.neighbors, interface, f.routes[i], slots[i], egresses)
  }

  /** Folded entry of an interface; it may be left out when no slot would be used. */
  ghost predicate FoldOk(f: Facts, interface: InterfaceInfo, e: Option<InterfaceEgress>)
  {
    match e
    case Some(entry) => |entry.slots| == |f.routes| && SlotsOk(f, interface, |f.routes|, entry.slots, entry.egresses)
    case None => SlotsOk(f, interface, |f.routes|, seq(|f.routes|, _ => EGRESS_NONE), [])
  }

  ghost predicate EgressIndexOk(f: Facts, index: map<nat, InterfaceEgress>)
  {
    && (forall i :: i in index ==> i in f.interfaces)
    && (forall i :: i in f.interfaces ==> FoldOk(f, f.interfaces[i], PoptrieBuilder.Lookup(index, i)))
  }

  ghost predicate RouteIndexOk(routes: seq<Ipv4Route>, index: Option<Table<nat>>)
  {
    if routes == [] then index.None? else index.Some? && Answers(index.value, IndexOf(routes, 0), BITS, DIRECT_BITS)
  }

  lemma AddressWidth()
    ensures Pow2(BITS) == 0x1_0000_0000 && WidthsOk(BITS, DIRECT_BITS)
  {
    hide Pow2;
    WordSizes();
  }

  // ---------------------------------------------------------------- rebuilding the indexes

  /** `build` accepts the prefixes of this table. */
  ghost predicate IndexFits(routes: seq<Ipv4Route>)
  {
    WidthsOk(BITS, DIRECT_BITS) && (routes == [] || Fits(IndexOf(routes, 0), BITS, DIRECT_BITS))
  }

  /** `rebuild_route_index_v4`: routes inserted from the last to the first, so the
      earlier route of a prefix wins.  `ok` is false where building the table panics. */
  method RebuildRouteIndex(routes: seq<Ipv4Route>) returns (index: Option<Table<nat>>, ok: bool)
    ensures ok <==> IndexFits(routes)
    ensures ok ==> RouteIndexOk(routes, index)
  {
    hide Answers, Pow2, Shr, ValuesFit, NodesFit, AsWord;
    hide Represents, Interned, Reached, Tight, Labelled, RoutesOk, ValuesInTable, InArena, NodesNeeded;
    AddressWidth();
    if routes == [] { return None, true; }
    var builder := new Builder<nat>(BITS);
    var i := |routes|;
    while i > 0
      invariant 0 <= i <= |routes| && fresh(builder) && builder.Valid() && builder.bits == BITS
      invariant builder.routes == IndexOf(routes, i)
    {
      i := i - 1;
      var _ := builder.Insert(routes[i].destination, routes[i].Len(), AsWord(i));
    }
    var built := Build(builder, DIRECT_BITS);
    if !built.Built? { return None, false; }
    return Some(built.table), true;
  }

  /** The prebuilt egress of one gateway route on one interface, if it has one. */
  function GatewayEgress(f: Facts, interface: InterfaceInfo, i: nat): Option<ResolvedEgress>
    requires i < |f.routes|
  {
    var route := f.routes[i];
    if !Leaves(interface, route) || route.gateway.None? then None
    else match NeighborMac(f.neighbors, interface.ifindex, route, route.gateway.value)
      case None => None
      case Some(mac) => Some(FromEgress(RouteEgress(interface, route, interface.queue, mac)))
  }

  /** The different egresses of an interface, among its first `n` routes. */
  ghost function GatewayEgresses(f: Facts, interface: InterfaceInfo, n: nat): set<ResolvedEgress>
    requires n <= |f.routes|
  {
    set i | 0 <= i < n && GatewayEgress(f, interface, i).Some? :: GatewayEgress(f, interface, i).value
  }

  /** An egress has a slot number that is no sentinel. */
  ghost predicate EgressesFit(f: Facts, interface: InterfaceInfo)
  {
    |GatewayEgresses(f, interface, |f.routes|)| <= EGRESS_ON_LINK
  }

  /** Some route's egress got the number that stands for a direct route. */
  ghost predicate Clashes(f: Facts, interface: InterfaceInfo, n: nat, slots: seq<nat>)
    requires n <= |f.routes| == |slots|
  {
    exists k :: 0 <= k < n && GatewayEgress(f, interface, k).Some? && slots[k] == EGRESS_ON_LINK
  }

  /** One interface of `rebuild_egress_index_v4`: a dense slot per route and the
      distinct resolved egresses, `None` when nothing leaves through it.  The entry is
      right exactly when the egresses of the interface can be numbered. */
  method FoldInterface(f: Facts, interface: InterfaceInfo) returns (entry: Option<InterfaceEgress>)
    ensures FoldOk(f, interface, entry) <==> EgressesFit(f, interface)
    ensures entry.Some? ==>
      Distinct(entry.value.egresses) && Elements(entry.value.egresses) == GatewayEgresses(f, interface, |f.routes|)
  {
    hide DedupOk, SlotsOk, Clashes, GatewayEgresses, GatewayEgress, Distinct, Elements, AsWord, FromEgress;
    var slots: seq<nat> := seq(|f.routes|, _ => EGRESS_NONE);
    var egresses: seq<ResolvedEgress> := [];
    var dedup: map<ResolvedEgress, nat> := map[];
    var egressable := false;
    NothingFolded(f, interface, slots);
    for i := 0 to |f.routes|
      invariant |slots| == |f.routes| && Folded(f, interface, i, slots, dedup, egresses)
      invariant forall k :: i <= k < |slots| ==> slots[k] == EGRESS_NONE
      invariant !egressable ==> (forall k :: 0 <= k < |slots| ==> slots[k] == EGRESS_NONE) && egresses == []
    {
      var route := f.routes[i];
      GatewayCases(f, interface, i);
      if !Leaves(interface, route) {
        PlainStep(f, interface, i, slots, dedup, egresses, EGRESS_NONE);
        continue;
      }
      match route.gateway {
        case Some(gateway) =>
          var mac := NeighborMac(f.neighbors, interface.ifindex, route, gateway);
          if mac.None? {
            PlainStep(f, interface, i, slots, dedup, egresses, EGRESS_NONE);
            continue;
          }
          var resolved := FromEgress(RouteEgress(interface, route, interface.queue, mac.value));
          var slot, dedup', egresses' := InternEgress(dedup, egresses, resolved);
          GatewayStep(f, interface, i, slots, dedup, egresses, slot, dedup', egresses');
          slots, dedup, egresses := slots[i := slot], dedup', egresses';
        case None =>
          PlainStep(f, interface, i, slots, dedup, egresses, EGRESS_ON_LINK);
          slots := slots[i := EGRESS_ON_LINK];
      }
      egressable := true;
    }
    FoldedEnd(f, interface, slots, dedup, egresses);
    if !egressable {
      assert slots == seq(|f.routes|, _ => EGRESS_NONE);
      return None;
    }
    return Some(InterfaceEgress(slots, egresses));
  }

  /** The state of the fold after `n` routes. */
  ghost predicate Folded(f: Facts, interface: InterfaceInfo, n: nat, slots: seq<nat>, dedup: map<ResolvedEgress, nat>,
                         egresses: seq<ResolvedEgress>)
    requires n <= |f.routes| == |slots|
  {
    && DedupOk(dedup, egresses) && Elements(egresses) == GatewayEgresses(f, interface, n)
    && (if |egresses| <= EGRESS_ON_LINK then SlotsOk(f, interface, n, slots, egresses)
        else Clashes(f, interface, n, slots))
  }

  ghost predicate DedupOk(dedup: map<ResolvedEgress, nat>, egresses: seq<ResolvedEgress>)
  {
    && Distinct(egresses) && (forall r :: r in dedup ==> r in egresses)
    && (forall i :: 0 <= i < |egresses| ==> egresses[i] in dedup && dedup[egresses[i]] == AsWord(i))
  }

  /** The slot of an egress, a new one if it was not there. */
  method InternEgress(dedup: map<ResolvedEgress, nat>, egresses: seq<ResolvedEgress>, resolved: ResolvedEgress)
    returns (slot: nat, dedup': map<ResolvedEgress, nat>, egresses': seq<ResolvedEgress>)
    requires DedupOk(dedup, egresses)
    ensures DedupOk(dedup', egresses') && resolved in dedup' && slot == dedup'[resolved]
    ensures egresses' == if resolved in egresses then egresses else egresses + [resolved]
  {
    hide AsWord;
    if resolved in dedup { return dedup[resolved], dedup, egresses; }
    slot := AsWord(|egresses|);
    dedup' := dedup[resolved := slot];
    egresses' := egresses + [resolved];
  }

  lemma NothingFolded(f: Facts, interface: InterfaceInfo, slots: seq<nat>)
    requires |slots| == |f.routes|
    ensures Folded(f, interface, 0, slots, map[], [])
  {
  }

  lemma GatewayCases(f: Facts, interface: InterfaceInfo, i: nat)
    requires i < |f.routes|
    ensures var route := f.routes[i];
      GatewayEgress(f, interface, i)
      == if !Leaves(interface, route) || route.gateway.None? then None
         else match NeighborMac(f.neighbors, interface.ifindex, route, route.gateway.value)
           case None => None
           case Some(mac) => Some(FromEgress(RouteEgress(interface, route, interface.queue, mac)))
  {
  }

  /** A route without a prebuilt egress. */
  lemma PlainStep(f: Facts, interface: InterfaceInfo, i: nat, slots: seq<nat>, dedup: map<ResolvedEgress, nat>,
                  egresses: seq<ResolvedEgress>, slot: nat)
    requires i < |f.routes| == |slots| && Folded(f, interface, i, slots, dedup, egresses)
    requires GatewayEgress(f, interface, i).None?
    requires slot == if Leaves(interface, f.routes[i]) && f.routes[i].gateway.None? then EGRESS_ON_LINK else EGRESS_NONE
    ensures Folded(f, interface, i + 1, slots[i := slot], dedup, egresses)
    ensures slots[i] == slot ==> slots[i := slot] == slots
  {
    hide DedupOk, Elements;
    assert GatewayEgresses(f, interface, i + 1) == GatewayEgresses(f, interface, i);
    if |egresses| <= EGRESS_ON_LINK {
      SlotsStep(f, interface, i, slots, egresses, slot, egresses);
    } else {
      ClashStays(f, interface, i, slots, slot);
    }
  }

  /** A route with a prebuilt egress. */
  lemma GatewayStep(f: Facts, interface: InterfaceInfo, i: nat, slots: seq<nat>, dedup: map<ResolvedEgress, nat>,
                    egresses: seq<ResolvedEgress>, slot: nat, dedup': map<ResolvedEgress, nat>,
                    egresses': seq<ResolvedEgress>)
    requires i < |f.routes| == |slots| && Folded(f, interface, i, slots, dedup, egresses)
    requires GatewayEgress(f, interface, i).Some? && DedupOk(dedup', egresses')
    requires var resolved := GatewayEgress(f, interface, i).value;
      && resolved in dedup' && slot == dedup'[resolved]
      && egresses' == if resolved in egresses then egresses else egresses + [resolved]
    ensures Folded(f, interface, i + 1, slots[i := slot], dedup', egresses')
  {
    hide SlotsOk, Clashes, AsWord, GatewayEgress, Distinct, FromEgress;
    var resolved := GatewayEgress(f, interface, i).value;
    MoreEgresses(f, interface, i);
    assert Elements(egresses') == Elements(egresses) + {resolved};
    assert resolved in egresses';
    var at :| 0 <= at < |egresses'| && egresses'[at] == resolved;
    assert slot == AsWord(at);
    if |egresses'| <= EGRESS_ON_LINK {
      GatewayCases(f, interface, i);
      SlotsStep(f, interface, i, slots, egresses, slot, egresses');
    } else if |egresses| <= EGRESS_ON_LINK {
      assert at == EGRESS_ON_LINK == slot;
      ClashStarts(f, interface, i, slots, slot);
    } else {
      ClashStays(f, interface, i, slots, slot);
    }
  }

  lemma MoreEgresses(f: Facts, interface: InterfaceInfo, i: nat)
    requires i < |f.routes| && GatewayEgress(f, interface, i).Some?
    ensures GatewayEgresses(f, interface, i + 1)
         == GatewayEgresses(f, interface, i) + {GatewayEgress(f, interface, i).value}
  {
    hide GatewayEgress;
  }

  lemma ClashStarts(f: Facts, interface: InterfaceInfo, i: nat, slots: seq<nat>, slot: nat)
    requires i < |f.routes| == |slots| && GatewayEgress(f, interface, i).Some? && slot == EGRESS_ON_LINK
    ensures Clashes(f, interface, i + 1, slots[i := slot])
  {
    hide GatewayEgress;
    assert slots[i := slot][i] == EGRESS_ON_LINK;
  }

  lemma ClashStays(f: Facts, interface: InterfaceInfo, i: nat, slots: seq<nat>, slot: nat)
    requires i < |f.routes| == |slots| && Clashes(f, interface, i, slots)
    ensures Clashes(f, interface, i + 1, slots[i := slot])
  {
    hide GatewayEgress;
    var k :| 0 <= k < i && GatewayEgress(f, interface, k).Some? && slots[k] == EGRESS_ON_LINK;
    assert slots[i := slot][k] == EGRESS_ON_LINK;
  }

  lemma SlotsStep(f: Facts, interface: InterfaceInfo, i: nat, slots: seq<nat>, egresses: seq<ResolvedEgress>, slot: nat,
                  egresses': seq<ResolvedEgress>)
    requires i < |f.routes| == |slots| && SlotsOk(f, interface, i, slots, egresses) && egresses <= egresses'
    requires SlotOk(f.neighbors, interface, f.routes[i], slot, egresses')
    ensures SlotsOk(f, interface, i + 1, slots[i := slot], egresses')
  {
    SlotsGrow(f, interface, i, slots, egresses, egresses');
  }

  /** At the end the slots are right unless one of them is the number of a direct route. */
  lemma FoldedEnd(f: Facts, interface: InterfaceInfo, slots: seq<nat>, dedup: map<ResolvedEgress, nat>,
                  egresses: seq<ResolvedEgress>)
    requires |slots| == |f.routes| && Folded(f, interface, |f.routes|, slots, dedup, egresses)
    ensures SlotsOk(f, interface, |f.routes|, slots, egresses) <==> EgressesFit(f, interface)
    ensures Distinct(egresses) && Elements(egresses) == GatewayEgresses(f, interface, |f.routes|)
  {
    hide GatewayEgresses;
    DistinctSize(egresses);
    if |egresses| > EGRESS_ON_LINK {
      var k :| 0 <= k < |slots| && GatewayEgress(f, interface, k).Some? && slots[k] == EGRESS_ON_LINK;
      assert !SlotOk(f.neighbors, interface, f.routes[k], slots[k], egresses);
    }
  }

  lemma SlotsGrow(f: Facts, interface: InterfaceInfo, n: nat, slots: seq<nat>, egresses: seq<ResolvedEgress>,
                  egresses': seq<ResolvedEgress>)
    requires n <= |f.routes| == |slots| && SlotsOk(f, interface, n, slots, egresses) && egresses <= egresses'
    ensures SlotsOk(f, interface, n, slots, egresses')
  {
    forall i | 0 <= i < n
      ensures SlotOk(f.neighbors, interface, f.routes[i], slots[i], egresses')
    {
      assert SlotOk(f.neighbors, interface, f.routes[i], slots[i], egresses);
    }
  }

  ghost predicate AllEgressesFit(f: Facts)
  {
    forall i :: i in f.interfaces ==> EgressesFit(f, f.interfaces[i])
  }

  /** `rebuild_egress_index_v4`, over the interfaces in any order. */
  method RebuildEgressIndex(f: Facts) returns (index: map<nat, InterfaceEgress>)
    ensures EgressIndexOk(f, index) <==> AllEgressesFit(f)
  {
    hide EgressesFit, FoldOk;
    index := map[];
    if f.routes == [] {
      NoRoutesFold(f);
      return;
    }
    var todo := f.interfaces.Keys;
    while todo != {}
      invariant todo <= f.interfaces.Keys
      invariant forall i :: i in index ==> i in f.interfaces && i !in todo
      invariant forall i :: i in f.interfaces && i !in todo ==>
        (FoldOk(f, f.interfaces[i], PoptrieBuilder.Lookup(index, i)) <==> EgressesFit(f, f.interfaces[i]))
      decreases |todo|
    {
      var i :| i in todo;
      var entry := FoldInterface(f, f.interfaces[i]);
      todo := todo - {i};
      if entry.Some? { index := index[i := entry.value]; }
    }
  }

  lemma NoRoutesFold(f: Facts)
    requires f.routes == []
    ensures EgressIndexOk(f, map[]) && AllEgressesFit(f)
  {
    forall i | i in f.interfaces
      ensures EgressesFit(f, f.interfaces[i])
    {
      assert GatewayEgresses(f, f.interfaces[i], 0) == {};
    }
  }

  // ---------------------------------------------------------------- snapshot

  /** An Ethernet header and the IP-layer MTU of one datagram. */
  datatype ResolvedL2 = ResolvedL2(l2Header: seq<byte>, ipMtu: nat)

  /** The facts whose indexes the code can number: routes by 32-bit numbers, the
      prefixes by a table that `build` accepts, the egresses of each interface by slots
      that are no sentinel. */
  ghost predicate Indexable(f: Facts)
  {
    |f.routes| <= WORD && IndexFits(f.routes) && AllEgressesFit(f)
  }

  class Snapshot {
    var routes: seq<Ipv4Route>
    var routeIndex: Option<Table<nat>>
    var egressIndex: map<nat, InterfaceEgress>
    var neighbors: map<(nat, Ipv4), Mac>
    var interfaces: map<nat, InterfaceInfo>

    ghost function View(): Facts
      reads this
    {
      Facts(routes, neighbors, interfaces)
    }

    /** Both indexes say what the facts say. */
    ghost predicate Valid()
      reads this
    {
      && Sorted(routes) && |routes| <= WORD
      && (forall i :: i in interfaces ==> interfaces[i].ifindex == i)
      && RouteIndexOk(routes, routeIndex) && EgressIndexOk(View(), egressIndex)
    }

    constructor ()
      ensures Valid() && View() == Facts([], map[], map[])
    {
      routes, routeIndex, egressIndex, neighbors, interfaces := [], None, map[], map[], map[];
    }

    /** `upsert_route_v4`; `ok` is false where building the index panics. */
    method UpsertRoute(route: Ipv4Route) returns (ok: bool)
      requires Valid()
      modifies this
      ensures View() == old(View()).(routes := StableSort(Upserted(old(routes), route)))
      ensures ok <==> IndexFits(routes)
      ensures Indexable(View()) ==> Valid()
    {
      hide RouteIndexOk, EgressIndexOk, Sorted, StableSort, Upserted, IndexFits, AllEgressesFit;
      UpsertNoSort(route);
      StableSortSorts(routes);
      SortLength(routes);
      routes := StableSort(routes);
      routeIndex, ok := RebuildRouteIndex(routes);
      egressIndex := RebuildEgressIndex(Facts(routes, neighbors, interfaces));
    }

    /** `upsert_routes_v4`: one sort at the end, nothing at all for no routes. */
    method UpsertRoutes(updates: seq<Ipv4Route>) returns (ok: bool)
      requires Valid()
      modifies this
      ensures View()
        == old(View()).(routes := if updates == [] then old(routes) else StableSort(UpsertedAll(old(routes), updates)))
      ensures ok <==> updates == [] || IndexFits(routes)
      ensures Indexable(View()) ==> Valid()
    {
      hide RouteIndexOk, EgressIndexOk, Sorted, StableSort, Upserted, IndexFits, AllEgressesFit;
      var any := false;
      for i := 0 to |updates|
        invariant routes == UpsertedAll(old(routes), updates[..i])
        invariant neighbors == old(neighbors) && interfaces == old(interfaces)
        invariant routeIndex == old(routeIndex) && egressIndex == old(egressIndex)
        invariant any == (i > 0)
      {
        assert updates[..i + 1][..i] == updates[..i];
        UpsertNoSort(updates[i]);
        any := true;
      }
      assert updates[..|updates|] == updates;
      ok := true;
      if any {
        StableSortSorts(routes);
        SortLength(routes);
        routes := StableSort(routes);
        routeIndex, ok := RebuildRouteIndex(routes);
        egressIndex := RebuildEgressIndex(Facts(routes, neighbors, interfaces));
      }
    }

    /** `upsert_route_v4_no_sort`: replaces the first same route, else appends. */
    method UpsertNoSort(route: Ipv4Route)
      modifies this`routes
      ensures routes == Upserted(old(routes), route)
    {
      var i := 0;
      while i < |routes| && !routes[i].SameRoute(route)
        invariant 0 <= i <= |routes| && routes == old(routes)
        invariant FindSame(routes, route, 0) == FindSame(routes, route, i)
      {
        i := i + 1;
      }
      routes := if i < |routes| then routes[i := route] else routes + [route];
    }

    method UpsertNeighbor(ifindex: nat, ip: Ipv4, mac: Mac)
      requires Valid()
      modifies this
      ensures Indexable(View()) ==> Valid()
      ensures View() == old(View()).(neighbors := old(neighbors)[(ifindex, ip) := mac])
    {
      hide RouteIndexOk, EgressIndexOk, Sorted, StableSort, Upserted, IndexFits, AllEgressesFit;
      neighbors := neighbors[(ifindex, ip) := mac];
      egressIndex := RebuildEgressIndex(Facts(routes, neighbors, interfaces));
    }

    method UpsertInterface(interface: InterfaceInfo)
      requires Valid()
      modifies this
      ensures Indexable(View()) ==> Valid()
      ensures View() == old(View()).(interfaces := old(interfaces)[interface.ifindex := interface])
    {
      hide RouteIndexOk, EgressIndexOk, Sorted, StableSort, Upserted, IndexFits, AllEgressesFit;
      interfaces := interfaces[interface.ifindex := interface];
      egressIndex := RebuildEgressIndex(Facts(routes, neighbors, interfaces));
    }

    /** `lookup_route_index_v4`. */
    method LookupRouteIndex(dst: Ipv4) returns (r: Option<nat>)
      requires Valid()
      ensures r == FirstMatch(routes, dst, 0)
    {
      if routeIndex.None? { return None; }
      AddressWidth();
      r := Poptrie.Lookup(routeIndex.value, BITS, DIRECT_BITS, dst, IndexOf(routes, 0));
      LpmIsFirstMatch(routes, dst, BITS);
    }

    /** `resolved_v4_for_interface`: the folded lookup is the plain search, with the
        Ethernet header of its result. */
    method ResolvedForInterface(dst: Ipv4, ifindex: nat, queue: nat) returns (r: Option<ResolvedEgress>)
      requires Valid()
      ensures r == WithHeader(PlainSearch(View(), dst, ifindex, queue)) && ResolvesTo(View(), dst, ifindex, queue, r)
    {
      hide Sorted, RouteIndexOk, FirstMatch, ResolvesTo;
      SearchMeans(View(), dst, ifindex, queue);
      var found := LookupRouteIndex(dst);
      if found.None? { return None; }
      if ifindex !in egressIndex {
        LeftOut(View(), egressIndex, ifindex, found.value);
        return None;
      }
      var entry := egressIndex[ifindex];
      assert FoldOk(View(), interfaces[ifindex], PoptrieBuilder.Lookup(egressIndex, ifindex));
      var slot := entry.slots[found.value];
      assert SlotOk(neighbors, interfaces[ifindex], routes[found.value], slot, entry.egresses);
      if slot == EGRESS_NONE { return None; }
      if slot == EGRESS_ON_LINK {
        var route, interface := routes[found.value], interfaces[ifindex];
        var mac := NeighborMac(neighbors, ifindex, route, dst);
        if mac.None? { return None; }
        return Some(FromEgress(RouteEgress(interface, route, queue, mac.value)));
      }
      return Some(entry.egresses[slot].WithQueue(queue));
    }

    /** `resolve_l2_for_interface`: the same header, and the MTU capped by the caller's. */
    method ResolveL2ForInterface(dst: Ipv4, ifindex: nat, mtu: nat) returns (r: Option<ResolvedL2>)
      requires Valid()
      ensures forall queue :: r == match PlainSearch(View(), dst, ifindex, queue)
        case None => None
        case Some(e) => Some(ResolvedL2(EthernetHeader(e), Min(mtu, e.mtu)))
      ensures match r
        case None => NoWayOut(View(), dst, ifindex)
        case Some(l2) => exists m: nat :: HeaderFor(View(), dst, ifindex, l2.l2Header, m) && l2.ipMtu == Min(mtu, m)
    {
      hide Sorted, RouteIndexOk, FirstMatch, NoWayOut, HeaderFor;
      SearchMeans(View(), dst, ifindex, 0);
      var found := LookupRouteIndex(dst);
      if found.None? { return None; }
      if ifindex !in egressIndex {
        LeftOut(View(), egressIndex, ifindex, found.value);
        return None;
      }
      var entry := egressIndex[ifindex];
      assert FoldOk(View(), interfaces[ifindex], PoptrieBuilder.Lookup(egressIndex, ifindex));
      var slot := entry.slots[found.value];
      assert SlotOk(neighbors, interfaces[ifindex], routes[found.value], slot, entry.egresses);
      if slot == EGRESS_NONE { return None; }
      if slot == EGRESS_ON_LINK {
        var route, interface := routes[found.value], interfaces[ifindex];
        var mac := NeighborMac(neighbors, ifindex, route, dst);
        if mac.None? { return None; }
        var egress := RouteEgress(interface, route, interface.queue, mac.value);
        return Some(ResolvedL2(EthernetHeader(egress), Min(mtu, egress.mtu)));
      }
      var resolved := entry.egresses[slot];
      return Some(ResolvedL2(resolved.l2Header, Min(mtu, resolved.egress.mtu)));
    }
  }

  // ---------------------------------------------------------------- any sequence of updates

  datatype Update =
    | Route(route: Ipv4Route)
    | Bulk(routes: seq<Ipv4Route>)
    | Neighbor(ifindex: nat, ip: Ipv4, mac: Mac)
    | Interface(interface: InterfaceInfo)
  {
    function Added(): nat { match this case Route(_) => 1 case Bulk(rs) => |rs| case _ => 0 }
  }

  function Updated(f: Facts, u: Update): Facts
  {
    match u
    case Route(r) => f.(routes := StableSort(Upserted(f.routes, r)))
    case Bulk(rs) => f.(routes := if rs == [] then f.routes else StableSort(UpsertedAll(f.routes, rs)))
    case Neighbor(i, ip, mac) => f.(neighbors := f.neighbors[(i, ip) := mac])
    case Interface(info) => f.(interfaces := f.interfaces[info.ifindex := info])
  }

  function UpdatedAll(f: Facts, updates: seq<Update>): Facts
    decreases |updates|
  {
    if updates == [] then f else Updated(UpdatedAll(f, updates[..|updates| - 1]), updates[|updates| - 1])
  }

  const NO_FACTS := Facts([], map[], map[])

  /** Every state on the way can be indexed; elsewhere the code panics or numbers wrap. */
  ghost predicate IndexableRun(updates: seq<Update>)
  {
    forall k :: 0 <= k <= |updates| ==> Indexable(UpdatedAll(NO_FACTS, updates[..k]))
  }

  /** From an empty snapshot, after any sequence of updates, the folded lookup answers
      every destination, interface and queue as the plain search over the facts does. */
  method UpdateThenResolve(updates: seq<Update>, dst: Ipv4, ifindex: nat, queue: nat)
    returns (r: Option<ResolvedEgress>)
    requires IndexableRun(updates)
    ensures r == WithHeader(PlainSearch(UpdatedAll(NO_FACTS, updates), dst, ifindex, queue))
    ensures ResolvesTo(UpdatedAll(NO_FACTS, updates), dst, ifindex, queue, r)
  {
    hide Sorted, RouteIndexOk, EgressIndexOk, PlainSearch, Indexable, ResolvesTo;
    var s := new Snapshot();
    for i := 0 to |updates|
      invariant fresh(s) && s.Valid()
      invariant s.View() == UpdatedAll(NO_FACTS, updates[..i])
    {
      assert updates[..i + 1][..i] == updates[..i];
      assert Indexable(UpdatedAll(NO_FACTS, updates[..i + 1]));
      match updates[i] {
        case Route(route) => var _ := s.UpsertRoute(route);
        case Bulk(routes) => var _ := s.UpsertRoutes(routes);
        case Neighbor(ifx, ip, mac) => s.UpsertNeighbor(ifx, ip, mac);
        case Interface(info) => s.UpsertInterface(info);
      }
    }
    assert updates[..|updates|] == updates;
    r := s.ResolvedForInterface(dst, ifindex, queue);
  }

  // ---------------------------------------------------------------- enough room

  function TotalAdded(updates: seq<Update>): nat
    decreases |updates|
  {
    if updates == [] then 0 else TotalAdded(updates[..|updates| - 1]) + updates[|updates| - 1].Added()
  }

  lemma {:induction false} AddedMono(updates: seq<Update>, n: nat)
    requires n <= |updates|
    ensures TotalAdded(updates[..n]) <= TotalAdded(updates)
    decreases |updates|
  {
    if n < |updates| {
      AddedMono(updates[..|updates| - 1], n);
      assert updates[..|updates| - 1][..n] == updates[..n];
    } else {
      assert updates[..n] == updates;
    }
  }

  lemma {:induction false} AllLength(routes: seq<Ipv4Route>, updates: seq<Ipv4Route>)
    ensures |UpsertedAll(routes, updates)| <= |routes| + |updates|
    decreases |updates|
  {
    if updates != [] { AllLength(routes, updates[..|updates| - 1]); }
  }

  /** No more routes than were ever added. */
  lemma {:induction false} RoutesAdded(updates: seq<Update>)
    ensures |UpdatedAll(NO_FACTS, updates).routes| <= TotalAdded(updates)
    decreases |updates|
  {
    hide StableSort, Upserted;
    if updates != [] {
      var before := UpdatedAll(NO_FACTS, updates[..|updates| - 1]).routes;
      RoutesAdded(updates[..|updates| - 1]);
      match updates[|updates| - 1] {
        case Route(route) => SortLength(Upserted(before, route));
        case Bulk(routes) =>
          AllLength(before, routes);
          SortLength(UpsertedAll(before, routes));
        case _ =>
      }
    }
  }

  lemma {:induction false} EgressesPerRoute(f: Facts, interface: InterfaceInfo, n: nat)
    requires n <= |f.routes|
    ensures |GatewayEgresses(f, interface, n)| <= n
  {
    hide GatewayEgress;
    if n == 0 {
      assert GatewayEgresses(f, interface, n) == {};
    } else {
      EgressesPerRoute(f, interface, n - 1);
      if GatewayEgress(f, interface, n - 1).Some? {
        MoreEgresses(f, interface, n - 1);
      } else {
        assert GatewayEgresses(f, interface, n) == GatewayEgresses(f, interface, n - 1);
      }
    }
  }

  /** 700 million routes can always be indexed: three strides below the direct bits. */
  lemma FewRoutesIndexable(f: Facts)
    requires 3 * |f.routes| < 0x7FFF_FFFF
    ensures Indexable(f)
  {
    hide Fits, GatewayEgresses, IndexOf, Pow2, RouteIndexOk;
    AddressWidth();
    IndexSize(f.routes, 0);
    FewRoutesFit(IndexOf(f.routes, 0), BITS, DIRECT_BITS);
    forall i | i in f.interfaces
      ensures EgressesFit(f, f.interfaces[i])
    {
      EgressesPerRoute(f, f.interfaces[i], |f.routes|);
    }
  }

  /** Updates that add fewer routes than that never meet a limit on the way. */
  lemma FewUpdatesIndexable(updates: seq<Update>)
    requires 3 * TotalAdded(updates) < 0x7FFF_FFFF
    ensures IndexableRun(updates)
  {
    hide Indexable;
    forall k | 0 <= k <= |updates|
      ensures Indexable(UpdatedAll(NO_FACTS, updates[..k]))
    {
      AddedMono(updates, k);
      RoutesAdded(updates[..k]);
      FewRoutesIndexable(UpdatedAll(NO_FACTS, updates[..k]));
    }
  }

  /** An interface left out of the index has nothing to offer for any route. */
  lemma LeftOut(f: Facts, index: map<nat, InterfaceEgress>, ifindex: nat, i: nat)
    requires EgressIndexOk(f, index) && ifindex !in index && i < |f.routes|
    requires ifindex in f.interfaces ==> f.interfaces[ifindex].ifindex == ifindex
    ensures ifindex in f.interfaces && Leaves(f.interfaces[ifindex], f.routes[i]) ==>
      f.routes[i].gateway.Some? && NeighborMac(f.neighbors, ifindex, f.routes[i], f.routes[i].gateway.value).None?
  {
    if ifindex in f.interfaces {
      assert FoldOk(f, f.interfaces[ifindex], PoptrieBuilder.Lookup(index, ifindex));
      assert SlotOk(f.neighbors, f.interfaces[ifindex], f.routes[i], seq(|f.routes|, _ => EGRESS_NONE)[i], []);
    }
  }

  // ---------------------------------------------------------------- upserts on values

  function FindSame(routes: seq<Ipv4Route>, route: Ipv4Route, i: nat): (r: nat)
    requires i <= |routes|
    ensures r <= |routes|
    decreases |routes| - i
  {
    if i == |routes| || routes[i].SameRoute(route) then i else FindSame(routes, route, i + 1)
  }

  function Upserted(routes: seq<Ipv4Route>, route: Ipv4Route): (r: seq<Ipv4Route>)
    ensures |r| <= |routes| + 1
  {
    var i := FindSame(routes, route, 0);
    if i < |routes| then routes[i := route] else routes + [route]
  }

  function UpsertedAll(routes: seq<Ipv4Route>, updates: seq<Ipv4Route>): seq<Ipv4Route>
    decreases |updates|
  {
    if updates == [] then routes else Upserted(UpsertedAll(routes, updates[..|updates| - 1]), updates[|updates| - 1])
  }

  lemma {:induction false} SortLength(routes: seq<Ipv4Route>)
    ensures |StableSort(routes)| == |routes|
  {
    StableSortSorts(routes);
    assert |multiset(routes)| == |routes| && |multiset(StableSort(routes))| == |StableSort(routes)|;
  }
}
