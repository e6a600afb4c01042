/** Route, neighbour and interface facts, and the plain search that answers for a
    destination: the first matching route in longest-prefix, lowest-priority order,
    the bond-master rule, then the neighbour of the next hop. */
module Routes {
  import opened Bits
  import opened Wrappers
  import opened Egress
  import opened PoptrieBuilder

  const BITS: nat := 32
  type Ipv4 = x: nat | x < 0x1_0000_0000

  datatype Ipv4Route = Ipv4Route(destination: Ipv4, prefixLen: byte, ifindex: nat, gateway: Option<Ipv4>, priority: nat,
                                 mtu: nat)
  {
    /** `prefix_len.min(32)`. */
    function Len(): (r: nat)
      ensures r <= BITS
    {
      if prefixLen <= BITS then prefixLen else BITS
    }

    predicate Matches(dst: Ipv4) { PrefixOf(dst, BITS, Len()) == PrefixOf(destination, BITS, Len()) }

    /** The fields an upsert compares. */
    predicate SameRoute(other: Ipv4Route)
    {
      destination == other.destination && prefixLen == other.prefixLen && ifindex == other.ifindex
        && gateway == other.gateway
    }
  }

  datatype InterfaceInfo = InterfaceInfo(ifindex: nat, masterIfindex: Option<nat>, mac: Mac, mtu: nat, queue: nat)

  datatype Facts = Facts(routes: seq<Ipv4Route>, neighbors: map<(nat, Ipv4), Mac>, interfaces: map<nat, InterfaceInfo>)

  // ---------------------------------------------------------------- order of routes

  /** Strictly before in the table: longer prefix, then lower priority. */
  predicate Before(a: Ipv4Route, b: Ipv4Route)
  {
    a.prefixLen > b.prefixLen || (a.prefixLen == b.prefixLen && a.priority < b.priority)
  }

  ghost predicate Sorted(routes: seq<Ipv4Route>)
  {
    forall i, j :: 0 <= i < j < |routes| ==> !Before(routes[j], routes[i])
  }

  /** Inserts in front of the first route that is not strictly before it. */
  function InsertInOrder(r: Ipv4Route, routes: seq<Ipv4Route>): seq<Ipv4Route>
  {
    if routes == [] then [r]
    else if Before(routes[0], r) then [routes[0]] + InsertInOrder(r, routes[1..])
    else [r] + routes
  }

  /** The stable sort of the table. */
  function StableSort(routes: seq<Ipv4Route>): (r: seq<Ipv4Route>)
  {
    if routes == [] then [] else InsertInOrder(routes[0], StableSort(routes[1..]))
  }

  lemma {:induction false} InsertSorted(r: Ipv4Route, routes: seq<Ipv4Route>)
    requires Sorted(routes)
    ensures Sorted(InsertInOrder(r, routes)) && multiset(InsertInOrder(r, routes)) == multiset(routes) + multiset{r}
    ensures forall x :: x in InsertInOrder(r, routes) ==> x == r || x in routes
  {
    if routes == [] {
    } else if Before(routes[0], r) {
      InsertSorted(r, routes[1..]);
      assert routes == [routes[0]] + routes[1..];
      SortedInFront(routes[0], r, routes[1..], InsertInOrder(r, routes[1..]));
    }
  }

  lemma SortedInFront(first: Ipv4Route, r: Ipv4Route, rest: seq<Ipv4Route>, out: seq<Ipv4Route>)
    requires Sorted([first] + rest) && Sorted(out) && Before(first, r) && forall x :: x in out ==> x == r || x in rest
    ensures Sorted([first] + out)
  {
    forall j | 0 <= j < |out|
      ensures !Before(out[j], first)
    {
      assert out[j] in out;
      if out[j] != r {
        var k :| 0 <= k < |rest| && rest[k] == out[j];
        assert !Before(([first] + rest)[k + 1], ([first] + rest)[0]);
      }
    }
  }

  /** Routes of one prefix length and priority, in table order. */
  function OfKey(routes: seq<Ipv4Route>, prefixLen: byte, priority: nat): (r: seq<Ipv4Route>)
  {
    if routes == [] then []
    else
      var first := if routes[0].prefixLen == prefixLen && routes[0].priority == priority then [routes[0]] else [];
      first + OfKey(routes[1..], prefixLen, priority)
  }

  lemma {:induction false} InsertStable(r: Ipv4Route, routes: seq<Ipv4Route>, prefixLen: byte, priority: nat)
    ensures OfKey(InsertInOrder(r, routes), prefixLen, priority) == OfKey([r] + routes, prefixLen, priority)
  {
    if routes != [] && Before(routes[0], r) {
      InsertStable(r, routes[1..], prefixLen, priority);
      assert ([routes[0]] + InsertInOrder(r, routes[1..]))[1..] == InsertInOrder(r, routes[1..]);
      assert ([r] + routes)[1..] == routes && ([r] + routes[1..])[1..] == routes[1..];
    }
  }

  /** Sorting permutes, orders, and keeps the order of routes that compare equal. */
  lemma {:induction false} StableSortSorts(routes: seq<Ipv4Route>)
    ensures Sorted(StableSort(routes)) && multiset(StableSort(routes)) == multiset(routes)
    ensures forall prefixLen, priority ::
      OfKey(StableSort(routes), prefixLen, priority) == OfKey(routes, prefixLen, priority)
  {
    if routes != [] {
      StableSortSorts(routes[1..]);
      InsertSorted(routes[0], StableSort(routes[1..]));
      assert routes == [routes[0]] + routes[1..];
      forall prefixLen, priority
        ensures OfKey(StableSort(routes), prefixLen, priority) == OfKey(routes, prefixLen, priority)
      {
        var sorted := StableSort(routes[1..]);
        InsertStable(routes[0], sorted, prefixLen, priority);
        assert ([routes[0]] + sorted)[1..] == sorted;
      }
    }
  }

  // ---------------------------------------------------------------- the plain search

  /** Index of the first route from `i` on that matches. */
  function FirstMatch(routes: seq<Ipv4Route>, dst: Ipv4, i: nat): (r: Option<nat>)
    requires i <= |routes|
    ensures r.Some? ==> i <= r.value < |routes|
    decreases |routes| - i
  {
    if i == |routes| then None else if routes[i].Matches(dst) then Some(i) else FirstMatch(routes, dst, i + 1)
  }

  /** Does a route leave through this interface, itself or as its bond's slave? */
  predicate Leaves(interface: InterfaceInfo, route: Ipv4Route)
  {
    route.ifindex == interface.ifindex || interface.masterIfindex == Some(route.ifindex)
  }

  /** Neighbour of the next hop on the interface, else on the route's interface. */
  function NeighborMac(neighbors: map<(nat, Ipv4), Mac>, ifindex: nat, route: Ipv4Route, nextHop: Ipv4): Option<Mac>
  {
    if (ifindex, nextHop) in neighbors then Some(neighbors[(ifindex, nextHop)])
    else if (route.ifindex, nextHop) in neighbors then Some(neighbors[(route.ifindex, nextHop)])
    else None
  }

  function RouteEgress(interface: InterfaceInfo, route: Ipv4Route, queue: nat, mac: Mac): XdpEgress
  {
    Ipv4Egress(interface.ifindex, queue, mac, interface.mac, Min(route.mtu, interface.mtu))
  }

  /** What the folded index must answer. */
  function PlainSearch(f: Facts, dst: Ipv4, ifindex: nat, queue: nat): Option<XdpEgress>
  {
    match FirstMatch(f.routes, dst, 0)
    case None => None
    case Some(i) =>
      if ifindex !in f.interfaces || !Leaves(f.interfaces[ifindex], f.routes[i]) then None
      else
        var route := f.routes[i];
        match NeighborMac(f.neighbors, ifindex, route, if route.gateway.Some? then route.gateway.value else dst)
        case None => None
        case Some(mac) => Some(RouteEgress(f.interfaces[ifindex], route, queue, mac))
  }

  // ---------------------------------------------------------------- longest prefix is first match

  /** Route numbers by prefix, the earlier route of a prefix winning: what inserting
      the sorted routes from the last to the first leaves in the index. */
  function IndexOf(routes: seq<Ipv4Route>, i: nat): map<Prefix, nat>
    requires i <= |routes|
    decreases |routes| - i
  {
    if i == |routes| then map[]
    else IndexOf(routes, i + 1)[PrefixOf(routes[i].destination, BITS, routes[i].Len()) := AsWord(i)]
  }

  /** An entry for a prefix of `dst` is the first match of that length. */
  lemma {:induction false} IndexEntry(routes: seq<Ipv4Route>, i: nat, dst: Ipv4, n: nat)
    requires i <= |routes| <= WORD && n <= BITS
    ensures var p := PrefixOf(dst, BITS, n);
      && (p in IndexOf(routes, i) ==>
          i <= IndexOf(routes, i)[p] < |routes| && routes[IndexOf(routes, i)[p]].Len() == n
            && routes[IndexOf(routes, i)[p]].Matches(dst))
      && (forall k :: i <= k < |routes| && routes[k].Len() == n && routes[k].Matches(dst) ==>
          p in IndexOf(routes, i) && IndexOf(routes, i)[p] <= k)
    decreases |routes| - i
  {
    hide Shr, AsWord;
    if i < |routes| { IndexEntry(routes, i + 1, dst, n); }
  }

  lemma SortedLens(routes: seq<Ipv4Route>, i: nat, j: nat)
    requires Sorted(routes) && i < j < |routes|
    ensures routes[i].Len() >= routes[j].Len()
  {
    assert !Before(routes[j], routes[i]);
  }

  lemma {:induction false} FirstMatchFound(routes: seq<Ipv4Route>, dst: Ipv4, i: nat)
    requires i <= |routes|
    ensures match FirstMatch(routes, dst, i)
      case None => forall k :: i <= k < |routes| ==> !routes[k].Matches(dst)
      case Some(m) => i <= m < |routes| && routes[m].Matches(dst) && forall k :: i <= k < m ==> !routes[k].Matches(dst)
    decreases |routes| - i
  {
    if i < |routes| { FirstMatchFound(routes, dst, i + 1); }
  }

  /** Longest-prefix match over the index, down from length `n`, when no longer route
      matches. */
  lemma {:induction false} LpmIsFirstMatch(routes: seq<Ipv4Route>, dst: Ipv4, n: nat)
    requires Sorted(routes) && |routes| <= WORD && n <= BITS
    requires forall k :: 0 <= k < |routes| && routes[k].Matches(dst) ==> routes[k].Len() <= n
    ensures LpmUpTo(IndexOf(routes, 0), dst, BITS, n) == FirstMatch(routes, dst, 0)
    decreases n
  {
    hide Shr;
    var p := PrefixOf(dst, BITS, n);
    IndexEntry(routes, 0, dst, n);
    FirstMatchFound(routes, dst, 0);
    if p in IndexOf(routes, 0) {
      var m := IndexOf(routes, 0)[p];
      var first := FirstMatch(routes, dst, 0).value;
      if first < m {
        SortedLens(routes, first, m);
        assert false;
      }
    } else if n > 0 {
      LpmIsFirstMatch(routes, dst, n - 1);
    }
  }

  lemma {:induction false} IndexSize(routes: seq<Ipv4Route>, i: nat)
    requires i <= |routes|
    ensures |IndexOf(routes, i)| <= |routes| - i
    decreases |routes| - i
  {
    hide Shr, AsWord;
    if i < |routes| {
      IndexSize(routes, i + 1);
      var rest, p := IndexOf(routes, i + 1), PrefixOf(routes[i].destination, BITS, routes[i].Len());
      assert IndexOf(routes, i).Keys == rest.Keys + {p};
      assert |IndexOf(routes, i)| == |IndexOf(routes, i).Keys| && |rest| == |rest.Keys|;
    }
  }

  // ---------------------------------------------------------------- the answer on the facts alone

  /** The first bits of both addresses agree, as many as the prefix length says. */
  predicate Covers(route: Ipv4Route, dst: Ipv4)
  {
    var unit := Pow2(32 - Min(route.prefixLen, 32));
    dst / unit == route.destination / unit
  }

  /** Route `i` covers the address, and any other that does has a shorter prefix, or as long a
      one and higher priority, or ties and comes later. */
  ghost predicate Chosen(routes: seq<Ipv4Route>, dst: Ipv4, i: nat)
  {
    && i < |routes| && Covers(routes[i], dst)
    && forall j :: 0 <= j < |routes| && j != i && Covers(routes[j], dst) ==>
         || routes[j].prefixLen < routes[i].prefixLen
         || (routes[j].prefixLen == routes[i].prefixLen && routes[j].priority > routes[i].priority)
         || (routes[j].prefixLen == routes[i].prefixLen && routes[j].priority == routes[i].priority && i < j)
  }

  /** Packets to `dst` leave through the interface by route `i` to the station `mac`: the route
      is the interface's or its bond master's, and the next hop's entry on the interface is
      preferred to the one on the route's interface. */
  ghost predicate WayOut(f: Facts, dst: Ipv4, ifindex: nat, i: nat, mac: Mac)
  {
    && Chosen(f.routes, dst, i) && ifindex in f.interfaces
    && var t := f.routes[i];
    var hop := match t.gateway case Some(gateway) => gateway case None => dst;
    && (t.ifindex == ifindex || f.interfaces[ifindex].masterIfindex == Some(t.ifindex))
    && (if (ifindex, hop) in f.neighbors then mac == f.neighbors[(ifindex, hop)]
        else (t.ifindex, hop) in f.neighbors && mac == f.neighbors[(t.ifindex, hop)])
  }

  /** The Ethernet header for `dst` on the interface, to the next hop, from the interface, IPv4, and
      the MTU of the way. */
  ghost predicate HeaderFor(f: Facts, dst: Ipv4, ifindex: nat, header: seq<byte>, mtu: nat)
  {
    exists i: nat, mac :: WayOut(f, dst, ifindex, i, mac)
      && header == mac + f.interfaces[ifindex].mac + [8, 0]
      && mtu == Min(f.routes[i].mtu, f.interfaces[ifindex].mtu)
  }

  ghost predicate NoWayOut(f: Facts, dst: Ipv4, ifindex: nat)
  {
    forall i: nat, mac :: !WayOut(f, dst, ifindex, i, mac)
  }

  /** What a resolution with headers must answer. */
  ghost predicate ResolvesTo(f: Facts, dst: Ipv4, ifindex: nat, queue: nat, r: Option<ResolvedEgress>)
  {
    match r
    case None => NoWayOut(f, dst, ifindex)
    case Some(e) =>
      && e.egress.ifindex == ifindex && e.egress.queue == queue && e.egress.vlan == None
      && HeaderFor(f, dst, ifindex, e.l2Header, e.egress.mtu)
  }

  lemma MatchesIsCovers(route: Ipv4Route, dst: Ipv4)
    ensures route.Matches(dst) <==> Covers(route, dst)
  {
    ShrIsDiv(dst, 32 - Min(route.prefixLen, 32));
    ShrIsDiv(route.destination, 32 - Min(route.prefixLen, 32));
  }

  lemma FirstMatchIsChosen(routes: seq<Ipv4Route>, dst: Ipv4)
    requires Sorted(routes)
    ensures match FirstMatch(routes, dst, 0)
      case None => forall i: nat :: !Chosen(routes, dst, i)
      case Some(m) => Chosen(routes, dst, m) && forall i: nat :: Chosen(routes, dst, i) ==> i == m
  {
    hide Covers, Ipv4Route.Matches;
    FirstMatchFound(routes, dst, 0);
    forall i | 0 <= i < |routes|
      ensures routes[i].Matches(dst) <==> Covers(routes[i], dst)
    {
      MatchesIsCovers(routes[i], dst);
    }
    if FirstMatch(routes, dst, 0).Some? {
      var m := FirstMatch(routes, dst, 0).value;
      forall j | 0 <= j < |routes| && j != m && Covers(routes[j], dst)
        ensures j > m && !Before(routes[j], routes[m])
      {
        assert j > m;
      }
    }
  }

  function WithHeader(e: Option<XdpEgress>): Option<ResolvedEgress>
  {
    match e case None => None case Some(e) => Some(FromEgress(e))
  }

  /** Facts as every snapshot holds them: sorted, and interfaces under their own index. */
  ghost predicate FactsOk(facts: Facts)
  {
    Sorted(facts.routes) && forall i :: i in facts.interfaces ==> facts.interfaces[i].ifindex == i
  }

  /** The plain search over sorted facts answers with the egress of the one way out, and
      nothing exactly when there is none. */
  lemma SearchMeans(f: Facts, dst: Ipv4, ifindex: nat, queue: nat)
    requires FactsOk(f)
    ensures ResolvesTo(f, dst, ifindex, queue, WithHeader(PlainSearch(f, dst, ifindex, queue)))
  {
    hide Chosen;
    FirstMatchIsChosen(f.routes, dst);
    match PlainSearch(f, dst, ifindex, queue)
    case None =>
    case Some(e) => assert WayOut(f, dst, ifindex, FirstMatch(f.routes, dst, 0).value, e.dstMac);
  }

  /** There is at most one header and MTU for an address on an interface. */
  lemma OneHeader(f: Facts, dst: Ipv4, ifindex: nat, header: seq<byte>, mtu: nat, header': seq<byte>, mtu': nat)
    requires HeaderFor(f, dst, ifindex, header, mtu) && HeaderFor(f, dst, ifindex, header', mtu')
    ensures header == header' && mtu == mtu'
  {
    hide Covers;
    var i: nat, mac :| WayOut(f, dst, ifindex, i, mac) && header == mac + f.interfaces[ifindex].mac + [8, 0]
      && mtu == Min(f.routes[i].mtu, f.interfaces[ifindex].mtu);
    var j: nat, mac' :| WayOut(f, dst, ifindex, j, mac') && header' == mac' + f.interfaces[ifindex].mac + [8, 0]
      && mtu' == Min(f.routes[j].mtu, f.interfaces[ifindex].mtu);
    OneChosen(f.routes, dst, i, j);
  }

  lemma OneChosen(routes: seq<Ipv4Route>, dst: Ipv4, i: nat, j: nat)
    requires Chosen(routes, dst, i) && Chosen(routes, dst, j)
    ensures i == j
  {
    hide Covers;
  }

  /** There is none in exactly four cases: no route covers the address, the interface is unknown, the
      best route does not leave through it, or the next hop has no entry. */
  lemma NoWayOutIff(f: Facts, dst: Ipv4, ifindex: nat)
    requires Sorted(f.routes)
    ensures NoWayOut(f, dst, ifindex) <==>
            || (forall r :: r in f.routes ==> !Covers(r, dst))
            || ifindex !in f.interfaces
            || exists i: nat :: Chosen(f.routes, dst, i)
                 && var t := f.routes[i];
                 var hop := match t.gateway case Some(gateway) => gateway case None => dst;
                 || (t.ifindex != ifindex && f.interfaces[ifindex].masterIfindex != Some(t.ifindex))
                 || ((ifindex, hop) !in f.neighbors && (t.ifindex, hop) !in f.neighbors)
  {
    hide Covers;
    FirstMatchIsChosen(f.routes, dst);
    FirstMatchFound(f.routes, dst, 0);
    if FirstMatch(f.routes, dst, 0).None? {
      forall r | r in f.routes
        ensures !Covers(r, dst)
      {
        MatchesIsCovers(r, dst);
      }
    } else if ifindex in f.interfaces {
      var i := FirstMatch(f.routes, dst, 0).value;
      MatchesIsCovers(f.routes[i], dst);
      assert f.routes[i] in f.routes;
      WayOutOrNot(f, dst, ifindex, i);
    }
  }

  lemma WayOutOrNot(f: Facts, dst: Ipv4, ifindex: nat, i: nat)
    requires Chosen(f.routes, dst, i) && ifindex in f.interfaces
    ensures var t := f.routes[i]; var hop := match t.gateway case Some(gateway) => gateway case None => dst;
      (exists mac :: WayOut(f, dst, ifindex, i, mac)) <==>
      && (t.ifindex == ifindex || f.interfaces[ifindex].masterIfindex == Some(t.ifindex))
      && ((ifindex, hop) in f.neighbors || (t.ifindex, hop) in f.neighbors)
  {
    hide Covers;
    var t := f.routes[i];
    var hop := match t.gateway case Some(gateway) => gateway case None => dst;
    if (ifindex, hop) in f.neighbors {
      assert WayOut(f, dst, ifindex, i, f.neighbors[(ifindex, hop)])
        <==> (t.ifindex == ifindex || f.interfaces[ifindex].masterIfindex == Some(t.ifindex));
    } else if (t.ifindex, hop) in f.neighbors {
      assert WayOut(f, dst, ifindex, i, f.neighbors[(t.ifindex, hop)])
        <==> (t.ifindex == ifindex || f.interfaces[ifindex].masterIfindex == Some(t.ifindex));
    }
  }
}
