/** The facts after any sequence of updates, told from the updates alone: of the routes with the same
    destination, length, interface and gateway the one given last, of the neighbours and
    interfaces the entry given last, and nothing else. */
module RouteHistory {
  import opened Routes
  import opened RouteSnapshot

  /** Two routes of which the table keeps only the later one. */
  predicate SameKey(a: Ipv4Route, b: Ipv4Route)
  {
    (a.destination, a.prefixLen, a.ifindex, a.gateway) == (b.destination, b.prefixLen, b.ifindex, b.gateway)
  }

  /** At most one route of each key. */
  ghost predicate OnePerKey(routes: seq<Ipv4Route>)
  {
    && (forall a, b :: a in routes && b in routes && SameKey(a, b) ==> a == b)
    && forall r :: r in routes ==> multiset(routes)[r] == 1
  }

  lemma PermutedKeepsOnePerKey(routes: seq<Ipv4Route>, other: seq<Ipv4Route>)
    requires multiset(routes) == multiset(other) && OnePerKey(routes)
    ensures OnePerKey(other) && forall r :: r in other <==> r in routes
  {
    forall r
      ensures r in other <==> r in routes
    {
      assert r in other <==> r in multiset(other);
    }
  }

  lemma {:induction false} FindSameFinds(routes: seq<Ipv4Route>, route: Ipv4Route, i: nat)
    requires i <= |routes|
    ensures var k := FindSame(routes, route, i);
      && i <= k <= |routes| && (forall j :: i <= j < k ==> !SameKey(routes[j], route))
      && (k < |routes| ==> SameKey(routes[k], route))
    decreases |routes| - i
  {
    if i < |routes| && !routes[i].SameRoute(route) { FindSameFinds(routes, route, i + 1); }
  }

  /** An upsert replaces the route of the same key and touches no other. */
  lemma UpsertReplaces(routes: seq<Ipv4Route>, route: Ipv4Route)
    requires OnePerKey(routes)
    ensures OnePerKey(Upserted(routes, route))
    ensures forall r :: r in Upserted(routes, route) <==> r == route || (r in routes && !SameKey(r, route))
  {
    FindSameFinds(routes, route, 0);
    var k := FindSame(routes, route, 0);
    if k < |routes| {
      UpdatedMembers(routes, k, route);
    } else {
      assert forall r :: r in routes ==> !SameKey(r, route);
    }
  }

  lemma UpdatedMembers(routes: seq<Ipv4Route>, k: nat, route: Ipv4Route)
    requires OnePerKey(routes) && k < |routes| && SameKey(routes[k], route)
    ensures forall r :: r in routes[k := route] <==> r == route || (r in routes && !SameKey(r, route))
    ensures OnePerKey(routes[k := route])
  {
    var gone := routes[k];
    var rest := multiset(routes) - multiset{gone};
    assert gone in routes;
    UpdatedCounts(routes, k, route);
    forall r
      ensures r in rest <==> r in routes && !SameKey(r, route)
    {
      assert r in routes <==> r in multiset(routes);
      assert r in routes && SameKey(r, gone) ==> r == gone;
      assert rest[r] == multiset(routes)[r] - (if r == gone then 1 else 0);
    }
    forall r
      ensures r in routes[k := route] <==> r == route || r in rest
      ensures r in routes[k := route] ==> multiset(routes[k := route])[r] == 1
    {
      assert r in routes[k := route] <==> r in multiset(routes[k := route]);
      assert route !in rest && (r in rest ==> r in routes);
    }
    forall a, b | a in routes[k := route] && b in routes[k := route] && SameKey(a, b)
      ensures a == b
    {
      assert a in rest ==> a in routes && !SameKey(a, route);
      assert b in rest ==> b in routes && !SameKey(b, route);
    }
  }

  lemma UpdatedCounts<T>(s: seq<T>, k: nat, x: T)
    requires k < |s|
    ensures multiset(s[k := x]) == multiset(s) - multiset{s[k]} + multiset{x}
  {
  }

  // ---------------------------------------------------------------- routes

  /** The routes given by the updates, in order. */
  function Given(updates: seq<Update>): seq<Ipv4Route>
  {
    if updates == [] then []
    else Given(updates[..|updates| - 1]) + GivenBy(updates[|updates| - 1])
  }

  function GivenBy(u: Update): seq<Ipv4Route>
  {
    match u case Route(r) => [r] case Bulk(rs) => rs case _ => []
  }

  /** Given at some point, and no route of the same key after it. */
  ghost predicate GivenLast(given: seq<Ipv4Route>, r: Ipv4Route)
  {
    exists k :: 0 <= k < |given| && given[k] == r && forall j :: k < j < |given| ==> !SameKey(given[j], r)
  }

  ghost predicate TableOf(given: seq<Ipv4Route>, routes: seq<Ipv4Route>)
  {
    OnePerKey(routes) && forall r :: r in routes <==> GivenLast(given, r)
  }

  lemma GivenOneMore(given: seq<Ipv4Route>, route: Ipv4Route, r: Ipv4Route)
    ensures GivenLast(given + [route], r) <==> r == route || (GivenLast(given, r) && !SameKey(r, route))
  {
    var more := given + [route];
    assert more[|given|] == route && forall j :: 0 <= j < |given| ==> more[j] == given[j];
    if GivenLast(given, r) && !SameKey(r, route) {
      var k :| 0 <= k < |given| && given[k] == r && forall j :: k < j < |given| ==> !SameKey(given[j], r);
      assert more[k] == r;
    }
    if GivenLast(more, r) {
      var k :| 0 <= k < |more| && more[k] == r && forall j :: k < j < |more| ==> !SameKey(more[j], r);
      assert k < |given| ==> given[k] == r && !SameKey(more[|given|], r);
    }
  }

  lemma UpsertKeepsTable(given: seq<Ipv4Route>, routes: seq<Ipv4Route>, route: Ipv4Route)
    requires TableOf(given, routes)
    ensures TableOf(given + [route], Upserted(routes, route))
  {
    hide GivenLast, OnePerKey, Upserted;
    UpsertReplaces(routes, route);
    forall r
      ensures r in Upserted(routes, route) <==> GivenLast(given + [route], r)
    {
      GivenOneMore(given, route, r);
    }
  }

  lemma {:induction false} UpsertAllKeepsTable(given: seq<Ipv4Route>, routes: seq<Ipv4Route>, more: seq<Ipv4Route>)
    requires TableOf(given, routes)
    ensures TableOf(given + more, UpsertedAll(routes, more))
    decreases |more|
  {
    hide TableOf, Upserted;
    if more == [] {
      assert given + more == given;
    } else {
      var n := |more| - 1;
      UpsertAllKeepsTable(given, routes, more[..n]);
      UpsertKeepsTable(given + more[..n], UpsertedAll(routes, more[..n]), more[n]);
      assert given + more[..n] + [more[n]] == given + more;
    }
  }

  lemma SortKeepsTable(given: seq<Ipv4Route>, routes: seq<Ipv4Route>)
    requires TableOf(given, routes)
    ensures TableOf(given, StableSort(routes))
  {
    hide GivenLast, OnePerKey;
    StableSortSorts(routes);
    PermutedKeepsOnePerKey(routes, StableSort(routes));
  }

  lemma UpdateKeepsTable(given: seq<Ipv4Route>, f: Facts, u: Update)
    requires TableOf(given, f.routes)
    ensures TableOf(given + GivenBy(u), Updated(f, u).routes)
  {
    hide TableOf, Upserted, StableSort;
    match u
    case Route(r) =>
      UpsertKeepsTable(given, f.routes, r);
      SortKeepsTable(given + [r], Upserted(f.routes, r));
    case Bulk(rs) =>
      UpsertAllKeepsTable(given, f.routes, rs);
      SortKeepsTable(given + rs, UpsertedAll(f.routes, rs));
      assert rs == [] ==> given + rs == given;
    case _ => assert given + [] == given;
  }

  /** After any updates the table holds exactly the routes given last for their key, each
      once. */
  lemma {:induction false} RoutesAreLastGiven(updates: seq<Update>)
    ensures TableOf(Given(updates), UpdatedAll(NO_FACTS, updates).routes)
  {
    hide Updated;
    if updates != [] {
      var n := |updates| - 1;
      RoutesAreLastGiven(updates[..n]);
      UpdateKeepsTable(Given(updates[..n]), UpdatedAll(NO_FACTS, updates[..n]), updates[n]);
    }
  }

  // ---------------------------------------------------------------- neighbours and interfaces

  /** The last update that names this neighbour. */
  ghost predicate LastNeighbor(updates: seq<Update>, k: nat, ifindex: nat, ip: Ipv4)
  {
    && k < |updates| && updates[k].Neighbor? && updates[k].ifindex == ifindex && updates[k].ip == ip
    && forall j :: k < j < |updates| && updates[j].Neighbor? ==> (updates[j].ifindex, updates[j].ip) != (ifindex, ip)
  }

  ghost predicate LastInterface(updates: seq<Update>, k: nat, ifindex: nat)
  {
    && k < |updates| && updates[k].Interface? && updates[k].interface.ifindex == ifindex
    && forall j :: k < j < |updates| && updates[j].Interface? ==> updates[j].interface.ifindex != ifindex
  }

  /** After any updates a neighbour has the MAC given last; one never given is absent. */
  lemma {:induction false} NeighborIsLastGiven(updates: seq<Update>, ifindex: nat, ip: Ipv4)
    ensures var neighbors := UpdatedAll(NO_FACTS, updates).neighbors;
      && ((ifindex, ip) in neighbors <==> exists k: nat :: LastNeighbor(updates, k, ifindex, ip))
      && (forall k: nat :: LastNeighbor(updates, k, ifindex, ip) ==> neighbors[(ifindex, ip)] == updates[k].mac)
  {
    hide StableSort, Upserted, UpsertedAll;
    if updates != [] {
      var n := |updates| - 1;
      var before, u := updates[..n], updates[n];
      NeighborIsLastGiven(before, ifindex, ip);
      assert forall j :: 0 <= j < n ==> before[j] == updates[j];
      if u.Neighbor? && (u.ifindex, u.ip) == (ifindex, ip) {
        assert LastNeighbor(updates, n, ifindex, ip);
      } else {
        assert forall k: nat :: LastNeighbor(updates, k, ifindex, ip) <==> LastNeighbor(before, k, ifindex, ip);
      }
    }
  }

  /** After any updates an interface has the description given last; one never given is absent. */
  lemma {:induction false} InterfaceIsLastGiven(updates: seq<Update>, ifindex: nat)
    ensures var interfaces := UpdatedAll(NO_FACTS, updates).interfaces;
      && (ifindex in interfaces <==> exists k: nat :: LastInterface(updates, k, ifindex))
      && (forall k: nat :: LastInterface(updates, k, ifindex) ==> interfaces[ifindex] == updates[k].interface)
  {
    hide StableSort, Upserted, UpsertedAll;
    if updates != [] {
      var n := |updates| - 1;
      var before, u := updates[..n], updates[n];
      InterfaceIsLastGiven(before, ifindex);
      assert forall j :: 0 <= j < n ==> before[j] == updates[j];
      if u.Interface? && u.interface.ifindex == ifindex {
        assert LastInterface(updates, n, ifindex);
      } else {
        assert forall k: nat :: LastInterface(updates, k, ifindex) <==> LastInterface(before, k, ifindex);
      }
    }
  }

  /** After any updates the table is sorted and the interfaces are under their own index. */
  lemma {:induction false} UpdatedFactsOk(updates: seq<Update>)
    ensures FactsOk(UpdatedAll(NO_FACTS, updates))
  {
    hide Sorted, StableSort, Upserted, UpsertedAll;
    if updates == [] {
      StableSortSorts([]);
      SortLength([]);
    } else {
      var n := |updates| - 1;
      UpdatedFactsOk(updates[..n]);
      var f := UpdatedAll(NO_FACTS, updates[..n]);
      match updates[n]
      case Route(r) => StableSortSorts(Upserted(f.routes, r));
      case Bulk(rs) => StableSortSorts(UpsertedAll(f.routes, rs));
      case _ =>
    }
  }
}
