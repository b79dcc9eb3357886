/** `lab12/rip.py`: distance-vector routing in the style of section 3.4 of
    RFC 2453, without the metric-16 infinity, split horizon or timers. A
    router learns every destination a neighbour advertises at the
    advertised metric plus the link cost, keeps the smaller metric, and the
    simulation repeats full passes until one pass changes nothing. A
    routing table is a Python dictionary: its entries and the order in
    which its keys were first inserted, which is the order it is walked
    in. */
module Rip {
  type Ip(==)

  /** `{"next_hop": …, "metric": …}`. */
  datatype Route = Route(nextHop: Ip, metric: int)

  /** A dictionary from destinations to routes, with its key order. */
  datatype Table = Table(entries: map<Ip, Route>, keys: seq<Ip>)

  /** `(neighbor_ip, metric)`, an element of `neighbors`. */
  datatype Neighbor = Neighbor(ip: Ip, metric: int)

  /** Every key listed has an entry. */
  predicate KeysIn(t: Table) {
    forall i :: 0 <= i < |t.keys| ==> t.keys[i] in t.entries
  }

  /** The keys list every entry once. */
  predicate Wf(t: Table) {
    && KeysIn(t)
    && (forall d :: d in t.entries ==> d in t.keys)
    && (forall i, j :: 0 <= i < j < |t.keys| ==> t.keys[i] != t.keys[j])
  }

  const Empty := Table(map[], [])

  /** `table[d] = route`: overwrite in place, or insert at the end. */
  function Put(t: Table, d: Ip, route: Route): Table {
    Table(t.entries[d := route], if d in t.entries then t.keys else t.keys + [d])
  }

  /** Assigning to a key keeps every key once. */
  lemma PutKeepsWf(t: Table, d: Ip, route: Route)
    requires Wf(t)
    ensures Wf(Put(t, d, route))
  {
  }

  /** Whether the route `received` advertises for `d`, plus the cost of
      the link to `source`, is new or strictly better than `t`'s. */
  predicate Improves(t: Table, received: Table, d: Ip, source: Ip)
    requires source in t.entries && d in received.entries
  {
    d !in t.entries || t.entries[d].metric > received.entries[d].metric + t.entries[source].metric
  }

  /** One pass of the loop of `update_routing_table`, at the `i`-th key
      of `received`: the link cost is read from the table as it is now. */
  function Step(t: Table, received: Table, source: Ip, i: nat): (r: Table)
    requires KeysIn(received) && source in t.entries && i < |received.keys|
    ensures source in r.entries && forall d :: d in t.entries ==> d in r.entries
  {
    var d := received.keys[i];
    if Improves(t, received, d, source) then
      Put(t, d, Route(source, received.entries[d].metric + t.entries[source].metric))
    else t
  }

  /** The loop of `update_routing_table` from the `i`-th key of
      `received` on. */
  function UpdateFrom(t: Table, received: Table, source: Ip, i: nat): (r: Table)
    requires KeysIn(received) && source in t.entries && i <= |received.keys|
    ensures forall d :: d in t.entries ==> d in r.entries
    decreases |received.keys| - i
  {
    if i == |received.keys| then t else UpdateFrom(Step(t, received, source, i), received, source, i + 1)
  }

  /** What `update_routing_table(received_table, source_ip, step)` leaves
      in the table. */
  function Update(t: Table, received: Table, source: Ip): (r: Table)
    requires KeysIn(received) && source in t.entries
    ensures Wf(t) ==> Wf(r)
    ensures forall d :: d in t.entries ==> d in r.entries && r.entries[d].metric <= t.entries[d].metric
  {
    MetricsNeverIncrease(t, received, source, 0);
    if Wf(t) then
      UpdateKeepsWf(t, received, source, 0);
      UpdateFrom(t, received, source, 0)
    else UpdateFrom(t, received, source, 0)
  }

  class Router {
    const ip: Ip
    var neighbors: seq<Neighbor>
    var routingTable: Table

    /** The table is a dictionary, and it has an entry for every
        neighbour. */
    ghost predicate Valid()
      reads this
    {
      && Wf(routingTable)
      && forall j :: 0 <= j < |neighbors| ==> neighbors[j].ip in routingTable.entries
    }

    /** `Router(ip)`: no neighbours and an empty table. */
    constructor(ip: Ip)
      ensures this.ip == ip && neighbors == [] && routingTable == Empty && Valid()
    {
      this.ip := ip;
      neighbors := [];
      routingTable := Empty;
    }

    /** `add_neighbor(neighbor_ip, metric)`: the neighbour is appended and
        the direct route to it replaces any earlier entry. */
    method AddNeighbor(neighborIp: Ip, metric: int)
      requires Valid()
      modifies this
      ensures Valid()
      ensures neighbors == old(neighbors) + [Neighbor(neighborIp, metric)]
      ensures routingTable == Put(old(routingTable), neighborIp, Route(neighborIp, metric))
    {
      neighbors := neighbors + [Neighbor(neighborIp, metric)];
      routingTable := Put(routingTable, neighborIp, Route(neighborIp, metric));
    }

    /** `update_routing_table(received_table, source_ip, step)`: it
        returns whether any entry was written, which happens exactly when
        some advertised route improves on the table as it was. `step` is
        only logged. */
    method UpdateRoutingTable(received: Table, sourceIp: Ip, step: int) returns (updated: bool)
      requires Valid() && KeysIn(received) && sourceIp in routingTable.entries
      modifies this
      ensures Valid() && neighbors == old(neighbors)
      ensures forall d :: d in old(routingTable.entries) ==> d in routingTable.entries
      ensures routingTable == Update(old(routingTable), received, sourceIp)
      ensures updated <==> SomeImproves(old(routingTable), received, sourceIp, |received.keys|)
      ensures !updated ==> routingTable == old(routingTable)
    {
      ghost var t0 := routingTable;
      ghost var goal := UpdateFrom(t0, received, sourceIp, 0);
      updated := false;
      var i := 0;
      while i < |received.keys|
        invariant i <= |received.keys| && sourceIp in routingTable.entries
        invariant neighbors == old(neighbors)
        invariant UpdateFrom(routingTable, received, sourceIp, i) == goal
        invariant updated <==> SomeImproves(t0, received, sourceIp, i)
        invariant !updated ==> routingTable == t0
      {
        ghost var before := routingTable;
        var destIp := received.keys[i];
        var newMetric := received.entries[destIp].metric + routingTable.entries[sourceIp].metric;
        if destIp !in routingTable.entries || routingTable.entries[destIp].metric > newMetric {
          routingTable := Put(routingTable, destIp, Route(sourceIp, newMetric));
          updated := true;
        }
        assert routingTable == Step(before, received, sourceIp, i);
        i := i + 1;
      }
      UpdateKeepsWf(t0, received, sourceIp, 0);
      assert routingTable == Update(t0, received, sourceIp);
    }
  }

  /** Some key among the first `i` of `received` improves `t`. */
  predicate SomeImproves(t: Table, received: Table, source: Ip, i: nat)
    requires KeysIn(received) && source in t.entries && i <= |received.keys|
  {
    exists j :: 0 <= j < i && Improves(t, received, received.keys[j], source)
  }

  // ----- What an update does -----

  /** No metric goes up, and no entry disappears. */
  lemma {:induction false} MetricsNeverIncrease(t: Table, received: Table, source: Ip, i: nat)
    requires KeysIn(received) && source in t.entries && i <= |received.keys|
    ensures forall d :: d in t.entries ==> UpdateFrom(t, received, source, i).entries[d].metric <= t.entries[d].metric
    decreases |received.keys| - i
  {
    if i < |received.keys| {
      MetricsNeverIncrease(Step(t, received, source, i), received, source, i + 1);
    }
  }

  /** The table stays a dictionary. */
  lemma {:induction false} UpdateKeepsWf(t: Table, received: Table, source: Ip, i: nat)
    requires KeysIn(received) && Wf(t) && source in t.entries && i <= |received.keys|
    ensures Wf(UpdateFrom(t, received, source, i))
    decreases |received.keys| - i
  {
    if i < |received.keys| {
      var d := received.keys[i];
      PutKeepsWf(t, d, Route(source, received.entries[d].metric + t.entries[source].metric));
      UpdateKeepsWf(Step(t, received, source, i), received, source, i + 1);
    }
  }

  /** Destinations that were not advertised keep their entry, or stay
      absent. */
  lemma {:induction false} UnadvertisedUntouched(t: Table, received: Table, source: Ip, i: nat, d: Ip)
    requires KeysIn(received) && source in t.entries && i <= |received.keys|
    requires forall k :: i <= k < |received.keys| ==> received.keys[k] != d
    ensures var r := UpdateFrom(t, received, source, i);
            (d in r.entries <==> d in t.entries) && (d in t.entries ==> r.entries[d] == t.entries[d])
    decreases |received.keys| - i
  {
    if i < |received.keys| {
      UnadvertisedUntouched(Step(t, received, source, i), received, source, i + 1, d);
    }
  }

  /** Every advertised destination ends up in the table at a metric no
      worse than the advertised one plus the link cost at the start. */
  lemma {:induction false} AdvertisedCovered(t: Table, received: Table, source: Ip, i: nat)
    requires KeysIn(received) && source in t.entries && i <= |received.keys|
    ensures var r := UpdateFrom(t, received, source, i);
            forall k :: i <= k < |received.keys| ==>
              received.keys[k] in r.entries
              && r.entries[received.keys[k]].metric <= received.entries[received.keys[k]].metric + t.entries[source].metric
    decreases |received.keys| - i
  {
    if i < |received.keys| {
      var next := Step(t, received, source, i);
      AdvertisedCovered(next, received, source, i + 1);
      MetricsNeverIncrease(next, received, source, i + 1);
    }
  }

  /** Every entry that changed now goes through `source`. */
  lemma {:induction false} WrittenViaSource(t: Table, received: Table, source: Ip, i: nat)
    requires KeysIn(received) && source in t.entries && i <= |received.keys|
    ensures var r := UpdateFrom(t, received, source, i);
            forall d :: d in r.entries && (d !in t.entries || r.entries[d] != t.entries[d]) ==> r.entries[d].nextHop == source
    decreases |received.keys| - i
  {
    if i < |received.keys| {
      WrittenViaSource(Step(t, received, source, i), received, source, i + 1);
    }
  }

  /** When the neighbour does not advertise a route back to itself, the
      link cost stays fixed: every written entry is `next_hop = source`
      with the advertised metric plus that cost, and a second update with
      the same table writes nothing. */
  lemma UpdateIdempotent(t: Table, received: Table, source: Ip)
    requires KeysIn(received) && Wf(t) && source in t.entries && source !in received.entries
    ensures var r := Update(t, received, source);
            forall d :: d in r.entries && (d !in t.entries || r.entries[d] != t.entries[d])
              ==> d in received.entries && r.entries[d] == Route(source, received.entries[d].metric + t.entries[source].metric)
    ensures !SomeImproves(Update(t, received, source), received, source, |received.keys|)
  {
    var r := Update(t, received, source);
    UnadvertisedUntouched(t, received, source, 0, source);
    AdvertisedCovered(t, received, source, 0);
    assert r.entries[source] == t.entries[source];
    WrittenAtCost(t, received, source, 0);
  }

  /** With the link cost fixed, a written entry is the advertised metric
      plus that cost. */
  lemma {:induction false} WrittenAtCost(t: Table, received: Table, source: Ip, i: nat)
    requires KeysIn(received) && source in t.entries && source !in received.entries && i <= |received.keys|
    ensures var r := UpdateFrom(t, received, source, i);
            forall d :: d in r.entries && (d !in t.entries || r.entries[d] != t.entries[d])
              ==> d in received.entries && r.entries[d] == Route(source, received.entries[d].metric + t.entries[source].metric)
    decreases |received.keys| - i
  {
    if i < |received.keys| {
      var next := Step(t, received, source, i);
      assert next.entries[source] == t.entries[source];
      WrittenAtCost(next, received, source, i + 1);
    }
  }

  // ----- simulate_rip -----

  /** Router `r` is a router of the network: it is valid, and each of its
      neighbours is a router of the network. */
  ghost predicate RouterOk(routers: map<Ip, Router>, r: Router)
    reads r
  {
    && r.Valid()
    && forall j :: 0 <= j < |r.neighbors| ==> r.neighbors[j].ip in routers
  }

  /** The routers of a network, walked in `order`. */
  ghost predicate Network(routers: map<Ip, Router>, order: seq<Ip>)
    reads routers.Values
  {
    && (forall i :: 0 <= i < |order| ==> order[i] in routers)
    && forall ip :: ip in routers ==> RouterOk(routers, routers[ip])
  }

  /** The `j`-th neighbour's table does not improve `r`'s table. */
  predicate Unimproved(routers: map<Ip, Router>, r: Router, j: nat)
    requires j < |r.neighbors|
    reads r`neighbors, r`routingTable, routers.Values`routingTable
  {
    var n := r.neighbors[j].ip;
    n in routers && n in r.routingTable.entries && KeysIn(routers[n].routingTable) ==>
      !SomeImproves(r.routingTable, routers[n].routingTable, n, |routers[n].routingTable.keys|)
  }

  /** None of the first `count` neighbours' tables improves `r`'s table. */
  predicate Quiet(routers: map<Ip, Router>, r: Router, count: nat)
    requires count <= |r.neighbors|
    reads r`neighbors, r`routingTable, routers.Values`routingTable
  {
    forall j :: 0 <= j < count ==> Unimproved(routers, r, j)
  }

  /** The fixpoint: no router's table can be improved by any of its
      neighbours' tables. */
  predicate Stable(routers: map<Ip, Router>, order: seq<Ip>)
    reads routers.Values`routingTable, routers.Values`neighbors
  {
    forall i :: 0 <= i < |order| && order[i] in routers ==>
      Quiet(routers, routers[order[i]], |routers[order[i]].neighbors|)
  }

  /** `simulate_rip(routers)`, `routers.values()` walked in `order`. The
      loop runs until a pass writes nothing; `maxPasses` bounds the number
      of passes, and `converged` says whether the loop ended by itself. */
  method SimulateRip(routers: map<Ip, Router>, order: seq<Ip>, maxPasses: nat) returns (step: nat, converged: bool)
    requires Network(routers, order)
    modifies routers.Values
    ensures Network(routers, order)
    ensures forall r :: r in routers.Values ==> r.neighbors == old(r.neighbors)
    ensures step <= maxPasses && (!converged ==> step == maxPasses)
    ensures converged ==> Stable(routers, order)
  {
    var updated := true;
    step := 0;
    while updated
      invariant step <= maxPasses
      invariant Network(routers, order)
      invariant forall r :: r in routers.Values ==> r.neighbors == old(r.neighbors)
      invariant !updated ==> Stable(routers, order)
      decreases maxPasses - step, updated
    {
      if step == maxPasses {
        return step, false;
      }
      updated := false;
      step := step + 1;
      var ri := 0;
      while ri < |order|
        invariant ri <= |order|
        invariant Network(routers, order)
        invariant forall r :: r in routers.Values ==> r.neighbors == old(r.neighbors)
        invariant !updated ==> forall i :: 0 <= i < ri ==> Quiet(routers, routers[order[i]], |routers[order[i]].neighbors|)
      {
        var router := routers[order[ri]];
        updated := Pass(routers, order, order[ri], router, step, updated);
        ri := ri + 1;
      }
    }
    converged := true;
  }

  /** The inner loop of `simulate_rip` for one router: an update from
      each neighbour in turn, with the neighbour's table as it is at that
      moment. */
  method Pass(routers: map<Ip, Router>, order: seq<Ip>, ghost ip: Ip, router: Router, step: nat, updatedBefore: bool)
    returns (updated: bool)
    requires Network(routers, order) && ip in routers && routers[ip] == router
    modifies router
    ensures Network(routers, order) && router.neighbors == old(router.neighbors)
    ensures updatedBefore ==> updated
    ensures !updated ==> router.routingTable == old(router.routingTable) && Quiet(routers, router, |router.neighbors|)
  {
    updated := updatedBefore;
    var j := 0;
    while j < |router.neighbors|
      invariant j <= |router.neighbors|
      invariant Network(routers, order) && router.neighbors == old(router.neighbors)
      invariant updatedBefore ==> updated
      invariant !updated ==> router.routingTable == old(router.routingTable) && Quiet(routers, router, j)
    {
      var changed := LearnFrom(routers, order, ip, router, j, step);
      if changed {
        updated := true;
      }
      j := j + 1;
    }
  }

  /** One update of `simulate_rip`: `router` learns from its `j`-th
      neighbour's table. */
  method LearnFrom(routers: map<Ip, Router>, order: seq<Ip>, ghost ip: Ip, router: Router, j: nat, step: nat)
    returns (changed: bool)
    requires Network(routers, order) && ip in routers && routers[ip] == router && j < |router.neighbors|
    modifies router
    ensures Network(routers, order) && router.neighbors == old(router.neighbors)
    ensures !changed ==> router.routingTable == old(router.routingTable)
    ensures !changed && old(Quiet(routers, router, j)) ==> Quiet(routers, router, j + 1)
  {
    var neighborIp := router.neighbors[j].ip;
    var neighbor := routers[neighborIp];
    ghost var quiet := !SomeImproves(router.routingTable, neighbor.routingTable, neighborIp, |neighbor.routingTable.keys|);
    assert quiet ==> Unimproved(routers, router, j);
    changed := router.UpdateRoutingTable(neighbor.routingTable, neighborIp, step);
  }
}
