/** The routing table: a linked list in the order of insertion, the scan for the
    longest match, and the check of the table against the interface list. */
module RoutingTable {
  import opened Bytes
  import opened WordBits
  import opened Network
  import opened Interfaces

  class RtNode {
    const route: Route
    var next: RtNode?

    constructor (route: Route)
      ensures this.route == route && next == null
    {
      this.route, next := route, null;
    }
  }

  /** The node at position `i`, null past the end. */
  ghost function RtAt(nodes: seq<RtNode>, i: nat): RtNode? {
    if i < |nodes| then nodes[i] else null
  }

  ghost predicate NoNodeTwice(nodes: seq<RtNode>) {
    forall i, j :: 0 <= i < j < |nodes| ==> nodes[i] != nodes[j]
  }

  /** The node at position `i` points to the one after it. */
  ghost predicate FollowedAt(nodes: seq<RtNode>, i: nat)
    requires i < |nodes|
    reads nodes`next
  {
    nodes[i].next == RtAt(nodes, i + 1)
  }

  ghost predicate Followed(nodes: seq<RtNode>)
    reads nodes`next
  {
    forall i :: 0 <= i < |nodes| ==> FollowedAt(nodes, i)
  }

  ghost predicate Lists(nodes: seq<RtNode>, model: seq<Route>) {
    |nodes| == |model| && forall i :: 0 <= i < |nodes| ==> nodes[i].route == model[i]
  }

  /** A node behind the last one makes a list again. */
  lemma AppendedRoute(nodes: seq<RtNode>, n: RtNode)
    requires forall i :: 0 <= i < |nodes| - 1 ==> FollowedAt(nodes, i)
    requires nodes != [] ==> nodes[|nodes| - 1].next == n
    requires n.next == null
    ensures Followed(nodes + [n]) && RtAt(nodes + [n], 0) == if nodes == [] then n else nodes[0]
  {
    var r := nodes + [n];
    forall i | 0 <= i < |r|
      ensures FollowedAt(r, i)
    {
      if i < |nodes| - 1 {
        assert FollowedAt(nodes, i) && r[i] == nodes[i] && r[i + 1] == nodes[i + 1];
      }
    }
  }

  lemma NoOtherNode(nodes: seq<RtNode>, k: nat)
    requires k < |nodes| && NoNodeTwice(nodes)
    ensures forall i :: 0 <= i < |nodes| && i != k ==> nodes[i] != nodes[k]
  {}

  lemma StillNoNodeTwice(nodes: seq<RtNode>, n: RtNode)
    requires NoNodeTwice(nodes) && n !in nodes
    ensures NoNodeTwice(nodes + [n])
  {}

  class RouteList {
    var head: RtNode?
    ghost var nodes: seq<RtNode>
    ghost var model: seq<Route>

    ghost predicate Valid()
      reads this, nodes
    {
      head == RtAt(nodes, 0) && NoNodeTwice(nodes) && Followed(nodes) && Lists(nodes, model)
    }

    constructor ()
      ensures Valid() && model == [] && nodes == []
    {
      head, nodes, model := null, [], [];
    }

    method AddEntry(route: Route)
      requires Valid()
      modifies this, nodes
      ensures Valid() && model == old(model) + [route]
      ensures |nodes| == |old(nodes)| + 1 && nodes[..|old(nodes)|] == old(nodes) && fresh(nodes[|old(nodes)|])
    {
      hide NoNodeTwice;
      var n := new RtNode(route);
      StillNoNodeTwice(nodes, n);
      if head == null {
        head := n;
      } else {
        var walker := head;
        ghost var k := 0;
        while walker.next != null
          invariant k < |nodes| && walker == nodes[k]
          decreases |nodes| - k
        {
          assert FollowedAt(nodes, k);
          walker, k := walker.next, k + 1;
        }
        assert FollowedAt(nodes, k) && k == |nodes| - 1;
        NoOtherNode(nodes, k);
        forall i | 0 <= i < k
          ensures nodes[i].next == nodes[i + 1]
        {
          assert FollowedAt(nodes, i);
        }
        walker.next := n;
        assert forall i :: 0 <= i < k ==> FollowedAt(nodes, i);
      }
      AppendedRoute(nodes, n);
      nodes, model := nodes + [n], model + [route];
    }

    /** The scan of the table. It returns the entry `LongestMatch` names. */
    method LongestPrefixMatch(order: ByteOrder, dst: Ip) returns (best: RtNode?)
      requires Valid()
      ensures match LongestMatch(model, order, dst)
        case None => best == null
        case Some(k) => best == nodes[k]
    {
      hide LongestMatch, Load, Exceeds, Matches;
      best := null;
      var bestMask: bv32 := 0;
      var rt := head;
      ghost var k, at := 0, None;
      NoMatchYet(model, order, dst);
      while rt != null
        invariant k <= |nodes| && rt == RtAt(nodes, k)
        invariant at == LongestMatch(model[..k], order, dst)
        invariant best == null <==> at.None?
        invariant at.Some? ==> at.value < k && best == nodes[at.value]
        invariant bestMask == BestMask(model[..k], order, at)
        decreases |nodes| - k
      {
        NextMatch(model, order, dst, k);
        if Matches(rt.route, order, dst) && Exceeds(Load(order, rt.route.mask), bestMask) {
          best, at := rt, Some(k);
          bestMask := Load(order, rt.route.mask);
        }
        assert FollowedAt(nodes, k);
        rt, k := rt.next, k + 1;
      }
      assert model[..k] == model;
    }
  }

  lemma NoMatchYet(routes: seq<Route>, order: ByteOrder, dst: Ip)
    ensures LongestMatch(routes[..0], order, dst) == None
  {}

  /** One step of the scan. */
  lemma NextMatch(routes: seq<Route>, order: ByteOrder, dst: Ip, k: nat)
    requires k < |routes|
    ensures
      var best := LongestMatch(routes[..k], order, dst);
      LongestMatch(routes[..k + 1], order, dst) ==
      if Matches(routes[k], order, dst) && Exceeds(Load(order, routes[k].mask), BestMask(routes[..k], order, best))
      then Some(k) else best
  {
    hide Load, Exceeds, Matches;
    assert routes[..k + 1][..k] == routes[..k];
  }

  // ---------- the table against the interfaces ----------

  /** The number of routes whose interface does not exist. */
  function Dangling(ifs: seq<Iface>, routes: seq<Route>): nat {
    if routes == [] then 0
    else Dangling(ifs, routes[..|routes| - 1]) + if FindName(ifs, routes[|routes| - 1].iface).None? then 1 else 0
  }

  lemma {:induction false} NoneDangling(ifs: seq<Iface>, routes: seq<Route>, order: ByteOrder)
    ensures Dangling(ifs, routes) == 0 <==> Consistent(Config(ifs, routes, order))
  {
    hide FindName;
    if routes != [] {
      var n := |routes| - 1;
      NoneDangling(ifs, routes[..n], order);
      assert routes == routes[..n] + [routes[n]];
    }
  }

  lemma NothingDangling(ifs: seq<Iface>, routes: seq<Route>)
    ensures Dangling(ifs, routes[..0]) == 0
  {}

  lemma OneMoreRoute(ifs: seq<Iface>, routes: seq<Route>, k: nat)
    requires k < |routes|
    ensures Dangling(ifs, routes[..k + 1]) == Dangling(ifs, routes[..k]) +
      if FindName(ifs, routes[k].iface).None? then 1 else 0
  {
    assert routes[..k + 1][..k] == routes[..k];
  }

  const NO_TABLE: nat := 999

  /** The check of the routing table. A result of 0 means, and needs, that both
      lists have entries and every route leaves by an interface that exists. */
  method VerifyRoutingTable(ifs: IfList, table: RouteList, order: ByteOrder) returns (ret: nat)
    requires ifs.Valid() && table.Valid()
    ensures ret == 0 <==> ifs.model != [] && table.model != [] && Consistent(Config(ifs.model, table.model, order))
    ensures ret == if ifs.model == [] || table.model == [] then NO_TABLE else Dangling(ifs.model, table.model)
  {
    hide FindName, Dangling, Consistent;
    if ifs.head == null || table.head == null {
      return NO_TABLE;
    }
    ret := 0;
    NothingDangling(ifs.model, table.model);
    var rt := table.head;
    ghost var k := 0;
    while rt != null
      invariant k <= |table.nodes| && rt == RtAt(table.nodes, k)
      invariant ret == Dangling(ifs.model, table.model[..k])
      decreases |table.nodes| - k
    {
      var walker := ifs.GetInterface(rt.route.iface);
      OneMoreRoute(ifs.model, table.model, k);
      if walker == null {
        ret := ret + 1;
      }
      assert FollowedAt(table.nodes, k);
      rt, k := rt.next, k + 1;
    }
    assert table.model[..k] == table.model;
    NoneDangling(ifs.model, table.model, order);
  }
}
