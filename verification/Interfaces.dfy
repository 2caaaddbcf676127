/** The interface list of the router: a linked list that grows at its tail and
    whose last node alone is ever filled in. */
module Interfaces {
  import opened Bytes
  import opened Network

  class IfNode {
    const name: Name
    var addr: Mac
    var ip: Ip
    var next: IfNode?

    /** A node as `malloc` and `strncpy` leave it: the addresses are whatever the memory held. */
    constructor (name: Name, junkAddr: Mac, junkIp: Ip)
      ensures this.name == name && addr == junkAddr && ip == junkIp && next == null
    {
      this.name, addr, ip, next := name, junkAddr, junkIp, null;
    }
  }

  /** Scanning for a name stops at the entry `FindName` returns. */
  lemma {:induction false} FindNameAt(ifs: seq<Iface>, name: Name, k: nat)
    requires k <= |ifs| && forall j :: 0 <= j < k ==> ifs[j].name != name
    ensures k == |ifs| ==> FindName(ifs, name) == None
    ensures k < |ifs| && ifs[k].name == name ==> FindName(ifs, name) == Some(ifs[k])
  {
    if k > 0 {
      assert ifs[0].name != name;
      assert forall j :: 0 <= j < k - 1 ==> ifs[1..][j] == ifs[j + 1];
      FindNameAt(ifs[1..], name, k - 1);
    }
  }

  lemma {:induction false} FindIpAt(ifs: seq<Iface>, ip: Ip, k: nat)
    requires k <= |ifs| && forall j :: 0 <= j < k ==> ifs[j].ip != ip
    ensures k == |ifs| ==> FindIp(ifs, ip) == None
    ensures k < |ifs| && ifs[k].ip == ip ==> FindIp(ifs, ip) == Some(ifs[k])
  {
    if k > 0 {
      assert ifs[0].ip != ip;
      assert forall j :: 0 <= j < k - 1 ==> ifs[1..][j] == ifs[j + 1];
      FindIpAt(ifs[1..], ip, k - 1);
    }
  }

  /** The node at position `i`, null past the end. */
  ghost function IfAt(nodes: seq<IfNode>, i: nat): IfNode? {
    if i < |nodes| then nodes[i] else null
  }

  ghost predicate NoRepeat(nodes: seq<IfNode>) {
    forall i, j :: 0 <= i < j < |nodes| ==> nodes[i] != nodes[j]
  }

  /** The node at position `i` points to the one after it. */
  ghost predicate ChainedAt(nodes: seq<IfNode>, i: nat)
    requires i < |nodes|
    reads nodes`next
  {
    nodes[i].next == IfAt(nodes, i + 1)
  }

  ghost predicate Chained(nodes: seq<IfNode>)
    reads nodes`next
  {
    forall i :: 0 <= i < |nodes| ==> ChainedAt(nodes, i)
  }

  /** The nodes hold what `model` says. */
  ghost predicate Represents(nodes: seq<IfNode>, model: seq<Iface>)
    reads nodes`addr, nodes`ip
  {
    |nodes| == |model| && forall i :: 0 <= i < |nodes| ==> Iface(nodes[i].name, nodes[i].addr, nodes[i].ip) == model[i]
  }

  /** A node behind the last one makes a list again. */
  lemma Appended(nodes: seq<IfNode>, n: IfNode)
    requires forall i :: 0 <= i < |nodes| - 1 ==> ChainedAt(nodes, i)
    requires nodes != [] ==> nodes[|nodes| - 1].next == n
    requires n.next == null
    ensures Chained(nodes + [n]) && IfAt(nodes + [n], 0) == if nodes == [] then n else nodes[0]
  {
    var r := nodes + [n];
    forall i | 0 <= i < |r|
      ensures ChainedAt(r, i)
    {
      if i < |nodes| - 1 {
        assert ChainedAt(nodes, i) && r[i] == nodes[i] && r[i + 1] == nodes[i + 1];
      }
    }
  }

  lemma NoOther(nodes: seq<IfNode>, k: nat)
    requires k < |nodes| && NoRepeat(nodes)
    ensures forall i :: 0 <= i < |nodes| && i != k ==> nodes[i] != nodes[k]
  {}

  lemma StillNoRepeat(nodes: seq<IfNode>, n: IfNode)
    requires NoRepeat(nodes) && n !in nodes
    ensures NoRepeat(nodes + [n])
  {}

  class IfList {
    var head: IfNode?
    ghost var nodes: seq<IfNode>
    ghost var model: seq<Iface>

    /** The nodes form a list without repetition and hold what `model` says. */
    ghost predicate Valid()
      reads this, nodes
    {
      head == IfAt(nodes, 0) && NoRepeat(nodes) && Chained(nodes) && Represents(nodes, model)
    }

    constructor ()
      ensures Valid() && model == [] && nodes == []
    {
      head, nodes, model := null, [], [];
    }

    method GetInterface(name: Name) returns (r: IfNode?)
      requires Valid()
      ensures r == null <==> FindName(model, name).None?
      ensures r != null ==> FindName(model, name) == Some(Iface(r.name, r.addr, r.ip))
      ensures r != null ==> exists k ::
        0 <= k < |nodes| && r == nodes[k] && r.name == name && forall j :: 0 <= j < k ==> nodes[j].name != name
    {
      r := head;
      ghost var k := 0;
      while r != null
        invariant k <= |nodes| && r == IfAt(nodes, k)
        invariant forall j :: 0 <= j < k ==> nodes[j].name != name && model[j].name != name
        decreases |nodes| - k
      {
        if r.name == name {
          FindNameAt(model, name, k);
          return;
        }
        assert ChainedAt(nodes, k);
        r, k := r.next, k + 1;
      }
      FindNameAt(model, name, k);
    }

    method GetByAddress(ip: Ip) returns (r: IfNode?)
      requires Valid()
      ensures r == null <==> FindIp(model, ip).None?
      ensures r != null ==> FindIp(model, ip) == Some(Iface(r.name, r.addr, r.ip))
      ensures r != null ==> exists k ::
        0 <= k < |nodes| && r == nodes[k] && r.ip == ip && forall j :: 0 <= j < k ==> nodes[j].ip != ip
    {
      r := head;
      ghost var k := 0;
      while r != null
        invariant k <= |nodes| && r == IfAt(nodes, k)
        invariant forall j :: 0 <= j < k ==> nodes[j].ip != ip && model[j].ip != ip
        decreases |nodes| - k
      {
        if r.ip == ip {
          FindIpAt(model, ip, k);
          return;
        }
        assert ChainedAt(nodes, k);
        r, k := r.next, k + 1;
      }
      FindIpAt(model, ip, k);
    }

    /** The walk to the end of the list. */
    method Last() returns (r: IfNode)
      requires Valid() && nodes != []
      ensures r == nodes[|nodes| - 1]
    {
      r := head;
      ghost var k := 0;
      while r.next != null
        invariant k < |nodes| && r == nodes[k]
        decreases |nodes| - k
      {
        assert ChainedAt(nodes, k);
        r, k := r.next, k + 1;
      }
      assert ChainedAt(nodes, k);
    }

    method AddInterface(name: Name, junkAddr: Mac, junkIp: Ip)
      requires Valid()
      modifies this, nodes
      ensures Valid() && model == old(model) + [Iface(name, junkAddr, junkIp)]
      ensures |nodes| == |old(nodes)| + 1 && nodes[..|old(nodes)|] == old(nodes) && fresh(nodes[|old(nodes)|])
    {
      hide NoRepeat;
      var n := new IfNode(name, junkAddr, junkIp);
      StillNoRepeat(nodes, n);
      if head == null {
        head := n;
      } else {
        var last := Last();
        ghost var k := |nodes| - 1;
        NoOther(nodes, k);
        assert forall i :: 0 <= i < k ==> ChainedAt(nodes, i);
        forall i | 0 <= i < k
          ensures nodes[i].next == nodes[i + 1]
        {
          assert ChainedAt(nodes, i);
        }
        last.next := n;
        assert forall i :: 0 <= i < k ==> ChainedAt(nodes, i);
      }
      Appended(nodes, n);
      nodes, model := nodes + [n], model + [Iface(name, junkAddr, junkIp)];
    }

    method SetEtherAddr(addr: Mac)
      requires Valid() && nodes != []
      modifies this, nodes
      ensures Valid() && nodes == old(nodes)
      ensures model == SetLastAddr(old(model), addr)
    {
      var last := Last();
      NoOther(nodes, |nodes| - 1);
      hide NoRepeat, Chained;
      last.addr := addr;
      model := SetLastAddr(model, addr);
    }

    method SetEtherIp(ip: Ip)
      requires Valid() && nodes != []
      modifies this, nodes
      ensures Valid() && nodes == old(nodes)
      ensures model == SetLastIp(old(model), ip)
    {
      var last := Last();
      NoOther(nodes, |nodes| - 1);
      hide NoRepeat, Chained;
      last.ip := ip;
      model := SetLastIp(model, ip);
    }
  }

  function SetLastAddr(ifs: seq<Iface>, addr: Mac): seq<Iface>
    requires ifs != []
  {
    ifs[|ifs| - 1 := ifs[|ifs| - 1].(addr := addr)]
  }

  function SetLastIp(ifs: seq<Iface>, ip: Ip): seq<Iface>
    requires ifs != []
  {
    ifs[|ifs| - 1 := ifs[|ifs| - 1].(ip := ip)]
  }
}
