/** The ARP cache on the heap: a fixed table of mappings, and a linked queue of
    pending requests each with a linked list of waiting frames. */
module ArpCache {
  import opened Bytes
  import opened Network
  import opened Frames
  import opened RouterModel

  /** A waiting frame. Nothing in it changes once it is on a list. */
  class Packet {
    const buf: LongFrame
    const iface: Name
    const next: Packet?
    ghost const id: nat

    constructor (buf: LongFrame, iface: Name, next: Packet?, ghost id: nat)
      ensures this.buf == buf && this.iface == iface && this.next == next && this.id == id
    {
      this.buf, this.iface, this.next, this.id := buf, iface, next, id;
    }
  }

  /** The list from `p` on holds exactly `ws`. */
  ghost predicate Holds(p: Packet?, ws: seq<Waiting>)
    decreases |ws|
  {
    if ws == [] then p == null
    else p != null && Waiting(p.id, p.buf, p.iface) == ws[0] && Holds(p.next, ws[1..])
  }

  /** The nodes of the list from `p` on. No node changes, so neither does this. */
  ghost function NodesOf(p: Packet?, ws: seq<Waiting>): (nodes: set<Packet>)
    requires Holds(p, ws)
    ensures p != null ==> p in nodes
    decreases |ws|
  {
    if p == null then {} else {p} + NodesOf(p.next, ws[1..])
  }

  /** A list holds one thing. */
  lemma {:induction false} OneContents(p: Packet?, a: seq<Waiting>, b: seq<Waiting>)
    requires Holds(p, a) && Holds(p, b)
    ensures a == b
  {
    if p != null {
      OneContents(p.next, a[1..], b[1..]);
      assert a == [a[0]] + a[1..] && b == [b[0]] + b[1..];
    }
  }

  /** A node on a list heads the rest of it. */
  lemma {:induction false} HeadsRest(n: Packet, p: Packet?, ws: seq<Waiting>) returns (rest: seq<Waiting>)
    requires Holds(p, ws) && n in NodesOf(p, ws)
    ensures Holds(n, rest) && |rest| <= |ws|
    decreases |ws|
  {
    if n == p {
      rest := ws;
    } else {
      rest := HeadsRest(n, p.next, ws[1..]);
    }
  }

  /** No node comes back further down its list. */
  lemma NotFurtherDown(p: Packet, ws: seq<Waiting>)
    requires Holds(p, ws)
    ensures p !in NodesOf(p.next, ws[1..])
  {
    if p in NodesOf(p.next, ws[1..]) {
      var rest := HeadsRest(p, p.next, ws[1..]);
      OneContents(p, ws, rest);
      assert false;
    }
  }

  class ArpReq {
    const ip: Ip
    var sent: int
    var timesSent: nat
    var packets: Packet?
    var next: ArpReq?

    /** `calloc` clears the counters and the list. */
    constructor (ip: Ip, next: ArpReq?)
      ensures this.ip == ip && sent == 0 && timesSent == 0 && packets == null && this.next == next
    {
      this.ip, this.next := ip, next;
      sent, timesSent, packets := 0, 0, null;
    }
  }

  /** The node holds the request `r`. */
  ghost predicate Stores(n: ArpReq, r: Request)
    reads n`sent, n`timesSent, n`packets
  {
    n.ip == r.ip && n.sent == r.sent && n.timesSent == r.timesSent && Holds(n.packets, r.waiting)
  }

  /** `lists[i]` are the nodes on the list of the request at position `i`. */
  ghost predicate ListsOf(queue: seq<ArpReq>, pending: seq<Request>, lists: seq<set<Packet>>)
    reads queue`packets
  {
    |lists| == |queue| == |pending| &&
    forall i :: 0 <= i < |queue| ==>
      Holds(queue[i].packets, pending[i].waiting) && lists[i] == NodesOf(queue[i].packets, pending[i].waiting)
  }

  /** No node is on two lists, and none on a list is freed. */
  ghost predicate Apart(lists: seq<set<Packet>>, gone: set<Packet>) {
    && (forall i :: 0 <= i < |lists| ==> lists[i] !! gone)
    && (forall i, j :: 0 <= i < j < |lists| ==> lists[i] !! lists[j])
  }

  /** Taking a list out leaves the others apart, from each other and from it. */
  lemma ApartWithout(lists: seq<set<Packet>>, gone: set<Packet>, k: nat)
    requires k < |lists| && Apart(lists, gone)
    ensures Apart(Remove(lists, k), gone) && lists[k] !! gone
    ensures forall i :: 0 <= i < |Remove(lists, k)| ==> Remove(lists, k)[i] !! lists[k]
  {}

  lemma ApartWithEmpty(lists: seq<set<Packet>>, gone: set<Packet>)
    requires Apart(lists, gone)
    ensures Apart([{}] + lists, gone)
  {}

  lemma ApartWithMore(lists: seq<set<Packet>>, gone: set<Packet>, k: nat, n: Packet)
    requires k < |lists| && Apart(lists, gone) && n !in gone
    requires forall i :: 0 <= i < |lists| ==> n !in lists[i]
    ensures Apart(lists[k := lists[k] + {n}], gone)
  {}

  lemma ApartWithGone(lists: seq<set<Packet>>, gone: set<Packet>, list: set<Packet>)
    requires Apart(lists, gone) && forall i :: 0 <= i < |lists| ==> lists[i] !! list
    ensures Apart(lists, gone + list)
  {}

  lemma ListsWithout(queue: seq<ArpReq>, pending: seq<Request>, lists: seq<set<Packet>>, k: nat)
    requires k < |queue| && ListsOf(queue, pending, lists)
    ensures ListsOf(Remove(queue, k), Remove(pending, k), Remove(lists, k)) && |lists| == |pending| == |queue|
    ensures Holds(queue[k].packets, pending[k].waiting) && lists[k] == NodesOf(queue[k].packets, pending[k].waiting)
  {
    hide Holds, NodesOf, Remove;
  }

  lemma ListsWithNew(queue: seq<ArpReq>, pending: seq<Request>, lists: seq<set<Packet>>, req: ArpReq)
    requires ListsOf(queue, pending, lists) && req.packets == null
    ensures ListsOf([req] + queue, [Request(req.ip, 0, 0, [])] + pending, [{}] + lists)
  {
    assert Holds(null, []) && NodesOf(null, []) == {};
    hide Holds, NodesOf;
  }

  /** The node at position `i`, null past the end. */
  ghost function ReqAt(queue: seq<ArpReq>, i: nat): ArpReq? {
    if i < |queue| then queue[i] else null
  }

  ghost predicate Distinct(queue: seq<ArpReq>) {
    forall i, j :: 0 <= i < j < |queue| ==> queue[i] != queue[j]
  }

  /** The node at position `i` points to the one after it. */
  ghost predicate LinkedAt(queue: seq<ArpReq>, i: nat)
    requires i < |queue|
    reads queue`next
  {
    queue[i].next == ReqAt(queue, i + 1)
  }

  ghost predicate Linked(queue: seq<ArpReq>)
    reads queue`next
  {
    forall i :: 0 <= i < |queue| ==> LinkedAt(queue, i)
  }

  ghost predicate StoresAll(queue: seq<ArpReq>, pending: seq<Request>)
    reads queue`sent, queue`timesSent, queue`packets
  {
    |queue| == |pending| && forall i :: 0 <= i < |queue| ==> Stores(queue[i], pending[i])
  }

  ghost predicate NoneFreed(queue: seq<ArpReq>, freed: set<ArpReq>) {
    forall i :: 0 <= i < |queue| ==> queue[i] !in freed
  }

  /** Taking a node out keeps the other nodes distinct, live and in step with their requests. */
  lemma RemoveKeeps(queue: seq<ArpReq>, pending: seq<Request>, freed: set<ArpReq>, k: nat)
    requires k < |queue| && Distinct(queue) && StoresAll(queue, pending) && NoneFreed(queue, freed)
    ensures var q := Remove(queue, k);
      Distinct(q) && StoresAll(q, Remove(pending, k)) && NoneFreed(q, freed) && queue[k] !in q
  {
    hide Stores, Remove;
  }

  /** Once the node before `k` points past it, the rest is a list again. */
  lemma Relinked(queue: seq<ArpReq>, k: nat)
    requires k < |queue|
    requires forall i :: 0 <= i < |queue| && i != k - 1 ==> LinkedAt(queue, i)
    requires k > 0 ==> queue[k - 1].next == ReqAt(queue, k + 1)
    ensures Linked(Remove(queue, k))
  {
    hide Remove;
    var q := Remove(queue, k);
    forall i | 0 <= i < |q|
      ensures LinkedAt(q, i)
    {
      if i != k - 1 {
        assert LinkedAt(queue, if i < k then i else i + 1);
      }
    }
  }

  class Cache {
    const entries: array<Entry>
    var requests: ArpReq?
    ghost var queue: seq<ArpReq>
    ghost var pending: seq<Request>
    ghost var freed: set<ArpReq>
    ghost var lists: seq<set<Packet>>
    ghost var freedPackets: set<Packet>

    /** The queue is a list without repetition, none of it freed, and stores `pending`; the
        lists of waiting frames share no node, and none of theirs is freed either. */
    ghost predicate Valid()
      reads this, queue
    {
      && entries.Length == CACHE_SIZE && requests == ReqAt(queue, 0)
      && Distinct(queue) && Linked(queue) && StoresAll(queue, pending) && NoneFreed(queue, freed)
      && ListsOf(queue, pending, lists) && Apart(lists, freedPackets)
    }

    /** A list that is on no request of the queue, and none of it freed. */
    ghost predicate Loose(p: Packet?, ws: seq<Waiting>)
      reads this
    {
      && Holds(p, ws) && NodesOf(p, ws) !! freedPackets
      && forall i :: 0 <= i < |lists| ==> lists[i] !! NodesOf(p, ws)
    }

    constructor ()
      ensures Valid() && pending == [] && queue == [] && freed == {} && freedPackets == {} && fresh(entries)
      ensures entries[..] == START.entries
    {
      entries := new Entry[CACHE_SIZE](_ => CLEARED);
      requests, queue, pending, freed, lists, freedPackets := null, [], [], {}, [], {};
      new;
      assert entries[..] == START.entries;
    }

    // ---------- the table ----------

    /** A copy of the mapping for `ip`, if there is one. */
    method LookupEntry(ip: Ip) returns (r: Option<Mac>)
      ensures r == Lookup(entries[..], ip)
    {
      r := None;
      for i := 0 to entries.Length
        invariant r == Lookup(entries[..i], ip)
      {
        assert entries[..i + 1][..i] == entries[..i];
        if entries[i].valid && entries[i].ip == ip {
          r := Some(entries[i].mac);
        }
      }
      assert entries[..entries.Length] == entries[..];
    }

    method InsertEntry(mac: Mac, ip: Ip, now: int)
      modifies entries
      ensures entries[..] == Insert(old(entries[..]), mac, ip, now)
    {
      ghost var was := entries[..];
      var i := 0;
      while i < entries.Length && entries[i].valid
        invariant i <= entries.Length && entries[..] == was
        invariant Insert(was, mac, ip, now) == was[..i] + Insert(was[i..], mac, ip, now)
      {
        assert was[i..][1..] == was[i + 1..];
        i := i + 1;
      }
      if i != entries.Length {
        assert was[i..][1..] == was[i + 1..];
        entries[i] := Entry(mac, ip, now, true);
        assert entries[..] == was[..i] + [Entry(mac, ip, now, true)] + was[i + 1..];
      }
    }

    /** The first loop of a timeout pass. */
    method ExpireEntries(now: int)
      modifies entries
      ensures entries[..] == Expire(old(entries[..]), now)
    {
      for i := 0 to entries.Length
        invariant forall j :: 0 <= j < i ==> entries[j] == ExpireOne(old(entries[j]), now)
        invariant forall j :: i <= j < entries.Length ==> entries[j] == old(entries[j])
      {
        if entries[i].valid && now - entries[i].added > CACHE_TIMEOUT {
          entries[i] := entries[i].(valid := false);
        }
      }
    }

    // ---------- the queue ----------

    /** The walk that looks for `ip`: where it is, and the node before. */
    method Find(ip: Ip) returns (prev: ArpReq?, req: ArpReq?, ghost k: nat)
      requires Valid()
      ensures k == Position(pending, ip) && req == ReqAt(queue, k)
      ensures prev == if k == 0 then null else queue[k - 1]
    {
      prev, req, k := null, requests, 0;
      while req != null && req.ip != ip
        invariant k <= |queue| && req == ReqAt(queue, k)
        invariant prev == if k == 0 then null else queue[k - 1]
        invariant forall j :: 0 <= j < k ==> pending[j].ip != ip
        decreases |queue| - k
      {
        assert Stores(queue[k], pending[k]) && LinkedAt(queue, k);
        prev, req, k := req, req.next, k + 1;
      }
      if k < |queue| {
        assert Stores(queue[k], pending[k]);
      }
      PositionIs(pending, ip, k);
    }

    /** A new request at the front of the queue. */
    method PushReq(ip: Ip) returns (req: ArpReq)
      requires Valid()
      modifies this
      ensures Valid() && freed == old(freed) && freedPackets == old(freedPackets) && fresh(req)
      ensures queue == [req] + old(queue) && pending == [Request(ip, 0, 0, [])] + old(pending)
    {
      hide Stores, Apart, ListsOf;
      ghost var was := queue;
      req := new ArpReq(ip, requests);
      StoresNew(req);
      ApartWithEmpty(lists, freedPackets);
      ListsWithNew(queue, pending, lists, req);
      requests, queue, pending, lists := req, [req] + queue, [Request(ip, 0, 0, [])] + pending, [{}] + lists;
      assert forall i :: 0 < i < |queue| ==> queue[i] == was[i - 1];
      forall i | 0 <= i < |queue|
        ensures LinkedAt(queue, i)
      {
        if i > 0 {
          assert LinkedAt(was, i - 1);
        }
      }
    }

    /** A frame at the front of the list of the request at position `k`. */
    method AddPacket(req: ArpReq, buf: LongFrame, iface: Name, ghost id: nat, ghost k: nat)
      requires Valid() && k < |queue| && req == queue[k]
      modifies this`pending, this`lists, req`packets
      ensures Valid()
      ensures pending ==
        old(pending)[k := old(pending)[k].(waiting := [Waiting(id, buf, iface)] + old(pending)[k].waiting)]
    {
      hide Distinct;
      DistinctFrom(queue, k);
      ghost var r, w := pending[k], Waiting(id, buf, iface);
      assert Stores(queue[k], r);
      ghost var others, list := lists, lists[k];
      var n := new Packet(buf, iface, req.packets, id);
      assert ([w] + r.waiting)[1..] == r.waiting;
      assert NodesOf(n, [w] + r.waiting) == {n} + list;
      hide Holds, NodesOf;
      ApartWithMore(lists, freedPackets, k, n);
      req.packets := n;
      pending, lists := pending[k := r.(waiting := [w] + r.waiting)], lists[k := {n} + list];
      assert list + {n} == {n} + list;
    }

    /** Puts a frame on the list of the request for `ip`, which is created if need be. */
    method QueueReq(ip: Ip, buf: LongFrame, iface: Name, ghost id: nat) returns (req: ArpReq, ghost k: nat)
      requires Valid()
      modifies this, queue
      ensures Valid() && freed == old(freed) && freedPackets == old(freedPackets)
      ensures pending == Enqueue(old(pending), ip, Waiting(id, buf, iface))
      ensures k == Position(pending, ip) && k < |queue| && req == queue[k]
      ensures forall i :: 0 <= i < |queue| ==> queue[i] in old(queue) || fresh(queue[i])
    {
      hide Position, Enqueue, Distinct, Linked, StoresAll, NoneFreed, ListsOf, Apart;
      var prev, found;
      prev, found, k := Find(ip);
      assert |queue| == |pending| by { LengthsAgree(); }
      if found == null {
        EnqueueNew(pending, ip, Waiting(id, buf, iface));
        req := PushReq(ip);
        k := 0;
        AddPacket(req, buf, iface, id, 0);
      } else {
        EnqueueFound(pending, ip, Waiting(id, buf, iface));
        req := found;
        AddPacket(req, buf, iface, id, k);
      }
    }

    /** What `Valid` says about the node at position `k`. */
    lemma NodeFacts(k: nat)
      requires Valid() && k < |queue|
      ensures |queue| == |pending| && Stores(queue[k], pending[k]) && queue[k] !in freed
      ensures forall i :: 0 <= i < |queue| && queue[i] == queue[k] ==> i == k
    {}

    lemma LengthsAgree()
      requires Valid()
      ensures |queue| == |pending|
    {}

    /** Takes the node at position `k` out of the queue. */
    method Unlink(prev: ArpReq?, req: ArpReq, ghost k: nat)
      requires Valid() && k < |queue| && req == queue[k] && prev == if k == 0 then null else queue[k - 1]
      modifies this, queue
      ensures Valid() && freed == old(freed) && freedPackets == old(freedPackets)
      ensures queue == Remove(old(queue), k) && pending == Remove(old(pending), k)
      ensures Loose(req.packets, old(pending)[k].waiting)
      ensures req !in queue && Stores(req, old(pending)[k]) && req !in freed && req.next == old(req.next)
      ensures req.packets == old(req.packets)
    {
      hide Stores, Remove, Distinct, Holds, NodesOf, Apart, ListsOf, Loose, NoneFreed, StoresAll;
      ghost var was, held, nodes := queue, pending, lists;
      StoredAt(was, held, freed, k);
      forall i | 0 <= i < |was|
        ensures was[i].next == ReqAt(was, i + 1)
      {
        assert LinkedAt(was, i);
      }
      if prev != null {
        DistinctFrom(was, k - 1);
        prev.next := req.next;
      } else {
        requests := req.next;
      }
      RemoveKeeps(was, held, freed, k);
      ListsWithout(was, held, nodes, k);
      ApartWithout(nodes, freedPackets, k);
      queue, pending, lists := Remove(was, k), Remove(held, k), Remove(nodes, k);
      TakenOut(nodes, k, req.packets, held[k].waiting);
      assert forall i :: 0 <= i < |was| && i != k - 1 ==> LinkedAt(was, i);
      Relinked(was, k);
      FirstOfRemoved(was, k);
    }

    /** Records the mapping, and takes the request for its address out of the queue. */
    method InsertMapping(mac: Mac, ip: Ip, now: int) returns (req: ArpReq?, ghost k: nat)
      requires Valid()
      modifies this, queue, entries
      ensures Valid() && freed == old(freed) && freedPackets == old(freedPackets)
        && entries[..] == Insert(old(entries[..]), mac, ip, now)
      ensures k == Position(old(pending), ip) && req == ReqAt(old(queue), k)
      ensures k < |old(pending)| ==>
        queue == Remove(old(queue), k) && pending == Remove(old(pending), k) &&
        req !in queue && req !in freed && Stores(req, old(pending)[k]) && Loose(req.packets, old(pending)[k].waiting)
      ensures k == |old(pending)| ==> queue == old(queue) && pending == old(pending)
    {
      hide Position, Distinct, Linked, StoresAll, NoneFreed, Stores, ListsOf, Apart, Loose;
      LengthsAgree();
      var prev;
      prev, req, k := Find(ip);
      if req != null {
        Unlink(prev, req, k);
      }
      InsertEntry(mac, ip, now);
    }

    /** Notes that the request at position `k` was sent. */
    method MarkSent(req: ArpReq, now: int, ghost k: nat)
      requires Valid() && k < |queue| && req == queue[k]
      modifies this`pending, req`sent, req`timesSent
      ensures Valid()
      ensures pending == old(pending)[k := old(pending)[k].(sent := now, timesSent := old(pending)[k].timesSent + 1)]
    {
      hide Distinct, Apart, Holds, NodesOf;
      DistinctFrom(queue, k);
      ghost var r := pending[k];
      assert Stores(queue[k], r);
      req.sent, req.timesSent := now, req.timesSent + 1;
      pending := pending[k := r.(sent := now, timesSent := r.timesSent + 1)];
    }

    /** Frees the nodes of a list, each of them once, fetching the next one first. */
    method FreePackets(packets: Packet?, ghost ws: seq<Waiting>)
      requires Holds(packets, ws) && NodesOf(packets, ws) !! freedPackets
      modifies this`freedPackets
      ensures freedPackets == old(freedPackets) + NodesOf(packets, ws)
    {
      var pkt := packets;
      ghost var rest := ws;
      while pkt != null
        invariant Holds(pkt, rest) && NodesOf(pkt, rest) !! freedPackets
        invariant freedPackets + NodesOf(pkt, rest) == old(freedPackets) + NodesOf(packets, ws)
        decreases |rest|
      {
        NotFurtherDown(pkt, rest);
        var nxt := pkt.next;
        assert pkt !in freedPackets;
        freedPackets := freedPackets + {pkt};
        pkt, rest := nxt, rest[1..];
      }
    }

    /** The walk that looks for a node. */
    method FindNode(entry: ArpReq) returns (prev: ArpReq?, req: ArpReq?, ghost k: nat)
      requires Valid()
      ensures k <= |queue| && req == ReqAt(queue, k) && prev == if k == 0 then null else queue[k - 1]
      ensures req == if entry in queue then entry else null
    {
      prev, req, k := null, requests, 0;
      while req != null && req != entry
        invariant k <= |queue| && req == ReqAt(queue, k)
        invariant prev == if k == 0 then null else queue[k - 1]
        invariant forall j :: 0 <= j < k ==> queue[j] != entry
        decreases |queue| - k
      {
        assert LinkedAt(queue, k);
        prev, req, k := req, req.next, k + 1;
      }
    }

    /** Takes a request out of the queue if it is there. */
    method TakeOut(entry: ArpReq, ghost ws: seq<Waiting>) returns (ghost k: nat)
      requires Valid() && entry !in freed && Holds(entry.packets, ws)
      requires entry !in queue ==> Loose(entry.packets, ws)
      modifies this, queue
      ensures Valid() && freed == old(freed) && freedPackets == old(freedPackets)
      ensures entry !in queue && entry.packets == old(entry.packets) && Loose(entry.packets, ws)
      ensures k <= |old(queue)| && (k < |old(queue)| <==> entry in old(queue))
      ensures k < |old(queue)| ==>
        old(queue)[k] == entry && queue == Remove(old(queue), k) && pending == Remove(old(pending), k)
      ensures k == |old(queue)| ==> queue == old(queue) && pending == old(pending)
    {
      LengthsAgree();
      hide Valid, NodesOf, Holds, Loose;
      var prev, req;
      prev, req, k := FindNode(entry);
      if req != null {
        ListHeld(k);
        OneContents(entry.packets, ws, pending[k].waiting);
        Unlink(prev, req, k);
      }
    }

    /** Frees a request that was not freed before, taking it out of the queue if it is
        there, and every node on its list. */
    method Destroy(entry: ArpReq, ghost ws: seq<Waiting>) returns (ghost k: nat)
      requires Valid() && entry !in freed && Holds(entry.packets, ws)
      requires entry !in queue ==> Loose(entry.packets, ws)
      modifies this, queue
      ensures Valid() && freed == old(freed) + {entry}
      ensures freedPackets == old(freedPackets + NodesOf(entry.packets, ws))
      ensures k <= |old(queue)| && (k < |old(queue)| <==> entry in old(queue))
      ensures k < |old(queue)| ==>
        old(queue)[k] == entry && queue == Remove(old(queue), k) && pending == Remove(old(pending), k)
      ensures k == |old(queue)| ==> queue == old(queue) && pending == old(pending)
    {
      hide Distinct, StoresAll, Stores, NoneFreed, ListsOf, Apart, NodesOf, Holds, Linked;
      k := TakeOut(entry, ws);
      ApartWithGone(lists, freedPackets, NodesOf(entry.packets, ws));
      FreePackets(entry.packets, ws);
      StillNoneFreed(queue, freed, entry);
      freed := freed + {entry};
    }

    /** A list just taken out is loose. */
    lemma TakenOut(nodes: seq<set<Packet>>, k: nat, p: Packet?, ws: seq<Waiting>)
      requires k < |nodes| && Apart(nodes, freedPackets) && lists == Remove(nodes, k)
      requires Holds(p, ws) && nodes[k] == NodesOf(p, ws)
      ensures Loose(p, ws)
    {
      hide Holds, NodesOf;
      ApartWithout(nodes, freedPackets, k);
    }

    lemma ListHeld(k: nat)
      requires Valid() && k < |queue|
      ensures |lists| == |queue| == |pending| && Holds(queue[k].packets, pending[k].waiting)
      ensures lists[k] == NodesOf(queue[k].packets, pending[k].waiting) && Apart(lists, freedPackets)
    {}
  }

  /** `Enqueue` on a pending request, as the code does it. */
  lemma EnqueueFound(pending: seq<Request>, ip: Ip, w: Waiting)
    requires Pending(pending, ip)
    ensures
      var k, q := Position(pending, ip), Enqueue(pending, ip, w);
      q == pending[k := pending[k].(waiting := [w] + pending[k].waiting)] && Position(q, ip) == k
  {
    hide Position;
    PositionIs(Enqueue(pending, ip, w), ip, Position(pending, ip));
  }

  /** `Enqueue` when there is no request yet, as the code does it: first the
      request, then the frame on its list. */
  lemma EnqueueNew(pending: seq<Request>, ip: Ip, w: Waiting)
    requires !Pending(pending, ip)
    ensures
      var p, q := [Request(ip, 0, 0, [])] + pending, Enqueue(pending, ip, w);
      q == p[0 := p[0].(waiting := [w] + p[0].waiting)] && Position(q, ip) == 0
  {
    hide Position;
    assert [w] + [] == [w];
    PositionIs(Enqueue(pending, ip, w), ip, 0);
  }

  lemma StoredCounters(n: ArpReq, r: Request)
    requires Stores(n, r)
    ensures n.sent == r.sent && n.timesSent == r.timesSent
  {}

  lemma StoredAt(queue: seq<ArpReq>, pending: seq<Request>, freed: set<ArpReq>, k: nat)
    requires k < |queue| && StoresAll(queue, pending) && NoneFreed(queue, freed)
    ensures |pending| == |queue| && Stores(queue[k], pending[k]) && queue[k] !in freed
  {}

  lemma StillNoneFreed(queue: seq<ArpReq>, freed: set<ArpReq>, n: ArpReq)
    requires NoneFreed(queue, freed) && n !in queue
    ensures NoneFreed(queue, freed + {n})
  {}

  lemma StoresNew(n: ArpReq)
    requires n.sent == 0 && n.timesSent == 0 && n.packets == null
    ensures Stores(n, Request(n.ip, 0, 0, []))
  {}

  lemma DistinctFrom(queue: seq<ArpReq>, k: nat)
    requires k < |queue| && Distinct(queue)
    ensures forall i :: 0 <= i < |queue| && i != k ==> queue[i] != queue[k]
  {}

  lemma FirstOfRemoved(queue: seq<ArpReq>, k: nat)
    requires k < |queue|
    ensures ReqAt(Remove(queue, k), 0) == if k == 0 then ReqAt(queue, 1) else queue[0]
  {}

  lemma {:induction false} PositionIs(requests: seq<Request>, ip: Ip, k: nat)
    requires k <= |requests| && forall j :: 0 <= j < k ==> requests[j].ip != ip
    requires k < |requests| ==> requests[k].ip == ip
    ensures Position(requests, ip) == k
  {
    if k > 0 {
      assert requests[0].ip != ip;
      assert forall j :: 0 <= j < k - 1 ==> requests[1..][j] == requests[j + 1];
      PositionIs(requests[1..], ip, k - 1);
    }
  }
}
