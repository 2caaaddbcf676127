/** The lists of waiting frames on the heap never share a node. */
module PacketLists {
  import opened RouterModel
  import opened Conservation
  import opened ArpCache

  /** The node stands on the list from `p` on. */
  ghost predicate OnList(n: Packet, p: Packet?, ws: seq<Waiting>)
    requires Holds(p, ws)
    decreases |ws|
  {
    p != null && (n == p || OnList(n, p.next, ws[1..]))
  }

  lemma {:induction false} OnListIsCounted(n: Packet, p: Packet?, ws: seq<Waiting>)
    requires Holds(p, ws) && OnList(n, p, ws)
    ensures CountIn(ws, n.id) >= 1
    decreases |ws|
  {
    if n != p {
      OnListIsCounted(n, p.next, ws[1..]);
    }
  }

  /** Whenever each frame is accounted for once, as it is in every reachable state,
      a node stands on the list of one request at most: freeing one request's list
      leaves the others whole. */
  lemma ListsAreDisjoint(cache: Cache, s: State, i: nat, j: nat, n: Packet)
    requires cache.Valid() && s.requests == cache.pending && Accounted(s, n.id)
    requires i < j < |cache.queue|
    ensures j < |cache.pending| && Stores(cache.queue[i], cache.pending[i]) && Stores(cache.queue[j], cache.pending[j])
    ensures OnList(n, cache.queue[i].packets, cache.pending[i].waiting) ==>
            !OnList(n, cache.queue[j].packets, cache.pending[j].waiting)
  {
    hide Holds, CountIn, Distinct, Linked, NoneFreed, CountReleased, CountAnswered;
    assert Stores(cache.queue[i], cache.pending[i]) && Stores(cache.queue[j], cache.pending[j]);
    if OnList(n, cache.queue[i].packets, cache.pending[i].waiting)
      && OnList(n, cache.queue[j].packets, cache.pending[j].waiting) {
      OnListIsCounted(n, cache.queue[i].packets, cache.pending[i].waiting);
      OnListIsCounted(n, cache.queue[j].packets, cache.pending[j].waiting);
      TwoPlaces(s.requests, i, j, n.id);
      assert false;
    }
  }

  lemma TwoPlaces(requests: seq<Request>, i: nat, j: nat, id: nat)
    requires i < j < |requests|
    ensures CountWaiting(requests, id) >= CountIn(requests[i].waiting, id) + CountIn(requests[j].waiting, id)
  {
    hide CountIn;
    CountWaitingSplit(requests, j, id);
    CountWaitingSplit(requests[..j], i, id);
  }
}
