/** The inductive invariant of the resolver, the soundness of the ARP table, and
    the guard of `sr_send_packet` over every run. */
module Resolver {
  import opened Bytes
  import opened Network
  import opened Frames
  import opened RouterModel

  // ---------- the ARP table ----------

  predicate Maps(e: Entry, ip: Ip) {
    e.valid && e.ip == ip
  }

  /** The scan returns the mapping of the highest valid slot for the address, and
      nothing exactly when there is none. */
  lemma {:induction false} LookupIsLastValid(entries: seq<Entry>, ip: Ip)
    ensures Lookup(entries, ip).Some? <==> exists i :: 0 <= i < |entries| && Maps(entries[i], ip)
    ensures forall i ::
      0 <= i < |entries| && Maps(entries[i], ip) && (forall j :: i < j < |entries| ==> !Maps(entries[j], ip))
      ==> Lookup(entries, ip) == Some(entries[i].mac)
  {
    if entries != [] {
      var n := |entries| - 1;
      LookupIsLastValid(entries[..n], ip);
      assert forall i :: 0 <= i < n ==> entries[..n][i] == entries[i];
      if Maps(entries[n], ip) {
      } else if Lookup(entries[..n], ip).Some? {
        var i :| 0 <= i < n && Maps(entries[..n][i], ip);
        assert Maps(entries[i], ip);
      }
    }
  }

  /** The first free slot, or the length of a full table. */
  function FirstFree(entries: seq<Entry>): (k: nat)
    ensures k <= |entries| && (k < |entries| ==> !entries[k].valid)
    ensures forall i :: 0 <= i < k ==> entries[i].valid
  {
    if entries == [] || !entries[0].valid then 0 else 1 + FirstFree(entries[1..])
  }

  /** A new mapping takes the first free slot and no other; a full table drops it. */
  lemma {:induction false} InsertTakesFirstFree(entries: seq<Entry>, mac: Mac, ip: Ip, now: int)
    ensures var k := FirstFree(entries);
      Insert(entries, mac, ip, now) == if k < |entries| then entries[k := Entry(mac, ip, now, true)] else entries
  {
    if entries == [] {
    } else if entries[0].valid {
      InsertTakesFirstFree(entries[1..], mac, ip, now);
      NextSlot(entries, mac, ip, now);
      UpdateBehind(entries, FirstFree(entries[1..]), Entry(mac, ip, now, true));
    } else {
      assert [Entry(mac, ip, now, true)] + entries[1..] == entries[0 := Entry(mac, ip, now, true)];
    }
  }

  /** Past a taken slot. */
  lemma NextSlot(entries: seq<Entry>, mac: Mac, ip: Ip, now: int)
    requires entries != [] && entries[0].valid
    ensures Insert(entries, mac, ip, now) == [entries[0]] + Insert(entries[1..], mac, ip, now)
    ensures FirstFree(entries) == 1 + FirstFree(entries[1..])
  {}

  lemma UpdateBehind(entries: seq<Entry>, k: nat, e: Entry)
    requires entries != []
    ensures [entries[0]] + entries[1..] == entries
    ensures k < |entries| - 1 ==> [entries[0]] + entries[1..][k := e] == entries[k + 1 := e]
  {}

  /** A new mapping for `ip` would not be seen: there is no room for it, or an older
      one stands in a higher slot than it would take. */
  predicate Shadowed(entries: seq<Entry>, ip: Ip) {
    FirstFree(entries) == |entries| || MapsAbove(entries, FirstFree(entries), ip)
  }

  /** Some slot above `k` maps the address. */
  predicate MapsAbove(entries: seq<Entry>, k: nat, ip: Ip) {
    exists j :: k < j < |entries| && Maps(entries[j], ip)
  }

  lemma {:induction false} LookupAfterUpdate(entries: seq<Entry>, k: nat, e: Entry, x: Ip)
    requires k < |entries| && !entries[k].valid && e.valid
    ensures Lookup(entries[k := e], x) ==
      if x != e.ip || MapsAbove(entries, k, e.ip) then Lookup(entries, x) else Some(e.mac)
    decreases |entries|
  {
    var n := |entries| - 1;
    if k < n {
      LookupAfterUpdate(entries[..n], k, e, x);
      assert entries[k := e][..n] == entries[..n][k := e];
      assert forall j :: k < j < n ==> entries[..n][j] == entries[j];
      if MapsAbove(entries[..n], k, e.ip) {
        var j :| k < j < n && Maps(entries[..n][j], e.ip);
        assert Maps(entries[j], e.ip);
      }
    } else {
      assert entries[k := e][..n] == entries[..n];
    }
  }

  /** What a lookup finds after a mapping for `ip` was recorded: for other addresses
      what it found before, and for `ip` the new mapping exactly when it is not
      shadowed, whatever the table held. */
  lemma LookupAfterInsert(entries: seq<Entry>, mac: Mac, ip: Ip, now: int, x: Ip)
    ensures Lookup(Insert(entries, mac, ip, now), x) ==
      if x != ip || Shadowed(entries, ip) then Lookup(entries, x) else Some(mac)
  {
    hide Lookup, Insert, FirstFree, MapsAbove;
    InsertTakesFirstFree(entries, mac, ip, now);
    var k := FirstFree(entries);
    if k < |entries| {
      LookupAfterUpdate(entries, k, Entry(mac, ip, now, true), x);
    }
  }

  lemma InsertMapsNothingElse(entries: seq<Entry>, mac: Mac, ip: Ip, now: int, x: Ip)
    requires x != ip && Lookup(entries, x).None?
    ensures Lookup(Insert(entries, mac, ip, now), x).None?
  {
    hide Lookup, Insert, Shadowed;
    LookupAfterInsert(entries, mac, ip, now, x);
  }

  lemma ExpireMapsNothingNew(entries: seq<Entry>, now: int, x: Ip)
    requires Lookup(entries, x).None?
    ensures Lookup(Expire(entries, now), x).None?
  {
    hide Lookup;
    LookupIsLastValid(entries, x);
    LookupIsLastValid(Expire(entries, now), x);
  }

  // ---------- the request queue ----------

  predicate GoodRequest(r: Request) {
    r.waiting != [] && 1 <= r.timesSent <= MAX_SENDS
  }

  predicate DistinctIps(requests: seq<Request>) {
    forall i, j :: 0 <= i < j < |requests| ==> requests[i].ip != requests[j].ip
  }

  predicate Unmapped(entries: seq<Entry>, ip: Ip) {
    Lookup(entries, ip).None?
  }

  /** Pending requests have pairwise distinct addresses, waiting frames, and
      between one and five sends; none of their addresses is in the table. */
  predicate Invariant(s: State) {
    && DistinctIps(s.requests)
    && (forall i :: 0 <= i < |s.requests| ==> GoodRequest(s.requests[i]) && Unmapped(s.entries, s.requests[i].ip))
  }

  /** A clock reading after the epoch, so that a request never sent is due. */
  predicate Timely(a: Action) {
    a.PutAside? ==> a.now >= 1
  }

  /** A request may be taken out of the queue, or replaced by a good one for its own address. */
  lemma ReplaceKeepsInvariant(s: State, k: nat, mid: seq<Request>)
    requires k < |s.requests| && DistinctIps(s.requests)
    requires forall i :: 0 <= i < |s.requests| ==> Unmapped(s.entries, s.requests[i].ip)
    requires forall i :: 0 <= i < |s.requests| && i != k ==> GoodRequest(s.requests[i])
    requires |mid| <= 1 && (mid != [] ==> mid[0].ip == s.requests[k].ip && GoodRequest(mid[0]))
    ensures Invariant(s.(requests := s.requests[..k] + mid + s.requests[k + 1..]))
  {
    hide Unmapped, GoodRequest;
    var r := s.requests[..k] + mid + s.requests[k + 1..];
    if mid == [] {
      assert forall i :: 0 <= i < |r| ==> r[i] == s.requests[if i < k then i else i + 1];
    } else {
      assert r == s.requests[k := mid[0]];
    }
  }

  lemma KeptIsGood(r: Request, now: int)
    requires GoodRequest(r)
    ensures |Kept(r, now)| <= 1
    ensures Kept(r, now) != [] ==> Kept(r, now)[0].ip == r.ip && GoodRequest(Kept(r, now)[0])
  {}

  lemma DeferKeepsInvariant(cfg: Config, s: State, d: Deferral, now: int)
    requires Invariant(s) && Unmapped(s.entries, d.nextHop) && now >= 1
    ensures Invariant(Defer(cfg, s, d, now))
  {
    hide Unmapped, Sent, Position, Kept, GoodRequest, Enqueue;
    var w := Waiting(|s.deferred|, d.frame, d.iface);
    EnqueuePosition(s.requests, d.nextHop, w);
    EnqueueShape(s, d.nextHop, w, now);
    var requests := Enqueue(s.requests, d.nextHop, w);
    var p := Position(requests, d.nextHop);
    ReplaceKeepsInvariant(s.(requests := requests), p, Kept(requests[p], now));
  }

  /** The queue once a frame has joined it, ready for its request to be handled. */
  lemma EnqueueShape(s: State, ip: Ip, w: Waiting, now: int)
    requires Invariant(s) && Unmapped(s.entries, ip) && now >= 1
    ensures
      var q := Enqueue(s.requests, ip, w);
      var p := Position(q, ip);
      && p < |q| && DistinctIps(q)
      && (forall i :: 0 <= i < |q| ==> Unmapped(s.entries, q[i].ip))
      && (forall i :: 0 <= i < |q| && i != p ==> GoodRequest(q[i]))
      && |Kept(q[p], now)| <= 1
      && (Kept(q[p], now) != [] ==> Kept(q[p], now)[0].ip == q[p].ip && GoodRequest(Kept(q[p], now)[0]))
  {
    hide Unmapped, Position, Kept, GoodRequest;
    var k, q := Position(s.requests, ip), Enqueue(s.requests, ip, w);
    var p := Position(q, ip);
    EnqueuePosition(s.requests, ip, w);
    if k < |s.requests| {
      assert p == k;
      JoinedIsGood(s.requests[k], w, now);
    } else {
      assert q[0].ip == ip;
      assert p == 0;
      assert forall i :: 0 < i < |q| ==> q[i] == s.requests[i - 1];
      JoinedIsGood(Request.Request(ip, 0, 0, []), w, now);
      assert q[0] == Request.Request(ip, 0, 0, []).(waiting := [w] + []);
    }
  }

  /** A new frame joins a good request, or opens one whose first send is due. */
  lemma JoinedIsGood(r: Request, w: Waiting, now: int)
    requires GoodRequest(r) || (r.sent == 0 && r.timesSent == 0 && now >= 1)
    ensures var k: seq<Request> := Kept(r.(waiting := [w] + r.waiting), now);
      |k| <= 1 && (|k| == 1 ==> k[0].ip == r.ip && GoodRequest(k[0]))
  {}

  lemma ReplyKeepsInvariant(cfg: Config, s: State, mac: Mac, ip: Ip, src: Mac, now: int)
    requires Invariant(s)
    ensures Invariant(ReceiveReply(cfg, s, mac, ip, src, now))
  {
    hide Releases, Insert, Lookup, GoodRequest;
    var k := Position(s.requests, ip);
    var s1 := if k < |s.requests| then s.(requests := Remove(s.requests, k)) else s;
    if k < |s.requests| {
      ReplaceKeepsInvariant(s, k, []);
      assert Remove(s.requests, k) == s.requests[..k] + [] + s.requests[k + 1..];
    }
    forall i | 0 <= i < |s1.requests|
      ensures Unmapped(Insert(s.entries, mac, ip, now), s1.requests[i].ip)
    {
      InsertMapsNothingElse(s.entries, mac, ip, now, s1.requests[i].ip);
    }
  }

  predicate HasIp(requests: seq<Request>, ip: Ip) {
    exists j :: 0 <= j < |requests| && requests[j].ip == ip
  }

  /** A sweep adds no address to the queue. */
  lemma {:induction false} SweepAddsNoIp(requests: seq<Request>, now: int, ip: Ip)
    requires HasIp(SweptQueue(requests, now), ip)
    ensures HasIp(requests, ip)
  {
    var kept, rest := Kept(requests[0], now), SweptQueue(requests[1..], now);
    var all := SweptQueue(requests, now);
    var i :| 0 <= i < |all| && all[i].ip == ip;
    if i < |kept| {
      assert requests[0].ip == ip;
    } else {
      assert rest[i - |kept|].ip == ip;
      SweepAddsNoIp(requests[1..], now, ip);
      var j :| 0 <= j < |requests[1..]| && requests[1..][j].ip == ip;
      assert requests[j + 1].ip == ip;
    }
  }

  lemma {:induction false} SweepKeepsShape(requests: seq<Request>, now: int)
    requires DistinctIps(requests) && forall i :: 0 <= i < |requests| ==> GoodRequest(requests[i])
    ensures DistinctIps(SweptQueue(requests, now))
    ensures forall i :: 0 <= i < |SweptQueue(requests, now)| ==> GoodRequest(SweptQueue(requests, now)[i])
  {
    hide GoodRequest, Kept;
    if requests != [] {
      SweepKeepsShape(requests[1..], now);
      KeptIsGood(requests[0], now);
      if HasIp(SweptQueue(requests[1..], now), requests[0].ip) {
        SweepAddsNoIp(requests[1..], now, requests[0].ip);
        assert false;
      }
      InFront(Kept(requests[0], now), SweptQueue(requests[1..], now), requests[0].ip);
    }
  }

  lemma InFront(kept: seq<Request>, rest: seq<Request>, ip: Ip)
    requires |kept| <= 1 && (kept != [] ==> kept[0].ip == ip) && DistinctIps(rest) && !HasIp(rest, ip)
    ensures DistinctIps(kept + rest)
  {}

  lemma SweepKeepsInvariant(cfg: Config, s: State, now: int)
    requires Invariant(s)
    ensures Invariant(TimeoutPass(cfg, s, now))
  {
    hide Lookup, Expire, SweptQueue, SweptCalls;
    SweepKeepsShape(s.requests, now);
    var q := SweptQueue(s.requests, now);
    forall i | 0 <= i < |q|
      ensures Unmapped(Expire(s.entries, now), q[i].ip)
    {
      SweepAddsNoIp(s.requests, now, q[i].ip);
      var j :| 0 <= j < |s.requests| && s.requests[j].ip == q[i].ip;
      assert Unmapped(s.entries, s.requests[j].ip);
      ExpireMapsNothingNew(s.entries, now, q[i].ip);
    }
  }

  lemma ApplyKeepsInvariant(cfg: Config, s: State, a: Action)
    requires Founded(s.entries, a) && Timely(a) && Invariant(s)
    ensures Invariant(Apply(cfg, s, a))
  {
    hide Lookup, Defer, ReceiveReply, TimeoutPass;
    match a
    case Nothing =>
    case Overreads =>
    case SendNow(iface, f, cause) =>
    case PutAside(d, now) => DeferKeepsInvariant(cfg, s, d, now);
    case Resolve(mac, ip, src, now) => ReplyKeepsInvariant(cfg, s, mac, ip, src, now);
    case Sweep(now) => SweepKeepsInvariant(cfg, s, now);
  }

  /** Every clock reading of the run is after the epoch. */
  predicate AfterEpoch(evs: seq<Event>) {
    forall i :: 0 <= i < |evs| ==> evs[i].now >= 1
  }

  lemma DecisionIsTimely(cfg: Config, s: State, e: Event)
    requires Proper(cfg, e) && e.now >= 1
    ensures Timely(Decide(cfg, s, e))
  {
    hide Classify, Lookup, Receivable, EtherType, Readdress, IsAt, Operation, Named;
  }

  /** The invariant holds in every state a run reaches. */
  lemma {:induction false} RunKeepsInvariant(cfg: Config, s: State, evs: seq<Event>)
    requires Initial(s) || Invariant(s)
    requires AllProper(cfg, evs) && AfterEpoch(evs)
    ensures Invariant(Run(cfg, s, evs))
  {
    hide Apply, Decide, Proper, Founded, Timely, GoodRequest, Unmapped;
    if evs != [] {
      var before, e := Run(cfg, s, evs[..|evs| - 1]), evs[|evs| - 1];
      RunKeepsInvariant(cfg, s, evs[..|evs| - 1]);
      DecisionIsFounded(cfg, before, e);
      DecisionIsTimely(cfg, before, e);
      ApplyKeepsInvariant(cfg, before, Decide(cfg, before, e));
    }
  }
}
