/** Every trace a deferred frame leaves is its own: it waits under the address it
    was deferred for, and what is later sent for it is made from it. */
module Attribution {
  import opened Bytes
  import opened Network
  import opened Frames
  import opened RouterModel

  /** The entry waits under `ip` exactly as its frame was deferred. */
  predicate OwnWaiting(deferred: seq<Deferral>, ip: Ip, w: Waiting) {
    w.id < |deferred| && deferred[w.id] == Deferral(ip, w.frame, w.iface, deferred[w.id].arrival)
  }

  predicate OwnRequest(deferred: seq<Deferral>, r: Request) {
    forall i :: 0 <= i < |r.waiting| ==> OwnWaiting(deferred, r.ip, r.waiting[i])
  }

  /** What a logged call says about a deferred frame is true of that frame: a
      release answers a reply for its own next hop and changes only the two
      Ethernet addresses; an unreachable message is ICMP 3/1 made from it. Both
      leave by the interface the frame was deferred with. A broadcast asks for the next
      hop of the frame that created its request, by an interface a frame deferred
      for that hop is to leave by. */
  predicate OwnCall(cfg: Config, deferred: seq<Deferral>, c: Call) {
    match c.cause
    case Released(id, ip) =>
      && id < |deferred| && ip == deferred[id].nextHop && c.iface == deferred[id].iface
      && c.frame[12..] == deferred[id].frame[12..]
    case Unreachable(id) =>
      && id < |deferred| && c.iface == deferred[id].iface
      && c.frame == Unreachable3(deferred[id].frame, Named(cfg.ifs, c.iface), 3, 1)
    case Broadcast(ip, born, _) =>
      && born < |deferred| && ip == deferred[born].nextHop && LeavesBy(deferred, ip, c.iface)
      && c.frame == WhoHas(ip, Named(cfg.ifs, c.iface))
    case _ => true
  }

  /** Some frame deferred for this next hop leaves by this interface. */
  predicate LeavesBy(deferred: seq<Deferral>, ip: Ip, iface: Name) {
    exists j :: 0 <= j < |deferred| && deferred[j].nextHop == ip && deferred[j].iface == iface
  }

  ghost predicate OwnQueue(deferred: seq<Deferral>, requests: seq<Request>) {
    forall i :: 0 <= i < |requests| ==> OwnRequest(deferred, requests[i]) && requests[i].waiting != []
  }

  ghost predicate OwnLog(cfg: Config, deferred: seq<Deferral>, log: seq<Call>) {
    forall i :: 0 <= i < |log| ==> OwnCall(cfg, deferred, log[i])
  }

  ghost predicate Attributed(cfg: Config, s: State) {
    OwnQueue(s.deferred, s.requests) && OwnLog(cfg, s.deferred, s.log)
  }

  // ---------- the operations ----------

  lemma KeptIsOwn(deferred: seq<Deferral>, r: Request, now: int)
    requires OwnRequest(deferred, r) && r.waiting != []
    ensures OwnQueue(deferred, Kept(r, now))
  {
    assert OwnRequest(deferred, r.(sent := now, timesSent := r.timesSent + 1));
  }

  lemma {:induction false} UnreachablesAreOwn(cfg: Config, deferred: seq<Deferral>, r: Request)
    requires OwnRequest(deferred, r)
    ensures OwnLog(cfg, deferred, Unreachables(cfg, r.waiting))
    decreases |r.waiting|
  {
    hide Unreachable3, Passes, Named;
    if r.waiting != [] {
      var rest := r.(waiting := r.waiting[1..]);
      assert OwnWaiting(deferred, r.ip, r.waiting[0]);
      assert OwnRequest(deferred, rest) by {
        assert forall i :: 0 <= i < |rest.waiting| ==> rest.waiting[i] == r.waiting[i + 1];
      }
      UnreachablesAreOwn(cfg, deferred, rest);
    }
  }

  lemma {:induction false} ReleasesAreOwn(cfg: Config, deferred: seq<Deferral>, r: Request, dst: Mac, src: Mac)
    requires OwnRequest(deferred, r)
    ensures OwnLog(cfg, deferred, Releases(cfg, r.waiting, dst, src, r.ip))
    decreases |r.waiting|
  {
    hide Passes;
    if r.waiting != [] {
      var rest := r.(waiting := r.waiting[1..]);
      assert OwnWaiting(deferred, r.ip, r.waiting[0]);
      assert OwnRequest(deferred, rest) by {
        assert forall i :: 0 <= i < |rest.waiting| ==> rest.waiting[i] == r.waiting[i + 1];
      }
      ReleasesAreOwn(cfg, deferred, rest, dst, src);
    }
  }

  lemma SentIsOwn(cfg: Config, deferred: seq<Deferral>, r: Request, now: int)
    requires OwnRequest(deferred, r) && r.waiting != []
    ensures OwnLog(cfg, deferred, Sent(cfg, r, now))
  {
    hide Unreachables, WhoHas, Passes;
    UnreachablesAreOwn(cfg, deferred, r);
    assert OwnWaiting(deferred, r.ip, r.waiting[0]) && OwnWaiting(deferred, r.ip, r.waiting[|r.waiting| - 1]);
    assert LeavesBy(deferred, r.ip, r.waiting[0].iface);
  }

  lemma {:induction false} SweepIsOwn(cfg: Config, deferred: seq<Deferral>, requests: seq<Request>, now: int)
    requires OwnQueue(deferred, requests)
    ensures OwnQueue(deferred, SweptQueue(requests, now))
    ensures OwnLog(cfg, deferred, SweptCalls(cfg, requests, now))
  {
    hide Kept, Sent, OwnRequest, OwnCall;
    if requests != [] {
      assert OwnRequest(deferred, requests[0]);
      KeptIsOwn(deferred, requests[0], now);
      SentIsOwn(cfg, deferred, requests[0], now);
      assert OwnQueue(deferred, requests[1..]) by {
        assert forall i :: 0 <= i < |requests[1..]| ==> requests[1..][i] == requests[i + 1];
      }
      SweepIsOwn(cfg, deferred, requests[1..], now);
    }
  }

  lemma HandleIsOwn(cfg: Config, s: State, k: nat, now: int)
    requires k < |s.requests| && Attributed(cfg, s)
    ensures Attributed(cfg, HandleRequest(cfg, s, k, now))
  {
    hide Kept, Sent, OwnRequest, OwnCall;
    assert OwnRequest(s.deferred, s.requests[k]);
    KeptIsOwn(s.deferred, s.requests[k], now);
    SentIsOwn(cfg, s.deferred, s.requests[k], now);
  }

  /** More history changes nothing about the frames already in it. */
  lemma MoreDeferred(cfg: Config, s: State, d: Deferral)
    requires Attributed(cfg, s)
    ensures Attributed(cfg, s.(deferred := s.deferred + [d]))
  {
    hide Unreachable3;
    var more := s.deferred + [d];
    forall i | 0 <= i < |s.requests|
      ensures OwnRequest(more, s.requests[i])
    {
      assert OwnRequest(s.deferred, s.requests[i]);
      forall j | 0 <= j < |s.requests[i].waiting|
        ensures OwnWaiting(more, s.requests[i].ip, s.requests[i].waiting[j])
      {
        assert OwnWaiting(s.deferred, s.requests[i].ip, s.requests[i].waiting[j]);
      }
    }
    forall i | 0 <= i < |s.log|
      ensures OwnCall(cfg, more, s.log[i])
    {
      assert OwnCall(cfg, s.deferred, s.log[i]);
      if s.log[i].cause.Broadcast? {
        StillLeavesBy(s.deferred, d, s.log[i].cause.ip, s.log[i].iface);
      }
    }
  }

  lemma StillLeavesBy(deferred: seq<Deferral>, d: Deferral, ip: Ip, iface: Name)
    requires LeavesBy(deferred, ip, iface)
    ensures LeavesBy(deferred + [d], ip, iface)
  {
    var j :| 0 <= j < |deferred| && deferred[j].nextHop == ip && deferred[j].iface == iface;
    assert (deferred + [d])[j] == deferred[j];
  }

  lemma EnqueueIsOwn(deferred: seq<Deferral>, requests: seq<Request>, ip: Ip, w: Waiting)
    requires OwnQueue(deferred, requests) && OwnWaiting(deferred, ip, w)
    ensures OwnQueue(deferred, Enqueue(requests, ip, w))
  {
    hide OwnWaiting;
    var k := Position(requests, ip);
    if k < |requests| {
      assert OwnRequest(deferred, requests[k]);
      assert OwnRequest(deferred, requests[k].(waiting := [w] + requests[k].waiting));
    } else {
      assert OwnRequest(deferred, Request(ip, 0, 0, [w]));
    }
  }

  lemma DeferIsOwn(cfg: Config, s: State, d: Deferral, now: int)
    requires Attributed(cfg, s)
    ensures Attributed(cfg, Defer(cfg, s, d, now))
  {
    hide OwnQueue, OwnLog, HandleRequest, Enqueue;
    var w := Waiting(|s.deferred|, d.frame, d.iface);
    var s0 := s.(deferred := s.deferred + [d]);
    MoreDeferred(cfg, s, d);
    EnqueueIsOwn(s0.deferred, s.requests, d.nextHop, w);
    EnqueuePosition(s.requests, d.nextHop, w);
    var s1 := s0.(requests := Enqueue(s.requests, d.nextHop, w));
    HandleIsOwn(cfg, s1, Position(s1.requests, d.nextHop), now);
  }

  lemma ReplyIsOwn(cfg: Config, s: State, mac: Mac, ip: Ip, src: Mac, now: int)
    requires Attributed(cfg, s)
    ensures Attributed(cfg, ReceiveReply(cfg, s, mac, ip, src, now))
  {
    hide OwnRequest, OwnCall, Releases, Insert;
    var k := Position(s.requests, ip);
    if k < |s.requests| {
      assert OwnRequest(s.deferred, s.requests[k]);
      ReleasesAreOwn(cfg, s.deferred, s.requests[k], mac, src);
    }
  }

  lemma ApplyIsOwn(cfg: Config, s: State, a: Action)
    requires Founded(s.entries, a) && Attributed(cfg, s)
    ensures Attributed(cfg, Apply(cfg, s, a))
  {
    hide Lookup, Defer, ReceiveReply, SweptQueue, SweptCalls, Expire, OwnRequest;
    match a
    case Nothing =>
    case Overreads =>
    case SendNow(iface, f, cause) =>
    case PutAside(d, now) => DeferIsOwn(cfg, s, d, now);
    case Resolve(mac, ip, src, now) => ReplyIsOwn(cfg, s, mac, ip, src, now);
    case Sweep(now) => SweepIsOwn(cfg, s.deferred, s.requests, now);
  }

  /** In every reachable state no frame stands under another request, and nothing
      is released or answered in another frame's name. */
  lemma {:induction false} RunIsAttributed(cfg: Config, s: State, evs: seq<Event>)
    requires (Initial(s) || Attributed(cfg, s)) && AllProper(cfg, evs)
    ensures Attributed(cfg, Run(cfg, s, evs))
  {
    hide Apply, Decide, Proper, Founded, OwnRequest, OwnCall;
    if evs != [] {
      var before, e := Run(cfg, s, evs[..|evs| - 1]), evs[|evs| - 1];
      RunIsAttributed(cfg, s, evs[..|evs| - 1]);
      DecisionIsFounded(cfg, before, e);
      ApplyIsOwn(cfg, before, Decide(cfg, before, e));
    }
  }
}
