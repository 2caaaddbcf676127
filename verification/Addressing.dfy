/** Where the Ethernet addresses of the frames that are sent on come from. */
module Addressing {
  import opened Bytes
  import opened IpHeader
  import opened Network
  import opened Frames
  import opened RouterModel
  import opened Forwarding
  import opened Resolver
  import opened Freshness
  import opened Returns

  /** The event is an ARP reply that maps `ip` to `mac`. */
  predicate Tells(e: Event, ip: Ip, mac: Mac) {
    && e.Receive? && |e.frame| >= ARP_FRAME_LENGTH && EtherType(e.frame) == TYPE_ARP
    && Operation(e.frame) == ARP_REPLY && SenderMac(e.frame) == mac && SenderIp(e.frame) == ip
  }

  predicate Told(evs: seq<Event>, ip: Ip, mac: Mac) {
    exists k :: 0 <= k < |evs| && Tells(evs[k], ip, mac)
  }

  /** Some reply of the run for `ip` came in on an interface with the address `src`
      and told of `dst`. */
  predicate ToldOn(cfg: Config, evs: seq<Event>, ip: Ip, dst: Mac, src: Mac) {
    exists k :: 0 <= k < |evs| && Tells(evs[k], ip, dst) && src == Named(cfg.ifs, evs[k].iface).addr
  }

  /** A forwarded frame goes to the hardware address some reply gave for its next
      hop, from the interface of its route and with that interface's address. A
      released one goes to the address given by a reply for the next hop it waited
      for, with the address of the interface that reply came in on. */
  predicate Addressed(cfg: Config, evs: seq<Event>, c: Call) {
    match c.cause
    case Forwarded =>
      && RouteOf(cfg, c.frame).Some?
      && var r := RouteOf(cfg, c.frame).value;
      && c.iface == r.iface && Told(evs, r.gw, c.frame[..6]) && SourceMac(c.frame) == Named(cfg.ifs, r.iface).addr
    case Released(_, ip) => ToldOn(cfg, evs, ip, c.frame[..6], SourceMac(c.frame))
    case _ => true
  }

  ghost predicate AllAddressed(cfg: Config, evs: seq<Event>, log: seq<Call>) {
    forall i :: 0 <= i < |log| ==> Addressed(cfg, evs, log[i])
  }

  lemma StillAddressed(cfg: Config, evs: seq<Event>, e: Event, c: Call)
    requires Addressed(cfg, evs, c)
    ensures Addressed(cfg, evs + [e], c)
  {
    hide RouteOf, Named, EtherType, Operation, SenderMac, SenderIp;
    match c.cause
    case Forwarded =>
      var r := RouteOf(cfg, c.frame).value;
      var k :| 0 <= k < |evs| && Tells(evs[k], r.gw, c.frame[..6]);
      assert Tells((evs + [e])[k], r.gw, c.frame[..6]);
    case Released(_, ip) =>
      var k :| 0 <= k < |evs| && Tells(evs[k], ip, c.frame[..6])
        && SourceMac(c.frame) == Named(cfg.ifs, evs[k].iface).addr;
      assert Tells((evs + [e])[k], ip, c.frame[..6]);
    case _ =>
  }

  /** What a lookup finds, some valid slot holds. */
  lemma {:induction false} LookupHits(entries: seq<Entry>, ip: Ip) returns (i: nat)
    requires Lookup(entries, ip).Some?
    ensures i < |entries| && Maps(entries[i], ip) && Lookup(entries, ip) == Some(entries[i].mac)
  {
    var n := |entries| - 1;
    if Maps(entries[n], ip) {
      i := n;
    } else {
      i := LookupHits(entries[..n], ip);
    }
  }

  lemma LookupIsTold(evs: seq<Event>, entries: seq<Entry>, ip: Ip)
    requires AllAnswered(evs, entries) && Lookup(entries, ip).Some?
    ensures Told(evs, ip, Lookup(entries, ip).value)
  {
    hide Lookup, EtherType, Operation, SenderMac, SenderIp;
    var i := LookupHits(entries, ip);
    assert Answered(evs, entries[i]);
    var k :| 0 <= k < |evs| && IsReplyFor(evs[k], entries[i]);
    assert Tells(evs[k], ip, entries[i].mac);
  }

  /** A frame sent at once on a cache hit. */
  lemma HitIsAddressed(cfg: Config, evs: seq<Event>, s: State, e: Event)
    requires Proper(cfg, e) && AllAnswered(evs, s.entries)
    requires Decide(cfg, s, e).SendNow? && Decide(cfg, s, e).cause.Forwarded?
    ensures var a := Decide(cfg, s, e); Addressed(cfg, evs, Sending(cfg.ifs, a.iface, a.frame, a.cause))
  {
    hide Classify, Lookup, EtherType, Aged, WithHeader, LongestMatch, FindName, Accepts,
         IsAt, Operation, Readdress, Named, Told, Passes;
    var v := Classify(cfg, e.frame, e.iface);
    TransitFacts(cfg, e.frame, e.iface);
    LookupIsTold(evs, s.entries, v.route.gw);
    var mac, src := Lookup(s.entries, v.route.gw).value, Named(cfg.ifs, v.route.iface).addr;
    ReaddressKeeps(v.frame, mac, src);
    assert RouteOf(cfg, Readdress(v.frame, mac, src)) == Some(v.route);
  }

  lemma {:induction false} ReleasesAreAddressed(cfg: Config, evs: seq<Event>, e: Event,
      ws: seq<Waiting>, dst: Mac, src: Mac, ip: Ip)
    requires Tells(e, ip, dst) && src == Named(cfg.ifs, e.iface).addr && e in evs
    ensures AllAddressed(cfg, evs, Releases(cfg, ws, dst, src, ip))
  {
    hide Passes, Readdress, Tells, Named;
    if ws != [] {
      ReleasesAreAddressed(cfg, evs, e, ws[1..], dst, src, ip);
      ReaddressKeeps(ws[0].frame, dst, src);
      var k :| 0 <= k < |evs| && evs[k] == e;
      assert Tells(evs[k], ip, dst);
      assert Addressed(cfg, evs, Releases(cfg, ws, dst, src, ip)[0]);
    }
  }

  lemma {:induction false} UnreachablesAreAddressed(cfg: Config, evs: seq<Event>, ws: seq<Waiting>)
    ensures AllAddressed(cfg, evs, Unreachables(cfg, ws))
  {
    hide Passes, Unreachable3, Named, ToldOn, Told;
    if ws != [] {
      UnreachablesAreAddressed(cfg, evs, ws[1..]);
    }
  }

  lemma SentIsAddressed(cfg: Config, evs: seq<Event>, r: Request, now: int)
    ensures AllAddressed(cfg, evs, Sent(cfg, r, now))
  {
    hide Unreachables, Passes, WhoHas, Named, ToldOn, Told;
    UnreachablesAreAddressed(cfg, evs, r.waiting);
  }

  lemma {:induction false} SweepIsAddressed(cfg: Config, evs: seq<Event>, requests: seq<Request>, now: int)
    ensures AllAddressed(cfg, evs, SweptCalls(cfg, requests, now))
  {
    hide Sent, Addressed;
    if requests != [] {
      SentIsAddressed(cfg, evs, requests[0], now);
      SweepIsAddressed(cfg, evs, requests[1..], now);
    }
  }

  lemma ReplyIsTold(cfg: Config, s: State, e: Event)
    requires Proper(cfg, e) && Decide(cfg, s, e).Resolve?
    ensures var a := Decide(cfg, s, e); Tells(e, a.ip, a.mac) && a.src == Named(cfg.ifs, e.iface).addr
  {
    hide Classify, Lookup, EtherType, Readdress, IsAt, Operation, Named;
  }

  lemma ImmediateIsAddressed(cfg: Config, evs: seq<Event>, s: State, e: Event)
    requires Proper(cfg, e) && AllAnswered(evs, s.entries) && Decide(cfg, s, e).SendNow?
    ensures var a := Decide(cfg, s, e); Addressed(cfg, evs, Sending(cfg.ifs, a.iface, a.frame, a.cause))
  {
    hide Decide, Proper, AllAnswered, Lookup, Told, ToldOn, RouteOf, Passes;
    DecisionIsFounded(cfg, s, e);
    if Decide(cfg, s, e).cause.Forwarded? {
      HitIsAddressed(cfg, evs, s, e);
    }
  }

  /** What a step sends. */
  lemma StepIsAddressed(cfg: Config, evs: seq<Event>, s: State, e: Event)
    requires Proper(cfg, e) && AllAnswered(evs, s.entries) && e in evs && AllAddressed(cfg, evs, s.log)
    ensures AllAddressed(cfg, evs, Step(cfg, s, e).log)
  {
    hide Decide, Proper, Sent, SweptCalls, Releases, Insert, Expire, SweptQueue, Enqueue,
         Kept, Position, Addressed, Passes, AllAnswered;
    var a := Decide(cfg, s, e);
    match a
    case Nothing =>
    case Overreads =>
    case SendNow(iface, f, cause) => ImmediateIsAddressed(cfg, evs, s, e);
    case PutAside(d, now) =>
      var w := Waiting(|s.deferred|, d.frame, d.iface);
      EnqueuePosition(s.requests, d.nextHop, w);
      var q := Enqueue(s.requests, d.nextHop, w);
      SentIsAddressed(cfg, evs, q[Position(q, d.nextHop)], now);
    case Resolve(mac, ip, src, now) =>
      ReplyIsTold(cfg, s, e);
      if Position(s.requests, ip) < |s.requests| {
        ReleasesAreAddressed(cfg, evs, e, s.requests[Position(s.requests, ip)].waiting, mac, src, ip);
      }
    case Sweep(now) => SweepIsAddressed(cfg, evs, s.requests, now);
  }

  lemma MoreAnswered(evs: seq<Event>, e: Event, entries: seq<Entry>)
    requires AllAnswered(evs, entries)
    ensures AllAnswered(evs + [e], entries)
  {
    hide Answered;
    forall i | 0 <= i < |entries| && entries[i].valid
      ensures Answered(evs + [e], entries[i])
    {
      StillAnswered(evs, e, entries[i]);
    }
  }

  /** Over every run, every frame sent on is addressed as its next hop answered. */
  lemma {:induction false} RunIsAddressed(cfg: Config, s: State, evs: seq<Event>)
    requires Initial(s) && AllProper(cfg, evs)
    ensures AllAddressed(cfg, evs, Run(cfg, s, evs).log)
  {
    hide Step, Proper, Addressed, AllAnswered;
    if evs != [] {
      var init, e := evs[..|evs| - 1], evs[|evs| - 1];
      var before := Run(cfg, s, init);
      assert evs == init + [e];
      RunIsAddressed(cfg, s, init);
      forall i | 0 <= i < |before.log|
        ensures Addressed(cfg, evs, before.log[i])
      {
        StillAddressed(cfg, init, e, before.log[i]);
      }
      RunIsAnswered(cfg, s, init);
      MoreAnswered(init, e, before.entries);
      StepIsAddressed(cfg, evs, before, e);
    }
  }

  /** The reply of event `k` released this frame, and the guard of `sr_send_packet` let
      it pass if and only if the interface the reply came in on has the address of
      the one the frame leaves by. */
  predicate LetBy(cfg: Config, evs: seq<Event>, k: nat, c: Call)
    requires c.cause.Released?
  {
    && k < |evs| && Tells(evs[k], c.cause.ip, c.frame[..6])
    && (c.written <==> Named(cfg.ifs, evs[k].iface).addr == Named(cfg.ifs, c.iface).addr)
  }

  /** Over every run with a verified table, a released frame reaches the wire exactly
      when its reply came in on an interface with the address of its own. */
  lemma ReleasedReachesExactly(cfg: Config, s: State, evs: seq<Event>, i: nat)
    requires Initial(s) && AllProper(cfg, evs) && Consistent(cfg)
    requires i < |Run(cfg, s, evs).log| && Run(cfg, s, evs).log[i].cause.Released?
    ensures exists k :: LetBy(cfg, evs, k, Run(cfg, s, evs).log[i])
  {
    hide Run, EtherType, Operation, SenderMac, SenderIp, Named, Consistent, Proper;
    RunIsAddressed(cfg, s, evs);
    RunIsDelivered(cfg, s, evs);
    var c := Run(cfg, s, evs).log[i];
    assert Addressed(cfg, evs, c) && Delivered(cfg, c);
    var k :| 0 <= k < |evs| && Tells(evs[k], c.cause.ip, c.frame[..6])
      && SourceMac(c.frame) == Named(cfg.ifs, evs[k].iface).addr;
    assert LetBy(cfg, evs, k, c);
  }
}
