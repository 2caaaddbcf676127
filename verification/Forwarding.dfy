/** What an IP frame in transit becomes, hop after hop. */
module Forwarding {
  import opened Bytes
  import opened Checksum
  import opened IpHeader
  import opened Network
  import opened Frames
  import opened RouterModel

  /** A frame in transit: its header was accepted, its TTL leaves at least one more
      hop, its next route is the longest match, and only TTL and checksum changed. */
  lemma TransitFacts(cfg: Config, f: Frame, in_: Name)
    ensures var v := Classify(cfg, f, in_);
      v.Transit? ==>
      && v.frame == WithHeader(f, Aged(HeaderOf(f)))
      && Accepts(HeaderOf(f)) && Decrement(Ttl(f)) != 0
      && FindIp(cfg.ifs, DestIp(f)).None?
      && LongestMatch(cfg.routes, cfg.order, DestIp(v.frame)).Some?
      && v.route == cfg.routes[LongestMatch(cfg.routes, cfg.order, DestIp(v.frame)).value]
  {
    hide Accepts, Aged, LongestMatch, ErrorAnswer, EchoAnswer, Cksum, SetWord, GetWord, FindIp;
    SumIsIrrelevant(f);
  }

  /** What the checksum field of the frame held does not matter to the aged frame. */
  lemma SumIsIrrelevant(f: Frame)
    ensures var g := WithSum(f, 0);
      WithHeader(g, Aged(HeaderOf(g))) == WithHeader(f, Aged(HeaderOf(f))) && Ttl(g) == Ttl(f) && DestIp(g) == DestIp(f)
  {
    hide Stamp, SetWord;
    var g, h := WithSum(f, 0), HeaderOf(f)[TTL := Decrement(Ttl(f))];
    SetWordAgree(HeaderOf(g)[TTL := Decrement(Ttl(g))], SetWord(h, SUM, 0), SUM);
    StampIgnoresField(h, SUM, 0);
  }

  lemma AgedFrame(f: Frame)
    ensures var a := WithHeader(f, Aged(HeaderOf(f)));
      && |a| == |f| && HeaderOf(a) == Aged(HeaderOf(f))
      && Ttl(a) == Decrement(Ttl(f)) && Rfc1071Accepts(HeaderOf(a)) && Accepts(HeaderOf(a))
      && SourceIp(a) == SourceIp(f) && DestIp(a) == DestIp(f)
      && a[..22] == f[..22] && a[23] == f[23] && a[26..] == f[26..]
  {
    hide Aged, Accepts, Rfc1071Accepts;
    var h, a := HeaderOf(f), WithHeader(f, Aged(HeaderOf(f)));
    AgedIsValid(h);
    assert HeaderOf(a) == Aged(h);
    assert forall i :: 0 <= i < HEADER_LENGTH ==> a[14 + i] == Aged(h)[i] && f[14 + i] == h[i];
  }

  // ---------- chains of routers ----------

  /** One hop: the router, the interface the frame comes in on, and the Ethernet
      addresses the router puts on when the frame leaves. */
  datatype Hop = Hop(cfg: Config, in_: Name, dst: Mac, src: Mac)

  /** The frame after a chain of routers each of which forwarded it, if all did. */
  function Travel(f: Frame, hops: seq<Hop>): Option<Frame>
    decreases |hops|
  {
    if hops == [] then Some(f)
    else
      var v := Classify(hops[0].cfg, f, hops[0].in_);
      if v.Transit? then Travel(Readdress(v.frame, hops[0].dst, hops[0].src), hops[1..]) else None
  }

  lemma ReaddressKeeps(f: Frame, dst: Mac, src: Mac)
    ensures var r := Readdress(f, dst, src);
      |r| == |f| && r[12..] == f[12..] && HeaderOf(r) == HeaderOf(f) && Ttl(r) == Ttl(f)
      && r[..6] == dst && SourceMac(r) == src && DestIp(r) == DestIp(f) && SourceIp(r) == SourceIp(f)
  {
    var r := Readdress(f, dst, src);
    assert r[12..] == f[12..];
    assert forall i :: 12 <= i < |f| ==> r[i] == r[12..][i - 12] == f[i];
  }

  /** A frame that enters with TTL `t` is forwarded at most `t - 1` times, and
      every time it leaves with TTL `t` less the hops made, a header RFC 1071
      accepts, the addresses of its last hop, and everything else as it came. */
  lemma {:induction false} TravelIsBounded(f: Frame, hops: seq<Hop>)
    requires Ttl(f) >= 1 && Travel(f, hops).Some?
    ensures var g := Travel(f, hops).value;
      && (hops != [] ==>
            var last := hops[|hops| - 1];
            |hops| <= Ttl(f) - 1 && Rfc1071Accepts(HeaderOf(g)) && g[..6] == last.dst && SourceMac(g) == last.src)
      && Ttl(g) == Ttl(f) - |hops| >= 1
      && |g| == |f| && g[12..22] == f[12..22] && g[23] == f[23] && g[26..] == f[26..]
    decreases |hops|
  {
    hide Classify, Rfc1071Accepts, Aged, Accepts, Readdress;
    if hops != [] {
      var hop := hops[0];
      var v := Classify(hop.cfg, f, hop.in_);
      TransitFacts(hop.cfg, f, hop.in_);
      AgedFrame(f);
      ReaddressKeeps(v.frame, hop.dst, hop.src);
      var g := Readdress(v.frame, hop.dst, hop.src);
      SameTail(v.frame, g);
      assert v.frame[12..22] == v.frame[..22][12..] == f[..22][12..] == f[12..22];
      TravelIsBounded(g, hops[1..]);
    }
  }

  lemma SameTail(f: Frame, g: Frame)
    requires |f| == |g| && f[12..] == g[12..]
    ensures f[12..22] == g[12..22] && f[23] == g[23] && f[26..] == g[26..]
  {
    assert f[12..22] == f[12..][..10] && g[12..22] == g[12..][..10];
    assert f[26..] == f[12..][14..] && g[26..] == g[12..][14..];
    assert f[23] == f[12..][11] && g[23] == g[12..][11];
  }

  /** The lower bound on the TTL is needed: the field wraps, so a frame that
      arrives with TTL 0 is forwarded with TTL 255; TTL 1 is the only one that stops. */
  lemma ArrivingTtl(cfg: Config, f: Frame, in_: Name)
    ensures var v := Classify(cfg, f, in_);
      && (
        Accepts(HeaderOf(f)) && FindIp(cfg.ifs, DestIp(f)).None? && LongestMatch(cfg.routes, cfg.order, DestIp(f)).Some?
        ==> (v.Transit? <==> Ttl(f) != 1))
      && (v.Transit? ==> Ttl(v.frame) == if Ttl(f) == 0 then 255 else Ttl(f) - 1)
  {
    hide Accepts, Aged, LongestMatch, ErrorAnswer, EchoAnswer, Cksum, SetWord, GetWord, FindIp;
    AgedFrame(f);
    SumIsIrrelevant(f);
  }

  // ---------- the guard of sr_send_packet ----------

  lemma AnswersCarryTheirInterface(cfg: Config, f: Frame, in_: Name)
    ensures var v := Classify(cfg, f, in_); v.Answer? ==> SourceMac(v.frame) == Named(cfg.ifs, in_).addr
  {
    hide Accepts, Aged, LongestMatch, Cksum, SetWord, GetWord, FindIp, IpFrame, AnswerHeader, IcmpError, Stamp;
  }

  /** With a consistent routing table, a decision to send passes the guard, and a
      frame is put aside only for an interface that exists. */
  predicate Deliverable(cfg: Config, a: Action) {
    match a
    case SendNow(iface, f, _) => Passes(cfg.ifs, iface, f)
    case PutAside(d, _) => FindName(cfg.ifs, d.iface).Some?
    case _ => true
  }

  lemma DecisionIsDeliverable(cfg: Config, s: State, e: Event)
    requires Proper(cfg, e) && Consistent(cfg)
    ensures Deliverable(cfg, Decide(cfg, s, e))
  {
    hide IpAction, ArpAction, Deliverable, EtherType, Consistent;
    match e
    case Tick(now) => SweepIsDeliverable(cfg, now);
    case Receive(f, iface, now) =>
      if EtherType(f) == TYPE_IP && |f| >= IP_FRAME_LENGTH {
        IpActionIsDeliverable(cfg, s.entries, f, iface, now);
      } else if EtherType(f) == TYPE_ARP {
        ArpActionIsDeliverable(cfg, f, iface, now);
      } else {
        SweepIsDeliverable(cfg, now);
      }
  }

  lemma SweepIsDeliverable(cfg: Config, now: int)
    ensures Deliverable(cfg, Sweep(now)) && Deliverable(cfg, Nothing)
  {}

  lemma ArpActionIsDeliverable(cfg: Config, f: LongFrame, in_: Name, now: int)
    requires FindName(cfg.ifs, in_).Some?
    ensures Deliverable(cfg, ArpAction(cfg, f, in_, now))
  {
    hide Operation, GetWord, FindName;
  }

  lemma IpActionIsDeliverable(cfg: Config, entries: seq<Entry>, f: Frame, in_: Name, now: int)
    requires FindName(cfg.ifs, in_).Some? && Consistent(cfg)
    ensures Deliverable(cfg, IpAction(cfg, entries, f, in_, now))
  {
    hide Classify, Lookup, FindName, LongestMatch;
    var v := Classify(cfg, f, in_);
    if v.Answer? {
      AnswersCarryTheirInterface(cfg, f, in_);
    } else if v.Transit? {
      TransitRoute(cfg, f, in_);
    }
  }

  lemma TransitRoute(cfg: Config, f: Frame, in_: Name)
    ensures var v := Classify(cfg, f, in_); v.Transit? ==> v.route in cfg.routes
  {
    hide Classify, LongestMatch, WithHeader, Accepts;
    TransitFacts(cfg, f, in_);
  }

  // ---------- over runs ----------

  /** Every call put its frame on the wire, except that a released frame gets there
      exactly when it carries the address of the interface it leaves by. */
  predicate Delivered(cfg: Config, c: Call) {
    if c.cause.Released? then c.written <==> SourceMac(c.frame) == Named(cfg.ifs, c.iface).addr
    else c.written
  }

  ghost predicate AllDelivered(cfg: Config, log: seq<Call>) {
    forall i :: 0 <= i < |log| ==> Delivered(cfg, log[i])
  }

  /** The frames on the list all leave by an interface that exists. */
  predicate Wired(cfg: Config, ws: seq<Waiting>) {
    forall i :: 0 <= i < |ws| ==> FindName(cfg.ifs, ws[i].iface).Some?
  }

  predicate WiredQueue(cfg: Config, requests: seq<Request>) {
    forall i :: 0 <= i < |requests| ==> requests[i].waiting != [] && Wired(cfg, requests[i].waiting)
  }

  lemma {:induction false} UnreachablesAreDelivered(cfg: Config, ws: seq<Waiting>)
    requires Wired(cfg, ws)
    ensures AllDelivered(cfg, Unreachables(cfg, ws))
  {
    hide FreshHeader, IcmpError, IpFrame;
    if ws != [] {
      assert forall i :: 0 <= i < |ws[1..]| ==> ws[1..][i] == ws[i + 1];
      UnreachablesAreDelivered(cfg, ws[1..]);
    }
  }

  /** Frames released by a reply reach the wire exactly where the interface the
      reply came in on has the address of the one they leave by. */
  lemma {:induction false} ReleasesOnTheWire(cfg: Config, ws: seq<Waiting>, dst: Mac, src: Mac, ip: Ip)
    requires Wired(cfg, ws)
    ensures var calls := Releases(cfg, ws, dst, src, ip);
      && AllDelivered(cfg, calls) && |calls| == |ws|
      && forall i :: 0 <= i < |ws| ==> (calls[i].written <==> Named(cfg.ifs, ws[i].iface).addr == src)
  {
    if ws != [] {
      assert forall i :: 0 <= i < |ws[1..]| ==> ws[1..][i] == ws[i + 1];
      ReleasesOnTheWire(cfg, ws[1..], dst, src, ip);
      assert SourceMac(Readdress(ws[0].frame, dst, src)) == src;
    }
  }

  lemma SentIsDelivered(cfg: Config, r: Request, now: int)
    requires r.waiting != [] && Wired(cfg, r.waiting)
    ensures AllDelivered(cfg, Sent(cfg, r, now))
  {
    hide Unreachables;
    UnreachablesAreDelivered(cfg, r.waiting);
  }

  lemma {:induction false} SweepIsDelivered(cfg: Config, requests: seq<Request>, now: int)
    requires WiredQueue(cfg, requests)
    ensures AllDelivered(cfg, SweptCalls(cfg, requests, now)) && WiredQueue(cfg, SweptQueue(requests, now))
  {
    hide Sent, Delivered, Wired;
    if requests != [] {
      SentIsDelivered(cfg, requests[0], now);
      assert forall i :: 0 <= i < |requests[1..]| ==> requests[1..][i] == requests[i + 1];
      SweepIsDelivered(cfg, requests[1..], now);
    }
  }

  lemma DeferIsDelivered(cfg: Config, s: State, d: Deferral, now: int)
    requires WiredQueue(cfg, s.requests) && AllDelivered(cfg, s.log) && FindName(cfg.ifs, d.iface).Some?
    ensures var t := Defer(cfg, s, d, now); WiredQueue(cfg, t.requests) && AllDelivered(cfg, t.log)
  {
    hide Sent, Delivered, Position;
    var w := Waiting(|s.deferred|, d.frame, d.iface);
    var requests := Enqueue(s.requests, d.nextHop, w);
    EnqueuePosition(s.requests, d.nextHop, w);
    assert WiredQueue(cfg, requests);
    SentIsDelivered(cfg, requests[Position(requests, d.nextHop)], now);
  }

  lemma ApplyIsDelivered(cfg: Config, s: State, a: Action)
    requires Founded(s.entries, a) && Deliverable(cfg, a)
    requires WiredQueue(cfg, s.requests) && AllDelivered(cfg, s.log)
    ensures var t := Apply(cfg, s, a); WiredQueue(cfg, t.requests) && AllDelivered(cfg, t.log)
  {
    hide Lookup, Defer, Releases, Insert, Expire, SweptQueue, SweptCalls, Wired;
    match a
    case Nothing =>
    case Overreads =>
    case SendNow(iface, f, cause) => assert Delivered(cfg, Sending(cfg.ifs, iface, f, cause));
    case PutAside(d, now) => DeferIsDelivered(cfg, s, d, now);
    case Resolve(mac, ip, src, now) =>
      var k := Position(s.requests, ip);
      if k < |s.requests| {
        ReleasesOnTheWire(cfg, s.requests[k].waiting, mac, src, ip);
      }
    case Sweep(now) => SweepIsDelivered(cfg, s.requests, now);
  }

  /** With a consistent routing table, no run ever has a frame refused by the
      guard but a released one whose reply came in on a foreign interface. */
  lemma {:induction false} RunIsDelivered(cfg: Config, s: State, evs: seq<Event>)
    requires Initial(s) && AllProper(cfg, evs) && Consistent(cfg)
    ensures AllDelivered(cfg, Run(cfg, s, evs).log) && WiredQueue(cfg, Run(cfg, s, evs).requests)
  {
    hide Apply, Decide, Proper, Founded, Deliverable, Delivered, Wired, Consistent;
    if evs != [] {
      var before, e := Run(cfg, s, evs[..|evs| - 1]), evs[|evs| - 1];
      RunIsDelivered(cfg, s, evs[..|evs| - 1]);
      DecisionIsFounded(cfg, before, e);
      DecisionIsDeliverable(cfg, before, e);
      ApplyIsDelivered(cfg, before, Decide(cfg, before, e));
    }
  }
}
