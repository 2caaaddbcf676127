/** Reachable runs in which the router does what its documentation does not say. */
module Scenarios {
  import opened Bytes
  import opened Checksum
  import opened IpHeader
  import opened Network
  import opened Frames
  import opened RouterModel
  import opened Forwarding
  import opened Resolver
  import opened Answers
  import opened Padding

  lemma RunSnoc(cfg: Config, s: State, evs: seq<Event>, e: Event)
    requires AllProper(cfg, evs) && Proper(cfg, e)
    ensures AllProper(cfg, evs + [e]) && Run(cfg, s, evs + [e]) == Step(cfg, Run(cfg, s, evs), e)
  {
    hide Proper, Step;
    assert (evs + [e])[..|evs|] == evs;
  }

  // ---------- nobody answers ----------

  /** A frame at time 1, and `n` sweeps at the following seconds. */
  function Silence(f: Frame, in_: Name, n: nat): seq<Event> {
    if n == 0 then [Receive(f, in_, 1)] else Silence(f, in_, n - 1) + [Tick(n + 1)]
  }

  /** The request of a frame that misses the empty table, after `n` sends. */
  function Unanswered(v: Verdict, n: nat): Request
    requires v.Transit? && |v.frame| >= ARP_FRAME_LENGTH
  {
    Request(v.route.gw, n, n, [Waiting(0, v.frame, v.route.iface)])
  }

  /** A frame to be forwarded, as the router takes it in. */
  predicate Forwardable(cfg: Config, f: Frame, in_: Name) {
    && Receivable(cfg, f, in_) && EtherType(f) == TYPE_IP && Classify(cfg, f, in_).Transit?
    && |Classify(cfg, f, in_).frame| >= ARP_FRAME_LENGTH
  }

  lemma {:induction false} NothingMapped(entries: seq<Entry>, ip: Ip)
    requires forall i :: 0 <= i < |entries| ==> !entries[i].valid
    ensures Lookup(entries, ip).None?
  {
    if entries != [] {
      NothingMapped(entries[..|entries| - 1], ip);
    }
  }

  /** The frame is put aside and its request sent at once. */
  lemma FirstMiss(cfg: Config, s: State, f: Frame, in_: Name)
    requires Initial(s) && Forwardable(cfg, f, in_)
    ensures Proper(cfg, Receive(f, in_, 1))
    ensures var v, t := Classify(cfg, f, in_), Step(cfg, s, Receive(f, in_, 1));
      t.requests == [Unanswered(v, 1)] && t.deferred == [Deferral(v.route.gw, v.frame, v.route.iface, in_)]
  {
    hide Classify, Lookup, EtherType, Rebroadcast, FindName;
    var v := Classify(cfg, f, in_);
    NothingMapped(s.entries, v.route.gw);
    var d := Deferral(v.route.gw, v.frame, v.route.iface, in_);
    var q := Enqueue([], d.nextHop, Waiting(0, d.frame, d.iface));
    assert q == [Request(d.nextHop, 0, 0, [Waiting(0, d.frame, d.iface)])];
    assert Position(q, d.nextHop) == 0;
    assert Kept(q[0], 1) == [Unanswered(v, 1)];
    assert q[..0] + Kept(q[0], 1) + q[1..] == Kept(q[0], 1);
  }

  /** A sweep over a single request. */
  lemma SweepOne(cfg: Config, s: State, r: Request, now: int)
    requires s.requests == [r]
    ensures var t := Step(cfg, s, Tick(now));
      t.requests == Kept(r, now) && t.log == s.log + Sent(cfg, r, now) && t.deferred == s.deferred
  {
    hide Kept, Sent, Expire;
    assert s.requests[1..] == [] && SweptQueue([], now) == [] && SweptCalls(cfg, [], now) == [];
    assert Kept(r, now) + [] == Kept(r, now) && Sent(cfg, r, now) + [] == Sent(cfg, r, now);
  }

  lemma {:induction false} SilenceBuilds(cfg: Config, s: State, f: Frame, in_: Name, n: nat)
    requires Initial(s) && Forwardable(cfg, f, in_) && n <= 4
    ensures AllProper(cfg, Silence(f, in_, n))
    ensures var v, t := Classify(cfg, f, in_), Run(cfg, s, Silence(f, in_, n));
      t.requests == [Unanswered(v, n + 1)] && t.deferred == [Deferral(v.route.gw, v.frame, v.route.iface, in_)]
  {
    hide Step, Classify, Sent, Receivable, EtherType;
    var v := Classify(cfg, f, in_);
    if n == 0 {
      FirstMiss(cfg, s, f, in_);
      RunSnoc(cfg, s, [], Receive(f, in_, 1));
      assert [] + [Receive(f, in_, 1)] == [Receive(f, in_, 1)];
    } else {
      SilenceBuilds(cfg, s, f, in_, n - 1);
      var before := Run(cfg, s, Silence(f, in_, n - 1));
      RunSnoc(cfg, s, Silence(f, in_, n - 1), Tick(n + 1));
      SweepOne(cfg, before, Unanswered(v, n), n + 1);
    }
  }

  /** When nobody answers for the next hop of a frame, the sixth second gives its
      request up: then the coded order of the sweep would read a freed node, and the
      message to its source goes out by the interface the frame was to leave by. */
  lemma SilenceGivesUp(cfg: Config, s: State, f: Frame, in_: Name)
    requires Initial(s) && Forwardable(cfg, f, in_)
    ensures AllProper(cfg, Silence(f, in_, 4)) && AllProper(cfg, Silence(f, in_, 5))
    ensures
      var v, t, u := Classify(cfg, f, in_), Run(cfg, s, Silence(f, in_, 4)), Run(cfg, s, Silence(f, in_, 5));
      && |t.requests| == 1 && GivenUp(t.requests[0], 6)
      && u.requests == [] && |u.deferred| == 1 && u.deferred[0].arrival == in_ && |u.log| == |t.log| + 1
      && var c := u.log[|t.log|];
      c.cause == Unreachable(0) && c.iface == v.route.iface
  {
    hide Step, Classify, Unreachable3, Passes, Named, Receivable, EtherType;
    var v := Classify(cfg, f, in_);
    SilenceBuilds(cfg, s, f, in_, 4);
    var t, r := Run(cfg, s, Silence(f, in_, 4)), Unanswered(v, 5);
    RunSnoc(cfg, s, Silence(f, in_, 4), Tick(6));
    SweepOne(cfg, t, r, 6);
    assert r.waiting[1..] == [] && Unreachables(cfg, []) == [];
    assert |Sent(cfg, r, 6)| == 1 && Sent(cfg, r, 6)[0].cause == Unreachable(0);
  }

  // ---------- an example ----------

  const SENDER: Ip := [10, 0, 1, 2]
  const RECEIVER: Ip := [10, 0, 2, 2]
  const LEFT: Name := [108]
  const RIGHT: Name := [114]

  /** Two interfaces, and a host route by way of the second. */
  function Example(order: ByteOrder): Config {
    Config([Iface(LEFT, [2, 0, 0, 0, 0, 1], [10, 0, 1, 1]), Iface(RIGHT, [2, 0, 0, 0, 0, 2], [10, 0, 2, 1])],
           [Route(RECEIVER, RECEIVER, [255, 255, 255, 255], RIGHT)], order)
  }

  function ExampleHeader(ttl: byte): Header {
    Stamp(BareHeader(SENDER, RECEIVER)[TTL := ttl], SUM)
  }

  /** A frame for the receiver, with any TTL and a right checksum. */
  function ExampleFrame(ttl: byte): LongFrame {
    IpFrame([2, 0, 0, 0, 0, 1], [2, 0, 0, 0, 0, 9], ExampleHeader(ttl), Zeros(8))
  }

  lemma ExampleHeaderFields(ttl: byte)
    ensures var h := ExampleHeader(ttl); Accepts(h) && h[TTL] == ttl && h[16..20] == RECEIVER
  {
    hide Stamp, Accepts, Rfc1071Accepts;
    var h := BareHeader(SENDER, RECEIVER)[TTL := ttl];
    StampIsAccepted(h, SUM);
    StampElsewhere(h, SUM);
    AcceptanceIsRfc1071(ExampleHeader(ttl));
    assert h[16..20] == RECEIVER;
    assert ExampleHeader(ttl)[16..20] == h[16..20];
  }

  lemma DigitsOfOnes()
    ensures Digits([255, 255, 255, 255]) == 0xffff_ffff
  {
    var one: seq<byte> := [255];
    assert one[..0] == [] && Digits(one) == 0xff;
    assert [255, 255][..1] == one && Digits([255, 255]) == 0xffff;
    assert [255, 255, 255][..2] == [255, 255] && Digits([255, 255, 255]) == 0xff_ffff;
    assert [255, 255, 255, 255][..3] == [255, 255, 255];
  }

  lemma ExampleRoute(order: ByteOrder)
    ensures LongestMatch(Example(order).routes, order, RECEIVER) == Some(0)
  {
    hide LongestMatch;
    var routes := Example(order).routes;
    DigitsOfOnes();
    assert NetworkWord(routes[0].mask) == PrefixMask(32);
    LongestMatchIsLongestPrefix(routes, order, RECEIVER, [32]);
    hide NetworkWord, PrefixMask;
    assert Covers(routes[0], 32, RECEIVER);
  }

  /** The example is forwarded, unless its TTL is 1. */
  lemma ExampleIsForwardable(order: ByteOrder, ttl: byte)
    requires ttl != 1
    ensures Forwardable(Example(order), ExampleFrame(ttl), LEFT)
    ensures var v := Classify(Example(order), ExampleFrame(ttl), LEFT);
      v.route == Example(order).routes[0] && Ttl(v.frame) == Decrement(ttl)
  {
    hide Classify, Accepts, ExampleHeader, LongestMatch, WellAddressed, Quotes, EtherType, Aged;
    var cfg, f := Example(order), ExampleFrame(ttl);
    ExampleHeaderFields(ttl);
    ExampleRoute(order);
    assert HeaderOf(f) == ExampleHeader(ttl);
    assert DestIp(f) == HeaderOf(f)[16..20] && Ttl(f) == HeaderOf(f)[TTL];
    assert FindIp(cfg.ifs, RECEIVER).None?;
    assert FindName(cfg.ifs, LEFT).Some?;
    TransitOrError(cfg, f, LEFT);
    TransitFacts(cfg, f, LEFT);
    AgedFrame(f);
  }

  /** A frame that arrives with TTL 0 is forwarded with TTL 255. */
  lemma ZeroTtlIsForwarded(order: ByteOrder)
    ensures var v := Classify(Example(order), ExampleFrame(0), LEFT); v.Transit? && Ttl(v.frame) == 255
  {
    hide Classify, ExampleFrame;
    ExampleIsForwardable(order, 0);
  }

  /** A reachable state in which a sweep gives a request up, and after it a message to
      the source of a frame that did not go back the way the frame came. */
  lemma UnreachableGoesElsewhere(order: ByteOrder)
    ensures
      var cfg, f := Example(order), ExampleFrame(64);
      && Initial(START) && AllProper(cfg, Silence(f, LEFT, 4)) && AllProper(cfg, Silence(f, LEFT, 5))
      && var t, u := Run(cfg, START, Silence(f, LEFT, 4)), Run(cfg, START, Silence(f, LEFT, 5));
      && |t.requests| == 1 && GivenUp(t.requests[0], 6)
      && |u.log| > 0 && |u.deferred| == 1
      && var c := u.log[|u.log| - 1];
      c.cause == Unreachable(0) && c.iface == RIGHT && u.deferred[0].arrival == LEFT
  {
    hide Run, Classify, ExampleFrame, Forwardable, Silence, Unreachable3, Named, Initial, AllProper;
    StartIsInitial();
    ExampleIsForwardable(order, 64);
    SilenceGivesUp(Example(order), START, ExampleFrame(64), LEFT);
  }

  // ---------- a released frame is refused ----------

  /** A reply for the only request, whose only frame leaves. */
  lemma ReplyToOne(cfg: Config, s: State, r: Request, w: Waiting, in_: Name, mac: Mac, now: int)
    requires FindName(cfg.ifs, in_).Some? && s.requests == [r] && r.waiting == [w]
    ensures Proper(cfg, Receive(ReplyFrame(mac, r.ip), in_, now))
    ensures var t := Step(cfg, s, Receive(ReplyFrame(mac, r.ip), in_, now));
      && t.requests == []
      && t.log == s.log + [Sending(cfg.ifs, w.iface, Readdress(w.frame, mac, Named(cfg.ifs, in_).addr),
        Released(w.id, r.ip))]
  {
    hide IsAt, WhoHas, EtherType, Operation, SenderMac, SenderIp, FindName, Insert, Named, IpAction, Passes, Readdress;
    AnswerFields(WhoHas(r.ip, Iface([], Zeros(6), Zeros(4))), Iface([], mac, r.ip));
    assert Position(s.requests, r.ip) == 0;
    var src := Named(cfg.ifs, in_).addr;
    assert r.waiting[1..] == [] && Releases(cfg, [], mac, src, r.ip) == [];
  }

  /** The frame goes out by the right interface, the reply comes in on the left: the
      guard refuses the frame, its request is gone, and nothing is left of it. */
  lemma ReleaseIsRefused(order: ByteOrder, mac: Mac)
    ensures
      var cfg, evs := Example(order), Silence(ExampleFrame(64), LEFT, 0)
        + [Receive(ReplyFrame(mac, RECEIVER), LEFT, 2)];
      && AllProper(cfg, evs)
      && var t := Run(cfg, START, evs);
      && t.requests == [] && |t.log| > 0
      && var c := t.log[|t.log| - 1];
      c.cause == Released(0, RECEIVER) && c.iface == RIGHT && !c.written
  {
    hide Run, Step, Classify, ExampleFrame, ReplyFrame, Initial, EtherType, Readdress;
    var cfg, f := Example(order), ExampleFrame(64);
    StartIsInitial();
    ExampleIsForwardable(order, 64);
    SilenceBuilds(cfg, START, f, LEFT, 0);
    var v, s := Classify(cfg, f, LEFT), Run(cfg, START, Silence(f, LEFT, 0));
    var w := Waiting(0, v.frame, RIGHT);
    ReplyToOne(cfg, s, Unanswered(v, 1), w, LEFT, mac, 2);
    RunSnoc(cfg, START, Silence(f, LEFT, 0), Receive(ReplyFrame(mac, RECEIVER), LEFT, 2));
    ReaddressKeeps(v.frame, mac, Named(cfg.ifs, LEFT).addr);
    TwoAddresses(order);
  }

  lemma TwoAddresses(order: ByteOrder)
    ensures var ifs := Example(order).ifs;
      FindName(ifs, LEFT).Some? && FindName(ifs, RIGHT).Some? && Named(ifs, LEFT).addr != Named(ifs, RIGHT).addr
  {
    var ifs := Example(order).ifs;
    assert ifs[0].addr[5] == 1 && ifs[1].addr[5] == 2;
    assert ifs[1..][0] == ifs[1];
  }

  // ---------- padding ----------

  const LEFT_IP: Ip := [10, 0, 1, 1]

  function EchoHeader(): Header {
    Stamp(BareHeader(SENDER, LEFT_IP)[2 := 0][3 := 28], SUM)
  }

  function EchoMessage(): seq<byte> {
    Stamp([ECHO_REQUEST, 0, 0, 0, 0, 1, 0, 1], 2)
  }

  /** An echo request of 28 octets for the left interface, and what pads its frame. */
  function EchoFrame(pad: seq<byte>): LongFrame {
    IpFrame([2, 0, 0, 0, 0, 1], [2, 0, 0, 0, 0, 9], EchoHeader(), EchoMessage() + pad)
  }

  lemma EchoHeaderFields()
    ensures var h := EchoHeader(); Accepts(h) && h[9] == PROTOCOL_ICMP && h[16..20] == LEFT_IP && GetWord(h, 2) == 28
  {
    hide Stamp, Accepts, Rfc1071Accepts;
    var h := BareHeader(SENDER, LEFT_IP)[2 := 0][3 := 28];
    StampIsAccepted(h, SUM);
    StampElsewhere(h, SUM);
    AcceptanceIsRfc1071(EchoHeader());
    assert h[16..20] == LEFT_IP;
    assert EchoHeader()[16..20] == h[16..20];
  }

  lemma EchoMessageFields()
    ensures var m := EchoMessage(); |m| == 8 && m[0] == ECHO_REQUEST && Rfc1071Accepts(m) && GetWord(m, 2) != 0
  {
    hide Stamp, Rfc1071Accepts;
    var m := [ECHO_REQUEST, 0, 0, 0, 0, 1, 0, 1];
    StampIsAccepted(m, 2);
    StampElsewhere(m, 2);
  }

  lemma EchoFrameFields(order: ByteOrder, pad: seq<byte>)
    ensures var f := EchoFrame(pad);
      && |f| == 42 + |pad| && TotalLength(f) == 28 && Framed(f) && Message(f) == EchoMessage() && PaddingOf(f) == pad
      && Trimmed(f) == EchoFrame([]) && ForUs(Example(order), f) && Protocol(f) == PROTOCOL_ICMP
  {
    hide EchoHeader, EchoMessage, Accepts, Rfc1071Accepts;
    EchoHeaderFields();
    EchoMessageFields();
    var f, h, m := EchoFrame(pad), EchoHeader(), EchoMessage();
    assert HeaderOf(f) == h && f[34..] == m + pad;
    assert f[16] == HeaderOf(f)[2] && f[17] == HeaderOf(f)[3];
    assert TotalLength(f) == 28;
    assert f[34..42] == f[34..][..8] == m;
    assert f[42..] == f[34..][8..] == pad;
    assert DestIp(f) == HeaderOf(f)[16..20];
    assert m + [] == m;
    assert Trimmed(f) == EchoFrame([]);
  }

  /** The same request is answered bare; with the padding zeros of an Ethernet frame it
      is answered, but with a longer datagram; and with other padding it is dropped. */
  lemma PaddedEcho(order: ByteOrder)
    ensures
      var bare, zeros, other := EchoFrame([]), EchoFrame(Zeros(18)), EchoFrame([0, 1]);
      && Classify(Example(order), bare, LEFT).Answer?
      && var v := Classify(Example(order), zeros, LEFT);
      && v.Answer? && TotalLength(zeros) == 28 && TotalLength(v.frame) == 46
      && !Classify(Example(order), other, LEFT).Answer?
  {
    hide Classify, EchoFrame, EchoMessage, Accepts, Rfc1071Accepts, ForUs, SumAfter, WellAddressed, Framed, Trimmed,
         Message, PaddingOf;
    var cfg, zeros, other := Example(order), EchoFrame(Zeros(18)), EchoFrame([0, 1]);
    EchoMessageFields();
    EchoFrameFields(order, []);
    EchoFrameFields(order, Zeros(18));
    EchoFrameFields(order, [0, 1]);
    BareEcho(order);
    PaddingDecides(cfg, zeros, LEFT);
    ZeroPaddingIsNeutral(EchoMessage(), 18);
    EchoIsAnswered(cfg, zeros, LEFT);
    PaddingDecides(cfg, other, LEFT);
    OneAdds(EchoMessage());
  }

  lemma OneAdds(m: seq<byte>)
    requires |m| % 2 == 0
    ensures SumAfter(m, [0, 1]) == 1
  {}

  lemma BareEcho(order: ByteOrder)
    ensures Classify(Example(order), EchoFrame([]), LEFT).Answer?
  {
    hide Classify, EchoFrame, EchoMessage, Accepts, Rfc1071Accepts, ForUs, EchoOf;
    var f := EchoFrame([]);
    EchoMessageFields();
    EchoFrameFields(order, []);
    EchoIsAnswered(Example(order), f, LEFT);
    assert f[34..] == Message(f) && f[34] == Message(f)[0];
    assert GetWord(f, 36) == GetWord(Message(f), 2);
  }

  // ---------- an older mapping hides a newer one ----------

  /** An ARP reply that maps `ip` to `mac`. */
  function ReplyFrame(mac: Mac, ip: Ip): LongFrame {
    IsAt(WhoHas(ip, Iface([], Zeros(6), Zeros(4))), Iface([], mac, ip))
  }

  lemma ReplyStep(cfg: Config, s: State, in_: Name, mac: Mac, ip: Ip, now: int)
    requires FindName(cfg.ifs, in_).Some?
    ensures Proper(cfg, Receive(ReplyFrame(mac, ip), in_, now))
    ensures Step(cfg, s, Receive(ReplyFrame(mac, ip), in_, now)).entries == Insert(s.entries, mac, ip, now)
  {
    hide IsAt, WhoHas, EtherType, Operation, SenderMac, SenderIp, FindName, Insert, Releases, Named, IpAction;
    AnswerFields(WhoHas(ip, Iface([], Zeros(6), Zeros(4))), Iface([], mac, ip));
  }

  lemma TickEntries(cfg: Config, s: State, now: int)
    ensures Proper(cfg, Tick(now)) && Step(cfg, s, Tick(now)).entries == Expire(s.entries, now)
  {
    hide Expire, SweptQueue, SweptCalls;
  }

  /** A neighbour at time 1, a stale mapping at 10, a sweep at 17, a recent one at 18. */
  function Overtaken(in_: Name, other: Ip, ip: Ip, stale: Mac, recent: Mac): seq<Event> {
    [Receive(ReplyFrame(stale, other), in_, 1), Receive(ReplyFrame(stale, ip), in_, 10), Tick(17),
     Receive(ReplyFrame(recent, ip), in_, 18)]
  }

  /** On the real table, from start-up: the reply at 18 is recorded, and a lookup
      still finds the mapping of 10, because it stands in a higher slot. */
  lemma NewestIsHidden(cfg: Config, s: State, in_: Name, other: Ip, ip: Ip, stale: Mac, recent: Mac)
    requires Initial(s) && FindName(cfg.ifs, in_).Some? && ip != other && stale != recent
    ensures AllProper(cfg, Overtaken(in_, other, ip, stale, recent))
    ensures var t := Run(cfg, s, Overtaken(in_, other, ip, stale, recent)).entries;
      && |t| == CACHE_SIZE && t[0] == Entry(recent, ip, 18, true) && t[1] == Entry(stale, ip, 10, true)
      && Lookup(t, ip) == Some(stale)
  {
    hide Step, Proper, Lookup, Insert, ReplyFrame, Initial, AllProper, Run, Expire;
    var e1, e2 := Receive(ReplyFrame(stale, other), in_, 1), Receive(ReplyFrame(stale, ip), in_, 10);
    var e3, e4 := Tick(17), Receive(ReplyFrame(recent, ip), in_, 18);
    RunOfNothing(cfg, s);
    ReplyStep(cfg, s, in_, stale, other, 1);
    RunSnoc(cfg, s, [], e1);
    var s1 := Run(cfg, s, [] + [e1]);
    ReplyStep(cfg, s1, in_, stale, ip, 10);
    RunSnoc(cfg, s, [] + [e1], e2);
    var s2 := Run(cfg, s, [] + [e1] + [e2]);
    TickEntries(cfg, s2, 17);
    RunSnoc(cfg, s, [] + [e1] + [e2], e3);
    var s3 := Run(cfg, s, [] + [e1] + [e2] + [e3]);
    ReplyStep(cfg, s3, in_, recent, ip, 18);
    RunSnoc(cfg, s, [] + [e1] + [e2] + [e3], e4);
    assert [] + [e1] + [e2] + [e3] + [e4] == Overtaken(in_, other, ip, stale, recent);
    InitialEntries(s);
    HiddenEntries(s.entries, other, ip, stale, recent);
  }

  lemma RunOfNothing(cfg: Config, s: State)
    ensures AllProper(cfg, []) && Run(cfg, s, []) == s
  {}

  lemma InitialEntries(s: State)
    requires Initial(s)
    ensures |s.entries| == CACHE_SIZE && forall i :: 0 <= i < CACHE_SIZE ==> !s.entries[i].valid
  {}

  /** The same, on the table alone. */
  lemma HiddenEntries(t0: seq<Entry>, other: Ip, ip: Ip, stale: Mac, recent: Mac)
    requires ip != other && stale != recent
    requires |t0| == CACHE_SIZE && forall i :: 0 <= i < CACHE_SIZE ==> !t0[i].valid
    ensures
      var t := Insert(Expire(Insert(Insert(t0, stale, other, 1), stale, ip, 10), 17), recent, ip, 18);
      && |t| == CACHE_SIZE && t[0] == Entry(recent, ip, 18, true) && t[1] == Entry(stale, ip, 10, true)
      && Lookup(t, ip) == Some(stale)
  {
    hide Insert, Lookup;
    InsertTakesFirstFree(t0, stale, other, 1);
    var t1 := Insert(t0, stale, other, 1);
    assert FirstFree(t0) == 0 && FirstFree(t1[1..]) == 0 && FirstFree(t1) == 1;
    InsertTakesFirstFree(t1, stale, ip, 10);
    var t2 := Insert(t1, stale, ip, 10);
    var t3 := Expire(t2, 17);
    assert FirstFree(t3) == 0;
    InsertTakesFirstFree(t3, recent, ip, 18);
    var t := Insert(t3, recent, ip, 18);
    assert Maps(t[1], ip);
    assert forall j :: 1 < j < |t| ==> !Maps(t[j], ip);
    LookupIsLastValid(t, ip);
  }
}
