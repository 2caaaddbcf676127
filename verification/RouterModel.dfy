/** The router as a state machine on values: one step per received frame and per
    one-second sweep, each taken atomically at one clock reading. The heap
    classes of `ArpCache` and `Router` are proved to take exactly these steps. */
module RouterModel {
  import opened Bytes
  import opened Checksum
  import opened IpHeader
  import opened Network
  import opened Frames

  const CACHE_SIZE: nat := 100
  const CACHE_TIMEOUT: int := 15
  const MAX_SENDS: nat := 5

  // ---------- state ----------

  /** A slot of the ARP table. */
  datatype Entry = Entry(mac: Mac, ip: Ip, added: int, valid: bool)

  /** A frame waiting for an address; `id` numbers it among all deferred frames. */
  datatype Waiting = Waiting(id: nat, frame: LongFrame, iface: Name)

  /** A pending ARP request and the frames waiting on it, latest first. */
  datatype Request = Request(ip: Ip, sent: int, timesSent: nat, waiting: seq<Waiting>)

  /** History: a frame that missed the cache, as it was put aside: its next hop, the
      interface it is to leave by, and the one it came in on. */
  datatype Deferral = Deferral(nextHop: Ip, frame: LongFrame, iface: Name, arrival: Name)

  /** History: why a frame was handed to `sr_send_packet`. A request is named by
      the deferred frame that created it. */
  datatype Cause =
    | IcmpAnswer
    | ArpAnswer
    | Forwarded
    | Broadcast(ip: Ip, born: nat, at: int)
    | Released(id: nat, ip: Ip)
    | Unreachable(id: nat)

  /** History: a call of `sr_send_packet`, and whether it put the frame on the wire. */
  datatype Call = Call(iface: Name, frame: Frame, written: bool, cause: Cause)

  datatype State = State(entries: seq<Entry>, requests: seq<Request>, deferred: seq<Deferral>, log: seq<Call>)

  // ---------- sending ----------

  /** The guard of `sr_send_packet`: the interface exists and the source address is its own. */
  predicate Passes(ifs: seq<Iface>, iface: Name, f: Frame) {
    FindName(ifs, iface).Some? && SourceMac(f) == FindName(ifs, iface).value.addr
  }

  function Sending(ifs: seq<Iface>, iface: Name, f: Frame, cause: Cause): Call {
    Call(iface, f, Passes(ifs, iface, f), cause)
  }

  function Send(cfg: Config, s: State, iface: Name, f: Frame, cause: Cause): State {
    s.(log := s.log + [Sending(cfg.ifs, iface, f, cause)])
  }

  // ---------- the ARP table ----------

  /** The last valid slot for `ip`. */
  function Lookup(entries: seq<Entry>, ip: Ip): Option<Mac> {
    if entries == [] then None
    else
      var last := entries[|entries| - 1];
      if last.valid && last.ip == ip then Some(last.mac) else Lookup(entries[..|entries| - 1], ip)
  }

  /** The first free slot takes the mapping; a full table drops it. */
  function Insert(entries: seq<Entry>, mac: Mac, ip: Ip, now: int): (r: seq<Entry>)
    ensures |r| == |entries|
  {
    if entries == [] then []
    else if !entries[0].valid then [Entry(mac, ip, now, true)] + entries[1..]
    else [entries[0]] + Insert(entries[1..], mac, ip, now)
  }

  /** Entries older than the timeout are invalidated in place. */
  function Expire(entries: seq<Entry>, now: int): (r: seq<Entry>)
    ensures |r| == |entries|
    ensures forall i :: 0 <= i < |r| ==> r[i] == ExpireOne(entries[i], now)
  {
    seq(|entries|, i requires 0 <= i < |entries| => ExpireOne(entries[i], now))
  }

  function ExpireOne(e: Entry, now: int): Entry {
    if e.valid && now - e.added > CACHE_TIMEOUT then e.(valid := false) else e
  }

  // ---------- the request queue ----------

  /** The position of the request for `ip`, or the length of the queue. */
  function Position(requests: seq<Request>, ip: Ip): (k: nat)
    ensures k <= |requests|
    ensures k < |requests| ==> requests[k].ip == ip
    ensures forall i :: 0 <= i < k ==> requests[i].ip != ip
  {
    if requests == [] || requests[0].ip == ip then 0 else 1 + Position(requests[1..], ip)
  }

  predicate Pending(requests: seq<Request>, ip: Ip) {
    Position(requests, ip) < |requests|
  }

  /** Puts a frame at the front of the list of its request, which is created at
      the front of the queue when there is none. */
  function Enqueue(requests: seq<Request>, ip: Ip, w: Waiting): seq<Request> {
    var k := Position(requests, ip);
    if k < |requests| then requests[k := requests[k].(waiting := [w] + requests[k].waiting)]
    else [Request(ip, 0, 0, [w])] + requests
  }

  function Remove<T>(s: seq<T>, k: nat): (r: seq<T>)
    requires k < |s|
    ensures |r| == |s| - 1
    ensures forall i :: 0 <= i < |r| ==> r[i] == s[if i < k then i else i + 1]
  {
    s[..k] + s[k + 1..]
  }

  /** The deferred frame that created a request: the first to arrive, last in the list. */
  function Born(r: Request): nat {
    if r.waiting == [] then 0 else r.waiting[|r.waiting| - 1].id
  }

  /** At least a second has passed since the request was last sent. */
  predicate Due(r: Request, now: int) {
    now - r.sent >= 1
  }

  /** The test of the header's own description: more than a second. */
  predicate DueAsDocumented(r: Request, now: int) {
    now - r.sent > 1
  }

  /** The two decide differently at exactly one second. */
  lemma DueDiffersExactly(r: Request, now: int)
    ensures (Due(r, now) <==> DueAsDocumented(r, now)) <==> now - r.sent != 1
  {}

  predicate GivenUp(r: Request, now: int) {
    Due(r, now) && r.timesSent >= MAX_SENDS
  }

  /** What `handle_arpreq` leaves of a request. */
  function Kept(r: Request, now: int): seq<Request> {
    if !Due(r, now) then [r]
    else if r.timesSent >= MAX_SENDS then []
    else [r.(sent := now, timesSent := r.timesSent + 1)]
  }

  /** What `handle_arpreq` hands to `sr_send_packet`. */
  function Sent(cfg: Config, r: Request, now: int): seq<Call> {
    if !Due(r, now) then []
    else if r.timesSent >= MAX_SENDS then Unreachables(cfg, r.waiting)
    else [Rebroadcast(cfg, r, now)]
  }

  function Rebroadcast(cfg: Config, r: Request, now: int): Call {
    var iface := if r.waiting == [] then [] else r.waiting[0].iface;
    Sending(cfg.ifs, iface, WhoHas(r.ip, Named(cfg.ifs, iface)), Broadcast(r.ip, Born(r), now))
  }

  /** Host unreachable (type 3, code 1) for every frame on the list. */
  function Unreachables(cfg: Config, ws: seq<Waiting>): seq<Call> {
    if ws == [] then []
    else
      var w := ws[0];
      [Sending(cfg.ifs, w.iface, Unreachable3(w.frame, Named(cfg.ifs, w.iface), 3, 1), Unreachable(w.id))]
      + Unreachables(cfg, ws[1..])
  }

  /** Every frame on the list, readdressed to the host that answered. */
  function Releases(cfg: Config, ws: seq<Waiting>, dst: Mac, src: Mac, ip: Ip): seq<Call> {
    if ws == [] then []
    else
      var w := ws[0];
      [Sending(cfg.ifs, w.iface, Readdress(w.frame, dst, src), Released(w.id, ip))]
      + Releases(cfg, ws[1..], dst, src, ip)
  }

  /** `handle_arpreq` on the request at position `k`. */
  function HandleRequest(cfg: Config, s: State, k: nat, now: int): State
    requires k < |s.requests|
  {
    s.(requests := s.requests[..k] + Kept(s.requests[k], now) + s.requests[k + 1..],
       log := s.log + Sent(cfg, s.requests[k], now))
  }

  /** The queue after a sweep: the original order, without the requests given up. */
  function SweptQueue(requests: seq<Request>, now: int): seq<Request> {
    if requests == [] then [] else Kept(requests[0], now) + SweptQueue(requests[1..], now)
  }

  function SweptCalls(cfg: Config, requests: seq<Request>, now: int): seq<Call> {
    if requests == [] then [] else Sent(cfg, requests[0], now) + SweptCalls(cfg, requests[1..], now)
  }

  // ---------- received frames ----------

  /** What the router decides about an IP frame before it looks at the ARP table. To
      answer a frame that is too short the code reads past its end. */
  datatype Verdict =
    | Discard
    | Overread
    | Answer(frame: Frame)
    | Transit(frame: Frame, route: Route)

  function WithSum(f: Frame, v: uint16): Frame { SetWord(f, 24, v) }

  /** An ICMP error needs 28 octets to quote. */
  function ErrorVerdict(f: Frame, out: Iface, src: Ip, kind: byte, code: byte): (v: Verdict)
    ensures !v.Transit? && !v.Discard?
  {
    if |f| < ARP_FRAME_LENGTH then Overread else Answer(ErrorAnswer(f, out, src, kind, code))
  }

  /** A frame for one of the router's own addresses; its header checksum field is
      already zeroed. */
  function LocalVerdict(f: Frame, out: Iface, local: Iface): (v: Verdict)
    ensures !v.Transit?
  {
    if Protocol(f) == PROTOCOL_ICMP then
      if |f| < ECHO_FRAME_LENGTH then Overread
      else if GetWord(f, 36) == Cksum(SetWord(f[34..], 2, 0)) && f[34] == ECHO_REQUEST
      then Answer(EchoAnswer(f, out, local.ip))
      else Discard
    else if Protocol(f) == PROTOCOL_TCP || Protocol(f) == PROTOCOL_UDP
    then ErrorVerdict(f, out, local.ip, 3, 3)
    else Discard
  }

  /** A frame for somebody else, again with a zeroed header checksum. An expired one
      is quoted as the buffer stands then: TTL 0, checksum 0. */
  function TransitVerdict(cfg: Config, f: Frame, out: Iface): Verdict {
    hide Aged, ErrorAnswer, LongestMatch;
    var older := f[22 := Decrement(Ttl(f))];
    if Ttl(older) == 0 then ErrorVerdict(older, out, out.ip, 11, 0)
    else
      var aged := WithHeader(f, Aged(HeaderOf(f)));
      match LongestMatch(cfg.routes, cfg.order, DestIp(aged))
      case None => ErrorVerdict(aged, out, out.ip, 3, 0)
      case Some(k) => Transit(aged, cfg.routes[k])
  }

  function Classify(cfg: Config, f: Frame, in_: Name): Verdict {
    if !Accepts(HeaderOf(f)) then Discard
    else
      var out := Named(cfg.ifs, in_);
      match FindIp(cfg.ifs, DestIp(f))
      case Some(local) => LocalVerdict(WithSum(f, 0), out, local)
      case None => TransitVerdict(cfg, WithSum(f, 0), out)
  }

  /** Puts a frame aside for its next hop and handles the request at once. */
  function Defer(cfg: Config, s: State, d: Deferral, now: int): State {
    var requests := Enqueue(s.requests, d.nextHop, Waiting(|s.deferred|, d.frame, d.iface));
    var s1 := s.(requests := requests, deferred := s.deferred + [d]);
    EnqueuePosition(s.requests, d.nextHop, Waiting(|s.deferred|, d.frame, d.iface));
    HandleRequest(cfg, s1, Position(requests, d.nextHop), now)
  }

  lemma EnqueuePosition(requests: seq<Request>, ip: Ip, w: Waiting)
    ensures Position(Enqueue(requests, ip, w), ip) < |Enqueue(requests, ip, w)|
  {
    var k := Position(requests, ip);
    assert Enqueue(requests, ip, w)[if k < |requests| then k else 0].ip == ip;
  }

  // ---------- actions ----------

  /** What a step does to the state, once decided. An event on which the source reads,
      or would read later, past the end of a short frame is not modelled: nothing is
      said of the source from there on. */
  datatype Action =
    | Nothing
    | Overreads
    | SendNow(iface: Name, frame: Frame, cause: Cause)
    | PutAside(deferral: Deferral, now: int)
    | Resolve(mac: Mac, ip: Ip, src: Mac, now: int)
    | Sweep(now: int)

  /** A frame in transit goes out on a cache hit and is put aside on a miss, where it
      may have to be quoted one day. */
  function ForwardAction(cfg: Config, entries: seq<Entry>, f: Frame, r: Route, in_: Name, now: int): Action {
    match Lookup(entries, r.gw)
    case Some(mac) => SendNow(r.iface, Readdress(f, mac, Named(cfg.ifs, r.iface).addr), Forwarded)
    case None => if |f| < ARP_FRAME_LENGTH then Overreads else PutAside(Deferral(r.gw, f, r.iface, in_), now)
  }

  function IpAction(cfg: Config, entries: seq<Entry>, f: Frame, in_: Name, now: int): Action {
    VerdictAction(cfg, entries, Classify(cfg, f, in_), in_, now)
  }

  function VerdictAction(cfg: Config, entries: seq<Entry>, v: Verdict, in_: Name, now: int): Action {
    match v
    case Discard => Nothing
    case Overread => Overreads
    case Answer(a) => SendNow(in_, a, IcmpAnswer)
    case Transit(aged, r) => ForwardAction(cfg, entries, aged, r, in_, now)
  }

  function ArpAction(cfg: Config, f: LongFrame, in_: Name, now: int): Action {
    var here := Named(cfg.ifs, in_);
    if Operation(f) == ARP_REQUEST then
      if TargetIp(f) == here.ip then SendNow(in_, IsAt(f, here), ArpAnswer) else Nothing
    else if Operation(f) == ARP_REPLY then Resolve(SenderMac(f), SenderIp(f), here.addr, now)
    else Nothing
  }

  /** The dispatch of `sr_handlepacket`. */
  function FrameAction(cfg: Config, entries: seq<Entry>, f: seq<byte>, in_: Name, now: int): Action
    requires Receivable(cfg, f, in_)
  {
    if EtherType(f) == TYPE_IP then
      if |f| < IP_FRAME_LENGTH then Nothing else IpAction(cfg, entries, f, in_, now)
    else if EtherType(f) == TYPE_ARP then ArpAction(cfg, f, in_, now)
    else Nothing
  }

  /** An ARP reply: the mapping is recorded, and the frames that waited for it leave. */
  function ReceiveReply(cfg: Config, s: State, mac: Mac, ip: Ip, src: Mac, now: int): State {
    var s1 := s.(entries := Insert(s.entries, mac, ip, now));
    var k := Position(s.requests, ip);
    if k == |s.requests| then s1
    else s1.(requests := Remove(s.requests, k),
             log := s.log + Releases(cfg, s.requests[k].waiting, mac, src, ip))
  }

  /** One pass of the timeout thread. */
  function TimeoutPass(cfg: Config, s: State, now: int): State {
    s.(entries := Expire(s.entries, now),
       requests := SweptQueue(s.requests, now),
       log := s.log + SweptCalls(cfg, s.requests, now))
  }

  function Apply(cfg: Config, s: State, a: Action): State {
    match a
    case Nothing => s
    case Overreads => s
    case SendNow(iface, f, cause) => Send(cfg, s, iface, f, cause)
    case PutAside(d, now) => Defer(cfg, s, d, now)
    case Resolve(mac, ip, src, now) => ReceiveReply(cfg, s, mac, ip, src, now)
    case Sweep(now) => TimeoutPass(cfg, s, now)
  }

  // ---------- steps and runs ----------

  datatype Event =
    | Receive(frame: seq<byte>, iface: Name, now: int)
    | Tick(now: int)

  /** What the caller of `sr_handlepacket` provides: an interface that exists and
      a frame that holds an Ethernet header, and an ARP header if it says so. */
  predicate Receivable(cfg: Config, f: seq<byte>, iface: Name) {
    && FindName(cfg.ifs, iface).Some?
    && |f| >= ETHERNET_LENGTH
    && (EtherType(f) == TYPE_ARP ==> |f| >= ARP_FRAME_LENGTH)
  }

  predicate Proper(cfg: Config, e: Event) {
    e.Receive? ==> Receivable(cfg, e.frame, e.iface)
  }

  function Decide(cfg: Config, s: State, e: Event): Action
    requires Proper(cfg, e)
  {
    match e
    case Receive(f, iface, now) => FrameAction(cfg, s.entries, f, iface, now)
    case Tick(now) => Sweep(now)
  }

  function Step(cfg: Config, s: State, e: Event): State
    requires Proper(cfg, e)
  {
    Apply(cfg, s, Decide(cfg, s, e))
  }

  predicate AllProper(cfg: Config, evs: seq<Event>) {
    forall i :: 0 <= i < |evs| ==> Proper(cfg, evs[i])
  }

  /** The state after a run of events. */
  function Run(cfg: Config, s: State, evs: seq<Event>): State
    requires AllProper(cfg, evs)
  {
    if evs == [] then s else Step(cfg, Run(cfg, s, evs[..|evs| - 1]), evs[|evs| - 1])
  }

  /** After `sr_arpcache_init`: no valid entry, no request. */
  predicate Initial(s: State) {
    && |s.entries| == CACHE_SIZE
    && (forall i :: 0 <= i < CACHE_SIZE ==> !s.entries[i].valid)
    && s.requests == [] && s.deferred == [] && s.log == []
  }

  /** A slot of the table once `memset` cleared it. */
  const CLEARED := Entry(Zeros(6), Zeros(4), 0, false)

  /** The state `sr_arpcache_init` leaves. */
  const START := State(seq(CACHE_SIZE, _ => CLEARED), [], [], [])

  lemma StartIsInitial()
    ensures Initial(START)
  {}

  /** No event of the run makes the source read past the end of a short frame. */
  ghost predicate NeverOverreads(cfg: Config, s: State, evs: seq<Event>)
    requires AllProper(cfg, evs)
  {
    forall n :: 0 <= n < |evs| ==> !Decide(cfg, Run(cfg, s, evs[..n]), evs[n]).Overreads?
  }

  // ---------- what is true of every decision ----------

  predicate Immediate(c: Cause) {
    c.IcmpAnswer? || c.ArpAnswer? || c.Forwarded?
  }

  /** Frames sent at once are answers or cache hits, and only a miss is put aside. */
  predicate Founded(entries: seq<Entry>, a: Action) {
    match a
    case SendNow(_, _, cause) => Immediate(cause)
    case PutAside(d, _) => Lookup(entries, d.nextHop).None?
    case _ => true
  }

  lemma DecisionIsFounded(cfg: Config, s: State, e: Event)
    requires Proper(cfg, e)
    ensures Founded(s.entries, Decide(cfg, s, e))
  {
    hide Classify, Lookup, Receivable, EtherType, Readdress, IsAt, Operation, Named;
  }
}
