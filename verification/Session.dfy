/** A session: the table is verified, and then frames and sweeps come as they may. */
module Session {
  import opened Bytes
  import opened Checksum
  import opened IpHeader
  import opened Network
  import opened Frames
  import opened RouterModel
  import opened Conservation
  import opened Interfaces
  import opened RoutingTable
  import opened Router

  /** One event of the session: a frame in a buffer of its own, or a sweep. */
  method Handle(r: Router, e: Event)
    requires r.Valid() && Proper(r.Cfg(), e) && !Decide(r.Cfg(), r.Abstract(), e).Overreads?
    modifies r`log, r`deferred, r.cache, r.cache.queue, r.cache.entries
    ensures r.Valid() && r.Cfg() == old(r.Cfg())
    ensures r.Abstract() == Step(r.Cfg(), old(r.Abstract()), e)
    ensures forall i :: 0 <= i < |r.cache.queue| ==> r.cache.queue[i] in old(r.cache.queue) || fresh(r.cache.queue[i])
  {
    hide Router.Valid, Receivable, FrameAction, Apply;
    match e
    case Receive(frame, iface, now) =>
      var packet := new byte[|frame|](i requires 0 <= i < |frame| => frame[i]);
      assert packet[..] == frame;
      r.HandlePacket(packet, iface, now);
    case Tick(now) =>
      ghost var dangling := r.Timeout(now);
      SweepStep(r.Cfg(), old(r.Abstract()), now);
  }

  lemma SweepStep(cfg: Config, s: State, now: int)
    ensures Step(cfg, s, Tick(now)) == TimeoutPass(cfg, s, now)
  {
    hide TimeoutPass;
  }

  /** A frame is long enough for whatever the router may have to do with it. */
  predicate LongEnough(e: Event) {
    e.Receive? && |e.frame| >= IP_FRAME_LENGTH ==> |e.frame| >= ARP_FRAME_LENGTH
  }

  lemma LongFrameIsRead(cfg: Config, s: State, e: Event)
    requires Proper(cfg, e) && LongEnough(e)
    ensures !Decide(cfg, s, e).Overreads?
  {
    hide Accepts, Aged, ErrorAnswer, EchoAnswer, Lookup, LongestMatch, FindIp, FindName,
         Readdress, IsAt, Cksum, SetWord, GetWord, Operation, EtherType;
  }

  /** So with frames such as an Ethernet carries no event reads past one. */
  lemma LongFramesAreRead(cfg: Config, s: State, evs: seq<Event>)
    requires AllProper(cfg, evs) && forall n :: 0 <= n < |evs| ==> LongEnough(evs[n])
    ensures NeverOverreads(cfg, s, evs)
  {
    hide Run, Decide, Proper, LongEnough;
    forall n | 0 <= n < |evs|
      ensures !Decide(cfg, Run(cfg, s, evs[..n]), evs[n]).Overreads?
    {
      LongFrameIsRead(cfg, Run(cfg, s, evs[..n]), evs[n]);
    }
  }

  /** Every session over a table that was verified is a run of the machine from its
      start, whatever the events, as long as none reads past a short frame; so on the
      heap, too, each frame put aside is in exactly one place. With any other table
      there is no session. */
  method Serve(ifs: IfList, table: RouteList, order: ByteOrder, evs: seq<Event>) returns (r: Router?)
    requires ifs.Valid() && table.Valid() && AllProper(Config(ifs.model, table.model, order), evs)
    requires NeverOverreads(Config(ifs.model, table.model, order), START, evs)
    ensures r == null <==>
      ifs.model == [] || table.model == [] || !Consistent(Config(ifs.model, table.model, order))
    ensures r != null ==>
      && r.Valid() && r.Cfg() == Config(ifs.model, table.model, order)
      && r.Abstract() == Run(r.Cfg(), START, evs)
      && forall id: nat :: InOnePlace(r.Abstract(), id)
  {
    hide Router.Valid, Consistent, Initial, Step, Proper, Decide, InOnePlace, IfList.Valid, RouteList.Valid;
    ghost var cfg := Config(ifs.model, table.model, order);
    var ret := VerifyRoutingTable(ifs, table, order);
    if ret != 0 {
      return null;
    }
    var router := new Router(ifs, table, order);
    StartIsInitial();
    for n := 0 to |evs|
      invariant router.Valid() && router.Cfg() == cfg && router.Abstract() == Run(cfg, START, evs[..n])
      invariant fresh(router.cache) && fresh(router.cache.entries)
      invariant forall i :: 0 <= i < |router.cache.queue| ==> fresh(router.cache.queue[i])
    {
      assert Proper(cfg, evs[n]);
      Handle(router, evs[n]);
      assert evs[..n + 1][..n] == evs[..n];
    }
    assert evs[..|evs|] == evs;
    forall id: nat
      ensures InOnePlace(router.Abstract(), id)
    {
      RunConserves(cfg, START, evs, id);
    }
    r := router;
  }
}
