/** Which interface a host-unreachable message leaves by, compared with the one
    its frame came in on. */
module Returns {
  import opened Bytes
  import opened IpHeader
  import opened Network
  import opened Frames
  import opened RouterModel
  import opened Forwarding
  import opened Order
  import opened Attribution

  /** The route the table gives a frame. */
  function RouteOf(cfg: Config, f: Frame): Option<Route> {
    match LongestMatch(cfg.routes, cfg.order, DestIp(f))
    case None => None
    case Some(k) => Some(cfg.routes[k])
  }

  /** The route of the frame leaves by this interface. */
  predicate RoutedBy(cfg: Config, f: Frame, iface: Name) {
    RouteOf(cfg, f).Some? && RouteOf(cfg, f).value.iface == iface
  }

  /** The event brought the frame that was put aside: it came in on the interface
      recorded, was aged, and its own route gave its next hop and its way out. */
  predicate CameWith(cfg: Config, e: Event, d: Deferral) {
    && e.Receive? && |e.frame| >= ARP_FRAME_LENGTH && e.iface == d.arrival
    && d.frame == WithHeader(e.frame, Aged(HeaderOf(e.frame))) && DestIp(d.frame) == DestIp(e.frame)
    && RouteOf(cfg, e.frame).Some? && RouteOf(cfg, e.frame).value.gw == d.nextHop
    && RouteOf(cfg, e.frame).value.iface == d.iface
  }

  predicate Recorded(cfg: Config, evs: seq<Event>, d: Deferral) {
    exists k :: 0 <= k < |evs| && CameWith(cfg, evs[k], d)
  }

  predicate AllRecorded(cfg: Config, evs: seq<Event>, ds: seq<Deferral>) {
    forall i :: 0 <= i < |ds| ==> Recorded(cfg, evs, ds[i])
  }

  lemma MissIsRecorded(cfg: Config, s: State, e: Event)
    requires Proper(cfg, e)
    ensures forall i :: 0 <= i < |Miss(cfg, s, e)| ==> CameWith(cfg, e, Miss(cfg, s, e)[i])
  {
    hide Classify, Lookup, EtherType, Aged, WithHeader, LongestMatch, FindName, Accepts;
    if Miss(cfg, s, e) != [] {
      TransitFacts(cfg, e.frame, e.iface);
      AgedFrame(e.frame);
    }
  }

  lemma StillRecorded(cfg: Config, evs: seq<Event>, e: Event, d: Deferral)
    requires Recorded(cfg, evs, d) || CameWith(cfg, e, d)
    ensures Recorded(cfg, evs + [e], d)
  {
    hide CameWith;
    if Recorded(cfg, evs, d) {
      var k :| 0 <= k < |evs| && CameWith(cfg, evs[k], d);
      assert CameWith(cfg, (evs + [e])[k], d);
    } else {
      assert CameWith(cfg, (evs + [e])[|evs|], d);
    }
  }

  lemma {:induction false} MissesAreRecorded(cfg: Config, s: State, evs: seq<Event>)
    requires AllProper(cfg, evs)
    ensures AllRecorded(cfg, evs, Misses(cfg, s, evs))
  {
    hide Run, Miss, Proper, Recorded, CameWith;
    if evs != [] {
      var init, e := evs[..|evs| - 1], evs[|evs| - 1];
      assert evs == init + [e];
      MissesAreRecorded(cfg, s, init);
      MissIsRecorded(cfg, Run(cfg, s, init), e);
      var before, latest := Misses(cfg, s, init), Miss(cfg, Run(cfg, s, init), e);
      forall i | 0 <= i < |before + latest|
        ensures Recorded(cfg, evs, (before + latest)[i])
      {
        if i >= |before| {
          assert CameWith(cfg, e, latest[i - |before|]);
        }
        StillRecorded(cfg, init, e, (before + latest)[i]);
      }
    }
  }

  /** Over every run, a host-unreachable message goes out by the interface its frame
      came in on if and only if the route of the frame's own destination leaves
      by that interface. */
  lemma UnreachableReturnsExactly(cfg: Config, s: State, evs: seq<Event>, i: nat)
    requires Initial(s) && AllProper(cfg, evs)
    requires i < |Run(cfg, s, evs).log| && Run(cfg, s, evs).log[i].cause.Unreachable?
    ensures
      var t := Run(cfg, s, evs);
      var c := t.log[i];
      && c.cause.id < |t.deferred|
      && var d := t.deferred[c.cause.id];
      && Recorded(cfg, evs, d)
      && (c.iface == d.arrival <==> RoutedBy(cfg, d.frame, d.arrival))
  {
    hide Run, RouteOf, Recorded;
    var t := Run(cfg, s, evs);
    RunIsAttributed(cfg, s, evs);
    RunDefersMisses(cfg, s, evs);
    MissesAreRecorded(cfg, s, evs);
    assert OwnCall(cfg, t.deferred, t.log[i]);
    SameRoute(cfg, evs, t.deferred[t.log[i].cause.id]);
  }

  lemma SameRoute(cfg: Config, evs: seq<Event>, d: Deferral)
    requires Recorded(cfg, evs, d)
    ensures RouteOf(cfg, d.frame).Some? && RouteOf(cfg, d.frame).value.iface == d.iface
  {
    hide LongestMatch, WithHeader, Aged;
  }
}
