/** Which frames are put aside, in which order they stand, and in which order a
    reply lets them go. */
module Order {
  import opened Bytes
  import opened Network
  import opened Frames
  import opened RouterModel

  // ---------- exactly the misses are put aside ----------

  /** What an event misses: an IP frame in transit, long enough to be quoted, whose
      next hop is not in the table, aged, with its next hop, the interface it leaves by and the one it came in on. */
  function Miss(cfg: Config, s: State, e: Event): seq<Deferral>
    requires Proper(cfg, e)
  {
    if e.Receive? && EtherType(e.frame) == TYPE_IP && |e.frame| >= IP_FRAME_LENGTH then
      var v := Classify(cfg, e.frame, e.iface);
      if v.Transit? && Lookup(s.entries, v.route.gw).None? && |v.frame| >= ARP_FRAME_LENGTH
      then [Deferral(v.route.gw, v.frame, v.route.iface, e.iface)] else []
    else []
  }

  /** The misses of a run, in order of arrival. */
  function Misses(cfg: Config, s: State, evs: seq<Event>): seq<Deferral>
    requires AllProper(cfg, evs)
  {
    if evs == [] then []
    else
      var init, e := evs[..|evs| - 1], evs[|evs| - 1];
      Misses(cfg, s, init) + Miss(cfg, Run(cfg, s, init), e)
  }

  lemma DecisionOnMiss(cfg: Config, s: State, e: Event)
    requires Proper(cfg, e)
    ensures var a := Decide(cfg, s, e); Miss(cfg, s, e) == if a.PutAside? then [a.deferral] else []
  {
    hide Classify, Lookup, Receivable, EtherType, Readdress, IsAt, Operation, Named;
  }

  lemma ApplyDefers(cfg: Config, s: State, a: Action)
    ensures Apply(cfg, s, a).deferred == s.deferred + if a.PutAside? then [a.deferral] else []
  {
    hide Enqueue, Kept, Sent, Position, Releases, Insert, SweptQueue, SweptCalls, Expire;
    if a.PutAside? {
      EnqueuePosition(s.requests, a.deferral.nextHop, Waiting(|s.deferred|, a.deferral.frame, a.deferral.iface));
    }
  }

  /** Over every run the frames put aside are exactly the misses, in order. */
  lemma {:induction false} RunDefersMisses(cfg: Config, s: State, evs: seq<Event>)
    requires Initial(s) && AllProper(cfg, evs)
    ensures Run(cfg, s, evs).deferred == Misses(cfg, s, evs)
  {
    hide Apply, Decide, Proper, Miss;
    if evs != [] {
      var before, e := Run(cfg, s, evs[..|evs| - 1]), evs[|evs| - 1];
      RunDefersMisses(cfg, s, evs[..|evs| - 1]);
      DecisionOnMiss(cfg, before, e);
      ApplyDefers(cfg, before, Decide(cfg, before, e));
    }
  }

  // ---------- latest first ----------

  /** The list stands in reverse order of arrival, all of it among the first `n` frames. */
  predicate LatestFirst(r: Request, n: nat) {
    && (forall i :: 0 <= i < |r.waiting| ==> r.waiting[i].id < n)
    && (forall i, j :: 0 <= i < j < |r.waiting| ==> r.waiting[i].id > r.waiting[j].id)
  }

  predicate Ordered(requests: seq<Request>, n: nat) {
    forall i :: 0 <= i < |requests| ==> LatestFirst(requests[i], n)
  }

  lemma KeptIsOrdered(r: Request, now: int, n: nat)
    requires LatestFirst(r, n)
    ensures Ordered(Kept(r, now), n)
  {}

  lemma {:induction false} SweepIsOrdered(requests: seq<Request>, now: int, n: nat)
    requires Ordered(requests, n)
    ensures Ordered(SweptQueue(requests, now), n)
  {
    hide LatestFirst, Kept;
    if requests != [] {
      KeptIsOrdered(requests[0], now, n);
      SweepIsOrdered(requests[1..], now, n);
    }
  }

  lemma JoinIsOrdered(r: Request, w: Waiting)
    requires LatestFirst(r, w.id)
    ensures LatestFirst(r.(waiting := [w] + r.waiting), w.id + 1)
  {}

  lemma MoreIsOrdered(requests: seq<Request>, n: nat)
    requires Ordered(requests, n)
    ensures Ordered(requests, n + 1)
  {
    forall i | 0 <= i < |requests|
      ensures LatestFirst(requests[i], n + 1)
    {
      assert LatestFirst(requests[i], n);
    }
  }

  lemma DeferIsOrdered(cfg: Config, s: State, d: Deferral, now: int)
    requires Ordered(s.requests, |s.deferred|)
    ensures Ordered(Defer(cfg, s, d, now).requests, |s.deferred| + 1)
  {
    hide LatestFirst, Kept, Sent, Position;
    var n := |s.deferred|;
    var w := Waiting(n, d.frame, d.iface);
    var k, requests := Position(s.requests, d.nextHop), Enqueue(s.requests, d.nextHop, w);
    EnqueuePosition(s.requests, d.nextHop, w);
    MoreIsOrdered(s.requests, n);
    if k < |s.requests| {
      JoinIsOrdered(s.requests[k], w);
    } else {
      NewIsOrdered(d.nextHop, w);
    }
    assert Ordered(requests, n + 1);
    KeptIsOrdered(requests[Position(requests, d.nextHop)], now, n + 1);
  }

  lemma NewIsOrdered(ip: Ip, w: Waiting)
    ensures LatestFirst(Request(ip, 0, 0, [w]), w.id + 1)
  {}

  lemma ApplyIsOrdered(cfg: Config, s: State, a: Action)
    requires Ordered(s.requests, |s.deferred|)
    ensures Ordered(Apply(cfg, s, a).requests, |Apply(cfg, s, a).deferred|)
  {
    ApplyDefers(cfg, s, a);
    hide LatestFirst, Defer, Releases, Insert, SweptQueue, SweptCalls, Expire;
    match a
    case Nothing =>
    case Overreads =>
    case SendNow(iface, f, cause) =>
    case PutAside(d, now) => DeferIsOrdered(cfg, s, d, now);
    case Resolve(mac, ip, src, now) =>
    case Sweep(now) => SweepIsOrdered(s.requests, now, |s.deferred|);
  }

  lemma {:induction false} RunIsOrdered(cfg: Config, s: State, evs: seq<Event>)
    requires Initial(s) && AllProper(cfg, evs)
    ensures Ordered(Run(cfg, s, evs).requests, |Run(cfg, s, evs).deferred|)
  {
    hide Apply, Decide, Proper, LatestFirst;
    if evs != [] {
      var before, e := Run(cfg, s, evs[..|evs| - 1]), evs[|evs| - 1];
      RunIsOrdered(cfg, s, evs[..|evs| - 1]);
      ApplyIsOrdered(cfg, before, Decide(cfg, before, e));
    }
  }

  /** The number of the frame a call releases for `ip`. */
  predicate Lets(c: Call, ip: Ip, id: nat) {
    c.cause == Released(id, ip)
  }

  lemma {:induction false} ReleasesInListOrder(cfg: Config, ws: seq<Waiting>, dst: Mac, src: Mac, ip: Ip)
    ensures var calls := Releases(cfg, ws, dst, src, ip);
      |calls| == |ws| && forall i :: 0 <= i < |ws| ==> Lets(calls[i], ip, ws[i].id)
  {
    hide Readdress, Passes;
    if ws != [] {
      ReleasesInListOrder(cfg, ws[1..], dst, src, ip);
    }
  }

  /** The calls let frames go for `ip`, each an earlier arrival than the one before. */
  predicate LatestLeavesFirst(calls: seq<Call>, ip: Ip) {
    && (forall i :: 0 <= i < |calls| ==> calls[i].cause.Released? && calls[i].cause.ip == ip)
    && (forall i, j :: 0 <= i < j < |calls| ==> calls[i].cause.id > calls[j].cause.id)
  }

  /** In every reachable state a reply lets go of all that waits for its address,
      the latest arrival first, and of nothing else. */
  lemma ReplyReversesArrival(cfg: Config, s: State, evs: seq<Event>, mac: Mac, ip: Ip, src: Mac, now: int)
    requires Initial(s) && AllProper(cfg, evs)
    ensures
      var t := Run(cfg, s, evs);
      var u, k := ReceiveReply(cfg, t, mac, ip, src, now), Position(t.requests, ip);
      && t.log <= u.log && LatestLeavesFirst(u.log[|t.log|..], ip)
      && |u.log| - |t.log| == (if k < |t.requests| then |t.requests[k].waiting| else 0)
      && forall i :: |t.log| <= i < |u.log| ==> Lets(u.log[i], ip, t.requests[k].waiting[i - |t.log|].id)
  {
    hide Run, Insert, Releases;
    RunIsOrdered(cfg, s, evs);
    var t := Run(cfg, s, evs);
    var u, k := ReceiveReply(cfg, t, mac, ip, src, now), Position(t.requests, ip);
    if k < |t.requests| {
      var ws := t.requests[k].waiting;
      var calls := Releases(cfg, ws, mac, src, ip);
      ReleasesInListOrder(cfg, ws, mac, src, ip);
      assert LatestFirst(t.requests[k], |t.deferred|);
      assert u.log[|t.log|..] == calls;
      assert forall i :: 0 <= i < |calls| ==> Lets(calls[i], ip, ws[i].id);
    } else {
      assert u.log[|t.log|..] == [];
    }
  }
}
