/** A condition on the events alone under which a deferred frame is released: the
    first reply from its next hop comes within five seconds. */
module InTime {
  import opened Bytes
  import opened Network
  import opened RouterModel
  import opened Conservation
  import opened Attribution
  import opened Resolver
  import opened Order
  import opened Progress
  import opened Fates

  /** A request first sent at `since` has used up at least a second for each further send. */
  predicate Young(r: Request, since: int) {
    r.timesSent >= 1 && r.sent - since >= r.timesSent - 1
  }

  /** A request for this address, first sent at `since`, has the frame on its list. */
  predicate Holds(r: Request, ip: Ip, id: nat, since: int) {
    r.ip == ip && CountIn(r.waiting, id) >= 1 && Young(r, since)
  }

  predicate HeldIn(requests: seq<Request>, ip: Ip, id: nat, since: int) {
    exists i :: 0 <= i < |requests| && Holds(requests[i], ip, id, since)
  }

  /** Before its fifth second is over a request is not given up. */
  lemma KeptStillHolds(r: Request, now: int, ip: Ip, id: nat, since: int)
    requires Holds(r, ip, id, since) && now < since + MAX_SENDS
    ensures |Kept(r, now)| == 1 && Holds(Kept(r, now)[0], ip, id, since)
  {}

  lemma HeldInParts(a: seq<Request>, b: seq<Request>, ip: Ip, id: nat, since: int)
    requires HeldIn(a, ip, id, since) || HeldIn(b, ip, id, since)
    ensures HeldIn(a + b, ip, id, since)
  {
    hide Holds;
    if HeldIn(a, ip, id, since) {
      var i :| 0 <= i < |a| && Holds(a[i], ip, id, since);
      assert Holds((a + b)[i], ip, id, since);
    } else {
      var i :| 0 <= i < |b| && Holds(b[i], ip, id, since);
      assert Holds((a + b)[|a| + i], ip, id, since);
    }
  }

  lemma {:induction false} SweepHolds(requests: seq<Request>, now: int, ip: Ip, id: nat, since: int)
    requires HeldIn(requests, ip, id, since) && now < since + MAX_SENDS
    ensures HeldIn(SweptQueue(requests, now), ip, id, since)
  {
    hide Holds, Kept;
    var i :| 0 <= i < |requests| && Holds(requests[i], ip, id, since);
    if i == 0 {
      KeptStillHolds(requests[0], now, ip, id, since);
      assert Holds(Kept(requests[0], now)[0], ip, id, since);
    } else {
      assert Holds(requests[1..][i - 1], ip, id, since);
      SweepHolds(requests[1..], now, ip, id, since);
    }
    HeldInParts(Kept(requests[0], now), SweptQueue(requests[1..], now), ip, id, since);
  }

  lemma HandleHolds(cfg: Config, s: State, k: nat, now: int, ip: Ip, id: nat, since: int)
    requires k < |s.requests| && HeldIn(s.requests, ip, id, since) && now < since + MAX_SENDS
    ensures HeldIn(HandleRequest(cfg, s, k, now).requests, ip, id, since)
  {
    hide Holds, Kept, Sent, HeldIn;
    var a, b, c := s.requests[..k], Kept(s.requests[k], now), s.requests[k + 1..];
    WhereHeld(s.requests, k, ip, id, since);
    if Holds(s.requests[k], ip, id, since) {
      KeptStillHolds(s.requests[k], now, ip, id, since);
      OneHeld(b, ip, id, since);
    }
    if HeldIn(a, ip, id, since) || HeldIn(b, ip, id, since) {
      HeldInParts(a, b, ip, id, since);
    }
    HeldInParts(a + b, c, ip, id, since);
  }

  lemma OneHeld(requests: seq<Request>, ip: Ip, id: nat, since: int)
    requires |requests| == 1 && Holds(requests[0], ip, id, since)
    ensures HeldIn(requests, ip, id, since)
  {}

  lemma WhereHeld(requests: seq<Request>, k: nat, ip: Ip, id: nat, since: int)
    requires k < |requests| && HeldIn(requests, ip, id, since)
    ensures HeldIn(requests[..k], ip, id, since) || Holds(requests[k], ip, id, since)
      || HeldIn(requests[k + 1..], ip, id, since)
  {
    hide Holds;
    var i :| 0 <= i < |requests| && Holds(requests[i], ip, id, since);
    if i < k {
      assert Holds(requests[..k][i], ip, id, since);
    } else if i > k {
      assert Holds(requests[k + 1..][i - k - 1], ip, id, since);
    }
  }

  /** One more frame takes none off. */
  lemma EnqueueHolds(requests: seq<Request>, hop: Ip, w: Waiting, ip: Ip, id: nat, since: int)
    requires HeldIn(requests, ip, id, since)
    ensures HeldIn(Enqueue(requests, hop, w), ip, id, since)
  {
    hide Position, CountIn;
    var i :| 0 <= i < |requests| && Holds(requests[i], ip, id, since);
    var k, q := Position(requests, hop), Enqueue(requests, hop, w);
    if k < |requests| {
      JoinHolds(requests[k], w, id);
      assert Holds(q[i], ip, id, since);
    } else {
      assert q[i + 1] == requests[i];
    }
  }

  lemma JoinHolds(r: Request, w: Waiting, id: nat)
    ensures CountIn([w] + r.waiting, id) >= CountIn(r.waiting, id)
  {
    assert ([w] + r.waiting)[1..] == r.waiting;
  }

  /** No event in that time but a reply from its address takes the frame off its list. */
  lemma StepHolds(cfg: Config, s: State, e: Event, ip: Ip, id: nat, since: int)
    requires Proper(cfg, e) && HeldIn(s.requests, ip, id, since)
    requires e.now < since + MAX_SENDS && !RepliesFrom(e, ip)
    ensures HeldIn(Step(cfg, s, e).requests, ip, id, since)
  {
    hide Decide, Proper, Sent, SweptCalls, SweptQueue, Releases, Insert, Expire, Enqueue,
         HandleRequest, HeldIn, RepliesFrom, Position;
    var a := Decide(cfg, s, e);
    ResolveReplies(cfg, s, e, ip);
    DecisionIsTakenNow(cfg, s, e);
    match a
    case Nothing =>
    case Overreads =>
    case SendNow(_, _, _) =>
    case PutAside(d, now) =>
      var w := Waiting(|s.deferred|, d.frame, d.iface);
      EnqueuePosition(s.requests, d.nextHop, w);
      EnqueueHolds(s.requests, d.nextHop, w, ip, id, since);
      var s1 := s.(requests := Enqueue(s.requests, d.nextHop, w), deferred := s.deferred + [d]);
      HandleHolds(cfg, s1, Position(s1.requests, d.nextHop), now, ip, id, since);
    case Resolve(mac, other, src, now) =>
      var k := Position(s.requests, other);
      if k < |s.requests| {
        WhereHeld(s.requests, k, ip, id, since);
        HeldInParts(s.requests[..k], s.requests[k + 1..], ip, id, since);
      }
    case Sweep(now) => SweepHolds(s.requests, now, ip, id, since);
  }

  /** Up to event `k` nothing replies from the address, and it is not yet `until`. */
  predicate Quiet(evs: seq<Event>, k: nat, ip: Ip, until: int) {
    k <= |evs| && forall j :: 0 <= j < k ==> evs[j].now < until && !RepliesFrom(evs[j], ip)
  }

  lemma {:induction false} QuietHolds(cfg: Config, s: State, evs: seq<Event>, k: nat, ip: Ip, id: nat, since: int)
    requires AllProper(cfg, evs) && HeldIn(s.requests, ip, id, since) && Quiet(evs, k, ip, since + MAX_SENDS)
    ensures AllProper(cfg, evs[..k]) && HeldIn(Run(cfg, s, evs[..k]).requests, ip, id, since)
  {
    hide Step, Proper, HeldIn, RepliesFrom;
    if k > 0 {
      QuietHolds(cfg, s, evs, k - 1, ip, id, since);
      assert evs[..k][..k - 1] == evs[..k - 1];
      StepHolds(cfg, Run(cfg, s, evs[..k - 1]), evs[k - 1], ip, id, since);
    }
  }

  lemma HeldWaits(s: State, ip: Ip, id: nat, since: int)
    requires Accounted(s, id) && HeldIn(s.requests, ip, id, since)
    ensures Waits(s, id)
  {
    hide CountWaiting, CountIn, CountReleased, CountAnswered;
    var i :| 0 <= i < |s.requests| && Holds(s.requests[i], ip, id, since);
    CountWaitingSplit(s.requests, i, id);
  }

  /** A first reply finds a frame whose request was first sent less than five seconds
      before anything else that came in between. */
  lemma ReplyInTime(cfg: Config, s: State, evs: seq<Event>, id: nat, since: int, k: nat)
    requires AllProper(cfg, evs) && AfterEpoch(evs) && Sound(cfg, s, id)
    requires HeldIn(s.requests, s.deferred[id].nextHop, id, since)
    requires k < |evs| && RepliesFrom(evs[k], s.deferred[id].nextHop)
    requires Quiet(evs, k, s.deferred[id].nextHop, since + MAX_SENDS)
    ensures FoundBy(cfg, s, evs, id, k) && Freed(Run(cfg, s, evs), id)
  {
    hide Run, HeldIn, Invariant, Attributed, Accounted, RepliesFrom, Proper, Quiet;
    QuietHolds(cfg, s, evs, k, s.deferred[id].nextHop, id, since);
    FirstAfterEpoch(evs, k);
    RunReleasesExactly(cfg, s, evs[..k], id);
    HeldWaits(Run(cfg, s, evs[..k]), s.deferred[id].nextHop, id, since);
    RunReleasesExactly(cfg, s, evs, id);
    assert FoundBy(cfg, s, evs, id, k);
  }

  lemma FirstAfterEpoch(evs: seq<Event>, k: nat)
    requires k <= |evs| && AfterEpoch(evs)
    ensures AfterEpoch(evs[..k])
  {}

  /** The event is a miss, with no request pending for its next hop. */
  predicate Opens(cfg: Config, s: State, e: Event)
    requires Proper(cfg, e)
  {
    Miss(cfg, s, e) != [] && !Pending(s.requests, Miss(cfg, s, e)[0].nextHop)
  }

  /** Then it opens one, sent at once. */
  lemma MissOpens(cfg: Config, s: State, e: Event)
    requires Proper(cfg, e) && e.now >= 1 && Opens(cfg, s, e)
    ensures var d, t := Miss(cfg, s, e)[0], Step(cfg, s, e);
      t.deferred == s.deferred + [d] && HeldIn(t.requests, d.nextHop, |s.deferred|, e.now)
  {
    hide Decide, Miss, Sent, Proper;
    var d := Miss(cfg, s, e)[0];
    DecisionOnMiss(cfg, s, e);
    DecisionIsTakenNow(cfg, s, e);
    ApplyDefers(cfg, s, Decide(cfg, s, e));
    var w := Waiting(|s.deferred|, d.frame, d.iface);
    var q := Enqueue(s.requests, d.nextHop, w);
    assert q[0] == Request(d.nextHop, 0, 0, [w]) && Position(q, d.nextHop) == 0;
    assert Holds(Kept(q[0], e.now)[0], d.nextHop, |s.deferred|, e.now);
    assert Step(cfg, s, e).requests[0] == Kept(q[0], e.now)[0];
  }

  /** A frame that opens its own request is released by the first reply from its next
      hop, if that is the first event of its kind and everything before it comes
      less than five seconds after the frame. */
  lemma FirstReplyReleases(cfg: Config, s0: State, pre: seq<Event>, e: Event, evs: seq<Event>, k: nat)
    requires Initial(s0) && AllProper(cfg, pre) && AfterEpoch(pre) && Proper(cfg, e) && e.now >= 1
    requires AllProper(cfg, evs) && AfterEpoch(evs) && k < |evs|
    ensures
      var s := Run(cfg, s0, pre);
      Opens(cfg, s, e) ==>
        var ip := Miss(cfg, s, e)[0].nextHop;
        RepliesFrom(evs[k], ip) && Quiet(evs, k, ip, e.now + MAX_SENDS) ==>
          Freed(Run(cfg, Step(cfg, s, e), evs), |s.deferred|)
  {
    hide Step, Run, Miss, RepliesFrom, Quiet, Pending, HeldIn, Initial, AllProper, AfterEpoch, Sound, Freed;
    var s := Run(cfg, s0, pre);
    if Opens(cfg, s, e) && RepliesFrom(evs[k], Miss(cfg, s, e)[0].nextHop)
      && Quiet(evs, k, Miss(cfg, s, e)[0].nextHop, e.now + MAX_SENDS) {
      MissOpens(cfg, s, e);
      SoundOneOn(cfg, s0, pre, e, |s.deferred|);
      ReplyInTime(cfg, Step(cfg, s, e), evs, |s.deferred|, e.now, k);
    }
  }

  lemma SoundOneOn(cfg: Config, s0: State, pre: seq<Event>, e: Event, id: nat)
    requires Initial(s0) && AllProper(cfg, pre) && AfterEpoch(pre) && Proper(cfg, e) && e.now >= 1
    requires id < |Step(cfg, Run(cfg, s0, pre), e).deferred|
    ensures Sound(cfg, Step(cfg, Run(cfg, s0, pre), e), id)
  {
    hide Step, Initial, Proper, Invariant, Attributed, Accounted;
    var all := pre + [e];
    assert all[..|pre|] == pre;
    RunKeepsInvariant(cfg, s0, all);
    InitiallyAccounted(s0, id);
    RunKeepsAccount(cfg, s0, all, id);
    RunIsAttributed(cfg, s0, all);
  }
}
