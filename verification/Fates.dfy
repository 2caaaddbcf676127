/** Which of the two ends a deferred frame meets, and when. */
module Fates {
  import opened Bytes
  import opened Network
  import opened Frames
  import opened RouterModel
  import opened Conservation
  import opened Attribution
  import opened Resolver
  import opened Order
  import opened Returns
  import opened Progress

  /** The event is an ARP reply from this address. */
  predicate RepliesFrom(e: Event, ip: Ip) {
    && e.Receive? && |e.frame| >= ARP_FRAME_LENGTH && EtherType(e.frame) == TYPE_ARP
    && Operation(e.frame) == ARP_REPLY && SenderIp(e.frame) == ip
  }

  lemma ResolveReplies(cfg: Config, s: State, e: Event, ip: Ip)
    requires Proper(cfg, e)
    ensures RepliesFrom(e, ip) <==> Decide(cfg, s, e).Resolve? && Decide(cfg, s, e).ip == ip
  {
    hide Classify, Lookup, EtherType, Readdress, IsAt, Operation, Named, SenderIp;
  }

  // ---------- only a reply from its next hop releases a frame ----------

  lemma {:induction false} SweptReleasesNone(cfg: Config, requests: seq<Request>, now: int, id: nat)
    ensures CountReleased(SweptCalls(cfg, requests, now), id) == 0
  {
    hide Sent, CountReleased, CountAnswered;
    NothingDone(id);
    if requests != [] {
      SentReleasesNone(cfg, requests[0], now, id);
      SweptReleasesNone(cfg, requests[1..], now, id);
      CountDoneConcat(Sent(cfg, requests[0], now), SweptCalls(cfg, requests[1..], now), id);
    }
  }

  lemma SentReleasesNone(cfg: Config, r: Request, now: int, id: nat)
    ensures CountReleased(Sent(cfg, r, now), id) == 0
  {
    hide Unreachables, WhoHas, Passes, Named, CountReleased, CountAnswered, CountIn;
    NothingDone(id);
    SingleCall(Rebroadcast(cfg, r, now), id);
    UnreachablesCount(cfg, r.waiting, id);
  }

  /** A frame stands on no list but that of its own next hop. */
  lemma {:induction false} NotOnForeignList(deferred: seq<Deferral>, ip: Ip, ws: seq<Waiting>, id: nat)
    requires forall i :: 0 <= i < |ws| ==> OwnWaiting(deferred, ip, ws[i])
    requires id < |deferred| && deferred[id].nextHop != ip
    ensures CountIn(ws, id) == 0
  {
    if ws != [] {
      assert OwnWaiting(deferred, ip, ws[0]);
      NotOnForeignList(deferred, ip, ws[1..], id);
    }
  }

  /** No event but a reply from its next hop adds a release of the frame. */
  lemma StepReleasesNone(cfg: Config, s: State, e: Event, id: nat)
    requires Proper(cfg, e) && Attributed(cfg, s) && id < |s.deferred|
    requires !RepliesFrom(e, s.deferred[id].nextHop)
    ensures CountReleased(Step(cfg, s, e).log, id) == CountReleased(s.log, id)
  {
    hide Decide, Proper, Sent, SweptCalls, Releases, Insert, Expire, SweptQueue, Enqueue,
         Kept, CountReleased, CountAnswered, CountIn, Passes, OwnLog, RepliesFrom, OwnWaiting, Position, Lookup;
    var a := Decide(cfg, s, e);
    ResolveReplies(cfg, s, e, s.deferred[id].nextHop);
    DecisionIsFounded(cfg, s, e);
    match a
    case Nothing =>
    case Overreads =>
    case SendNow(iface, f, cause) =>
      SingleCall(Sending(cfg.ifs, iface, f, cause), id);
      CountDoneConcat(s.log, [Sending(cfg.ifs, iface, f, cause)], id);
    case PutAside(d, now) =>
      var w := Waiting(|s.deferred|, d.frame, d.iface);
      EnqueuePosition(s.requests, d.nextHop, w);
      var q := Enqueue(s.requests, d.nextHop, w);
      SentReleasesNone(cfg, q[Position(q, d.nextHop)], now, id);
      CountDoneConcat(s.log, Sent(cfg, q[Position(q, d.nextHop)], now), id);
    case Resolve(mac, ip, src, now) =>
      var k := Position(s.requests, ip);
      if k < |s.requests| {
        var ws := s.requests[k].waiting;
        assert OwnRequest(s.deferred, s.requests[k]);
        NotOnForeignList(s.deferred, ip, ws, id);
        ReleasesCount(cfg, ws, mac, src, ip, id);
        CountDoneConcat(s.log, Releases(cfg, ws, mac, src, ip), id);
      }
    case Sweep(now) =>
      SweptReleasesNone(cfg, s.requests, now, id);
      CountDoneConcat(s.log, SweptCalls(cfg, s.requests, now), id);
  }

  // ---------- and such a reply releases it if it waits ----------

  lemma {:induction false} WaitsNowhereElse(deferred: seq<Deferral>, requests: seq<Request>, id: nat)
    requires OwnQueue(deferred, requests) && id < |deferred|
    requires forall i :: 0 <= i < |requests| ==> requests[i].ip != deferred[id].nextHop
    ensures CountWaiting(requests, id) == 0
  {
    hide CountIn, OwnWaiting;
    if requests != [] {
      assert OwnRequest(deferred, requests[0]);
      NotOnForeignList(deferred, requests[0].ip, requests[0].waiting, id);
      assert forall i :: 0 <= i < |requests[1..]| ==> requests[1..][i] == requests[i + 1];
      WaitsNowhereElse(deferred, requests[1..], id);
    }
  }

  /** After a reply from its next hop a frame waits no longer. */
  lemma ReplyEndsWaiting(cfg: Config, s: State, e: Event, id: nat)
    requires Proper(cfg, e) && Attributed(cfg, s) && Invariant(s) && id < |s.deferred|
    requires RepliesFrom(e, s.deferred[id].nextHop)
    ensures CountWaiting(Step(cfg, s, e).requests, id) == 0
  {
    hide Decide, Proper, Releases, Insert, CountWaiting, OwnLog, RepliesFrom, OwnRequest, GoodRequest, Unmapped;
    var ip := s.deferred[id].nextHop;
    ResolveReplies(cfg, s, e, ip);
    var k := Position(s.requests, ip);
    if k < |s.requests| {
      var rest := Remove(s.requests, k);
      assert forall i :: 0 <= i < |rest| ==> rest[i] == s.requests[if i < k then i else i + 1];
      WaitsNowhereElse(s.deferred, rest, id);
    } else {
      WaitsNowhereElse(s.deferred, s.requests, id);
    }
  }

  /** What every reachable state has, for the frame `id`. */
  ghost predicate Sound(cfg: Config, s: State, id: nat) {
    Invariant(s) && Attributed(cfg, s) && Accounted(s, id) && id < |s.deferred|
  }

  lemma StepIsSound(cfg: Config, s: State, e: Event, id: nat)
    requires Proper(cfg, e) && e.now >= 1 && Sound(cfg, s, id)
    ensures Sound(cfg, Step(cfg, s, e), id)
    ensures Step(cfg, s, e).deferred[id] == s.deferred[id]
  {
    hide Decide, Apply, Proper, Invariant, Attributed, Accounted, Founded, Timely;
    var a := Decide(cfg, s, e);
    DecisionIsFounded(cfg, s, e);
    DecisionIsTimely(cfg, s, e);
    ApplyKeepsInvariant(cfg, s, a);
    ApplyIsOwn(cfg, s, a);
    ApplyAccounted(cfg, s, a, id);
    HistoryGrows(cfg, s, a);
  }

  predicate Waits(s: State, id: nat) {
    CountWaiting(s.requests, id) == 1
  }

  predicate Freed(s: State, id: nat) {
    CountReleased(s.log, id) == 1
  }

  /** A step releases a frame exactly when it waits and the event is a reply from
      its next hop; and a frame once released stays so. */
  lemma StepReleasesExactly(cfg: Config, s: State, e: Event, id: nat)
    requires Proper(cfg, e) && e.now >= 1 && Sound(cfg, s, id)
    ensures Freed(Step(cfg, s, e), id) <==> Freed(s, id) || (Waits(s, id) && RepliesFrom(e, s.deferred[id].nextHop))
  {
    hide Decide, Apply, Proper, Invariant, Attributed, CountWaiting, CountReleased, CountAnswered, RepliesFrom;
    var t := Step(cfg, s, e);
    StepIsSound(cfg, s, e, id);
    HistoryGrows(cfg, s, Decide(cfg, s, e));
    assert t.log == s.log + t.log[|s.log|..];
    CountDoneConcat(s.log, t.log[|s.log|..], id);
    if RepliesFrom(e, s.deferred[id].nextHop) {
      ReplyEndsWaiting(cfg, s, e, id);
      AnswersNone(cfg, s, e, s.deferred[id].nextHop, id);
    } else {
      StepReleasesNone(cfg, s, e, id);
    }
  }

  /** A reply answers no frame as unreachable. */
  lemma AnswersNone(cfg: Config, s: State, e: Event, ip: Ip, id: nat)
    requires Proper(cfg, e) && RepliesFrom(e, ip)
    ensures CountAnswered(Step(cfg, s, e).log, id) == CountAnswered(s.log, id)
  {
    hide Decide, Proper, Releases, Insert, CountReleased, CountAnswered, CountIn, RepliesFrom;
    ResolveReplies(cfg, s, e, ip);
    var a := Decide(cfg, s, e);
    var k := Position(s.requests, ip);
    if k < |s.requests| {
      ReleasesCount(cfg, s.requests[k].waiting, a.mac, a.src, a.ip, id);
      CountDoneConcat(s.log, Releases(cfg, s.requests[k].waiting, a.mac, a.src, a.ip), id);
    }
  }

  // ---------- over runs ----------

  /** Event `k` of the run is a reply from the frame's next hop that finds it waiting. */
  predicate FoundBy(cfg: Config, s: State, evs: seq<Event>, id: nat, k: nat)
    requires AllProper(cfg, evs) && id < |s.deferred|
  {
    k < |evs| && RepliesFrom(evs[k], s.deferred[id].nextHop) && Waits(Run(cfg, s, evs[..k]), id)
  }

  lemma FoundEarlier(cfg: Config, s: State, evs: seq<Event>, e: Event, id: nat, k: nat)
    requires AllProper(cfg, evs) && Proper(cfg, e) && id < |s.deferred| && k < |evs|
    ensures AllProper(cfg, evs + [e])
    ensures FoundBy(cfg, s, evs + [e], id, k) <==> FoundBy(cfg, s, evs, id, k)
  {
    hide Run, RepliesFrom, Waits, Proper;
    assert (evs + [e])[..k] == evs[..k];
  }

  /** Over any run a frame put aside before it is released, once and for good, if and
      only if a reply from its next hop finds it waiting, or one did before. */
  lemma {:induction false} RunReleasesExactly(cfg: Config, s: State, evs: seq<Event>, id: nat)
    requires AllProper(cfg, evs) && AfterEpoch(evs) && Sound(cfg, s, id)
    ensures var t := Run(cfg, s, evs);
      && Sound(cfg, t, id) && t.deferred[id] == s.deferred[id]
      && (Freed(t, id) <==> Freed(s, id) || exists k :: FoundBy(cfg, s, evs, id, k))
  {
    hide Step, Sound, Freed, Proper, RepliesFrom, Waits;
    SoundIsDeferred(cfg, s, id);
    if evs == [] {
    } else {
      var init, e := evs[..|evs| - 1], evs[|evs| - 1];
      var n, before := |init|, Run(cfg, s, init);
      assert evs == init + [e];
      RunReleasesExactly(cfg, s, init, id);
      SoundIsDeferred(cfg, before, id);
      StepIsSound(cfg, before, e, id);
      StepReleasesExactly(cfg, before, e, id);
      assert evs[..n] == init;
      forall k | 0 <= k < n
        ensures FoundBy(cfg, s, evs, id, k) <==> FoundBy(cfg, s, init, id, k)
      {
        FoundEarlier(cfg, s, init, e, id, k);
      }
      assert FoundBy(cfg, s, evs, id, n) <==> Waits(before, id) && RepliesFrom(e, s.deferred[id].nextHop);
    }
  }

  lemma SoundIsDeferred(cfg: Config, s: State, id: nat)
    requires Sound(cfg, s, id)
    ensures id < |s.deferred|
  {}

  // ---------- on the wire, or refused ----------

  /** The interface the event came in on has the address of the one the frame leaves by. */
  predicate Fits(cfg: Config, e: Event, d: Deferral)
    requires e.Receive?
  {
    Named(cfg.ifs, e.iface).addr == Named(cfg.ifs, d.iface).addr
  }

  lemma {:induction false} ReleasesWritten(cfg: Config, deferred: seq<Deferral>, ws: seq<Waiting>,
      dst: Mac, src: Mac, ip: Ip, id: nat)
    requires id < |deferred| && FindName(cfg.ifs, deferred[id].iface).Some?
    requires forall i :: 0 <= i < |ws| ==> OwnWaiting(deferred, ip, ws[i])
    ensures CountWritten(Releases(cfg, ws, dst, src, ip), id) ==
      if Named(cfg.ifs, deferred[id].iface).addr == src then CountIn(ws, id) else 0
  {
    if ws != [] {
      ReleasesWritten(cfg, deferred, ws[1..], dst, src, ip, id);
      assert OwnWaiting(deferred, ip, ws[0]);
      hide FindName;
      assert SourceMac(Readdress(ws[0].frame, dst, src)) == src;
      assert Releases(cfg, ws, dst, src, ip)[1..] == Releases(cfg, ws[1..], dst, src, ip);
    }
  }

  /** A frame that waits, waits on the list of its own next hop. */
  lemma WaitsOnItsList(s: State, id: nat, k: nat)
    requires Invariant(s) && OwnQueue(s.deferred, s.requests) && id < |s.deferred|
      && k == Position(s.requests, s.deferred[id].nextHop)
    ensures CountWaiting(s.requests, id) == if k < |s.requests| then CountIn(s.requests[k].waiting, id) else 0
  {
    hide CountIn, CountWaiting, OwnRequest, GoodRequest, Unmapped;
    if k < |s.requests| {
      var rest := Remove(s.requests, k);
      assert forall i :: 0 <= i < |rest| ==> rest[i] == s.requests[if i < k then i else i + 1];
      WaitsNowhereElse(s.deferred, rest, id);
      CountWaitingReplace(s.requests, k, [], id);
      NothingWaits(id);
      assert rest == s.requests[..k] + [] + s.requests[k + 1..];
    } else {
      WaitsNowhereElse(s.deferred, s.requests, id);
    }
  }

  /** A reply writes the frame it finds waiting exactly when it fits. */
  lemma ReplyWrites(cfg: Config, s: State, e: Event, id: nat)
    requires Proper(cfg, e) && Sound(cfg, s, id) && FindName(cfg.ifs, s.deferred[id].iface).Some?
    requires RepliesFrom(e, s.deferred[id].nextHop)
    ensures CountWritten(Step(cfg, s, e).log, id) ==
      CountWritten(s.log, id) + if Waits(s, id) && Fits(cfg, e, s.deferred[id]) then 1 else 0
  {
    hide Decide, Proper, Releases, Insert, CountReleased, CountAnswered, CountWritten,
         CountIn, CountWaiting, RepliesFrom, Invariant, OwnLog, OwnWaiting, Named, FindName;
    var d := s.deferred[id];
    ResolveReplies(cfg, s, e, d.nextHop);
    ReplySource(cfg, s, e);
    var a, k := Decide(cfg, s, e), Position(s.requests, d.nextHop);
    WaitsOnItsList(s, id, k);
    if k < |s.requests| {
      assert OwnRequest(s.deferred, s.requests[k]);
      ReleasesWritten(cfg, s.deferred, s.requests[k].waiting, a.mac, a.src, a.ip, id);
      CountWrittenConcat(s.log, Releases(cfg, s.requests[k].waiting, a.mac, a.src, a.ip), id);
    }
  }

  lemma ReplySource(cfg: Config, s: State, e: Event)
    requires Proper(cfg, e) && Decide(cfg, s, e).Resolve?
    ensures e.Receive? && Decide(cfg, s, e).src == Named(cfg.ifs, e.iface).addr
  {
    hide Classify, Lookup, EtherType, Readdress, IsAt, Operation, Named;
  }

  lemma StepWritesExactly(cfg: Config, s: State, e: Event, id: nat)
    requires Proper(cfg, e) && Sound(cfg, s, id) && FindName(cfg.ifs, s.deferred[id].iface).Some?
    ensures CountWritten(Step(cfg, s, e).log, id) ==
      CountWritten(s.log, id) +
      if Waits(s, id) && RepliesFrom(e, s.deferred[id].nextHop) && Fits(cfg, e, s.deferred[id]) then 1 else 0
  {
    hide Decide, Apply, Proper, Sound, Waits, Fits, CountReleased, CountWritten, CountAnswered, RepliesFrom;
    SoundIsDeferred(cfg, s, id);
    if RepliesFrom(e, s.deferred[id].nextHop) {
      ReplyWrites(cfg, s, e, id);
    } else {
      SoundIsAttributed(cfg, s, id);
      StepReleasesNone(cfg, s, e, id);
      HistoryGrows(cfg, s, Decide(cfg, s, e));
      var t := Step(cfg, s, e);
      var more := t.log[|s.log|..];
      assert t.log == s.log + more;
      CountDoneConcat(s.log, more, id);
      CountWrittenConcat(s.log, more, id);
      WrittenIsReleased(more, id);
    }
  }

  lemma SoundIsAttributed(cfg: Config, s: State, id: nat)
    requires Sound(cfg, s, id)
    ensures Attributed(cfg, s)
  {}

  /** Event `k` finds the frame waiting, on an interface that fits. */
  predicate WrittenBy(cfg: Config, s: State, evs: seq<Event>, id: nat, k: nat)
    requires AllProper(cfg, evs) && id < |s.deferred|
  {
    FoundBy(cfg, s, evs, id, k) && Fits(cfg, evs[k], s.deferred[id])
  }

  predicate OnWire(s: State, id: nat) {
    CountWritten(s.log, id) >= 1
  }

  /** Over any run a frame reaches the wire on its release if and only if a reply finds
      it waiting that came in on an interface with the address of its own. */
  lemma {:induction false} RunWritesExactly(cfg: Config, s: State, evs: seq<Event>, id: nat)
    requires AllProper(cfg, evs) && AfterEpoch(evs) && Sound(cfg, s, id)
    requires FindName(cfg.ifs, s.deferred[id].iface).Some?
    ensures OnWire(Run(cfg, s, evs), id) <==> OnWire(s, id) || exists k :: WrittenBy(cfg, s, evs, id, k)
  {
    hide Step, Sound, Proper, EtherType, Operation, SenderIp, Waits, Fits, CountWritten, FindName, Freed;
    SoundIsDeferred(cfg, s, id);
    if evs != [] {
      var init, e := evs[..|evs| - 1], evs[|evs| - 1];
      var n, before := |init|, Run(cfg, s, init);
      assert evs == init + [e];
      RunWritesExactly(cfg, s, init, id);
      RunReleasesExactly(cfg, s, init, id);
      SoundIsDeferred(cfg, before, id);
      StepWritesExactly(cfg, before, e, id);
      assert evs[..n] == init;
      forall k | 0 <= k < n
        ensures WrittenBy(cfg, s, evs, id, k) <==> WrittenBy(cfg, s, init, id, k)
      {
        FoundEarlier(cfg, s, init, e, id, k);
      }
      assert WrittenBy(cfg, s, evs, id, n) <==>
        Waits(before, id) && RepliesFrom(e, s.deferred[id].nextHop) && Fits(cfg, e, s.deferred[id]);
    }
  }

  /** With a verified table every frame put aside leaves by an interface that exists. */
  lemma DeferredIsWired(cfg: Config, s: State, evs: seq<Event>, id: nat)
    requires Initial(s) && AllProper(cfg, evs) && Consistent(cfg) && id < |Run(cfg, s, evs).deferred|
    ensures FindName(cfg.ifs, Run(cfg, s, evs).deferred[id].iface).Some?
  {
    hide Run, FindName, LongestMatch, Recorded;
    RunDefersMisses(cfg, s, evs);
    MissesAreRecorded(cfg, s, evs);
    SameRoute(cfg, evs, Run(cfg, s, evs).deferred[id]);
  }

  /** The fate of a frame is decided within six sweeps, whatever else arrives. If a
      reply from its next hop finds it waiting it is released: onto the wire when
      that reply came in on an interface with the address of the frame's own, and
      otherwise the guard refuses it and it is lost. If none does it is answered as
      unreachable. */
  lemma FateWithinSixSweeps(cfg: Config, s0: State, pre: seq<Event>, evs: seq<Event>, start: int, id: nat)
    requires Initial(s0) && AllProper(cfg, pre) && AfterEpoch(pre) && Clocked(pre, start)
    requires AllProper(cfg, evs) && AfterEpoch(evs) && Clocked(evs, ClockAfter(pre, start)) && Sweeps(evs) >= 6
    requires id < |Run(cfg, s0, pre).deferred| && Waits(Run(cfg, s0, pre), id)
    ensures
      var s := Run(cfg, s0, pre);
      var t := Run(cfg, s, evs);
      var found := exists k :: FoundBy(cfg, s, evs, id, k);
      var fits := exists k :: WrittenBy(cfg, s, evs, id, k);
      && CountWaiting(t.requests, id) == 0
      && CountReleased(t.log, id) == (if found then 1 else 0)
      && CountAnswered(t.log, id) == (if found then 0 else 1)
      && (Consistent(cfg) ==> CountWritten(t.log, id) == (if fits then 1 else 0))
  {
    hide Run, CountWaiting, CountReleased, CountAnswered, CountWritten, Clocked, AllProper,
         Invariant, Attributed, AfterEpoch, FoundBy, WrittenBy, Consistent, FindName;
    var s := Run(cfg, s0, pre);
    RunKeepsInvariant(cfg, s0, pre);
    InitiallyAccounted(s0, id);
    RunKeepsAccount(cfg, s0, pre, id);
    RunIsAttributed(cfg, s0, pre);
    assert Sound(cfg, s, id);
    RunReleasesExactly(cfg, s, evs, id);
    SettledWithinSixSweeps(cfg, s0, pre, evs, start, id);
    WrittenIsReleased(s.log, id);
    WrittenIsReleased(Run(cfg, s, evs).log, id);
    if Consistent(cfg) {
      DeferredIsWired(cfg, s0, pre, id);
      RunWritesExactly(cfg, s, evs, id);
    }
  }
}
