/** Bounded resolution: how often a request is broadcast, and that six sweeps
    settle every frame put aside before them. */
module Progress {
  import opened Bytes
  import opened Network
  import opened Frames
  import opened RouterModel
  import opened Conservation
  import opened Resolver

  // ---------- a sweep is one request after another ----------

  /** `handle_arpreq` on each request from position `k` on, the next one being
      fixed before the current one may disappear. */
  function HandleFrom(cfg: Config, s: State, k: nat, now: int): State
    requires k <= |s.requests|
    decreases |s.requests| - k
  {
    if k == |s.requests| then s
    else HandleFrom(cfg, HandleRequest(cfg, s, k, now), k + |Kept(s.requests[k], now)|, now)
  }

  lemma {:induction false} SweepIsHandles(cfg: Config, s: State, k: nat, now: int)
    requires k <= |s.requests|
    ensures HandleFrom(cfg, s, k, now) ==
            s.(requests := s.requests[..k] + SweptQueue(s.requests[k..], now),
               log := s.log + SweptCalls(cfg, s.requests[k..], now))
    decreases |s.requests| - k
  {
    hide Kept, Sent;
    if k == |s.requests| {
      assert s.requests[..k] + SweptQueue([], now) == s.requests;
      assert s.log + SweptCalls(cfg, [], now) == s.log;
    } else {
      var kept := Kept(s.requests[k], now);
      AtMostOneKept(s.requests[k], now);
      var t := HandleRequest(cfg, s, k, now);
      SweepIsHandles(cfg, t, k + |kept|, now);
      assert t.requests[k + |kept|..] == s.requests[k..][1..];
      assert t.requests[..k + |kept|] == s.requests[..k] + kept;
      assert s.requests[..k] + kept + SweptQueue(s.requests[k..][1..], now)
        == s.requests[..k] + SweptQueue(s.requests[k..], now);
      assert t.log + SweptCalls(cfg, s.requests[k..][1..], now) == s.log + SweptCalls(cfg, s.requests[k..], now);
    }
  }

  lemma AtMostOneKept(r: Request, now: int)
    ensures |Kept(r, now)| <= 1
  {}

  /** The requests a sweep does not give up, in their order. */
  function Survivors(requests: seq<Request>, now: int): seq<Request> {
    if requests == [] then []
    else
      var init, last := requests[..|requests| - 1], requests[|requests| - 1];
      Survivors(init, now) + if now - last.sent >= 1 && last.timesSent >= 5 then [] else [last]
  }

  /** What a sweep does to a request that stays: one more send if it is due. */
  predicate StaysAs(before: Request, after: Request, now: int) {
    && after.ip == before.ip && after.waiting == before.waiting
    && (if now - before.sent >= 1 then after.sent == now && after.timesSent == before.timesSent + 1
        else after == before)
  }

  lemma {:induction false} SurvivorsConcat(a: seq<Request>, b: seq<Request>, now: int)
    ensures Survivors(a + b, now) == Survivors(a, now) + Survivors(b, now)
  {
    if b == [] {
      assert a + b == a;
    } else {
      assert (a + b)[..|a + b| - 1] == a + b[..|b| - 1];
      SurvivorsConcat(a, b[..|b| - 1], now);
    }
  }

  /** A sweep leaves exactly the survivors, in the original order, frames and all. */
  lemma {:induction false} SweepLeavesSurvivors(requests: seq<Request>, now: int)
    ensures |SweptQueue(requests, now)| == |Survivors(requests, now)|
    ensures forall i :: 0 <= i < |SweptQueue(requests, now)| ==>
      StaysAs(Survivors(requests, now)[i], SweptQueue(requests, now)[i], now)
  {
    if requests != [] {
      var first, rest := requests[..1], requests[1..];
      assert requests == first + rest;
      SweepLeavesSurvivors(rest, now);
      SurvivorsConcat(first, rest, now);
      assert first[..0] == [] && first[0] == requests[0];
      assert Survivors(first, now) == if GivenUp(requests[0], now) then [] else [requests[0]];
    }
  }

  // ---------- requests and the frames that created them ----------

  predicate BornFirst(r: Request) {
    r.waiting != [] && forall i :: 0 <= i < |r.waiting| ==> Born(r) <= r.waiting[i].id
  }

  /** Each request was created by the earliest of its frames, and no two by the same one. */
  predicate Births(s: State) {
    && (forall i :: 0 <= i < |s.requests| ==> BornFirst(s.requests[i]) && Born(s.requests[i]) < |s.deferred|)
    && (forall i, j :: 0 <= i < j < |s.requests| ==> Born(s.requests[i]) != Born(s.requests[j]))
  }

  /** The times at which the request created by frame `b` was broadcast. */
  function Times(log: seq<Call>, b: nat): seq<int> {
    if log == [] then []
    else (if log[0].cause.Broadcast? && log[0].cause.born == b then [log[0].cause.at] else []) + Times(log[1..], b)
  }

  predicate Spaced(ts: seq<int>) {
    forall i :: 0 < i < |ts| ==> ts[i] - ts[i - 1] >= 1
  }

  /** The request remembers its own broadcasts. */
  predicate Tracks(r: Request, ts: seq<int>) {
    r.timesSent == |ts| && (ts == [] || ts[|ts| - 1] == r.sent)
  }

  /** At most five broadcasts, at least a second apart. */
  predicate Bounded(ts: seq<int>) {
    |ts| <= MAX_SENDS && Spaced(ts)
  }

  predicate BroadcastsBounded(s: State, b: nat) {
    && Bounded(Times(s.log, b))
    && (b >= |s.deferred| ==> Times(s.log, b) == [])
    && (forall i :: 0 <= i < |s.requests| && Born(s.requests[i]) == b ==> Tracks(s.requests[i], Times(s.log, b)))
  }

  lemma {:induction false} TimesConcat(a: seq<Call>, c: seq<Call>, b: nat)
    ensures Times(a + c, b) == Times(a, b) + Times(c, b)
  {
    if a == [] {
      assert a + c == c;
    } else {
      assert (a + c)[1..] == a[1..] + c;
      TimesConcat(a[1..], c, b);
    }
  }

  lemma {:induction false} NoBroadcasts(log: seq<Call>, b: nat)
    requires forall i :: 0 <= i < |log| ==> !log[i].cause.Broadcast?
    ensures Times(log, b) == []
  {
    if log != [] {
      assert forall i :: 0 <= i < |log[1..]| ==> log[1..][i] == log[i + 1];
      NoBroadcasts(log[1..], b);
    }
  }

  lemma {:induction false} UnreachablesAreNotBroadcasts(cfg: Config, ws: seq<Waiting>, b: nat)
    ensures Times(Unreachables(cfg, ws), b) == []
  {
    hide Unreachable3, Passes;
    if ws != [] {
      UnreachablesAreNotBroadcasts(cfg, ws[1..], b);
      assert Unreachables(cfg, ws)[1..] == Unreachables(cfg, ws[1..]);
    }
  }

  lemma {:induction false} ReleasesAreNotBroadcasts(cfg: Config, ws: seq<Waiting>, dst: Mac, src: Mac, ip: Ip, b: nat)
    ensures Times(Releases(cfg, ws, dst, src, ip), b) == []
  {
    hide Readdress, Passes;
    if ws != [] {
      ReleasesAreNotBroadcasts(cfg, ws[1..], dst, src, ip, b);
      assert Releases(cfg, ws, dst, src, ip)[1..] == Releases(cfg, ws[1..], dst, src, ip);
    }
  }

  /** What handling broadcasts, and what it leaves, for the frame that created the request and for any other. */
  lemma HandleTimes(cfg: Config, r: Request, now: int, b: nat)
    ensures Times(Sent(cfg, r, now), b) == if Due(r, now) && r.timesSent < MAX_SENDS && Born(r) == b then [now] else []
    ensures forall i :: 0 <= i < |Kept(r, now)| ==> Kept(r, now)[i].waiting == r.waiting
  {
    hide Unreachables, WhoHas, Passes;
    UnreachablesAreNotBroadcasts(cfg, r.waiting, b);
    var c := Rebroadcast(cfg, r, now);
    assert [c][1..] == [];
    assert Times([], b) == [];
  }

  lemma HandleBounded(cfg: Config, s: State, k: nat, now: int, b: nat)
    requires k < |s.requests| && Births(s) && BroadcastsBounded(s, b)
    ensures var t := HandleRequest(cfg, s, k, now); Births(t) && BroadcastsBounded(t, b)
  {
    hide Sent, Times, BornFirst, Born;
    var r, t := s.requests[k], HandleRequest(cfg, s, k, now);
    TimesConcat(s.log, Sent(cfg, r, now), b);
    HandleTimes(cfg, r, now, b);
    SameBirth(r, now);
    var n := |Kept(r, now)|;
    forall i | 0 <= i < |t.requests|
      ensures BornFirst(t.requests[i]) && Born(t.requests[i]) < |s.deferred|
      ensures Born(t.requests[i]) == b ==> Tracks(t.requests[i], Times(t.log, b))
      ensures var j := if i < k then i else if i < k + n then k else i - n + 1;
              Born(t.requests[i]) == Born(s.requests[j])
    {
      if k <= i < k + n {
        assert t.requests[i] == Kept(r, now)[0];
      }
    }
  }

  lemma SameBirth(r: Request, now: int)
    ensures forall i :: 0 <= i < |Kept(r, now)| ==>
      Born(Kept(r, now)[i]) == Born(r) && (BornFirst(r) ==> BornFirst(Kept(r, now)[i]))
    ensures |Kept(r, now)| <= 1
  {}

  lemma {:induction false} SweepBounded(cfg: Config, s: State, k: nat, now: int, b: nat)
    requires k <= |s.requests| && Births(s) && BroadcastsBounded(s, b)
    ensures var t := HandleFrom(cfg, s, k, now); Births(t) && BroadcastsBounded(t, b)
    decreases |s.requests| - k
  {
    hide HandleRequest, Kept, Births, BroadcastsBounded;
    if k < |s.requests| {
      HandleShape(cfg, s, k, now);
      HandleBounded(cfg, s, k, now, b);
      SweepBounded(cfg, HandleRequest(cfg, s, k, now), k + |Kept(s.requests[k], now)|, now, b);
    }
  }

  lemma HandleShape(cfg: Config, s: State, k: nat, now: int)
    requires k < |s.requests|
    ensures |HandleRequest(cfg, s, k, now).requests| == |s.requests| - 1 + |Kept(s.requests[k], now)|
  {}

  lemma JoinKeepsBirth(r: Request, w: Waiting)
    requires BornFirst(r) && Born(r) <= w.id
    ensures var t := r.(waiting := [w] + r.waiting); BornFirst(t) && Born(t) == Born(r)
  {
    var t := r.(waiting := [w] + r.waiting);
    assert t.waiting[|t.waiting| - 1] == r.waiting[|r.waiting| - 1];
    assert forall i :: 0 < i < |t.waiting| ==> t.waiting[i] == r.waiting[i - 1];
  }

  lemma EnqueueBounded(s: State, d: Deferral, b: nat)
    requires Births(s) && BroadcastsBounded(s, b)
    ensures
      var w := Waiting(|s.deferred|, d.frame, d.iface);
      var t := s.(requests := Enqueue(s.requests, d.nextHop, w), deferred := s.deferred + [d]);
      Births(t) && BroadcastsBounded(t, b)
  {
    hide Times, BornFirst, Born, Position, Bounded;
    var w := Waiting(|s.deferred|, d.frame, d.iface);
    var k := Position(s.requests, d.nextHop);
    var requests := Enqueue(s.requests, d.nextHop, w);
    if k < |s.requests| {
      JoinKeepsBirth(s.requests[k], w);
      assert forall i :: 0 <= i < |requests| ==> Born(requests[i]) == Born(s.requests[i]) && BornFirst(requests[i]);
    } else {
      NewBirth(d.nextHop, w);
      assert forall i :: 0 < i < |requests| ==> requests[i] == s.requests[i - 1];
    }
  }

  lemma NewBirth(ip: Ip, w: Waiting)
    ensures BornFirst(Request(ip, 0, 0, [w])) && Born(Request(ip, 0, 0, [w])) == w.id
  {}

  lemma DeferBounded(cfg: Config, s: State, d: Deferral, now: int, b: nat)
    requires Births(s) && BroadcastsBounded(s, b)
    ensures var t := Defer(cfg, s, d, now); Births(t) && BroadcastsBounded(t, b)
  {
    hide HandleRequest, Enqueue, Births, BroadcastsBounded;
    var w := Waiting(|s.deferred|, d.frame, d.iface);
    EnqueueBounded(s, d, b);
    EnqueuePosition(s.requests, d.nextHop, w);
    var s1 := s.(requests := Enqueue(s.requests, d.nextHop, w), deferred := s.deferred + [d]);
    HandleBounded(cfg, s1, Position(s1.requests, d.nextHop), now, b);
  }

  lemma ReplyBounded(cfg: Config, s: State, mac: Mac, ip: Ip, src: Mac, now: int, b: nat)
    requires Births(s) && BroadcastsBounded(s, b)
    ensures var t := ReceiveReply(cfg, s, mac, ip, src, now); Births(t) && BroadcastsBounded(t, b)
  {
    hide Times, BornFirst, Born, Insert, Releases, Bounded, Tracks;
    var k := Position(s.requests, ip);
    if k < |s.requests| {
      var ws := s.requests[k].waiting;
      TimesConcat(s.log, Releases(cfg, ws, mac, src, ip), b);
      ReleasesAreNotBroadcasts(cfg, ws, mac, src, ip, b);
      assert Times(s.log, b) + [] == Times(s.log, b);
      var rest := Remove(s.requests, k);
      assert forall i :: 0 <= i < |rest| ==> rest[i] == s.requests[if i < k then i else i + 1];
    }
  }

  lemma SendBounded(cfg: Config, s: State, iface: Name, f: Frame, cause: Cause, b: nat)
    requires Births(s) && BroadcastsBounded(s, b) && !cause.Broadcast?
    ensures var t := Send(cfg, s, iface, f, cause); Births(t) && BroadcastsBounded(t, b)
  {
    hide BornFirst, Born, Passes, Bounded, Tracks;
    var c := Sending(cfg.ifs, iface, f, cause);
    TimesConcat(s.log, [c], b);
    NoBroadcasts([c], b);
    assert Times(s.log, b) + [] == Times(s.log, b);
  }

  lemma ApplyBounded(cfg: Config, s: State, a: Action, b: nat)
    requires Founded(s.entries, a) && Births(s) && BroadcastsBounded(s, b)
    ensures var t := Apply(cfg, s, a); Births(t) && BroadcastsBounded(t, b)
  {
    match a
    case Nothing =>
    case Overreads =>
    case SendNow(iface, f, cause) =>
      hide Births, BroadcastsBounded, Send;
      SendBounded(cfg, s, iface, f, cause, b);
    case PutAside(d, now) =>
      hide Births, BroadcastsBounded, Defer;
      DeferBounded(cfg, s, d, now, b);
    case Resolve(mac, ip, src, now) =>
      hide Births, BroadcastsBounded, ReceiveReply;
      ReplyBounded(cfg, s, mac, ip, src, now, b);
    case Sweep(now) =>
      hide Births, BroadcastsBounded, TimeoutPass;
      SweepStepBounded(cfg, s, now, b);
  }

  lemma SweepStepBounded(cfg: Config, s: State, now: int, b: nat)
    requires Births(s) && BroadcastsBounded(s, b)
    ensures var t := TimeoutPass(cfg, s, now); Births(t) && BroadcastsBounded(t, b)
  {
    hide Times, BornFirst, Born, SweptQueue, SweptCalls, Expire, Bounded, Tracks, HandleFrom;
    SweepBounded(cfg, s, 0, now, b);
    SweepIsHandles(cfg, s, 0, now);
    assert s.requests[0..] == s.requests;
    var t := HandleFrom(cfg, s, 0, now);
    assert t.requests == SweptQueue(s.requests, now);
  }

  /** Over every run, each request is broadcast at most five times, and the
      broadcasts of one request are at least a second apart. */
  lemma {:induction false} RunIsBounded(cfg: Config, s: State, evs: seq<Event>, b: nat)
    requires Initial(s) || (Births(s) && BroadcastsBounded(s, b))
    requires AllProper(cfg, evs)
    ensures var t := Run(cfg, s, evs); Births(t) && BroadcastsBounded(t, b)
  {
    hide Apply, Decide, Proper, Founded, Births, BroadcastsBounded;
    if evs == [] {
      if Initial(s) {
        InitiallyBounded(s, b);
      }
    } else {
      var before, e := Run(cfg, s, evs[..|evs| - 1]), evs[|evs| - 1];
      RunIsBounded(cfg, s, evs[..|evs| - 1], b);
      DecisionIsFounded(cfg, before, e);
      ApplyBounded(cfg, before, Decide(cfg, before, e), b);
    }
  }

  lemma {:induction false} SpacedSum(ts: seq<int>, i: nat)
    requires Spaced(ts) && i < |ts|
    ensures ts[i] - ts[0] >= i
  {
    if i > 0 {
      SpacedSum(ts, i - 1);
    }
  }

  /** In a reachable state a request about to be given up was broadcast exactly five
      times, the first of them at least five seconds ago. */
  lemma GivenUpAfterFive(cfg: Config, s: State, evs: seq<Event>, i: nat, now: int)
    requires Initial(s) && AllProper(cfg, evs)
    requires i < |Run(cfg, s, evs).requests| && GivenUp(Run(cfg, s, evs).requests[i], now)
    ensures
      var t := Run(cfg, s, evs);
      var ts := Times(t.log, Born(t.requests[i]));
      |ts| == MAX_SENDS && now - ts[0] >= MAX_SENDS
  {
    hide Run, Times, Born, BornFirst;
    var t := Run(cfg, s, evs);
    var b := Born(t.requests[i]);
    RunIsBounded(cfg, s, evs, b);
    assert Tracks(t.requests[i], Times(t.log, b));
    SpacedSum(Times(t.log, b), MAX_SENDS - 1);
  }

  lemma InitiallyBounded(s: State, b: nat)
    requires Initial(s)
    ensures Births(s) && BroadcastsBounded(s, b)
  {}

  // ---------- six sweeps settle everything ----------

  /** The request created by frame `b` is still pending. */
  predicate Live(s: State, b: nat) {
    exists i :: 0 <= i < |s.requests| && Born(s.requests[i]) == b
  }

  /** Were it still pending, that request would have been sent `n` times, the last
      time no later than `t`, or more often, and in no case after `clock`. */
  predicate Advanced(requests: seq<Request>, b: nat, n: nat, t: int, clock: int) {
    forall i :: 0 <= i < |requests| && Born(requests[i]) == b ==> Ahead(requests[i], n, t, clock)
  }

  predicate Ahead(r: Request, n: nat, t: int, clock: int) {
    r.sent <= clock && r.timesSent >= n && (r.timesSent > n || r.sent <= t)
  }

  lemma KeptStaysAhead(r: Request, n: nat, t: int, clock: int, now: int, i: nat)
    requires Ahead(r, n, t, clock) && clock <= now && i < |Kept(r, now)|
    ensures Ahead(Kept(r, now)[i], n, t, now)
    ensures t < now ==> Ahead(Kept(r, now)[i], n + 1, now, now)
  {}

  lemma {:induction false} SweepAdvances(requests: seq<Request>, b: nat, n: nat, t: int, clock: int, now: int)
    requires Advanced(requests, b, n, t, clock)
    requires t < now && clock <= now
    ensures Advanced(SweptQueue(requests, now), b, n + 1, now, now)
  {
    hide Born, Ahead, Kept;
    if requests != [] {
      var r := requests[0];
      assert forall i :: 0 <= i < |requests[1..]| ==> requests[1..][i] == requests[i + 1];
      SweepAdvances(requests[1..], b, n, t, clock, now);
      SameBirth(r, now);
      var kept, rest := Kept(r, now), SweptQueue(requests[1..], now);
      var q := SweptQueue(requests, now);
      forall i | 0 <= i < |q| && Born(q[i]) == b
        ensures Ahead(q[i], n + 1, now, now)
      {
        if i < |kept| {
          assert q[i] == kept[i] && Born(kept[i]) == Born(r);
          assert Ahead(requests[0], n, t, clock);
          KeptStaysAhead(r, n, t, clock, now, i);
          assert Ahead(kept[i], n + 1, now, now);
        } else {
          assert q[i] == rest[i - |kept|];
          assert Ahead(rest[i - |kept|], n + 1, now, now);
        }
      }
    }
  }

  lemma HandleKeepsAdvance(cfg: Config, s: State, k: nat, now: int, b: nat, n: nat, t: int, clock: int)
    requires k < |s.requests| && clock <= now && Advanced(s.requests, b, n, t, clock)
    ensures Advanced(HandleRequest(cfg, s, k, now).requests, b, n, t, now)
  {
    hide Sent, Born, Kept;
    var r, u := s.requests[k], HandleRequest(cfg, s, k, now);
    SameBirth(r, now);
    var m := |Kept(r, now)|;
    forall i | 0 <= i < |u.requests| && Born(u.requests[i]) == b
      ensures Ahead(u.requests[i], n, t, now)
    {
      if k <= i < k + m {
        assert u.requests[i] == Kept(r, now)[i - k];
        KeptStaysAhead(r, n, t, clock, now, i - k);
      } else {
        assert u.requests[i] == s.requests[if i < k then i else i - m + 1];
      }
    }
  }

  lemma DeferKeepsAdvance(cfg: Config, s: State, d: Deferral, now: int, b: nat, n: nat, t: int, clock: int)
    requires Births(s) && b < |s.deferred| && clock <= now && Advanced(s.requests, b, n, t, clock)
    ensures Advanced(Defer(cfg, s, d, now).requests, b, n, t, now)
  {
    var w := Waiting(|s.deferred|, d.frame, d.iface);
    var k, requests := Position(s.requests, d.nextHop), Enqueue(s.requests, d.nextHop, w);
    EnqueuePosition(s.requests, d.nextHop, w);
    hide Born, BornFirst, HandleRequest, Position;
    var s1 := s.(requests := requests, deferred := s.deferred + [d]);
    if k < |s.requests| {
      JoinKeepsBirth(s.requests[k], w);
      assert forall i :: 0 <= i < |requests| ==> Born(requests[i]) == Born(s.requests[i]);
    } else {
      NewBirth(d.nextHop, w);
      assert forall i :: 0 < i < |requests| ==> requests[i] == s.requests[i - 1];
    }
    assert Advanced(s1.requests, b, n, t, clock);
    HandleKeepsAdvance(cfg, s1, Position(requests, d.nextHop), now, b, n, t, clock);
  }

  lemma ReplyKeepsAdvance(cfg: Config, s: State, mac: Mac, ip: Ip, src: Mac, now: int,
      b: nat, n: nat, t: int, clock: int)
    requires clock <= now && Advanced(s.requests, b, n, t, clock)
    ensures Advanced(ReceiveReply(cfg, s, mac, ip, src, now).requests, b, n, t, now)
  {
    hide Born, Insert, Releases;
    var k := Position(s.requests, ip);
    if k < |s.requests| {
      var rest := Remove(s.requests, k);
      assert forall i :: 0 <= i < |rest| ==> rest[i] == s.requests[if i < k then i else i + 1];
    }
  }

  /** A received frame costs a pending request nothing of what it has reached; a
      sweep later than its last send takes it one send further or removes it. */
  lemma ApplyAdvances(cfg: Config, s: State, a: Action, b: nat, n: nat, t: int, clock: int, now: int)
    requires Births(s) && b < |s.deferred| && Advanced(s.requests, b, n, t, clock) && clock <= now
    requires TakenAt(a, now) && (a.Sweep? ==> t < now)
    ensures Advanced(Apply(cfg, s, a).requests, b, if a.Sweep? then n + 1 else n, if a.Sweep? then now else t, now)
  {
    hide Births, Defer, ReceiveReply, SweptQueue, SweptCalls, Born;
    match a
    case Nothing =>
    case Overreads =>
    case SendNow(iface, f, cause) =>
    case PutAside(d, _) => DeferKeepsAdvance(cfg, s, d, now, b, n, t, clock);
    case Resolve(mac, ip, src, _) => ReplyKeepsAdvance(cfg, s, mac, ip, src, now, b, n, t, clock);
    case Sweep(_) => SweepAdvances(s.requests, b, n, t, clock, now);
  }

  /** No pending request was last sent after `clock`. */
  predicate SentBy(requests: seq<Request>, clock: int) {
    forall i :: 0 <= i < |requests| ==> requests[i].sent <= clock
  }

  lemma {:induction false} SweepSentBy(requests: seq<Request>, clock: int, now: int)
    requires SentBy(requests, clock) && clock <= now
    ensures SentBy(SweptQueue(requests, now), now)
  {
    if requests != [] {
      assert forall i :: 0 <= i < |requests[1..]| ==> requests[1..][i] == requests[i + 1];
      SweepSentBy(requests[1..], clock, now);
    }
  }

  lemma DeferSentBy(cfg: Config, s: State, d: Deferral, clock: int, now: int)
    requires SentBy(s.requests, clock) && clock <= now && now >= 1
    ensures SentBy(Defer(cfg, s, d, now).requests, now)
  {
    hide Position, Sent, Kept;
    var w := Waiting(|s.deferred|, d.frame, d.iface);
    var requests := Enqueue(s.requests, d.nextHop, w);
    assert forall i :: 0 <= i < |requests| ==> requests[i].sent <= now;
    EnqueuePosition(s.requests, d.nextHop, w);
    KeptSentBy(requests[Position(requests, d.nextHop)], now);
  }

  lemma KeptSentBy(r: Request, now: int)
    requires r.sent <= now
    ensures SentBy(Kept(r, now), now)
  {}

  /** The clock reading an action was taken at. */
  predicate TakenAt(a: Action, now: int) {
    match a
    case PutAside(_, at) => at == now
    case Resolve(_, _, _, at) => at == now
    case Sweep(at) => at == now
    case _ => true
  }

  lemma DecisionIsTakenNow(cfg: Config, s: State, e: Event)
    requires Proper(cfg, e)
    ensures TakenAt(Decide(cfg, s, e), e.now) && (Decide(cfg, s, e).Sweep? <==> e.Tick?)
  {
    hide Classify, Lookup, Receivable, EtherType, Readdress, IsAt, Operation, Named;
  }

  lemma ApplySentBy(cfg: Config, s: State, a: Action, clock: int, now: int)
    requires SentBy(s.requests, clock) && clock <= now && now >= 1 && TakenAt(a, now)
    ensures SentBy(Apply(cfg, s, a).requests, now)
  {
    hide Defer, Position, Releases, Insert, SweptQueue, SweptCalls, Expire;
    match a
    case Nothing =>
    case Overreads =>
    case SendNow(iface, f, cause) =>
    case PutAside(d, _) => DeferSentBy(cfg, s, d, clock, now);
    case Resolve(mac, ip, src, _) =>
    case Sweep(_) => SweepSentBy(s.requests, clock, now);
  }

  // ---------- runs under a clock ----------

  /** The clock after the events, `start` before the first. */
  function ClockAfter(evs: seq<Event>, start: int): int {
    if evs == [] then start else evs[|evs| - 1].now
  }

  function Sweeps(evs: seq<Event>): nat {
    if evs == [] then 0
    else Sweeps(evs[..|evs| - 1]) + if evs[|evs| - 1].Tick? then 1 else 0
  }

  /** The time of the last sweep, or one second before `start`. */
  function LastSweep(evs: seq<Event>, start: int): int {
    if evs == [] then start - 1
    else if evs[|evs| - 1].Tick? then evs[|evs| - 1].now
    else LastSweep(evs[..|evs| - 1], start)
  }

  /** The clock never runs back, and sweeps come at strictly increasing seconds. */
  predicate Clocked(evs: seq<Event>, start: int) {
    evs == [] ||
    var init, e := evs[..|evs| - 1], evs[|evs| - 1];
    Clocked(init, start) && e.now >= ClockAfter(init, start) && (e.Tick? ==> e.now > LastSweep(init, start))
  }

  lemma {:induction false} RunSentBy(cfg: Config, s: State, evs: seq<Event>, start: int)
    requires Initial(s) || SentBy(s.requests, start)
    requires AllProper(cfg, evs) && AfterEpoch(evs) && Clocked(evs, start)
    ensures SentBy(Run(cfg, s, evs).requests, ClockAfter(evs, start))
  {
    hide Apply, Decide, Proper, SentBy, TakenAt;
    if evs == [] {
      NothingSent(start);
    } else {
      var before, e := Run(cfg, s, evs[..|evs| - 1]), evs[|evs| - 1];
      RunSentBy(cfg, s, evs[..|evs| - 1], start);
      DecisionIsTakenNow(cfg, before, e);
      ApplySentBy(cfg, before, Decide(cfg, before, e), ClockAfter(evs[..|evs| - 1], start), e.now);
    }
  }

  lemma NothingSent(start: int)
    ensures SentBy([], start)
  {}

  /** History is only ever added to. */
  lemma HistoryGrows(cfg: Config, s: State, a: Action)
    ensures s.deferred <= Apply(cfg, s, a).deferred && s.log <= Apply(cfg, s, a).log
  {
    hide Enqueue, HandleRequest, SweptQueue, SweptCalls, Releases, Insert, Expire;
    if a.PutAside? {
      HandleAddsNothing(cfg, s, a.deferral, a.now);
    }
  }

  lemma HandleAddsNothing(cfg: Config, s: State, d: Deferral, now: int)
    ensures Defer(cfg, s, d, now).deferred == s.deferred + [d] && s.log <= Defer(cfg, s, d, now).log
  {
    hide Enqueue, Kept, Sent, Position;
  }

  /** `k` sweeps after a request is pending it has been sent `k` times, or is gone. */
  lemma {:induction false} RunAdvances(cfg: Config, s: State, evs: seq<Event>, start: int, b: nat)
    requires Invariant(s) && Births(s) && BroadcastsBounded(s, b) && SentBy(s.requests, start) && b < |s.deferred|
    requires AllProper(cfg, evs) && AfterEpoch(evs) && Clocked(evs, start)
    ensures var t := Run(cfg, s, evs);
      s.deferred <= t.deferred &&
      Advanced(t.requests, b, Sweeps(evs), LastSweep(evs, start), ClockAfter(evs, start))
  {
    hide Apply, Decide, Proper, Founded, Births, BroadcastsBounded, TakenAt, Ahead;
    if evs == [] {
      StartsAhead(s, b, start);
    } else {
      hide Invariant, SentBy, Advanced;
      var init, e := evs[..|evs| - 1], evs[|evs| - 1];
      var before := Run(cfg, s, init);
      RunAdvances(cfg, s, init, start, b);
      RunIsBounded(cfg, s, init, b);
      var a := Decide(cfg, before, e);
      DecisionIsTakenNow(cfg, before, e);
      HistoryGrows(cfg, before, a);
      StepAdvances(cfg, before, a, b, Sweeps(init), LastSweep(init, start), ClockAfter(init, start), e.now);
    }
  }

  lemma StartsAhead(s: State, b: nat, start: int)
    requires Invariant(s) && SentBy(s.requests, start)
    ensures Advanced(s.requests, b, 0, start - 1, start)
  {}

  lemma StepAdvances(cfg: Config, s: State, a: Action, b: nat, n: nat, t: int, clock: int, now: int)
    requires Births(s) && b < |s.deferred| && Advanced(s.requests, b, n, t, clock) && clock <= now
    requires TakenAt(a, now) && (a.Sweep? ==> t < now)
    ensures Advanced(Apply(cfg, s, a).requests, b, if a.Sweep? then n + 1 else n, if a.Sweep? then now else t, now)
  {
    hide Births, Advanced, Apply;
    ApplyAdvances(cfg, s, a, b, n, t, clock, now);
  }

  /** A frame counted as waiting stands in some request, no older than the frame that created it. */
  lemma {:induction false} WaitingStands(requests: seq<Request>, id: nat) returns (k: nat)
    requires CountWaiting(requests, id) > 0
    requires forall i :: 0 <= i < |requests| ==> BornFirst(requests[i])
    ensures k < |requests| && Born(requests[k]) <= id
  {
    if CountIn(requests[0].waiting, id) > 0 {
      var j := CountedStands(requests[0].waiting, id);
      assert BornFirst(requests[0]);
      k := 0;
    } else {
      assert forall i :: 0 <= i < |requests[1..]| ==> requests[1..][i] == requests[i + 1];
      k := WaitingStands(requests[1..], id);
      k := k + 1;
    }
  }

  lemma {:induction false} CountedStands(ws: seq<Waiting>, id: nat) returns (j: nat)
    requires CountIn(ws, id) > 0
    ensures j < |ws| && ws[j].id == id
  {
    if ws[0].id == id {
      j := 0;
    } else {
      j := CountedStands(ws[1..], id);
      j := j + 1;
    }
  }

  lemma SixSweepsAreEnough(s: State, b: nat, n: nat, t: int, clock: int)
    requires n >= 6 && Invariant(s) && Advanced(s.requests, b, n, t, clock)
    ensures !Live(s, b)
  {
    hide Lookup;
    forall i | 0 <= i < |s.requests|
      ensures Born(s.requests[i]) != b
    {
      assert GoodRequest(s.requests[i]);
    }
  }

  /** Whatever frames arrive in between, a frame put aside is released or answered,
      once, before the sixth sweep after it is over. */
  lemma SettledWithinSixSweeps(cfg: Config, s0: State, pre: seq<Event>, evs: seq<Event>, start: int, id: nat)
    requires Initial(s0) && AllProper(cfg, pre) && AfterEpoch(pre) && Clocked(pre, start)
    requires AllProper(cfg, evs) && AfterEpoch(evs) && Clocked(evs, ClockAfter(pre, start)) && Sweeps(evs) >= 6
    requires id < |Run(cfg, s0, pre).deferred|
    ensures var t := Run(cfg, Run(cfg, s0, pre), evs);
      CountWaiting(t.requests, id) == 0 && CountDone(t.log, id) == 1
  {
    hide Run, CountDone, CountWaiting, Clocked, AllProper, Invariant, Advanced, BroadcastsBounded,
         BornFirst, Born, SentBy, AfterEpoch;
    var clock := ClockAfter(pre, start);
    var s := Run(cfg, s0, pre);
    var t := Run(cfg, s, evs);
    RunKeepsInvariant(cfg, s0, pre);
    RunSentBy(cfg, s0, pre, start);
    RunKeepsInvariant(cfg, s, evs);
    InitiallyAccounted(s0, id);
    RunKeepsAccount(cfg, s0, pre, id);
    RunKeepsAccount(cfg, s, evs, id);
    RunIsBounded(cfg, s0, pre, id);
    RunIsBounded(cfg, s, evs, id);
    RunAdvances(cfg, s, evs, clock, id);
    if CountWaiting(t.requests, id) > 0 {
      var k := WaitingStands(t.requests, id);
      var b := Born(t.requests[k]);
      RunIsBounded(cfg, s0, pre, b);
      RunAdvances(cfg, s, evs, clock, b);
      SixSweepsAreEnough(t, b, Sweeps(evs), LastSweep(evs, clock), ClockAfter(evs, clock));
      assert false;
    }
  }
}
