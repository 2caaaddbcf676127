/** Conservation of deferred frames: over every run, each frame put aside is
    waiting, released or answered as unreachable, exactly once. */
module Conservation {
  import opened Bytes
  import opened Network
  import opened Frames
  import opened RouterModel

  // ---------- counting ----------

  function CountIn(ws: seq<Waiting>, id: nat): nat {
    if ws == [] then 0 else (if ws[0].id == id then 1 else 0) + CountIn(ws[1..], id)
  }

  /** How often the deferred frame `id` stands in the queue. */
  function CountWaiting(requests: seq<Request>, id: nat): nat {
    if requests == [] then 0 else CountIn(requests[0].waiting, id) + CountWaiting(requests[1..], id)
  }

  /** How often it was handed to `sr_send_packet` by an ARP reply. */
  function CountReleased(log: seq<Call>, id: nat): nat {
    if log == [] then 0
    else (if log[0].cause.Released? && log[0].cause.id == id then 1 else 0) + CountReleased(log[1..], id)
  }

  /** How often it was answered with a host-unreachable message. */
  function CountAnswered(log: seq<Call>, id: nat): nat {
    if log == [] then 0
    else (if log[0].cause.Unreachable? && log[0].cause.id == id then 1 else 0) + CountAnswered(log[1..], id)
  }

  /** How often it was written to the wire on its release. */
  function CountWritten(log: seq<Call>, id: nat): nat {
    if log == [] then 0
    else
      (if log[0].cause.Released? && log[0].cause.id == id && log[0].written then 1 else 0)
      + CountWritten(log[1..], id)
  }

  function CountDone(log: seq<Call>, id: nat): nat {
    CountReleased(log, id) + CountAnswered(log, id)
  }

  lemma {:induction false} CountWaitingConcat(a: seq<Request>, b: seq<Request>, id: nat)
    ensures CountWaiting(a + b, id) == CountWaiting(a, id) + CountWaiting(b, id)
  {
    if a == [] {
      assert a + b == b;
    } else {
      assert (a + b)[1..] == a[1..] + b;
      CountWaitingConcat(a[1..], b, id);
    }
  }

  lemma {:induction false} CountDoneConcat(a: seq<Call>, b: seq<Call>, id: nat)
    ensures CountReleased(a + b, id) == CountReleased(a, id) + CountReleased(b, id)
    ensures CountAnswered(a + b, id) == CountAnswered(a, id) + CountAnswered(b, id)
  {
    if a == [] {
      assert a + b == b;
    } else {
      assert (a + b)[1..] == a[1..] + b;
      CountDoneConcat(a[1..], b, id);
    }
  }

  lemma {:induction false} CountWrittenConcat(a: seq<Call>, b: seq<Call>, id: nat)
    ensures CountWritten(a + b, id) == CountWritten(a, id) + CountWritten(b, id)
  {
    if a == [] {
      assert a + b == b;
    } else {
      assert (a + b)[1..] == a[1..] + b;
      CountWrittenConcat(a[1..], b, id);
    }
  }

  lemma {:induction false} WrittenIsReleased(log: seq<Call>, id: nat)
    ensures CountWritten(log, id) <= CountReleased(log, id)
  {
    if log != [] {
      WrittenIsReleased(log[1..], id);
    }
  }

  /** A queue, split around position `k`. */
  lemma CountWaitingSplit(requests: seq<Request>, k: nat, id: nat)
    requires k < |requests|
    ensures CountWaiting(requests, id) ==
            CountWaiting(requests[..k], id) + CountIn(requests[k].waiting, id) + CountWaiting(requests[k + 1..], id)
  {
    assert requests == requests[..k] + requests[k..];
    CountWaitingConcat(requests[..k], requests[k..], id);
    assert requests[k..][1..] == requests[k + 1..];
  }

  lemma CountWaitingReplace(requests: seq<Request>, k: nat, mid: seq<Request>, id: nat)
    requires k < |requests|
    ensures CountWaiting(requests[..k] + mid + requests[k + 1..], id) + CountIn(requests[k].waiting, id)
            == CountWaiting(requests, id) + CountWaiting(mid, id)
  {
    CountWaitingSplit(requests, k, id);
    CountWaitingConcat(requests[..k] + mid, requests[k + 1..], id);
    CountWaitingConcat(requests[..k], mid, id);
  }

  // ---------- what each operation does to the counts ----------

  lemma {:induction false} UnreachablesCount(cfg: Config, ws: seq<Waiting>, id: nat)
    ensures CountReleased(Unreachables(cfg, ws), id) == 0
    ensures CountAnswered(Unreachables(cfg, ws), id) == CountIn(ws, id)
  {
    hide Unreachable3, Passes, Named;
    if ws != [] {
      UnreachablesCount(cfg, ws[1..], id);
      assert Unreachables(cfg, ws)[1..] == Unreachables(cfg, ws[1..]);
    }
  }

  lemma {:induction false} ReleasesCount(cfg: Config, ws: seq<Waiting>, dst: Mac, src: Mac, ip: Ip, id: nat)
    ensures CountReleased(Releases(cfg, ws, dst, src, ip), id) == CountIn(ws, id)
    ensures CountAnswered(Releases(cfg, ws, dst, src, ip), id) == 0
  {
    hide Readdress, Passes;
    if ws != [] {
      ReleasesCount(cfg, ws[1..], dst, src, ip, id);
      assert Releases(cfg, ws, dst, src, ip)[1..] == Releases(cfg, ws[1..], dst, src, ip);
    }
  }

  lemma SingleCall(c: Call, id: nat)
    requires !c.cause.Released? && !c.cause.Unreachable?
    ensures CountReleased([c], id) == CountAnswered([c], id) == 0
  {
    assert [c][1..] == [];
  }

  lemma SingleRequest(r: Request, id: nat)
    ensures CountWaiting([r], id) == CountIn(r.waiting, id)
  {
    assert [r][1..] == [];
  }

  lemma NothingWaits(id: nat)
    ensures CountWaiting([], id) == 0
  {}

  lemma NothingDone(id: nat)
    ensures CountReleased([], id) == CountAnswered([], id) == 0
  {}

  /** Handling a request loses none of its frames and duplicates none. */
  lemma HandleCount(cfg: Config, r: Request, now: int, id: nat)
    ensures CountWaiting(Kept(r, now), id) + CountDone(Sent(cfg, r, now), id) == CountIn(r.waiting, id)
  {
    hide Unreachables, WhoHas, Passes, Named, CountReleased, CountAnswered, CountWaiting, CountIn;
    NothingWaits(id);
    NothingDone(id);
    SingleRequest(r, id);
    SingleRequest(r.(sent := now, timesSent := r.timesSent + 1), id);
    SingleCall(Rebroadcast(cfg, r, now), id);
    UnreachablesCount(cfg, r.waiting, id);
  }

  lemma {:induction false} SweepCount(cfg: Config, requests: seq<Request>, now: int, id: nat)
    ensures CountWaiting(SweptQueue(requests, now), id) + CountDone(SweptCalls(cfg, requests, now), id)
            == CountWaiting(requests, id)
  {
    hide Kept, Sent, CountReleased, CountAnswered;
    NothingDone(id);
    if requests != [] {
      SweepCount(cfg, requests[1..], now, id);
      HandleCount(cfg, requests[0], now, id);
      CountWaitingConcat(Kept(requests[0], now), SweptQueue(requests[1..], now), id);
      CountDoneConcat(Sent(cfg, requests[0], now), SweptCalls(cfg, requests[1..], now), id);
    }
  }

  lemma EnqueueCount(requests: seq<Request>, ip: Ip, w: Waiting, id: nat)
    ensures CountWaiting(Enqueue(requests, ip, w), id)
            == CountWaiting(requests, id) + if w.id == id then 1 else 0
  {
    var k := Position(requests, ip);
    if k < |requests| {
      var r := requests[k].(waiting := [w] + requests[k].waiting);
      assert Enqueue(requests, ip, w) == requests[..k] + [r] + requests[k + 1..];
      CountWaitingReplace(requests, k, [r], id);
      SingleRequest(r, id);
      assert r.waiting[1..] == requests[k].waiting;
    } else {
      var r := Request(ip, 0, 0, [w]);
      CountWaitingConcat([r], requests, id);
      SingleRequest(r, id);
      assert r.waiting[1..] == [];
    }
  }

  // ---------- the law ----------

  /** The frame is in exactly one place if it was deferred, and otherwise in none. */
  predicate Accounted(s: State, id: nat) {
    CountWaiting(s.requests, id) + CountDone(s.log, id) == if id < |s.deferred| then 1 else 0
  }

  lemma HandleRequestAccounted(cfg: Config, s: State, k: nat, now: int, id: nat)
    requires k < |s.requests| && Accounted(s, id)
    ensures Accounted(HandleRequest(cfg, s, k, now), id)
  {
    hide Kept, Sent, CountWaiting, CountReleased, CountAnswered, CountIn;
    var r := s.requests[k];
    CountWaitingReplace(s.requests, k, Kept(r, now), id);
    HandleCount(cfg, r, now, id);
    CountDoneConcat(s.log, Sent(cfg, r, now), id);
  }

  lemma DeferAccounted(cfg: Config, s: State, d: Deferral, now: int, id: nat)
    requires Accounted(s, id)
    ensures Accounted(Defer(cfg, s, d, now), id)
  {
    hide HandleRequest, Enqueue, CountWaiting, CountReleased, CountAnswered;
    var w := Waiting(|s.deferred|, d.frame, d.iface);
    EnqueueCount(s.requests, d.nextHop, w, id);
    EnqueuePosition(s.requests, d.nextHop, w);
    var s1 := s.(requests := Enqueue(s.requests, d.nextHop, w), deferred := s.deferred + [d]);
    HandleRequestAccounted(cfg, s1, Position(s1.requests, d.nextHop), now, id);
  }

  lemma SendAccounted(cfg: Config, s: State, iface: Name, f: Frame, cause: Cause, id: nat)
    requires Accounted(s, id) && !cause.Released? && !cause.Unreachable?
    ensures Accounted(Send(cfg, s, iface, f, cause), id)
  {
    hide Passes, CountWaiting, CountReleased, CountAnswered;
    var c := Sending(cfg.ifs, iface, f, cause);
    CountDoneConcat(s.log, [c], id);
    SingleCall(c, id);
  }

  lemma ReplyAccounted(cfg: Config, s: State, mac: Mac, ip: Ip, src: Mac, now: int, id: nat)
    requires Accounted(s, id)
    ensures Accounted(ReceiveReply(cfg, s, mac, ip, src, now), id)
  {
    hide CountWaiting, CountReleased, CountAnswered, CountIn, Releases, Insert;
    var k := Position(s.requests, ip);
    if k < |s.requests| {
      var ws := s.requests[k].waiting;
      assert Remove(s.requests, k) == s.requests[..k] + [] + s.requests[k + 1..];
      CountWaitingReplace(s.requests, k, [], id);
      NothingWaits(id);
      ReleasesCount(cfg, ws, mac, src, ip, id);
      CountDoneConcat(s.log, Releases(cfg, ws, mac, src, ip), id);
    }
  }

  lemma ApplyAccounted(cfg: Config, s: State, a: Action, id: nat)
    requires Founded(s.entries, a) && Accounted(s, id)
    ensures Accounted(Apply(cfg, s, a), id)
  {
    hide Accounted, Defer, Send, ReceiveReply, TimeoutPass, Lookup;
    match a
    case Nothing =>
    case Overreads =>
    case SendNow(iface, f, cause) => SendAccounted(cfg, s, iface, f, cause, id);
    case PutAside(d, now) => DeferAccounted(cfg, s, d, now, id);
    case Resolve(mac, ip, src, now) => ReplyAccounted(cfg, s, mac, ip, src, now, id);
    case Sweep(now) => TimeoutAccounted(cfg, s, now, id);
  }

  lemma TimeoutAccounted(cfg: Config, s: State, now: int, id: nat)
    requires Accounted(s, id)
    ensures Accounted(TimeoutPass(cfg, s, now), id)
  {
    hide Expire, SweptQueue, SweptCalls, CountWaiting, CountReleased, CountAnswered;
    SweepCount(cfg, s.requests, now, id);
    CountDoneConcat(s.log, SweptCalls(cfg, s.requests, now), id);
  }

  lemma InitiallyAccounted(s: State, id: nat)
    requires Initial(s)
    ensures Accounted(s, id)
  {}

  /** Each event keeps the account of each frame. */
  lemma {:induction false} RunKeepsAccount(cfg: Config, s: State, evs: seq<Event>, id: nat)
    requires Accounted(s, id) && AllProper(cfg, evs)
    ensures Accounted(Run(cfg, s, evs), id)
  {
    hide Apply, Decide, Proper, Founded, Accounted;
    if evs != [] {
      var before, e := Run(cfg, s, evs[..|evs| - 1]), evs[|evs| - 1];
      RunKeepsAccount(cfg, s, evs[..|evs| - 1], id);
      DecisionIsFounded(cfg, before, e);
      ApplyAccounted(cfg, before, Decide(cfg, before, e), id);
    }
  }

  /** The frame waits once, or was released once, or was answered once, and the other
      two counts are zero; of a number not yet given out there is no trace. */
  predicate InOnePlace(s: State, id: nat) {
    var waiting, released, answered := CountWaiting(s.requests, id), CountReleased(s.log, id), CountAnswered(s.log, id);
    if id < |s.deferred|
    then (waiting, released, answered) in {(1, 0, 0), (0, 1, 0), (0, 0, 1)}
    else waiting == released == answered == 0
  }

  /** Conservation over every run from start-up. */
  lemma RunConserves(cfg: Config, s: State, evs: seq<Event>, id: nat)
    requires Initial(s) && AllProper(cfg, evs)
    ensures InOnePlace(Run(cfg, s, evs), id)
  {
    hide Run, CountWaiting, CountReleased, CountAnswered;
    InitiallyAccounted(s, id);
    RunKeepsAccount(cfg, s, evs, id);
  }
}
