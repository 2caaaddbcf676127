/** Where the entries of the ARP table come from, and how old they can be. */
module Freshness {
  import opened Network
  import opened Frames
  import opened RouterModel
  import opened Progress
  import opened Resolver

  /** The event is an ARP reply carrying exactly this mapping, at this time. */
  predicate IsReplyFor(e: Event, entry: Entry) {
    && e.Receive? && |e.frame| >= ARP_FRAME_LENGTH && EtherType(e.frame) == TYPE_ARP
    && Operation(e.frame) == ARP_REPLY
    && SenderMac(e.frame) == entry.mac && SenderIp(e.frame) == entry.ip && e.now == entry.added
  }

  predicate Answered(evs: seq<Event>, entry: Entry) {
    exists k :: 0 <= k < |evs| && IsReplyFor(evs[k], entry)
  }

  /** What an action does to the table: nothing, one new mapping in a free slot, or expiry. */
  lemma ApplyEntries(cfg: Config, s: State, a: Action)
    ensures Apply(cfg, s, a).entries ==
      match a
      case Resolve(mac, ip, _, now) => Insert(s.entries, mac, ip, now)
      case Sweep(now) => Expire(s.entries, now)
      case _ => s.entries
  {
    hide Insert, Expire, Enqueue, Kept, Sent, Position, Releases, SweptQueue, SweptCalls;
    if a.PutAside? {
      EnqueuePosition(s.requests, a.deferral.nextHop, Waiting(|s.deferred|, a.deferral.frame, a.deferral.iface));
    }
  }

  /** A table is resolved only by an ARP reply. */
  lemma ResolveIsReply(cfg: Config, s: State, e: Event)
    requires Proper(cfg, e) && Decide(cfg, s, e).Resolve?
    ensures var a := Decide(cfg, s, e); IsReplyFor(e, Entry(a.mac, a.ip, a.now, true))
  {
    hide Classify, Lookup, EtherType, Readdress, IsAt, Operation, Named;
  }

  predicate AllAnswered(evs: seq<Event>, entries: seq<Entry>) {
    forall i :: 0 <= i < |entries| && entries[i].valid ==> Answered(evs, entries[i])
  }

  lemma StillAnswered(evs: seq<Event>, e: Event, entry: Entry)
    requires Answered(evs, entry) || IsReplyFor(e, entry)
    ensures Answered(evs + [e], entry)
  {
    hide IsReplyFor;
    if Answered(evs, entry) {
      var k :| 0 <= k < |evs| && IsReplyFor(evs[k], entry);
      assert IsReplyFor((evs + [e])[k], entry);
    } else {
      assert IsReplyFor((evs + [e])[|evs|], entry);
    }
  }

  /** What a step makes of a slot: a new mapping that repeats the event, or the slot
      as it was, though perhaps no longer valid. */
  lemma StepOnSlot(cfg: Config, s: State, e: Event, i: nat)
    requires Proper(cfg, e) && i < |s.entries|
    ensures var t := Step(cfg, s, e).entries;
      |t| == |s.entries| && (t[i].valid ==>
        || (t[i] == s.entries[i] && (e.Tick? ==> e.now - t[i].added <= CACHE_TIMEOUT))
        || IsReplyFor(e, t[i]))
  {
    hide Apply, Decide, Insert, IsReplyFor, Proper;
    var a := Decide(cfg, s, e);
    ApplyEntries(cfg, s, a);
    DecisionIsTakenNow(cfg, s, e);
    if a.Resolve? {
      ResolveIsReply(cfg, s, e);
      InsertTakesFirstFree(s.entries, a.mac, a.ip, a.now);
    }
  }

  /** In every reachable state each valid entry repeats some ARP reply of the run,
      hardware address, address and time. */
  lemma {:induction false} RunIsAnswered(cfg: Config, s: State, evs: seq<Event>)
    requires Initial(s) && AllProper(cfg, evs)
    ensures AllAnswered(evs, Run(cfg, s, evs).entries)
  {
    hide Step, Proper, Answered, IsReplyFor;
    if evs != [] {
      var init, e := evs[..|evs| - 1], evs[|evs| - 1];
      var before := Run(cfg, s, init);
      RunIsAnswered(cfg, s, init);
      assert evs == init + [e];
      forall i | 0 <= i < |Run(cfg, s, evs).entries| && Run(cfg, s, evs).entries[i].valid
        ensures Answered(evs, Run(cfg, s, evs).entries[i])
      {
        SameSize(cfg, before, e);
        StepOnSlot(cfg, before, e, i);
        StillAnswered(init, e, Run(cfg, s, evs).entries[i]);
      }
    }
  }

  lemma SameSize(cfg: Config, s: State, e: Event)
    requires Proper(cfg, e)
    ensures |Step(cfg, s, e).entries| == |s.entries|
  {
    hide Apply, Decide, Insert, Proper;
    ApplyEntries(cfg, s, Decide(cfg, s, e));
  }

  /** No valid entry was older than the timeout at time `last`. */
  predicate NoneStale(entries: seq<Entry>, last: int) {
    forall i :: 0 <= i < |entries| && entries[i].valid ==> last - entries[i].added <= CACHE_TIMEOUT
  }

  lemma {:induction false} LastSweepIsPast(evs: seq<Event>, start: int)
    requires Clocked(evs, start)
    ensures LastSweep(evs, start) <= ClockAfter(evs, start)
  {
    if evs != [] {
      LastSweepIsPast(evs[..|evs| - 1], start);
    }
  }

  /** In every reachable state each valid entry was at most 15 seconds old at the
      last sweep, so right after a sweep none is older. */
  lemma {:induction false} RunIsFresh(cfg: Config, s: State, evs: seq<Event>, start: int)
    requires Initial(s) && AllProper(cfg, evs) && Clocked(evs, start)
    ensures NoneStale(Run(cfg, s, evs).entries, LastSweep(evs, start))
  {
    hide Step, Proper;
    if evs != [] {
      var init, e := evs[..|evs| - 1], evs[|evs| - 1];
      var before := Run(cfg, s, init);
      RunIsFresh(cfg, s, init, start);
      LastSweepIsPast(init, start);
      forall i | 0 <= i < |Run(cfg, s, evs).entries| && Run(cfg, s, evs).entries[i].valid
        ensures LastSweep(evs, start) - Run(cfg, s, evs).entries[i].added <= CACHE_TIMEOUT
      {
        SameSize(cfg, before, e);
        StepOnSlot(cfg, before, e, i);
      }
    }
  }
}
