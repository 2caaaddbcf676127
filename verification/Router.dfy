/** The router on the heap. Each event handler takes exactly the step of
    `RouterModel` that its event stands for. */
module Router {
  import opened Bytes
  import opened Checksum
  import opened IpHeader
  import opened Network
  import opened Frames
  import opened RouterModel
  import opened Forwarding
  import opened Progress
  import opened Interfaces
  import opened RoutingTable
  import opened ArpCache
  import opened Buffers

  class Router {
    const ifs: IfList
    const table: RouteList
    const cache: Cache
    const order: ByteOrder
    ghost var deferred: seq<Deferral>
    ghost var log: seq<Call>

    /** The configuration the lists hold. */
    ghost function Cfg(): Config
      reads this, ifs, table
    {
      Config(ifs.model, table.model, order)
    }

    /** The state of the machine this router is in. */
    ghost function Abstract(): State
      reads this, cache, cache.entries
    {
      State(cache.entries[..], cache.pending, deferred, log)
    }

    /** The three structures are in order, the table was verified, and every waiting
        frame leaves by an interface that exists. */
    ghost predicate Valid()
      reads this, ifs, ifs.nodes, table, table.nodes, cache, cache.queue
    {
      && ifs.Valid() && table.Valid() && cache.Valid()
      && Consistent(Cfg()) && WiredQueue(Cfg(), cache.pending)
    }

    constructor (ifs: IfList, table: RouteList, order: ByteOrder)
      requires ifs.Valid() && table.Valid() && Consistent(Config(ifs.model, table.model, order))
      ensures Valid() && Abstract() == START && Cfg() == Config(ifs.model, table.model, order)
      ensures fresh(cache) && fresh(cache.entries) && cache.queue == []
    {
      this.ifs, this.table, this.order := ifs, table, order;
      cache := new Cache();
      deferred, log := [], [];
    }

    // ---------- sending ----------

    /** Writes the frame only if it carries the address of its interface. */
    method SendPacket(frame: Frame, iface: Name, ghost cause: Cause) returns (res: int)
      requires ifs.Valid()
      modifies this`log
      ensures log == old(log) + [Sending(ifs.model, iface, frame, cause)]
      ensures res == if Passes(ifs.model, iface, frame) then 0 else -1
    {
      log := log + [Sending(ifs.model, iface, frame, cause)];
      var i := ifs.GetInterface(iface);
      if i == null || frame[6..12] != i.addr {
        return -1;
      }
      return 0;
    }

    /** Fills in a broadcast request for `ip`. */
    method CreateArpRequest(ip: Ip, iface: Name) returns (frame: Frame)
      requires ifs.Valid() && FindName(ifs.model, iface).Some?
      ensures frame == WhoHas(ip, Named(ifs.model, iface))
    {
      var out := ifs.GetInterface(iface);
      frame := FillArpRequest(ip, Iface(out.name, out.addr, out.ip));
    }

    /** Fills in and sends an ICMP error for a waiting frame. */
    method SendIcmpT3(packet: LongFrame, iface: Name, kind: byte, code: byte, ghost cause: Cause)
      requires ifs.Valid() && FindName(ifs.model, iface).Some?
      modifies this`log
      ensures log == old(log)
        + [Sending(ifs.model, iface, Unreachable3(packet, Named(ifs.model, iface), kind, code), cause)]
    {
      hide IfList.Valid, BareHeader, Stamp, FindName, IpFrame, Passes;
      var out := ifs.GetInterface(iface);
      var buf := FillIcmp(packet[6..12], out.addr, BareHeader(out.ip, packet[26..30]),
                          [kind, code, 0, 0, 0, 0, 0, 0] + packet[14..42]);
      var _ := SendPacket(buf, iface, cause);
    }

    // ---------- pending requests ----------

    /** Answers every frame on a list with host unreachable. */
    method SendUnreachables(packets: Packet?, ghost ws: seq<Waiting>)
      requires ifs.Valid() && Holds(packets, ws) && Wired(Cfg(), ws)
      modifies this`log
      ensures log == old(log) + Unreachables(Cfg(), ws)
    {
      hide Unreachable3, Passes, FindName, Named, IfList.Valid;
      ghost var cfg := Cfg();
      var p := packets;
      ghost var done := 0;
      assert ws[0..] == ws;
      while p != null
        invariant ifs.Valid() && Cfg() == cfg && done <= |ws| && Holds(p, ws[done..])
        invariant log + Unreachables(cfg, ws[done..]) == old(log) + Unreachables(cfg, ws)
        decreases |ws| - done
      {
        ghost var rest, before := ws[done..], log;
        assert rest[0] == ws[done] && rest[1..] == ws[done + 1..];
        SendIcmpT3(p.buf, p.iface, 3, 1, Unreachable(p.id));
        ghost var c := Sending(ifs.model, p.iface, Unreachable3(p.buf, Named(ifs.model, p.iface), 3, 1),
          Unreachable(p.id));
        assert Unreachables(cfg, rest) == [c] + Unreachables(cfg, rest[1..]);
        assert log + Unreachables(cfg, rest[1..]) == before + Unreachables(cfg, rest);
        p, done := p.next, done + 1;
      }
      assert ws[done..] == [];
      assert log + [] == log;
    }

    /** Answers the waiting frames and frees the request. */
    method GiveUp(req: ArpReq, ghost k: nat)
      requires Valid() && k < |cache.queue| && req == cache.queue[k]
      modifies this`log, cache, cache.queue
      ensures ifs.Valid() && table.Valid() && cache.Valid() && Cfg() == old(Cfg())
      ensures k < |old(cache.pending)| && cache.pending == Remove(old(cache.pending), k)
      ensures cache.queue == Remove(old(cache.queue), k)
      ensures log == old(log) + Unreachables(Cfg(), old(cache.pending)[k].waiting)
      ensures cache.freed == old(cache.freed) + {req}
    {
      hide Cache.Valid, IfList.Valid, RouteList.Valid, Unreachables, Consistent, Wired, Holds;
      cache.NodeFacts(k);
      ghost var ws := cache.pending[k].waiting;
      SendUnreachables(req.packets, ws);
      ghost var at := cache.Destroy(req, ws);
    }

    /** Broadcasts the request once more. */
    method Resend(req: ArpReq, ghost k: nat, now: int)
      requires Valid() && k < |cache.queue| && req == cache.queue[k]
      modifies this`log, cache`pending, req`sent, req`timesSent
      ensures ifs.Valid() && table.Valid() && cache.Valid() && Cfg() == old(Cfg())
      ensures k < |old(cache.pending)|
      ensures var r := old(cache.pending)[k];
        cache.pending == old(cache.pending)[k := r.(sent := now, timesSent := r.timesSent + 1)] &&
        log == old(log) + [Rebroadcast(Cfg(), r, now)]
    {
      hide Cache.Valid, IfList.Valid, RouteList.Valid, Consistent, WhoHas, Passes, FindName, Named;
      cache.NodeFacts(k);
      var frame := CreateArpRequest(req.ip, req.packets.iface);
      var _ := SendPacket(frame, req.packets.iface, Broadcast(req.ip, Born(cache.pending[k]), now));
      cache.MarkSent(req, now, k);
    }

    /** One request, at position `k`: sent again, given up, or left alone. Only a
        request that is given up is freed. */
    method HandleArpReq(req: ArpReq, ghost k: nat, now: int)
      requires Valid() && k < |cache.queue| && req == cache.queue[k]
      modifies this`log, cache, cache.queue
      ensures Valid() && Cfg() == old(Cfg()) && k < |old(cache.pending)|
      ensures Abstract() == HandleRequest(Cfg(), old(Abstract()), k, now)
      ensures cache.freed == old(cache.freed) + if GivenUp(old(cache.pending)[k], now) then {req} else {}
      ensures cache.queue ==
        if GivenUp(old(cache.pending)[k], now) then Remove(old(cache.queue), k) else old(cache.queue)
    {
      hide Cache.Valid, IfList.Valid, RouteList.Valid, Unreachables, Rebroadcast, Consistent, Wired, Stores;
      ghost var was := cache.pending;
      cache.NodeFacts(k);
      StoredCounters(req, was[k]);
      if now - req.sent >= 1 {
        if req.timesSent >= MAX_SENDS {
          GiveUp(req, k);
        } else {
          Resend(req, k, now);
          assert was[k := Kept(was[k], now)[0]] == was[..k] + Kept(was[k], now) + was[k + 1..];
        }
      } else {
        assert was == was[..k] + [was[k]] + was[k + 1..];
        assert log == log + [];
      }
    }

    lemma QueueFacts(k: nat)
      requires Valid()
      ensures |cache.queue| == |cache.pending| && cache.requests == ReqAt(cache.queue, 0)
      ensures k < |cache.queue| ==> cache.queue[k].next == ReqAt(cache.queue, k + 1) && cache.queue[k] !in cache.freed
    {
      if k < |cache.queue| {
        assert LinkedAt(cache.queue, k);
      }
    }

    /** Fetches the next node, then handles the current one; `given` tells whether
        that freed it. */
    method HandleAndAdvance(req: ArpReq, ghost k: nat, now: int) returns (next: ArpReq?, ghost given: bool)
      requires Valid() && k < |cache.queue| == |cache.pending| && req == cache.queue[k]
      modifies this`log, cache, cache.queue
      ensures Valid() && Cfg() == old(Cfg()) && k < |old(cache.pending)|
      ensures Abstract() == HandleRequest(Cfg(), old(Abstract()), k, now)
      ensures |cache.queue| == |cache.pending|
      ensures next == ReqAt(cache.queue, k + |Kept(old(cache.pending)[k], now)|)
      ensures given <==> GivenUp(old(cache.pending)[k], now)
      ensures given <==> req in cache.freed
      ensures forall i :: 0 <= i < |cache.queue| ==> cache.queue[i] in old(cache.queue)
    {
      hide Valid, GivenUp, Kept, HandleRequest;
      ghost var was, nodes := cache.pending[k], cache.queue;
      QueueFacts(k);
      next := req.next;
      HandleArpReq(req, k, now);
      given := req in cache.freed;
      QueueFacts(k);
      NextAfterHandling(nodes, k, was, now);
    }

    /** Handles every pending request once. The next node is fetched before the
        current one is handled; `dangling` tells whether fetching it afterwards, as
        the source does, would have read a freed node. */
    method SweepRequests(now: int) returns (ghost dangling: bool)
      requires Valid()
      modifies this`log, cache, cache.queue
      ensures Valid() && Cfg() == old(Cfg())
      ensures Abstract() == HandleFrom(Cfg(), old(Abstract()), 0, now)
      ensures forall i :: 0 <= i < |cache.queue| ==> cache.queue[i] in old(cache.queue) || fresh(cache.queue[i])
      ensures dangling <==> exists i :: 0 <= i < |old(cache.pending)| && GivenUp(old(cache.pending)[i], now)
    {
      hide HandleFrom, HandleRequest, GivenUp, Kept, Valid, Sweeping, ReqAt;
      ghost var cfg, start := Cfg(), Abstract();
      QueueFacts(0);
      SweepStarts(cfg, start, now);
      var req := cache.requests;
      ghost var k: nat, seen: nat := 0, 0;
      dangling := false;
      while req != null
        invariant Valid() && Cfg() == cfg && |cache.queue| == |cache.pending| && req == ReqAt(cache.queue, k)
        invariant forall i :: 0 <= i < |cache.queue| ==> cache.queue[i] in old(cache.queue)
        invariant Sweeping(cfg, start, Abstract(), k, seen, now, dangling) && seen <= |start.requests|
        decreases |start.requests| - seen
      {
        PastTheEnd(cache.queue, k);
        ghost var before, was := Abstract(), cache.pending[k];
        SweepStep(cfg, start, before, k, seen, now, dangling);
        var next;
        ghost var given;
        next, given := HandleAndAdvance(req, k, now);
        req, k, seen, dangling := next, k + |Kept(was, now)|, seen + 1, dangling || given;
      }
      PastTheEnd(cache.queue, k);
      SweepEnds(cfg, start, Abstract(), k, seen, now, dangling);
    }

    /** One pass of the timeout thread: stale entries, then pending requests. */
    method Timeout(now: int) returns (ghost dangling: bool)
      requires Valid()
      modifies this`log, cache, cache.queue, cache.entries
      ensures Valid() && Cfg() == old(Cfg())
      ensures Abstract() == TimeoutPass(Cfg(), old(Abstract()), now)
      ensures forall i :: 0 <= i < |cache.queue| ==> cache.queue[i] in old(cache.queue) || fresh(cache.queue[i])
      ensures dangling <==> exists i :: 0 <= i < |old(cache.pending)| && GivenUp(old(cache.pending)[i], now)
    {
      hide Cache.Valid, IfList.Valid, RouteList.Valid, Consistent, WiredQueue, GivenUp,
           HandleFrom, SweptQueue, SweptCalls, Expire;
      cache.ExpireEntries(now);
      ghost var s := Abstract();
      dangling := SweepRequests(now);
      SweepIsHandles(Cfg(), s, 0, now);
      assert s.requests[0..] == s.requests;
      assert s.requests[..0] + SweptQueue(s.requests, now) == SweptQueue(s.requests, now);
    }

    // ---------- ARP frames ----------

    /** Sends every frame on a list on to the host that answered. */
    method ReleaseAll(packets: Packet?, dst: Mac, src: Mac, ip: Ip, ghost ws: seq<Waiting>)
      requires ifs.Valid() && Holds(packets, ws)
      modifies this`log
      ensures log == old(log) + Releases(Cfg(), ws, dst, src, ip)
    {
      hide Passes, FindName, Named, IfList.Valid;
      ghost var cfg := Cfg();
      var p := packets;
      ghost var done := 0;
      assert ws[0..] == ws;
      while p != null
        invariant ifs.Valid() && Cfg() == cfg && done <= |ws| && Holds(p, ws[done..])
        invariant log + Releases(cfg, ws[done..], dst, src, ip) == old(log) + Releases(cfg, ws, dst, src, ip)
        decreases |ws| - done
      {
        ghost var rest, before := ws[done..], log;
        assert rest[0] == ws[done] && rest[1..] == ws[done + 1..];
        var copy := dst + src + p.buf[12..];
        var _ := SendPacket(copy, p.iface, Released(p.id, ip));
        ghost var c := Sending(ifs.model, p.iface, Readdress(p.buf, dst, src), Released(p.id, ip));
        hide Readdress;
        assert Releases(cfg, rest, dst, src, ip) == [c] + Releases(cfg, rest[1..], dst, src, ip);
        assert log + Releases(cfg, rest[1..], dst, src, ip) == before + Releases(cfg, rest, dst, src, ip);
        p, done := p.next, done + 1;
      }
      assert ws[done..] == [];
      assert log + [] == log;
    }

    /** An ARP reply: the mapping is recorded, and what waited for it leaves. */
    method HandleReply(mac: Mac, ip: Ip, src: Mac, now: int)
      requires Valid()
      modifies this`log, cache, cache.queue, cache.entries
      ensures Valid() && Cfg() == old(Cfg())
      ensures Abstract() == ReceiveReply(Cfg(), old(Abstract()), mac, ip, src, now)
      ensures forall i :: 0 <= i < |cache.queue| ==> cache.queue[i] in old(cache.queue) || fresh(cache.queue[i])
      ensures forall n :: n in old(cache.queue) && n !in cache.queue ==> n in cache.freed
    {
      hide Cache.Valid, IfList.Valid, RouteList.Valid, Consistent, Wired, Insert, Releases,
           Holds, Position, Cache.Loose;
      cache.LengthsAgree();
      ghost var was := cache.pending;
      var req;
      ghost var k;
      req, k := cache.InsertMapping(mac, ip, now);
      if req != null {
        ReleaseAll(req.packets, mac, src, ip, was[k].waiting);
        ghost var at := cache.Destroy(req, was[k].waiting);
      }
    }

    /** `SendPacket`, as a step of the machine. */
    method Emit(frame: Frame, iface: Name, ghost cause: Cause)
      requires Valid()
      modifies this`log
      ensures Valid() && Abstract() == Send(Cfg(), old(Abstract()), iface, frame, cause)
    {
      hide Cache.Valid, RouteList.Valid, IfList.Valid, Consistent, WiredQueue, Passes;
      var _ := SendPacket(frame, iface, cause);
    }

    /** The interface a frame came in on. */
    method Arrival(iface: Name) returns (here: Iface)
      requires Valid() && FindName(ifs.model, iface).Some?
      ensures here == Named(ifs.model, iface)
    {
      var node := ifs.GetInterface(iface);
      here := Iface(node.name, node.addr, node.ip);
    }

    /** An ARP request is answered when it asks for the address of the interface it came in on. */
    method HandleWhoHas(f: LongFrame, iface: Name, here: Iface)
      requires Valid() && here == Named(ifs.model, iface)
      modifies this`log
      ensures Valid()
      ensures Abstract() ==
        if TargetIp(f) == here.ip then Send(Cfg(), old(Abstract()), iface, IsAt(f, here), ArpAnswer)
        else old(Abstract())
    {
      hide Valid, IsAt, Send, TargetIp, Named;
      if TargetIp(f) == here.ip {
        var answer := FillArpAnswer(f, here);
        Emit(answer, iface, ArpAnswer);
      }
    }

    /** The handler of ARP frames. */
    method HandleArp(f: LongFrame, iface: Name, now: int)
      requires Valid() && FindName(ifs.model, iface).Some?
      modifies this`log, cache, cache.queue, cache.entries
      ensures Valid() && Cfg() == old(Cfg())
      ensures Abstract() == Apply(Cfg(), old(Abstract()), ArpAction(Cfg(), f, iface, now))
      ensures forall i :: 0 <= i < |cache.queue| ==> cache.queue[i] in old(cache.queue) || fresh(cache.queue[i])
    {
      hide Valid, Passes, Named, ReceiveReply, IsAt, Send, FindName, Operation, SenderMac,
           SenderIp, TargetIp, Defer, TimeoutPass;
      var here := Arrival(iface);
      if Operation(f) == ARP_REQUEST {
        HandleWhoHas(f, iface, here);
      } else if Operation(f) == ARP_REPLY {
        HandleReply(SenderMac(f), SenderIp(f), here.addr, now);
      }
    }

    // ---------- IP frames ----------

    /** Builds and sends an immediate ICMP answer. Type 0 is the echo reply, with
        code 0; every other type is an error quoting the frame. */
    method SendIcmpResponse(f: Frame, iface: Name, kind: byte, code: byte, local: Option<Ip>)
      requires Valid() && FindName(ifs.model, iface).Some? && (kind == 0 ==> code == 0)
      requires |f| >= if kind == 0 then ECHO_FRAME_LENGTH else ARP_FRAME_LENGTH
      modifies this`log
      ensures Valid()
      ensures
        var out := Named(ifs.model, iface);
        var src := if local.Some? then local.value else out.ip;
        var answer := if kind == 0 then EchoAnswer(f, out, src) else ErrorAnswer(f, out, src, kind, code);
        Abstract() == Send(Cfg(), old(Abstract()), iface, answer, IcmpAnswer)
    {
      hide Valid, Named, FindName, BareAnswerHeader, IpFrame, Stamp, Send, EchoLength;
      var out := Arrival(iface);
      var src := if local.Some? then local.value else out.ip;
      var length := if kind == 0 then EchoLength(f) else ICMP_ERROR_LENGTH - ETHERNET_LENGTH;
      var h := BareAnswerHeader(f, length, src);
      var m := if kind == 0 then [kind, code] + f[36..] else [kind, code, 0, 0, 0, 0, 0, 0] + f[14..42];
      var answer := FillIcmp(f[6..12], out.addr, h, m);
      Emit(answer, iface, IcmpAnswer);
    }

    /** Puts a frame on the list of its next hop and handles that request at once. */
    method DeferFrame(f: LongFrame, route: Route, ghost arrival: Name, now: int)
      requires Valid() && FindName(ifs.model, route.iface).Some?
      modifies this`log, this`deferred, cache, cache.queue
      ensures Valid() && Cfg() == old(Cfg())
      ensures Abstract() == Defer(Cfg(), old(Abstract()), Deferral(route.gw, f, route.iface, arrival), now)
      ensures forall i :: 0 <= i < |cache.queue| ==> cache.queue[i] in old(cache.queue) || fresh(cache.queue[i])
    {
      hide Cache.Valid, IfList.Valid, RouteList.Valid, Consistent, Wired, Enqueue, Position, HandleRequest;
      ghost var s, w := Abstract(), Waiting(|deferred|, f, route.iface);
      EnqueuePosition(s.requests, route.gw, w);
      EnqueueIsWired(Cfg(), s.requests, route.gw, w);
      var req;
      ghost var k;
      req, k := cache.QueueReq(route.gw, f, route.iface, |deferred|);
      deferred := deferred + [Deferral(route.gw, f, route.iface, arrival)];
      HandleArpReq(req, k, now);
    }

    /** Forwards an aged frame on a cache hit, and defers it on a miss. */
    method ForwardFrame(packet: array<byte>, f: Frame, route: Route, ghost arrival: Name, now: int)
      requires Valid() && FindName(ifs.model, route.iface).Some? && packet[..] == f
      requires !ForwardAction(Cfg(), Abstract().entries, f, route, arrival, now).Overreads?
      modifies this`log, this`deferred, cache, cache.queue, packet
      ensures Valid() && Cfg() == old(Cfg())
      ensures Abstract() == Apply(Cfg(), old(Abstract()),
        ForwardAction(Cfg(), old(Abstract()).entries, f, route, arrival, now))
      ensures forall i :: 0 <= i < |cache.queue| ==> cache.queue[i] in old(cache.queue) || fresh(cache.queue[i])
    {
      hide Valid, Named, FindName, Lookup, Defer, Send, Spliced;
      var hit := cache.LookupEntry(route.gw);
      if hit.Some? {
        var out := Arrival(route.iface);
        CopyIn(packet, 6, out.addr);
        CopyIn(packet, 0, hit.value);
        EthernetReplaced(f, hit.value, out.addr);
        Emit(packet[..], route.iface, Forwarded);
      } else {
        DeferFrame(f, route, arrival, now);
      }
    }

    /** The path of a frame for somebody else; its checksum field is already zeroed. */
    method HandleTransit(packet: array<byte>, f: Frame, iface: Name, now: int)
      requires Valid() && FindName(ifs.model, iface).Some? && packet[..] == f
      requires !VerdictAction(Cfg(), Abstract().entries,
        TransitVerdict(Cfg(), f, Named(ifs.model, iface)), iface, now).Overreads?
      modifies this`log, this`deferred, cache, cache.queue, packet
      ensures Valid() && Cfg() == old(Cfg())
      ensures
        var v := TransitVerdict(Cfg(), f, Named(ifs.model, iface));
        Abstract() == Apply(Cfg(), old(Abstract()), VerdictAction(Cfg(), old(Abstract()).entries, v, iface, now))
      ensures forall i :: 0 <= i < |cache.queue| ==> cache.queue[i] in old(cache.queue) || fresh(cache.queue[i])
    {
      hide Valid, Named, FindName, Send, Defer, ReceiveReply, TimeoutPass, ForwardAction,
           LongestMatch, ErrorAnswer, Aged, Spliced, Stamp;
      packet[22] := if packet[22] == 0 then 0xff else packet[22] - 1;
      var older: Frame := f[22 := Decrement(Ttl(f))];
      assert packet[..] == older;
      if packet[22] == 0 {
        SendIcmpResponse(older, iface, 11, 0, None);
      } else {
        StampInPlace(packet, 14, HEADER_LENGTH, SUM);
        AgedInPlace(f);
        var aged: Frame := packet[..];
        var rt := LongestRoute(aged);
        if rt.None? {
          SendIcmpResponse(aged, iface, 3, 0, None);
        } else {
          ForwardFrame(packet, aged, rt.value, iface, now);
        }
      }
    }

    /** The route for a frame; its interface exists. */
    method LongestRoute(f: Frame) returns (r: Option<Route>)
      requires Valid()
      ensures var k := LongestMatch(table.model, order, DestIp(f));
        r == match k { case None => None case Some(i) => Some(table.model[i]) }
      ensures r.Some? ==> FindName(ifs.model, r.value.iface).Some?
    {
      hide FindName, LongestMatch;
      var rt := table.LongestPrefixMatch(order, f[30..34]);
      r := if rt == null then None else Some(rt.route);
    }

    /** The path of a frame for one of the router's own addresses; its header
        checksum field is already zeroed. */
    method HandleLocal(packet: array<byte>, f: Frame, iface: Name, local: Iface)
      requires Valid() && FindName(ifs.model, iface).Some? && packet[..] == f
      requires !LocalVerdict(f, Named(ifs.model, iface), local).Overread?
      modifies this`log, packet
      ensures Valid()
      ensures
        var v := LocalVerdict(f, Named(ifs.model, iface), local);
        Abstract() == if v.Answer? then Send(Cfg(), old(Abstract()), iface, v.frame, IcmpAnswer) else old(Abstract())
    {
      hide Valid, Named, FindName, Send, ErrorAnswer, EchoAnswer, Cksum, SetWord;
      if packet[23] == PROTOCOL_ICMP {
        var stored := Word16(packet[36], packet[37]);
        PutWord(packet, 36, 0);
        MessageZeroed(f);
        var c := ComputeCksum(packet, 34, packet.Length - 34);
        assert packet[34..] == packet[34..34 + (packet.Length - 34)];
        if c == stored && packet[34] == ECHO_REQUEST {
          EchoIgnoresSum(f, Named(ifs.model, iface), local.ip);
          SendIcmpResponse(packet[..], iface, 0, 0, Some(local.ip));
        }
      } else if packet[23] == PROTOCOL_TCP || packet[23] == PROTOCOL_UDP {
        SendIcmpResponse(packet[..], iface, 3, 3, Some(local.ip));
      }
    }

    /** Zeroes the checksum field of an IP header and tests what was in it. */
    method CheckHeader(packet: array<byte>, ghost f: Frame) returns (ok: bool)
      requires packet[..] == f
      modifies packet
      ensures packet[..] == WithSum(f, 0) && ok == Accepts(HeaderOf(f))
    {
      hide Cksum, SetWord;
      var stored := Word16(packet[24], packet[25]);
      PutWord(packet, 24, 0);
      HeaderZeroed(f);
      var c := ComputeCksum(packet, 14, HEADER_LENGTH);
      assert packet[14..34] == packet[..][14..34];
      ok := stored == c;
    }

    /** The handler of IP frames. */
    method HandleIp(packet: array<byte>, iface: Name, now: int)
      requires Valid() && FindName(ifs.model, iface).Some?
      requires packet.Length >= IP_FRAME_LENGTH ==>
        !IpAction(Cfg(), Abstract().entries, packet[..], iface, now).Overreads?
      modifies this`log, this`deferred, cache, cache.queue, packet
      ensures Valid() && Cfg() == old(Cfg())
      ensures
        var a := if packet.Length < IP_FRAME_LENGTH then Nothing
                 else IpAction(Cfg(), old(Abstract()).entries, old(packet[..]), iface, now);
        Abstract() == Apply(Cfg(), old(Abstract()), a)
      ensures forall i :: 0 <= i < |cache.queue| ==> cache.queue[i] in old(cache.queue) || fresh(cache.queue[i])
    {
      hide Valid, Named, FindName, FindIp, Send, Defer, ReceiveReply, TimeoutPass, ForwardAction,
           LocalVerdict, TransitVerdict, Accepts, WithSum;
      if packet.Length < IP_FRAME_LENGTH {
        return;
      }
      ghost var f: Frame := packet[..];
      var ok := CheckHeader(packet, f);
      if !ok {
        return;
      }
      DestIsKept(f);
      var dest := packet[30..34];
      var local := LocalAddress(dest);
      if local.Some? {
        HandleLocal(packet, packet[..], iface, local.value);
      } else {
        HandleTransit(packet, packet[..], iface, now);
      }
    }

    method LocalAddress(ip: Ip) returns (r: Option<Iface>)
      requires Valid()
      ensures r == FindIp(ifs.model, ip)
    {
      hide FindIp;
      var node := ifs.GetByAddress(ip);
      r := if node == null then None else Some(Iface(node.name, node.addr, node.ip));
    }

    /** The dispatch on the kind of frame. */
    method HandlePacket(packet: array<byte>, iface: Name, now: int)
      requires Valid() && Receivable(Cfg(), packet[..], iface)
      requires !FrameAction(Cfg(), Abstract().entries, packet[..], iface, now).Overreads?
      modifies this`log, this`deferred, cache, cache.queue, cache.entries, packet
      ensures Valid() && Cfg() == old(Cfg())
      ensures Abstract() == Step(Cfg(), old(Abstract()), Receive(old(packet[..]), iface, now))
      ensures forall i :: 0 <= i < |cache.queue| ==> cache.queue[i] in old(cache.queue) || fresh(cache.queue[i])
    {
      hide Valid, FindName, IpAction, ArpAction, Apply, EtherType;
      var f := packet[..];
      if EtherType(f) == TYPE_IP {
        HandleIp(packet, iface, now);
      } else if EtherType(f) == TYPE_ARP {
        HandleArp(f, iface, now);
      } else {
        NothingHappens(Cfg(), Abstract());
      }
    }
  }

  /** A sweep that began in `start` stands before position `k` of `s`, with `seen`
      of the requests it found handled, and `dangling` of them given up. */
  ghost predicate Sweeping(cfg: Config, start: State, s: State, k: nat, seen: nat, now: int, dangling: bool) {
    && k <= |s.requests| && seen <= |start.requests| && s.requests[k..] == start.requests[seen..]
    && HandleFrom(cfg, s, k, now) == HandleFrom(cfg, start, 0, now)
    && (dangling <==> exists i :: 0 <= i < seen && GivenUp(start.requests[i], now))
  }

  lemma SweepStarts(cfg: Config, s: State, now: int)
    ensures Sweeping(cfg, s, s, 0, 0, now, false)
  {}

  lemma SweepStep(cfg: Config, start: State, s: State, k: nat, seen: nat, now: int, dangling: bool)
    requires Sweeping(cfg, start, s, k, seen, now, dangling) && k < |s.requests|
    ensures seen < |start.requests|
    ensures var r := s.requests[k];
      Sweeping(cfg, start, HandleRequest(cfg, s, k, now), k + |Kept(r, now)|, seen + 1, now,
        dangling || GivenUp(r, now))
  {
    hide Kept, GivenUp, HandleRequest, HandleFrom;
    HandledOne(cfg, s, k, now);
    assert s.requests[k] == s.requests[k..][0] == start.requests[seen..][0] == start.requests[seen];
    assert s.requests[k..][1..] == s.requests[k + 1..] && start.requests[seen..][1..] == start.requests[seen + 1..];
  }

  lemma SweepEnds(cfg: Config, start: State, s: State, k: nat, seen: nat, now: int, dangling: bool)
    requires Sweeping(cfg, start, s, k, seen, now, dangling) && k >= |s.requests|
    ensures s == HandleFrom(cfg, start, 0, now)
    ensures dangling <==> exists i :: 0 <= i < |start.requests| && GivenUp(start.requests[i], now)
  {
    assert start.requests[seen..] == [];
  }

  lemma EnqueueIsWired(cfg: Config, requests: seq<Request>, ip: Ip, w: Waiting)
    requires WiredQueue(cfg, requests) && FindName(cfg.ifs, w.iface).Some?
    ensures WiredQueue(cfg, Enqueue(requests, ip, w))
  {
    hide FindName, Position;
  }

  lemma EthernetReplaced(f: Frame, dst: Mac, src: Mac)
    ensures Spliced(Spliced(f, 6, src), 0, dst) == Readdress(f, dst, src)
  {}

  /** Ageing in place: the TTL first, then the checksum over the header. */
  lemma AgedInPlace(f: Frame)
    ensures var older: Frame := f[22 := Decrement(Ttl(f))];
      Spliced(older, 14, Stamp(older[14..34], SUM)) == WithHeader(f, Aged(HeaderOf(f)))
  {
    hide Stamp;
    assert f[22 := Decrement(Ttl(f))][14..34] == HeaderOf(f)[TTL := Decrement(Ttl(f))];
  }

  lemma NothingHappens(cfg: Config, s: State)
    ensures Apply(cfg, s, Nothing) == s
  {}

  lemma HeaderZeroed(f: Frame)
    ensures WithSum(f, 0)[14..34] == SetWord(HeaderOf(f), SUM, 0)
    ensures GetWord(f, 24) == GetWord(HeaderOf(f), SUM)
  {
    hide SetWord;
    SetWordAgree(WithSum(f, 0)[14..34], SetWord(HeaderOf(f), SUM, 0), SUM);
  }

  lemma MessageZeroed(f: Frame)
    requires |f| >= ECHO_FRAME_LENGTH
    ensures SetWord(f, 36, 0)[34..] == SetWord(f[34..], 2, 0)
    ensures SetWord(f, 36, 0)[34] == f[34]
  {
    hide SetWord;
    SetWordAgree(SetWord(f, 36, 0)[34..], SetWord(f[34..], 2, 0), 2);
  }

  lemma DestIsKept(f: Frame)
    ensures DestIp(WithSum(f, 0)) == DestIp(f)
  {
    hide SetWord;
  }

  /** The reply is the same whatever the request's checksum field holds by then. */
  lemma EchoIgnoresSum(f: Frame, out: Iface, src: Ip)
    requires |f| >= ECHO_FRAME_LENGTH
    ensures EchoAnswer(SetWord(f, 36, 0), out, src) == EchoAnswer(f, out, src)
  {
    hide Stamp, SetWord, IpFrame, BareAnswerHeader, EchoLength;
    var g := SetWord(f, 36, 0);
    assert EchoLength(f) == EchoLength(g) by { SameLength(f, g); }
    SameMessage(f);
    SameAnswerHeader(f, g, EchoLength(f), src);
  }

  lemma SameLength(f: Frame, g: Frame)
    requires |f| == |g|
    ensures EchoLength(f) == EchoLength(g)
  {}

  lemma SameMessage(f: Frame)
    requires |f| >= ECHO_FRAME_LENGTH
    ensures Stamp([0, 0] + SetWord(f, 36, 0)[36..], 2) == Stamp([0, 0] + f[36..], 2)
  {
    hide Stamp, SetWord;
    SetWordAgree([0, 0] + SetWord(f, 36, 0)[36..], SetWord([0, 0] + f[36..], 2, 0), 2);
    StampIgnoresField([0, 0] + f[36..], 2, 0);
  }

  /** The head of an answer depends on the headers of the request alone. */
  lemma SameAnswerHeader(f: Frame, g: Frame, length: uint16, src: Ip)
    requires forall i :: 0 <= i < 34 ==> f[i] == g[i]
    ensures BareAnswerHeader(f, length, src) == BareAnswerHeader(g, length, src) && SourceMac(f) == SourceMac(g)
  {
    hide BigEndian16;
    assert f[14..16] == g[14..16] && f[18..22] == g[18..22];
    assert SourceIp(f) == SourceIp(g);
  }

  /** One step of a sweep, seen from the rest of it. */
  lemma HandledOne(cfg: Config, s: State, k: nat, now: int)
    requires k < |s.requests|
    ensures var t, n := HandleRequest(cfg, s, k, now), k + |Kept(s.requests[k], now)|;
      n <= |t.requests| && t.requests[n..] == s.requests[k + 1..] &&
      HandleFrom(cfg, t, n, now) == HandleFrom(cfg, s, k, now)
  {
    hide Kept, Sent;
  }

  lemma PastTheEnd(queue: seq<ArpReq>, k: nat)
    ensures ReqAt(queue, k) == null <==> k >= |queue|
    ensures k < |queue| ==> ReqAt(queue, k) == queue[k]
  {}

  lemma NextAfterHandling(queue: seq<ArpReq>, k: nat, r: Request, now: int)
    requires k < |queue|
    ensures var q := if GivenUp(r, now) then Remove(queue, k) else queue;
      ReqAt(q, k + |Kept(r, now)|) == ReqAt(queue, k + 1)
  {}

  /** Writes an ARP broadcast octet by octet. */
  method FillArpRequest(ip: Ip, own: Iface) returns (frame: LongFrame)
    ensures frame == WhoHas(ip, own)
  {
    hide Spliced, Ethernet, ArpRequestKind;
    var buf := new byte[ARP_FRAME_LENGTH];
    var e, k, s, t := Ethernet(BROADCAST, own.addr, TYPE_ARP), ArpRequestKind(), own.addr + own.ip, Zeros(6) + ip;
    CopyIn(buf, 0, e);
    assert buf[..14] == e;
    CopyIn(buf, 14, k);
    assert buf[..22] == e + k;
    CopyIn(buf, 22, s);
    assert buf[..32] == e + k + s;
    CopyIn(buf, 32, t);
    assert buf[..ARP_FRAME_LENGTH] == e + k + s + t;
    frame := buf[..ARP_FRAME_LENGTH];
  }

  /** Writes the answer to an ARP request into a cleared buffer of the same length. */
  method FillArpAnswer(request: LongFrame, own: Iface) returns (frame: LongFrame)
    ensures frame == IsAt(request, own)
  {
    hide Spliced, Ethernet, BigEndian16;
    var n := |request|;
    var buf := new byte[n](_ => 0);
    var e, k := Ethernet(request[6..12], own.addr, TYPE_ARP), request[14..20] + BigEndian16(ARP_REPLY);
    var s, t, z := own.addr + own.ip, request[22..28] + request[28..32], Zeros(n - ARP_FRAME_LENGTH);
    CopyIn(buf, 0, e);
    assert buf[..14] == e;
    CopyIn(buf, 14, k);
    assert buf[..22] == e + k;
    CopyIn(buf, 22, s);
    assert buf[..32] == e + k + s;
    CopyIn(buf, 32, t);
    assert buf[..42] == e + k + s + t;
    CopyIn(buf, 42, z);
    assert buf[..n] == e + k + s + t + z;
    frame := buf[..n];
  }

  /** Writes an ICMP frame: the Ethernet header, then the IP header and the
      message, each with its checksum computed over it. */
  method FillIcmp(dst: Mac, src: Mac, h: Header, m: seq<byte>) returns (frame: Frame)
    requires |m| >= 4
    ensures frame == IpFrame(dst, src, Stamp(h, SUM), Stamp(m, 2))
  {
    hide Ethernet, Stamp, Spliced;
    var buf := new byte[IP_FRAME_LENGTH + |m|];
    var e := Ethernet(dst, src, TYPE_IP);
    CopyIn(buf, 0, e);
    assert buf[..14] == e;
    AppendStamped(buf, 14, h, SUM);
    assert buf[..34] == e + Stamp(h, SUM);
    AppendStamped(buf, 34, m, 2);
    frame := buf[..34 + |m|];
  }
}
