/** What the router answers and to whom, in terms of the frame as it came in, and
    what an ARP exchange between two such routers achieves. */
module Answers {
  import opened Bytes
  import opened Checksum
  import opened IpHeader
  import opened Network
  import opened Frames
  import opened RouterModel
  import opened Forwarding
  import opened Resolver

  /** The header is accepted and the destination is one of the router's own addresses. */
  predicate ForUs(cfg: Config, f: Frame) {
    Accepts(HeaderOf(f)) && FindIp(cfg.ifs, DestIp(f)).Some?
  }

  predicate ForOthers(cfg: Config, f: Frame) {
    Accepts(HeaderOf(f)) && FindIp(cfg.ifs, DestIp(f)).None?
  }

  // ---------- frames for the router itself ----------

  /** Zeroing the header checksum leaves everything else of the frame alone. */
  lemma OnlyTheSum(f: Frame)
    ensures var g := WithSum(f, 0);
      && |g| == |f| && g[34..] == f[34..] && g[..24] == f[..24] && Protocol(g) == Protocol(f)
      && SourceMac(g) == SourceMac(f) && SourceIp(g) == SourceIp(f) && DestIp(g) == DestIp(f)
      && (|f| >= ECHO_FRAME_LENGTH ==> GetWord(g, 36) == GetWord(f, 36) && g[34] == f[34])
  {
    hide SetWord;
    var g := WithSum(f, 0);
    assert g[34..] == f[34..] && g[..24] == f[..24];
    if |f| >= ECHO_FRAME_LENGTH {
      assert g[36] == f[36] && g[37] == f[37];
    }
  }

  /** The answer is the echo reply to `f`: from the address asked, to the asker, with
      the request's identifier and sequence number, and the rest of the frame to its
      end as data; its total length is 16 bits of the length after the Ethernet header. */
  predicate EchoOf(a: Frame, f: Frame) {
    && WellAddressed(a, f) && SourceIp(a) == DestIp(f) && |a| == |f| >= ECHO_FRAME_LENGTH
    && a[34] == 0 && a[35] == 0 && a[38..] == f[38..]
    && GetWord(a, 16) == (|f| - ETHERNET_LENGTH) % 0x1_0000
  }

  /** An accepted ICMP frame for the router is answered exactly when what follows its
      header is an echo request that RFC 1071 accepts with a checksum other than 0x0000.
      One too short to hold that checksum is read past its end. */
  lemma EchoIsAnswered(cfg: Config, f: Frame, in_: Name)
    requires |f| <= 131074
    ensures var v := Classify(cfg, f, in_);
      ForUs(cfg, f) && Protocol(f) == PROTOCOL_ICMP ==>
      if |f| < ECHO_FRAME_LENGTH then v.Overread? else
      && (v.Answer? <==> Rfc1071Accepts(f[34..]) && GetWord(f, 36) != 0 && f[34] == ECHO_REQUEST)
      && (v.Answer? ==> EchoOf(v.frame, f))
  {
    hide Accepts, WithSum, TransitVerdict, EchoAnswer, ErrorAnswer, Rfc1071Accepts,
         WellAddressed, Cksum, SetWord, FindIp;
    var g := WithSum(f, 0);
    OnlyTheSum(f);
    if |f| >= ECHO_FRAME_LENGTH {
      AcceptanceSet(f[34..], 2);
      EchoAnswerIsWellAddressed(g, Named(cfg.ifs, in_), DestIp(f));
      EchoAnswerLength(g, Named(cfg.ifs, in_), DestIp(f));
      SameAsker(EchoAnswer(g, Named(cfg.ifs, in_), DestIp(f)), f, g);
      assert g[38..] == g[34..][4..] && f[38..] == f[34..][4..];
    }
  }

  lemma SameAsker(a: Frame, f: Frame, g: Frame)
    requires SourceIp(f) == SourceIp(g) && SourceMac(f) == SourceMac(g)
    ensures WellAddressed(a, f) <==> WellAddressed(a, g)
  {}

  /** The answer is this ICMP error, sent by `src` to the source of `f` and quoting `q`. */
  predicate ErrorFor(a: Frame, f: Frame, q: Frame, src: Ip, kind: byte, code: byte) {
    |q| >= ARP_FRAME_LENGTH && WellAddressed(a, f) && SourceIp(a) == src && Quotes(a, q, kind, code)
  }

  /** Another frame for the router is answered exactly when it is TCP or UDP: port
      unreachable, from the address it was sent to. One too short to be quoted is
      read past its end. */
  lemma PortIsUnreachable(cfg: Config, f: Frame, in_: Name)
    ensures var v := Classify(cfg, f, in_);
      ForUs(cfg, f) && Protocol(f) != PROTOCOL_ICMP ==>
      && (v.Answer? || v.Overread? <==> Protocol(f) in {PROTOCOL_TCP, PROTOCOL_UDP})
      && (v.Overread? ==> |f| < ARP_FRAME_LENGTH)
      && (v.Answer? ==> ErrorFor(v.frame, f, WithSum(f, 0), DestIp(f), 3, 3))
      && !v.Transit?
  {
    hide Accepts, WithSum, TransitVerdict, EchoAnswer, ErrorAnswer, WellAddressed, Quotes, Cksum, SetWord, FindIp;
    var g, out := WithSum(f, 0), Named(cfg.ifs, in_);
    OnlyTheSum(f);
    if |f| >= ARP_FRAME_LENGTH {
      ErrorAnswerIsWellAddressed(g, out, DestIp(f), 3, 3);
      SameAsker(ErrorAnswer(g, out, DestIp(f), 3, 3), f, g);
    }
  }

  // ---------- frames for somebody else ----------

  /** An accepted frame for somebody else goes on exactly when its TTL is not 1 and
      some route matches. Otherwise its source learns why: time exceeded, or net
      unreachable. The quote is of the buffer as it stands by then: checksum 0 and
      TTL 0 in the first case, the aged header in the second. A frame too short to be
      quoted is read past its end. */
  lemma TransitOrError(cfg: Config, f: Frame, in_: Name)
    ensures var v, own := Classify(cfg, f, in_), Named(cfg.ifs, in_).ip;
      ForOthers(cfg, f) ==>
      && (v.Transit? <==> Ttl(f) != 1 && LongestMatch(cfg.routes, cfg.order, DestIp(f)).Some?)
      && (|f| < ARP_FRAME_LENGTH ==> v.Transit? || v.Overread?)
      && (|f| >= ARP_FRAME_LENGTH && !v.Transit? ==>
            if Ttl(f) == 1 then v.Answer? && ErrorFor(v.frame, f, WithSum(f, 0)[22 := 0], own, 11, 0)
            else v.Answer? && ErrorFor(v.frame, f, WithHeader(f, Aged(HeaderOf(f))), own, 3, 0))
  {
    hide Accepts, WithSum, LocalVerdict, Aged, ErrorAnswer, WellAddressed, Quotes, FindIp, LongestMatch, WithHeader;
    var g, out := WithSum(f, 0), Named(cfg.ifs, in_);
    OnlyTheSum(f);
    SumIsIrrelevant(f);
    AgedFrame(f);
    var older: Frame := g[22 := 0];
    var aged := WithHeader(f, Aged(HeaderOf(f)));
    assert SourceIp(older) == SourceIp(g) && SourceMac(older) == SourceMac(g);
    assert SourceMac(aged) == aged[..22][6..12] == f[..22][6..12];
    if |f| >= ARP_FRAME_LENGTH {
      ErrorAnswerIsWellAddressed(older, out, out.ip, 11, 0);
      SameAsker(ErrorAnswer(older, out, out.ip, 11, 0), f, older);
      ErrorAnswerIsWellAddressed(aged, out, out.ip, 3, 0);
      SameAsker(ErrorAnswer(aged, out, out.ip, 3, 0), f, aged);
    }
  }

  /** What is quoted is never the frame as it came: the checksum is gone, or the frame
      was aged. */
  lemma QuoteIsNeverOriginal(f: LongFrame)
    ensures Accepts(HeaderOf(f)) ==>
      && WithSum(f, 0)[14..42] != f[14..42] && WithSum(f, 0)[22 := 0][14..42] != f[14..42]
      && WithHeader(f, Aged(HeaderOf(f)))[14..42] != f[14..42]
  {
    hide Accepts, Aged, WithHeader, Rfc1071Accepts, SetWord;
    if Accepts(HeaderOf(f)) {
      AcceptanceIsRfc1071(HeaderOf(f));
      AgedFrame(f);
      var g, a := WithSum(f, 0), WithHeader(f, Aged(HeaderOf(f)));
      assert GetWord(g, 24) == 0 && GetWord(f, 24) == GetWord(HeaderOf(f), SUM);
      assert g[14..42][10] == g[24] && g[14..42][11] == g[25] && f[14..42][10] == f[24] && f[14..42][11] == f[25];
      assert g[22 := 0][14..42][10] == g[24] && g[22 := 0][14..42][11] == g[25];
      assert a[14..42][8] == Ttl(a) && f[14..42][8] == Ttl(f);
    }
  }

  // ---------- an ARP exchange ----------

  /** A broadcast by one router, received by another on the interface that has the
      address asked for, is answered; and the answer, received by the first, maps
      that address to that interface's hardware address. */
  lemma ArpExchange(asker: Config, owner: Config, ea: seq<Entry>, eo: seq<Entry>, out: Iface,
      inO: Name, inA: Name, ip: Ip, t: int, u: int)
    requires Receivable(owner, WhoHas(ip, out), inO)
    requires Named(owner.ifs, inO).ip == ip
    requires FindName(asker.ifs, inA).Some?
    ensures var here := Named(owner.ifs, inO);
      var answer := IsAt(WhoHas(ip, out), here);
      && FrameAction(owner, eo, WhoHas(ip, out), inO, t) == SendNow(inO, answer, ArpAnswer)
      && answer[..6] == out.addr
      && Receivable(asker, answer, inA)
      && FrameAction(asker, ea, answer, inA, u) == Resolve(here.addr, ip, Named(asker.ifs, inA).addr, u)
  {
    hide Classify, Lookup, FindName, Named, Readdress, ForwardAction;
    RequestFields(ip, out);
    AnswerFields(WhoHas(ip, out), Named(owner.ifs, inO));
  }

  lemma RequestFields(ip: Ip, out: Iface)
    ensures var q := WhoHas(ip, out);
      && EtherType(q) == TYPE_ARP && Operation(q) == ARP_REQUEST && TargetIp(q) == ip
      && SenderMac(q) == out.addr && SenderIp(q) == out.ip && SourceMac(q) == out.addr
  {}

  lemma AnswerFields(q: LongFrame, here: Iface)
    ensures var a := IsAt(q, here);
      && EtherType(a) == TYPE_ARP && Operation(a) == ARP_REPLY && TargetIp(a) == SenderIp(q)
      && SenderMac(a) == here.addr && SenderIp(a) == here.ip && SourceMac(a) == here.addr && a[..6] == SourceMac(q)
  {}

  /** After a reply its request is gone; and from then on its address is looked up
      as the new mapping, unless that is shadowed, and every other as before. */
  lemma ReplyResolves(cfg: Config, s: State, mac: Mac, ip: Ip, src: Mac, now: int, x: Ip)
    requires Invariant(s)
    ensures var t := ReceiveReply(cfg, s, mac, ip, src, now);
      && !Pending(t.requests, ip)
      && Lookup(t.entries, x) == if x != ip || Shadowed(s.entries, ip) then Lookup(s.entries, x) else Some(mac)
  {
    hide Releases, Insert, Lookup, GoodRequest, Unmapped, Shadowed;
    var t, k := ReceiveReply(cfg, s, mac, ip, src, now), Position(s.requests, ip);
    if k < |s.requests| {
      assert t.requests == Remove(s.requests, k);
    }
    LookupAfterInsert(s.entries, mac, ip, now, x);
  }
}
