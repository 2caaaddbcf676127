/** Ethernet, ARP and ICMP frames as octets: the fields the router reads, and
    every frame it builds. */
module Frames {
  import opened Bytes
  import opened Checksum
  import opened IpHeader
  import opened Network

  const ETHERNET_LENGTH: nat := 14
  const IP_FRAME_LENGTH: nat := 34
  const ARP_FRAME_LENGTH: nat := 42
  const ICMP_ERROR_LENGTH: nat := 70

  const TYPE_IP: uint16 := 0x0800
  const TYPE_ARP: uint16 := 0x0806
  const PROTOCOL_ICMP: byte := 1
  const PROTOCOL_TCP: byte := 6
  const PROTOCOL_UDP: byte := 17
  const ARP_REQUEST: uint16 := 1
  const ARP_REPLY: uint16 := 2
  const ECHO_REQUEST: byte := 8
  const INIT_TTL: byte := 255

  /** The least length of a frame that an echo reply can be made from: the code reads
      the checksum of the message whatever the frame's length. */
  const ECHO_FRAME_LENGTH: nat := 38

  /** A frame with room for an Ethernet header and an IP header. */
  type Frame = f: seq<byte> | |f| >= IP_FRAME_LENGTH witness Zeros(IP_FRAME_LENGTH)

  /** A frame that holds, besides, the eight octets an ICMP error quotes after the IP
      header, which is also the size of an ARP frame. */
  type LongFrame = f: seq<byte> | |f| >= ARP_FRAME_LENGTH witness Zeros(ARP_FRAME_LENGTH)

  // ---------- fields ----------

  function EtherType(f: seq<byte>): uint16
    requires |f| >= ETHERNET_LENGTH
  {
    GetWord(f, 12)
  }

  function SourceMac(f: Frame): Mac { f[6..12] }

  function HeaderOf(f: Frame): Header { f[14..34] }

  function SourceIp(f: Frame): Ip { f[26..30] }

  function DestIp(f: Frame): Ip { f[30..34] }

  function Protocol(f: Frame): byte { f[23] }

  function Ttl(f: Frame): byte { f[22] }

  function WithHeader(f: Frame, h: Header): Frame {
    f[..14] + h + f[34..]
  }

  function Operation(f: Frame): uint16 { GetWord(f, 20) }

  function SenderMac(f: Frame): Mac { f[22..28] }

  function SenderIp(f: Frame): Ip { f[28..32] }

  function TargetIp(f: LongFrame): Ip { f[38..42] }

  // ---------- frames the router builds ----------

  function Ethernet(dst: Mac, src: Mac, kind: uint16): (s: seq<byte>)
    ensures |s| == ETHERNET_LENGTH && s[..6] == dst && s[6..12] == src && GetWord(s, 12) == kind
  {
    dst + src + BigEndian16(kind)
  }

  /** A frame readdressed to its next hop. */
  function Readdress(f: Frame, dst: Mac, src: Mac): Frame {
    dst + src + f[12..]
  }

  /** The broadcast asking who has `ip`. */
  function WhoHas(ip: Ip, iface: Iface): LongFrame {
    Ethernet(BROADCAST, iface.addr, TYPE_ARP) + ArpRequestKind() + (iface.addr + iface.ip) + (Zeros(6) + ip)
  }

  const BROADCAST: Mac := [0xff, 0xff, 0xff, 0xff, 0xff, 0xff]

  /** Hardware and protocol types, their lengths, and the operation of a request. */
  function ArpRequestKind(): (s: seq<byte>)
    ensures |s| == 8
  {
    [0, 1] + BigEndian16(TYPE_IP) + [6, 4] + BigEndian16(ARP_REQUEST)
  }

  /** The answer to an ARP request for `iface`'s own address. It is as long as the
      request, zero after the ARP header, and keeps the request's first six ARP octets. */
  function IsAt(request: LongFrame, iface: Iface): LongFrame {
    Ethernet(SourceMac(request), iface.addr, TYPE_ARP)
    + (request[14..20] + BigEndian16(ARP_REPLY))
    + (iface.addr + iface.ip) + (SenderMac(request) + SenderIp(request))
    + Zeros(|request| - ARP_FRAME_LENGTH)
  }

  /** An ICMP error message quoting the head of `f`, checksum included. */
  function IcmpError(f: LongFrame, kind: byte, code: byte): (m: seq<byte>)
    ensures |m| == 36
  {
    Stamp([kind, code, 0, 0, 0, 0, 0, 0] + f[14..42], 2)
  }

  /** The header of a host-unreachable message, written from scratch. */
  function FreshHeader(src: Ip, dst: Ip): Header {
    Stamp(BareHeader(src, dst), SUM)
  }

  function BareHeader(src: Ip, dst: Ip): Header {
    [0x45, 0] + BigEndian16(56) + [0, 0] + BigEndian16(0x4000) + [64, PROTOCOL_ICMP, 0, 0] + src + dst
  }

  /** The header of an immediate answer: the request's, with new length, TTL,
      protocol and addresses. */
  function AnswerHeader(f: Frame, length: uint16, src: Ip): Header {
    Stamp(BareAnswerHeader(f, length, src), SUM)
  }

  function BareAnswerHeader(f: Frame, length: uint16, src: Ip): Header {
    f[14..16] + BigEndian16(length) + f[18..22] + [INIT_TTL, PROTOCOL_ICMP, 0, 0] + src + SourceIp(f)
  }

  /** An IP frame put together from its parts. */
  function IpFrame(dst: Mac, src: Mac, h: Header, body: seq<byte>): (f: Frame)
    ensures f[..6] == dst && SourceMac(f) == src && EtherType(f) == TYPE_IP
    ensures HeaderOf(f) == h && f[34..] == body
  {
    Ethernet(dst, src, TYPE_IP) + h + body
  }

  /** The message of `sr_send_icmp_t3`, sent from `out`. */
  function Unreachable3(f: LongFrame, out: Iface, kind: byte, code: byte): Frame {
    IpFrame(SourceMac(f), out.addr, FreshHeader(out.ip, SourceIp(f)), IcmpError(f, kind, code))
  }

  /** The message of `send_icmp_response` for a non-zero type. */
  function ErrorAnswer(f: LongFrame, out: Iface, src: Ip, kind: byte, code: byte): Frame {
    IpFrame(SourceMac(f), out.addr, AnswerHeader(f, 56, src), IcmpError(f, kind, code))
  }

  /** The length field of an echo reply: 16 bits of the length after the Ethernet header. */
  function EchoLength(f: Frame): uint16 {
    (|f| - ETHERNET_LENGTH) % 0x1_0000
  }

  /** The message of `send_icmp_response` for type 0: the echo request's own
      data, with type and code cleared. */
  function EchoAnswer(f: Frame, out: Iface, src: Ip): Frame
    requires |f| >= ECHO_FRAME_LENGTH
  {
    IpFrame(SourceMac(f), out.addr, AnswerHeader(f, EchoLength(f), src),
            Stamp([0, 0] + f[36..], 2))
  }

  // ---------- the fields of what was built ----------

  /** Every ICMP frame the router originates is addressed to the source of the
      frame it answers, and both of its checksums satisfy RFC 1071. */
  predicate WellAddressed(answer: Frame, to: Frame) {
    && SourceIp(to) == DestIp(answer)
    && answer[..6] == SourceMac(to)
    && EtherType(answer) == TYPE_IP
    && Protocol(answer) == PROTOCOL_ICMP
    && Rfc1071Accepts(HeaderOf(answer))
    && Rfc1071Accepts(answer[34..])
  }

  /** An ICMP error of this type and code quoting the first 28 octets after the
      Ethernet header of `f`. */
  predicate Quotes(answer: Frame, f: LongFrame, kind: byte, code: byte) {
    |answer| == ICMP_ERROR_LENGTH && answer[34] == kind && answer[35] == code && answer[42..] == f[14..42]
  }

  lemma FreshHeaderFields(src: Ip, dst: Ip)
    ensures var h := FreshHeader(src, dst);
      Rfc1071Accepts(h) && h[9] == PROTOCOL_ICMP && h[12..16] == src && h[16..20] == dst
  {
    hide Rfc1071Accepts, Stamp;
    var h := BareHeader(src, dst);
    StampIsAccepted(h, SUM);
    StampElsewhere(h, SUM);
  }

  lemma AnswerHeaderFields(f: Frame, length: uint16, src: Ip)
    ensures var h := AnswerHeader(f, length, src);
      Rfc1071Accepts(h) && h[9] == PROTOCOL_ICMP && h[12..16] == src && h[16..20] == SourceIp(f)
  {
    hide Rfc1071Accepts, Stamp, BigEndian16;
    var h := BareAnswerHeader(f, length, src);
    StampIsAccepted(h, SUM);
    StampElsewhere(h, SUM);
  }

  lemma IcmpErrorFields(f: LongFrame, kind: byte, code: byte)
    ensures var m := IcmpError(f, kind, code);
      Rfc1071Accepts(m) && m[0] == kind && m[1] == code && m[8..] == f[14..42]
  {
    hide Rfc1071Accepts, Stamp;
    var m := [kind, code, 0, 0, 0, 0, 0, 0] + f[14..42];
    StampIsAccepted(m, 2);
    StampElsewhere(m, 2);
  }

  /** The host-unreachable message goes to the waiting frame's own source. */
  lemma Unreachable3IsWellAddressed(f: LongFrame, out: Iface, kind: byte, code: byte)
    ensures WellAddressed(Unreachable3(f, out, kind, code), f) && SourceIp(Unreachable3(f, out, kind, code)) == out.ip
    ensures Quotes(Unreachable3(f, out, kind, code), f, kind, code)
  {
    hide Rfc1071Accepts, IpFrame, FreshHeader, IcmpError, GetWord;
    FreshHeaderFields(out.ip, SourceIp(f));
    IcmpErrorFields(f, kind, code);
    var a := Unreachable3(f, out, kind, code);
    IpFrameFields(a);
  }

  lemma ErrorAnswerIsWellAddressed(f: LongFrame, out: Iface, src: Ip, kind: byte, code: byte)
    ensures WellAddressed(ErrorAnswer(f, out, src, kind, code), f)
      && SourceIp(ErrorAnswer(f, out, src, kind, code)) == src
    ensures Quotes(ErrorAnswer(f, out, src, kind, code), f, kind, code)
  {
    hide Rfc1071Accepts, IpFrame, AnswerHeader, IcmpError, GetWord;
    AnswerHeaderFields(f, 56, src);
    IcmpErrorFields(f, kind, code);
    IpFrameFields(ErrorAnswer(f, out, src, kind, code));
  }

  /** The echo reply carries the request's data back, with type and code 0. */
  lemma EchoAnswerIsWellAddressed(f: Frame, out: Iface, src: Ip)
    requires ECHO_FRAME_LENGTH <= |f| <= 131074
    ensures WellAddressed(EchoAnswer(f, out, src), f) && SourceIp(EchoAnswer(f, out, src)) == src
    ensures var a := EchoAnswer(f, out, src);
      |a| == |f| && a[34] == 0 && a[35] == 0 && a[38..] == f[38..]
  {
    hide Rfc1071Accepts, IpFrame, AnswerHeader, Stamp, GetWord;
    var m := [0, 0] + f[36..];
    AnswerHeaderFields(f, EchoLength(f), src);
    StampIsAccepted(m, 2);
    StampElsewhere(m, 2);
    var a := EchoAnswer(f, out, src);
    IpFrameFields(a);
    assert a[38..] == Stamp(m, 2)[4..];
  }

  /** The total length of a reply is 16 bits of the length of the frame it answers. */
  lemma EchoAnswerLength(f: Frame, out: Iface, src: Ip)
    requires |f| >= ECHO_FRAME_LENGTH
    ensures GetWord(EchoAnswer(f, out, src), 16) == (|f| - ETHERNET_LENGTH) % 0x1_0000
  {
    hide Stamp, BigEndian16, IpFrame;
    var a, h := EchoAnswer(f, out, src), BareAnswerHeader(f, EchoLength(f), src);
    StampElsewhere(h, SUM);
    assert HeaderOf(a) == Stamp(h, SUM);
    assert a[16] == HeaderOf(a)[2] && a[17] == HeaderOf(a)[3];
    assert h[2] == BigEndian16(EchoLength(f))[0] && h[3] == BigEndian16(EchoLength(f))[1];
  }

  lemma IpFrameFields(f: Frame)
    ensures Protocol(f) == HeaderOf(f)[9] && SourceIp(f) == HeaderOf(f)[12..16] && DestIp(f) == HeaderOf(f)[16..20]
    ensures |f[34..]| >= 4 ==> f[34] == f[34..][0] && f[35] == f[34..][1] && f[38..] == f[34..][4..]
    ensures |f[34..]| >= 8 ==> f[42..] == f[34..][8..]
  {
    assert SourceIp(f) == HeaderOf(f)[12..16];
    assert DestIp(f) == HeaderOf(f)[16..20];
  }
}
