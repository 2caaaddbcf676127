/** What an echo request meets that is followed by padding: the code takes a frame to
    its end for the IP datagram, whatever total length its header gives. */
module Padding {
  import opened Bytes
  import opened Checksum
  import opened IpHeader
  import opened Network
  import opened Frames
  import opened RouterModel
  import opened Answers

  /** The length of the datagram, as its header has it. */
  function TotalLength(f: Frame): uint16 {
    GetWord(f, 16)
  }

  /** The datagram holds an IP header and an ICMP header, and ends within the frame. */
  predicate Framed(f: Frame) {
    ECHO_FRAME_LENGTH <= ETHERNET_LENGTH + TotalLength(f) <= |f|
  }

  /** The frame without what follows the datagram. */
  function Trimmed(f: Frame): Frame
    requires Framed(f)
  {
    f[..ETHERNET_LENGTH + TotalLength(f)]
  }

  function Message(f: Frame): seq<byte>
    requires Framed(f)
  {
    f[34..ETHERNET_LENGTH + TotalLength(f)]
  }

  function PaddingOf(f: Frame): seq<byte>
    requires Framed(f)
  {
    f[ETHERNET_LENGTH + TotalLength(f)..]
  }

  // ---------- the reply ----------

  /** A reply has the length of its request if and only if nothing follows the
      datagram, for every frame of at most 65549 octets. */
  lemma ReplyLengthExactly(f: Frame, out: Iface, src: Ip)
    requires ECHO_FRAME_LENGTH <= |f| <= 65549
    ensures TotalLength(EchoAnswer(f, out, src)) == TotalLength(f) <==> |f| == ETHERNET_LENGTH + TotalLength(f)
  {
    hide EchoAnswer;
    EchoAnswerLength(f, out, src);
  }

  /** The reply is the one the datagram calls for if and only if nothing follows it;
      what follows is sent back as data. */
  lemma ReplyIsRightExactly(f: Frame, out: Iface, src: Ip)
    requires Framed(f)
    ensures EchoAnswer(f, out, src) == EchoAnswer(Trimmed(f), out, src) <==> PaddingOf(f) == []
  {
    hide AnswerHeader, Stamp, Ethernet;
    if PaddingOf(f) == [] {
      assert Trimmed(f) == f;
    }
  }

  // ---------- whether there is one ----------

  lemma HeadOfFrame(f: Frame, k: nat)
    requires ECHO_FRAME_LENGTH <= k <= |f|
    ensures HeaderOf(f[..k]) == HeaderOf(f) && DestIp(f[..k]) == DestIp(f) && f[..k][34..] == f[34..k]
  {
    assert f[..k][14..34] == f[14..34];
    assert f[..k][30..34] == f[30..34];
  }

  lemma SameWithoutPadding(f: Frame)
    requires Framed(f)
    ensures var g := Trimmed(f);
      && HeaderOf(g) == HeaderOf(f) && DestIp(g) == DestIp(f) && Protocol(g) == Protocol(f)
      && GetWord(g, 36) == GetWord(f, 36) == GetWord(Message(f), 2) && g[34] == f[34]
      && g[34..] == Message(f) && f[34..] == Message(f) + PaddingOf(f)
  {
    var g, k := Trimmed(f), ETHERNET_LENGTH + TotalLength(f);
    HeadOfFrame(f, k);
    assert f[34..] == f[34..k] + f[k..];
  }

  /** With a checksum in its field a message does not sum to 0. */
  lemma SumOfFilled(data: seq<byte>, at: nat)
    requires at % 2 == 0 && at + 2 <= |data| && GetWord(data, at) != 0
    ensures Sum(data) > 0
  {
    hide Sum, SetWord;
    SumOfUpdate(data, at, 0);
  }

  /** A request that is answered without its padding is answered with it if and only
      if the padding adds a multiple of 65535 to the sum, and then the padding
      changes no decision at all. */
  lemma PaddingDecides(cfg: Config, f: Frame, in_: Name)
    requires |f| <= 131074 && Framed(f)
    ensures
      var whole, bare := Classify(cfg, f, in_), Classify(cfg, Trimmed(f), in_);
      var neutral := SumAfter(Message(f), PaddingOf(f)) % 0xffff == 0;
      ForUs(cfg, f) && Protocol(f) == PROTOCOL_ICMP ==>
      && (bare.Answer? ==> (whole.Answer? <==> neutral))
      && (neutral ==> (whole.Answer? <==> bare.Answer?))
  {
    hide Classify, Accepts, Rfc1071Accepts, Sum, SumAfter, GetWord, EchoOf, FindIp;
    if ForUs(cfg, f) && Protocol(f) == PROTOCOL_ICMP {
      SameWithoutPadding(f);
      EchoIsAnswered(cfg, f, in_);
      EchoIsAnswered(cfg, Trimmed(f), in_);
      AcceptsAppended(Message(f), PaddingOf(f));
      if GetWord(f, 36) != 0 {
        SumOfFilled(Message(f), 2);
      }
    }
  }

  /** Zeros are neutral. */
  lemma {:induction false} ZerosAddNothing(n: nat)
    ensures Sum(Zeros(n)) == 0
  {
    if n >= 2 {
      assert Zeros(n)[2..] == Zeros(n - 2);
      ZerosAddNothing(n - 2);
    }
  }

  lemma ZeroPaddingIsNeutral(a: seq<byte>, n: nat)
    ensures SumAfter(a, Zeros(n)) == 0
  {
    hide Sum;
    ZerosAddNothing(n);
    ZerosAddNothing(n + 1);
    assert [0] + Zeros(n) == Zeros(n + 1);
  }
}
