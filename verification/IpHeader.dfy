/** The IP header as the forwarding path of `handle_ip_packet` treats it:
    the checksum test on arrival, and the ageing of a header before it leaves. */
module IpHeader {
  import opened Bytes
  import opened Checksum

  const HEADER_LENGTH: nat := 20
  const TTL: nat := 8
  const SUM: nat := 10

  /** An IP header without options. */
  type Header = h: seq<byte> | |h| == HEADER_LENGTH witness Zeros(HEADER_LENGTH)

  /** The router's test: zero the field, recompute, compare. */
  predicate Accepts(h: Header) {
    GetWord(h, SUM) == Cksum(SetWord(h, SUM, 0))
  }

  /** `ip_ttl--` on an 8-bit field. */
  function Decrement(ttl: byte): byte {
    if ttl == 0 then 0xff else ttl - 1
  }

  /** The header that is forwarded: one hop older, checksum recomputed. */
  function Aged(h: Header): Header {
    Stamp(h[TTL := Decrement(h[TTL])], SUM)
  }

  /** The router accepts exactly the headers RFC 1071 accepts, less those whose
      stored checksum is 0x0000. */
  lemma AcceptanceIsRfc1071(h: Header)
    ensures Accepts(h) <==> Rfc1071Accepts(h) && GetWord(h, SUM) != 0
  {
    AcceptanceSet(h, SUM);
  }

  /** The divergence is real: a header RFC 1071 accepts and the router drops. */
  lemma ZeroChecksumIsDropped()
    ensures exists h: Header :: Rfc1071Accepts(h) && !Accepts(h)
  {
    var h: Header := [0xff, 0xff] + Zeros(18);
    assert h[2..] == Zeros(18);
    OnesSumOfZeros(18);
    assert Rfc1071Accepts(h);
    AcceptanceIsRfc1071(h);
  }

  lemma {:induction false} OnesSumOfZeros(n: nat)
    ensures OnesSum(Zeros(n)) == 0
  {
    if n >= 2 {
      assert Zeros(n)[2..] == Zeros(n - 2);
      OnesSumOfZeros(n - 2);
    }
  }

  /** Ageing touches the TTL and the checksum and nothing else, and what comes
      out is accepted both by RFC 1071 and by the next router of this kind. */
  lemma AgedIsValid(h: Header)
    ensures Rfc1071Accepts(Aged(h)) && Accepts(Aged(h))
    ensures Aged(h)[TTL] == Decrement(h[TTL])
    ensures forall i :: 0 <= i < HEADER_LENGTH && i != TTL && i != SUM && i != SUM + 1 ==> Aged(h)[i] == h[i]
  {
    hide Stamp, Rfc1071Accepts, Accepts, GetWord;
    StampElsewhere(h[TTL := Decrement(h[TTL])], SUM);
    StampIsAccepted(h[TTL := Decrement(h[TTL])], SUM);
    AcceptanceIsRfc1071(Aged(h));
  }

  /** The incremental update of RFC 1141: the new checksum is the one value in
      1..0xffff congruent to the old one plus 0x0100 modulo 65535. */
  lemma AgedChecksum(h: Header, v: uint16)
    ensures Accepts(h) && h[TTL] > 0 ==>
      (v == GetWord(Aged(h), SUM) <==>
       v != 0 && v % 0xffff == (GetWord(h, SUM) + 0x0100) % 0xffff)
  {
    hide Cksum, SetWord, Sum, GetWord;
    if Accepts(h) && h[TTL] > 0 {
      var rest, older := SetWord(h, SUM, 0), SetWord(h[TTL := h[TTL] - 1], SUM, 0);
      CksumBounded(rest);
      CksumBounded(older);
      OlderSum(h);
      IncrementalUpdate(Sum(older), GetWord(h, SUM), GetWord(Aged(h), SUM), v);
    }
  }

  /** One hop takes 0x0100 off the sum: the TTL is the high octet of its word. */
  lemma OlderSum(h: Header)
    requires h[TTL] > 0
    ensures Sum(SetWord(h, SUM, 0)) == Sum(SetWord(h[TTL := h[TTL] - 1], SUM, 0)) + 0x0100
  {
    hide Sum, SetWord;
    var rest, older := SetWord(h, SUM, 0), SetWord(h[TTL := h[TTL] - 1], SUM, 0);
    var w := GetWord(older, TTL);
    assert w == GetWord(rest, TTL) - 0x0100;
    SetWordAgree(SetWord(rest, TTL, w), older, SUM);
    SumOfUpdate(rest, TTL, w);
  }

  lemma IncrementalUpdate(older: nat, f: uint16, g: uint16, v: uint16)
    requires f == 0xffff - (older + 0x0100) % 0xffff
    requires g == 0xffff - older % 0xffff
    ensures v == g <==> v != 0 && v % 0xffff == (f + 0x0100) % 0xffff
  {
    ClosesTheSum(older, g);
    ClosesTheSum(older, v);
    ClosesTheSum(older + 0x0100, f);
    SameResidue(older, v, f + 0x0100);
  }

  /** Two numbers that both complete `rest` to a multiple of 65535 are congruent, and conversely. */
  lemma SameResidue(rest: nat, a: nat, b: nat)
    requires (rest + b) % 0xffff == 0
    ensures (rest + a) % 0xffff == 0 <==> a % 0xffff == b % 0xffff
  {
    var r, x, y := rest % 0xffff, a % 0xffff, b % 0xffff;
    assert (r + y) % 0xffff == 0;
    assert (rest + a) % 0xffff == (r + x) % 0xffff;
  }
}
