/** The Internet checksum of `cksum` against section 1 of RFC 1071. */
module Checksum {
  import opened Bytes

  const WORD_MODULUS := 0x1_0000_0000

  // ---------- RFC 1071: one's complement sum, complemented ----------

  /** 16-bit one's complement addition: the carry is added back in. */
  function OnesAdd(a: uint16, b: uint16): uint16 {
    if a + b > 0xffff then a + b - 0xffff else a + b
  }

  /** The one's complement sum of the 16-bit words of `data`, an odd last octet
      being padded with zero. */
  function OnesSum(data: seq<byte>): uint16 {
    if |data| == 0 then 0
    else if |data| == 1 then Word16(data[0], 0)
    else OnesAdd(Word16(data[0], data[1]), OnesSum(data[2..]))
  }

  /** The checksum field for `data`, 0xffff standing for zero. */
  function Rfc1071(data: seq<byte>): uint16 {
    var c := 0xffff - OnesSum(data);
    if c == 0 then 0xffff else c
  }

  /** A receiver accepts `data` (its checksum field included) on this condition. */
  predicate Rfc1071Accepts(data: seq<byte>) {
    OnesSum(data) == 0xffff
  }

  // ---------- what the C code computes ----------

  /** The plain sum of the 16-bit words. */
  function Sum(data: seq<byte>): nat {
    if |data| == 0 then 0
    else if |data| == 1 then Word16(data[0], 0)
    else Word16(data[0], data[1]) + Sum(data[2..])
  }

  /** What folding, complementing and the zero rule make of the accumulator. */
  function Finish(sum: uint32): uint16 {
    0xffff - sum % 0xffff
  }

  /** The value of `cksum`, read in network order. The accumulator is 32 bits wide. */
  function Cksum(data: seq<byte>): uint16 {
    Finish(Sum(data) % WORD_MODULUS)
  }

  /** The shifts and masks of the C code are the arithmetic of the model: `<< 8 |` on two
      octets, and `>> 16` and `& 0xffff` on the accumulator. */
  lemma ShiftsAreArithmetic(hi: bv32, lo: bv32, sum: bv32)
    requires hi < 0x100 && lo < 0x100
    ensures (hi << 8) | lo == 0x100 * hi + lo
    ensures sum >> 16 == sum / 0x1_0000 && sum & 0xffff == sum % 0x1_0000
  {}

  lemma AddWrapped(total: nat, w: uint16)
    ensures (total % WORD_MODULUS + w) % WORD_MODULUS == (total + w) % WORD_MODULUS
  {}

  /** The first loop of `cksum`: the 32-bit sum of the words. */
  method SumWords(data: array<byte>, from: nat, len: nat) returns (sum: uint32)
    requires from + len <= data.Length
    ensures sum == Sum(data[from..from + len]) % WORD_MODULUS
  {
    ghost var all := data[from..from + len];
    ghost var total: nat := 0;
    var p, left := from, len;
    sum := 0;
    while left >= 2
      invariant from <= p && p + left == from + len
      invariant total + Sum(data[p..p + left]) == Sum(all)
      invariant sum == total % WORD_MODULUS
      decreases left
    {
      var w := Word16(data[p], data[p + 1]);
      assert data[p..p + left][2..] == data[p + 2..p + left];
      AddWrapped(total, w);
      sum, total := (sum + w) % WORD_MODULUS, total + w;
      p, left := p + 2, left - 2;
    }
    if left > 0 {
      var w := Word16(data[p], 0);
      assert data[p..p + left] == [data[p]];
      AddWrapped(total, w);
      sum := (sum + w) % WORD_MODULUS;
    }
  }

  /** The checksum routine: the sum loop, then the folding loop. */
  method ComputeCksum(data: array<byte>, from: nat, len: nat) returns (c: uint16)
    requires from + len <= data.Length
    ensures c == Cksum(data[from..from + len])
  {
    var sum := SumWords(data, from, len);
    c := FoldAndComplement(sum);
  }

  /** The folding loop. It keeps the sum modulo 65535 and whether it is zero, and
      two rounds are always enough. */
  method Fold(start: uint32) returns (sum: uint16, ghost rounds: nat)
    ensures sum % 0xffff == start % 0xffff && (sum == 0 <==> start == 0) && rounds <= 2
  {
    var s := start;
    rounds := 0;
    while s > 0xffff
      invariant 0 <= s < WORD_MODULUS && s % 0xffff == start % 0xffff && (s == 0 <==> start == 0)
      invariant rounds == 1 ==> s <= 0x1fffe
      invariant rounds == 2 ==> s <= 0xffff
      invariant 0 <= rounds <= 2
      decreases 2 - rounds
    {
      FoldKeepsResidue(s);
      s := s / 0x1_0000 + s % 0x1_0000;
      rounds := rounds + 1;
    }
    sum := s;
  }

  /** Folding, the complement, and the rule for zero. */
  method FoldAndComplement(start: uint32) returns (c: uint16)
    ensures c == Finish(start) != 0
  {
    var sum, _ := Fold(start);
    c := 0xffff - sum;
    if c == 0 {
      c := 0xffff;
    }
  }

  lemma FoldKeepsResidue(sum: uint32)
    ensures (sum / 0x1_0000 + sum % 0x1_0000) % 0xffff == sum % 0xffff
  {
    var h, l := sum / 0x1_0000, sum % 0x1_0000;
    assert sum == h + l + 0xffff * h;
  }

  // ---------- the two agree ----------

  /** 0 for 0, and otherwise the number brought into 1..0xffff modulo 65535. */
  function EndAround(n: nat): uint16 {
    if n == 0 then 0 else 1 + (n - 1) % 0xffff
  }

  /** The one's complement sum in closed form. */
  lemma {:induction false} SumsAgree(data: seq<byte>)
    ensures OnesSum(data) == EndAround(Sum(data))
  {
    hide EndAround, OnesAdd;
    NothingToAdd();
    if |data| >= 2 {
      SumsAgree(data[2..]);
      OneMoreWord(Word16(data[0], data[1]), Sum(data[2..]));
    } else if |data| == 1 {
      OneWord(Word16(data[0], 0));
    }
  }

  lemma NothingToAdd()
    ensures EndAround(0) == 0
  {}

  lemma OneWord(w: uint16)
    ensures EndAround(w) == w
  {}

  lemma OneMoreWord(w: uint16, n: nat)
    ensures OnesAdd(w, EndAround(n)) == EndAround(w + n)
  {
    if n > 0 {
      var q, r := (n - 1) / 0xffff, (n - 1) % 0xffff;
      assert w + n - 1 == w + r + 0xffff * q;
    }
  }

  lemma ClosedForms(n: nat)
    ensures EndAround(n) % 0xffff == n % 0xffff && (EndAround(n) == 0 <==> n == 0)
  {
    if n > 0 {
      var q, r := (n - 1) / 0xffff, (n - 1) % 0xffff;
      assert n == 1 + r + 0xffff * q;
    }
  }

  /** The RFC 1071 checksum in closed form: never 0, and minus the sum modulo 65535. */
  lemma Rfc1071ClosedForm(data: seq<byte>)
    ensures Rfc1071(data) == 0xffff - Sum(data) % 0xffff
  {
    hide Sum, OnesSum;
    SumsAgree(data);
    ClosedForms(Sum(data));
  }

  lemma {:induction false} SumBound(data: seq<byte>)
    ensures Sum(data) <= 0xffff * ((|data| + 1) / 2)
  {
    if |data| >= 2 {
      SumBound(data[2..]);
    }
  }

  /** `cksum` is the RFC 1071 checksum exactly when the number of times its
      32-bit accumulator wrapped is a multiple of 65535. */
  lemma CksumExact(data: seq<byte>)
    ensures Cksum(data) == Rfc1071(data) <==> Sum(data) / WORD_MODULUS % 0xffff == 0
  {
    Rfc1071ClosedForm(data);
    var k, r := Sum(data) / WORD_MODULUS, Sum(data) % WORD_MODULUS;
    assert Sum(data) == r + k + 0xffff * (k * 0x1_0001);
    ResidueOfSum(r, k, k * 0x1_0001);
  }

  lemma ResidueOfSum(r: nat, k: nat, q: nat)
    ensures (r + k + 0xffff * q) % 0xffff == r % 0xffff <==> k % 0xffff == 0
  {
    assert (r + k + 0xffff * q) % 0xffff == (r + k) % 0xffff;
  }

  /** For every buffer of at most 131074 octets, odd lengths included, the
      accumulator never wraps and the result is the RFC 1071 checksum, never 0. */
  lemma CksumIsRfc1071(data: seq<byte>)
    requires |data| <= 131074
    ensures Sum(data) < WORD_MODULUS
    ensures Cksum(data) == Rfc1071(data) != 0
  {
    SumBound(data);
    QuotientOfBounded(Sum(data), (|data| + 1) / 2);
    CksumExact(data);
    Rfc1071NotZero(data);
  }

  lemma QuotientOfBounded(sum: nat, words: nat)
    requires words <= 65537 && sum <= 0xffff * words
    ensures sum < WORD_MODULUS && sum / WORD_MODULUS == 0
  {}

  lemma Rfc1071NotZero(data: seq<byte>)
    ensures Rfc1071(data) != 0
  {
    Rfc1071ClosedForm(data);
  }

  /** The bound is sharp: one more word of ones and the wrapped carry is lost. */
  lemma BoundIsSharp()
    ensures exists data: seq<byte> :: |data| == 131076 && Cksum(data) != Rfc1071(data)
  {
    var data := Ones(131076);
    SumOfOnes(|data|);
    CksumExact(data);
    QuotientOfWrapped(Sum(data));
  }

  lemma QuotientOfWrapped(sum: nat)
    requires sum == 0xffff * 65538
    ensures sum / WORD_MODULUS % 0xffff == 1
  {}

  function Ones(n: nat): (s: seq<byte>)
    ensures |s| == n
  {
    seq(n, _ => 0xff)
  }

  lemma {:induction false} SumOfOnes(n: nat)
    requires n % 2 == 0
    ensures Sum(Ones(n)) == 0xffff * (n / 2)
  {
    if n > 0 {
      assert Ones(n)[2..] == Ones(n - 2);
      SumOfOnes(n - 2);
    }
  }

  // ---------- a buffer and what comes after it ----------

  /** What `b` adds to the sum of `a`: after an odd number of octets its words start
      half-way. */
  function SumAfter(a: seq<byte>, b: seq<byte>): nat {
    if |a| % 2 == 0 then Sum(b) else Sum([0] + b)
  }

  lemma {:induction false} SumOfConcat(a: seq<byte>, b: seq<byte>)
    ensures Sum(a + b) == Sum(a) + SumAfter(a, b)
  {
    if a == [] {
      assert a + b == b;
    } else if |a| == 1 {
      SumAfterOne(a[0], b);
      assert a == [a[0]];
    } else {
      assert (a + b)[2..] == a[2..] + b;
      SumOfConcat(a[2..], b);
    }
  }

  lemma SumAfterOne(x: byte, b: seq<byte>)
    ensures Sum([x] + b) == Word16(x, 0) + Sum([0] + b)
  {
    if b != [] {
      assert ([x] + b)[2..] == b[1..] == ([0] + b)[2..];
    }
  }

  lemma AcceptsBySum(data: seq<byte>)
    ensures Rfc1071Accepts(data) <==> Sum(data) > 0 && Sum(data) % 0xffff == 0
  {
    hide Sum, OnesSum;
    SumsAgree(data);
    ClosedForms(Sum(data));
    OnesResidue(OnesSum(data));
  }

  /** Octets after a buffer keep its acceptance exactly when they add a multiple of 65535. */
  lemma AcceptsAppended(a: seq<byte>, b: seq<byte>)
    ensures Rfc1071Accepts(a) ==> (Rfc1071Accepts(a + b) <==> SumAfter(a, b) % 0xffff == 0)
    ensures Sum(a) > 0 && SumAfter(a, b) % 0xffff == 0 ==> (Rfc1071Accepts(a + b) <==> Rfc1071Accepts(a))
  {
    hide Sum, SumAfter, Rfc1071Accepts;
    SumOfConcat(a, b);
    AcceptsBySum(a);
    AcceptsBySum(a + b);
    SumOfResidues(Sum(a), SumAfter(a, b));
  }

  lemma SumOfResidues(x: nat, y: nat)
    ensures x % 0xffff == 0 ==> (x + y) % 0xffff == y % 0xffff
    ensures y % 0xffff == 0 ==> (x + y) % 0xffff == x % 0xffff
  {
    if x % 0xffff == 0 {
      assert x + y == y + 0xffff * (x / 0xffff);
    }
    if y % 0xffff == 0 {
      assert x + y == x + 0xffff * (y / 0xffff);
    }
  }

  // ---------- storing a checksum ----------

  /** Replaces the 16-bit field at `at`. */
  function SetWord(data: seq<byte>, at: nat, v: uint16): (r: seq<byte>)
    requires at + 2 <= |data|
    ensures |r| == |data|
    ensures GetWord(r, at) == v
    ensures forall i :: 0 <= i < |data| && i != at && i != at + 1 ==> r[i] == data[i]
  {
    var octets := BigEndian16(v);
    data[at := octets[0]][at + 1 := octets[1]]
  }

  function GetWord(data: seq<byte>, at: nat): uint16
    requires at + 2 <= |data|
  {
    Word16(data[at], data[at + 1])
  }

  /** A 16-bit field determines its octets. */
  lemma SetWordAgree(a: seq<byte>, b: seq<byte>, at: nat)
    requires at + 2 <= |a| == |b| && GetWord(a, at) == GetWord(b, at)
    requires forall i :: 0 <= i < |a| && i != at && i != at + 1 ==> a[i] == b[i]
    ensures a == b
  {}

  lemma {:induction false} SumOfUpdate(data: seq<byte>, at: nat, v: uint16)
    requires at % 2 == 0 && at + 2 <= |data|
    ensures Sum(SetWord(data, at, v)) == Sum(data) - GetWord(data, at) + v
  {
    hide SetWord;
    var r := SetWord(data, at, v);
    if at == 0 {
      assert r[2..] == data[2..];
    } else {
      var t := SetWord(data[2..], at - 2, v);
      SetWordAgree(r[2..], t, at - 2);
      SumOfUpdate(data[2..], at - 2, v);
    }
  }

  /** Zeroes the field, then stores the checksum of the result in it. */
  function Stamp(data: seq<byte>, at: nat): (r: seq<byte>)
    requires at + 2 <= |data|
    ensures |r| == |data|
  {
    var zeroed := SetWord(data, at, 0);
    SetWord(zeroed, at, Cksum(zeroed))
  }

  lemma StampElsewhere(data: seq<byte>, at: nat)
    requires at + 2 <= |data|
    ensures forall i :: 0 <= i < |data| && i != at && i != at + 1 ==> Stamp(data, at)[i] == data[i]
  {
    hide Cksum, SetWord;
  }

  /** A stamped buffer is accepted by an RFC 1071 receiver, whatever it held. */
  lemma StampIsAccepted(data: seq<byte>, at: nat)
    requires at % 2 == 0 && at + 2 <= |data| <= 131074
    ensures Rfc1071Accepts(Stamp(data, at))
    ensures GetWord(Stamp(data, at), at) != 0
  {
    hide Cksum, Sum, OnesSum, SetWord, GetWord;
    var zeroed := SetWord(data, at, 0);
    CksumBounded(zeroed);
    StoreCloses(zeroed, at, Cksum(zeroed));
  }

  lemma StoreCloses(zeroed: seq<byte>, at: nat, c: uint16)
    requires at % 2 == 0 && at + 2 <= |zeroed| && GetWord(zeroed, at) == 0
    requires c == 0xffff - Sum(zeroed) % 0xffff
    ensures Rfc1071Accepts(SetWord(zeroed, at, c))
    ensures GetWord(SetWord(zeroed, at, c), at) == c != 0
  {
    SumOfUpdate(zeroed, at, c);
    FieldCloses(SetWord(zeroed, at, c), at, Sum(zeroed));
  }

  lemma CksumBounded(data: seq<byte>)
    requires |data| <= 131074
    ensures Cksum(data) == 0xffff - Sum(data) % 0xffff
  {
    CksumIsRfc1071(data);
    Rfc1071ClosedForm(data);
  }

  /** With `rest` the sum of everything but the field at `at`. */
  lemma FieldCloses(data: seq<byte>, at: nat, rest: nat)
    requires at + 2 <= |data| && Sum(data) == rest + GetWord(data, at)
    ensures GetWord(data, at) == 0xffff - rest % 0xffff <==>
            Rfc1071Accepts(data) && GetWord(data, at) != 0
  {
    ClosesTheSum(rest, GetWord(data, at));
    SumsAgree(data);
    ClosedForms(Sum(data));
    OnesResidue(OnesSum(data));
  }

  /** `field` is the complement of `rest` exactly when the two sum to a multiple of 65535. */
  lemma ClosesTheSum(rest: nat, field: uint16)
    ensures field == 0xffff - rest % 0xffff <==> (rest + field) % 0xffff == 0 && field != 0
  {
    var q, r := rest / 0xffff, rest % 0xffff;
    assert rest + field == r + field + 0xffff * q;
  }

  lemma OnesResidue(v: uint16)
    ensures v % 0xffff == 0 <==> v == 0 || v == 0xffff
  {}

  /** The test "zero the field, recompute, compare" accepts exactly the buffers
      RFC 1071 accepts whose field is not 0x0000. */
  lemma AcceptanceSet(data: seq<byte>, at: nat)
    requires at % 2 == 0 && at + 2 <= |data| <= 131074
    ensures GetWord(data, at) == Cksum(SetWord(data, at, 0)) <==>
            Rfc1071Accepts(data) && GetWord(data, at) != 0
  {
    hide Cksum, Sum, OnesSum, SetWord, GetWord;
    var zeroed := SetWord(data, at, 0);
    CksumBounded(zeroed);
    SumOfUpdate(data, at, 0);
    FieldCloses(data, at, Sum(zeroed));
  }

  /** Stamping does not depend on what the field held. */
  lemma StampIgnoresField(data: seq<byte>, at: nat, v: uint16)
    requires at + 2 <= |data|
    ensures Stamp(SetWord(data, at, v), at) == Stamp(data, at)
  {
    hide Cksum, SetWord;
    SetWordAgree(SetWord(SetWord(data, at, v), at, 0), SetWord(data, at, 0), at);
  }
}
