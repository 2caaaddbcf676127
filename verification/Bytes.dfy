/** Machine-level values shared by every module: octets, big-endian fields,
    addresses as they lie in memory, and C strings in fixed-size buffers. */
module Bytes {
  type byte = x: int | 0 <= x < 0x100
  type uint16 = x: int | 0 <= x < 0x1_0000
  type uint32 = x: int | 0 <= x < 0x1_0000_0000

  /** An IPv4 address: the four octets of a `uint32_t` kept in network order. */
  type Ip = s: seq<byte> | |s| == 4 witness [0, 0, 0, 0]

  /** A hardware address. */
  type Mac = s: seq<byte> | |s| == 6 witness [0, 0, 0, 0, 0, 0]

  const NAME_LENGTH: nat := 32

  /** The text held by a `char[32]` buffer: at most 32 octets, none of them NUL. */
  type Name = s: seq<byte> | |s| <= NAME_LENGTH && 0 !in s

  function Word16(hi: byte, lo: byte): uint16 {
    0x100 * hi + lo
  }

  /** The two octets, most significant first, that read as `v`. */
  function BigEndian16(v: uint16): (s: seq<byte>)
    ensures |s| == 2 && Word16(s[0], s[1]) == v
  {
    assert Word16(v / 0x100, v % 0x100) == v;
    var hi: byte, lo: byte :| Word16(hi, lo) == v;
    [hi, lo]
  }

  lemma OctetsOfWord16(hi: byte, lo: byte)
    ensures BigEndian16(Word16(hi, lo)) == [hi, lo]
  {
    var s := BigEndian16(Word16(hi, lo));
    assert Word16(s[0], s[1]) == Word16(hi, lo);
  }

  /** They are its quotient and its remainder by 256. */
  lemma QuotientAndRemainder(v: uint16)
    ensures BigEndian16(v) == [v / 0x100, v % 0x100]
  {
    OctetsOfWord16(v / 0x100, v % 0x100);
  }

  function Word32(s: seq<byte>): uint32
    requires |s| == 4
  {
    0x1_0000 * (Word16(s[0], s[1]) as int) + Word16(s[2], s[3])
  }

  lemma HalvesOfWord32(s: seq<byte>, high: uint16, low: uint16)
    requires |s| == 4 && Word32(s) == 0x1_0000 * high + low
    ensures Word16(s[0], s[1]) == high && Word16(s[2], s[3]) == low
  {}

  /** The upper half of a word. */
  function HighHalf(v: uint32): (h: uint16)
    ensures 0 <= v - 0x1_0000 * h < 0x1_0000
  {
    assert 0 <= v - 0x1_0000 * (v / 0x1_0000) < 0x1_0000;
    var h: uint16 :| 0 <= v - 0x1_0000 * h < 0x1_0000;
    h
  }

  /** The four octets, most significant first, that read as `v`. */
  function BigEndian32(v: uint32): (s: seq<byte>)
    ensures |s| == 4 && Word32(s) == v
  {
    hide BigEndian16, HighHalf;
    BigEndian16(HighHalf(v)) + BigEndian16(v - 0x1_0000 * HighHalf(v))
  }

  lemma OctetsOfWord32(s: seq<byte>)
    requires |s| == 4
    ensures BigEndian32(Word32(s)) == s
  {
    var t := BigEndian32(Word32(s));
    HalvesOfWord32(t, Word16(s[0], s[1]), Word16(s[2], s[3]));
    OctetsOfWord16(s[0], s[1]);
    OctetsOfWord16(s[2], s[3]);
    OctetsOfWord16(t[0], t[1]);
    OctetsOfWord16(t[2], t[3]);
    assert BigEndian16(Word16(s[0], s[1])) == [t[0], t[1]] && BigEndian16(Word16(s[2], s[3])) == [t[2], t[3]];
  }

  /** `n` octets of zero. */
  function Zeros(n: nat): (s: seq<byte>)
    ensures |s| == n && forall i :: 0 <= i < n ==> s[i] == 0
  {
    seq(n, _ => 0)
  }

  /** The pieces one after the other. */
  function Joined(p: seq<seq<byte>>): seq<byte> {
    if p == [] then [] else Joined(p[..|p| - 1]) + p[|p| - 1]
  }

  lemma SliceOfFirst(a: seq<byte>, b: seq<byte>, from: nat, to: nat)
    requires from <= to <= |a|
    ensures (a + b)[from..to] == a[from..to]
  {}

  lemma SliceOfSecond(a: seq<byte>, b: seq<byte>, from: nat, to: nat)
    requires from <= to <= |b|
    ensures (a + b)[|a| + from..|a| + to] == b[from..to]
  {}

  lemma HeadOfSlice(s: seq<byte>, from: nat, to: nat, k: nat)
    requires from + k < to <= |s|
    ensures s[from..to][..k] == s[from..from + k] && s[from..to][k] == s[from + k]
  {}

  /** A fixed-size text field of a packed structure: cut off, or filled up with NULs. */
  function Field(s: seq<byte>, n: nat): (v: seq<byte>)
    ensures |v| == n
  {
    if |s| >= n then s[..n] else s + Zeros(n - |s|)
  }

  /** The text `strncpy(_, s, limit)` keeps and `strncmp(s, _, limit)` compares:
      what precedes the first NUL, and no more than `limit` octets of it. */
  function CString(s: seq<byte>, limit: nat): (t: seq<byte>)
    ensures |t| <= limit && 0 !in t && t <= s
    ensures |t| == limit || |t| == |s| || s[|t|] == 0
  {
    if s == [] || limit == 0 || s[0] == 0 then []
    else [s[0]] + CString(s[1..], limit - 1)
  }
}
