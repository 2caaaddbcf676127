/** Filling and patching octet buffers in place. */
module Buffers {
  import opened Bytes
  import opened Checksum

  function Spliced(s: seq<byte>, at: nat, src: seq<byte>): (r: seq<byte>)
    requires at + |src| <= |s|
    ensures |r| == |s|
  {
    s[..at] + src + s[at + |src|..]
  }

  method CopyIn(buf: array<byte>, at: nat, src: seq<byte>)
    requires at + |src| <= buf.Length
    modifies buf
    ensures buf[..] == Spliced(old(buf[..]), at, src)
    ensures buf[..at + |src|] == old(buf[..at]) + src
  {
    ghost var was := buf[..];
    for i := 0 to |src|
      invariant buf[..] == was[..at] + src[..i] + was[at + i..]
    {
      buf[at + i] := src[i];
      assert src[..i + 1] == src[..i] + [src[i]];
    }
    assert src[..|src|] == src;
  }

  /** Zeroes the checksum field of a stretch of the buffer, then stores the
      stretch's checksum in it. */
  method StampInPlace(buf: array<byte>, from: nat, len: nat, at: nat)
    requires from + len <= buf.Length && at + 2 <= len
    modifies buf
    ensures buf[..] == Spliced(old(buf[..]), from, Stamp(old(buf[from..from + len]), at))
  {
    hide Cksum, SetWord;
    ghost var was, part := buf[..], buf[from..from + len];
    PutWord(buf, from + at, 0);
    PatchedPart(was, from, len, at, 0);
    var c := ComputeCksum(buf, from, len);
    ghost var zeroed := buf[..];
    PutWord(buf, from + at, c);
    PatchedPart(zeroed, from, len, at, c);
    assert zeroed[from..from + len] == SetWord(part, at, 0);
    assert buf[..][from..from + len] == Stamp(part, at);
    assert buf[..] == Spliced(was, from, Stamp(part, at)) by {
      Patched(was, zeroed, buf[..], from, len, at, c);
    }
  }

  /** A field set within a stretch of a buffer. */
  lemma PatchedPart(s: seq<byte>, from: nat, len: nat, at: nat, v: uint16)
    requires from + len <= |s| && at + 2 <= len
    ensures SetWord(s, from + at, v)[from..from + len] == SetWord(s[from..from + len], at, v)
  {
    hide SetWord;
    var a, b := SetWord(s, from + at, v)[from..from + len], SetWord(s[from..from + len], at, v);
    assert a[at] == SetWord(s, from + at, v)[from + at] && a[at + 1] == SetWord(s, from + at, v)[from + at + 1];
    assert forall i :: 0 <= i < len && i != at && i != at + 1 ==> a[i] == s[from + i] && b[i] == s[from + i];
    SetWordAgree(a, b, at);
  }

  /** Two fields set one after the other leave the rest of the buffer alone. */
  lemma Patched(s: seq<byte>, t: seq<byte>, u: seq<byte>, from: nat, len: nat, at: nat, v: uint16)
    requires from + len <= |s| && at + 2 <= len
    requires t == SetWord(s, from + at, 0) && u == SetWord(t, from + at, v)
    ensures |u| == |s| && u == Spliced(s, from, u[from..from + len])
  {
    hide SetWord;
  }

  /** Adds a part with its checksum to a buffer filled up to `at`. */
  method AppendStamped(buf: array<byte>, at: nat, part: seq<byte>, field: nat)
    requires at + |part| <= buf.Length && field + 2 <= |part|
    modifies buf
    ensures buf[..at + |part|] == old(buf[..at]) + Stamp(part, field)
  {
    hide Stamp, Spliced;
    ghost var prefix := buf[..at];
    CopyIn(buf, at, part);
    assert buf[at..at + |part|] == part && buf[..at] == prefix by {
      assert buf[..at + |part|] == prefix + part;
      assert buf[at..at + |part|] == buf[..at + |part|][at..] && buf[..at] == buf[..at + |part|][..at];
    }
    ghost var was := buf[..];
    StampInPlace(buf, at, |part|, field);
    SplicedPrefix(was, at, Stamp(part, field));
    assert was[..at] == prefix && buf[..at + |part|] == buf[..][..at + |part|];
  }

  lemma SplicedPrefix(s: seq<byte>, at: nat, src: seq<byte>)
    requires at + |src| <= |s|
    ensures Spliced(s, at, src)[..at + |src|] == s[..at] + src
  {}

  method PutWord(buf: array<byte>, at: nat, v: uint16)
    requires at + 2 <= buf.Length
    modifies buf
    ensures buf[..] == SetWord(old(buf[..]), at, v)
  {
    QuotientAndRemainder(v);
    buf[at], buf[at + 1] := v / 0x100, v % 0x100;
  }
}
