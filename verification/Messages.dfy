/** VNS messages that cross between the Python server and the C router: text
    split into banners and a close, and the authentication reply. */
module Messages {
  import opened Bytes
  import opened Sha1Standard
  import opened Sha1Context
  import opened Buffers

  // ---------- text ----------

  const PIECE: nat := 255
  const TEXT_FIELD: nat := 256

  datatype TextMessage = Banner(text: seq<byte>) | Close(text: seq<byte>)

  /** Piece `i` of a text; the last one may be short or empty. */
  function Piece(msg: seq<byte>, i: nat): seq<byte>
    requires PIECE * i <= |msg|
  {
    msg[PIECE * i..if PIECE * (i + 1) <= |msg| then PIECE * (i + 1) else |msg|]
  }

  /** The loop that splits a text into banners and a final close. */
  method GetBannersAndClose(msg: seq<byte>) returns (msgs: seq<TextMessage>)
    ensures |msgs| == |Pieces(msg)|
    ensures forall i :: 0 <= i < |msgs| ==>
      msgs[i] == if i + 1 < |msgs| then Banner(Pieces(msg)[i]) else Close(Pieces(msg)[i])
  {
    msgs := [];
    var n := |msg| / PIECE + 1;
    for i := 0 to n
      invariant |msgs| == i
      invariant forall k :: 0 <= k < i ==>
        msgs[k] == if k + 1 < n then Banner(Pieces(msg)[k]) else Close(Pieces(msg)[k])
    {
      msgs := msgs + [if i + 1 < n then Banner(Piece(msg, i)) else Close(Piece(msg, i))];
    }
  }

  /** The loop that splits a text into banners alone. */
  method GetBanners(msg: seq<byte>) returns (msgs: seq<TextMessage>)
    ensures |msgs| == |Pieces(msg)| && forall i :: 0 <= i < |msgs| ==> msgs[i] == Banner(Pieces(msg)[i])
  {
    msgs := [];
    for i := 0 to |msg| / PIECE + 1
      invariant |msgs| == i && forall k :: 0 <= k < i ==> msgs[k] == Banner(Pieces(msg)[k])
    {
      msgs := msgs + [Banner(Piece(msg, i))];
    }
  }

  /** The pieces that are sent. */
  function Pieces(msg: seq<byte>): (p: seq<seq<byte>>)
    ensures |p| == |msg| / PIECE + 1
    ensures forall i :: 0 <= i < |p| ==> PIECE * i <= |msg| && p[i] == Piece(msg, i)
  {
    seq(|msg| / PIECE + 1, i requires 0 <= i <= |msg| / PIECE => Piece(msg, i))
  }

  /** The one field of a text message. */
  function PackText(s: seq<byte>): (v: seq<byte>)
    ensures |v| == TEXT_FIELD
  {
    Field(s, TEXT_FIELD)
  }

  /** Every NUL is taken out, wherever it stands. */
  function StripNulls(s: seq<byte>): seq<byte> {
    if s == [] then [] else StripNulls(s[..|s| - 1]) + if s[|s| - 1] == 0 then [] else [s[|s| - 1]]
  }

  /** What arrives of a list of pieces once each was packed and unpacked. */
  function Received(p: seq<seq<byte>>): seq<byte> {
    if p == [] then [] else Received(p[..|p| - 1]) + StripNulls(PackText(p[|p| - 1]))
  }

  lemma {:induction false} StripConcat(a: seq<byte>, b: seq<byte>)
    ensures StripNulls(a + b) == StripNulls(a) + StripNulls(b)
    decreases |b|
  {
    if b == [] {
      assert a + b == a;
    } else {
      assert (a + b)[..|a + b| - 1] == a + b[..|b| - 1];
      StripConcat(a, b[..|b| - 1]);
    }
  }

  lemma {:induction false} StripZeros(n: nat)
    ensures StripNulls(Zeros(n)) == []
  {
    if n > 0 {
      assert Zeros(n)[..n - 1] == Zeros(n - 1);
      StripZeros(n - 1);
    }
  }

  lemma {:induction false} ReceivedIsStripped(p: seq<seq<byte>>)
    requires forall i :: 0 <= i < |p| ==> |p[i]| < TEXT_FIELD
    ensures Received(p) == StripNulls(Joined(p))
  {
    if p != [] {
      var init, last := p[..|p| - 1], p[|p| - 1];
      ReceivedIsStripped(init);
      StripConcat(Joined(init), last);
      StripConcat(last, Zeros(TEXT_FIELD - |last|));
      StripZeros(TEXT_FIELD - |last|);
      assert StripNulls(last) + [] == StripNulls(last);
    }
  }

  lemma {:induction false} JoinedPieces(msg: seq<byte>, k: nat)
    requires k <= |msg| / PIECE + 1
    ensures Joined(Pieces(msg)[..k]) == msg[..if PIECE * k <= |msg| then PIECE * k else |msg|]
  {
    var p := Pieces(msg);
    if k > 0 {
      JoinedPieces(msg, k - 1);
      assert p[..k][..k - 1] == p[..k - 1];
    }
  }

  lemma {:induction false} StripLength(s: seq<byte>)
    ensures |StripNulls(s)| <= |s|
    ensures 0 in s ==> |StripNulls(s)| < |s|
    ensures 0 !in s ==> StripNulls(s) == s
  {
    if s != [] {
      var n := |s| - 1;
      StripLength(s[..n]);
      assert s == s[..n] + [s[n]];
    }
  }

  /** The text arrives without its NULs, so whole exactly when it has none. */
  lemma TextRoundTrip(msg: seq<byte>)
    ensures Received(Pieces(msg)) == StripNulls(msg)
    ensures Received(Pieces(msg)) == msg <==> 0 !in msg
  {
    var p := Pieces(msg);
    JoinedPieces(msg, |p|);
    assert p[..|p|] == p && msg[..|msg|] == msg;
    ReceivedIsStripped(p);
    StripLength(msg);
  }

  /** A way to send `msg` in at least one piece of at most 255 octets each. */
  predicate Splits(p: seq<seq<byte>>, msg: seq<byte>) {
    p != [] && Joined(p) == msg && forall i :: 0 <= i < |p| ==> |p[i]| <= PIECE
  }

  lemma {:induction false} JoinedLength(p: seq<seq<byte>>)
    requires forall i :: 0 <= i < |p| ==> |p[i]| <= PIECE
    ensures |Joined(p)| <= PIECE * |p|
  {
    if p != [] {
      JoinedLength(p[..|p| - 1]);
    }
  }

  /** The number of messages is the minimum its documentation promises except at
      the positive multiples of 255, where the last message is empty. */
  lemma MinimumExactly(msg: seq<byte>)
    ensures Splits(Pieces(msg), msg)
    ensures (forall p :: Splits(p, msg) ==> |Pieces(msg)| <= |p|) <==> msg == [] || |msg| % PIECE != 0
  {
    PiecesSplit(msg);
    if msg != [] && |msg| % PIECE == 0 {
      OneFewer(msg);
    } else {
      forall q | Splits(q, msg)
        ensures |Pieces(msg)| <= |q|
      {
        JoinedLength(q);
      }
    }
  }

  lemma PiecesSplit(msg: seq<byte>)
    ensures Splits(Pieces(msg), msg)
  {
    var p := Pieces(msg);
    JoinedPieces(msg, |p|);
    assert p[..|p|] == p && msg[..|msg|] == msg;
  }

  lemma OneFewer(msg: seq<byte>)
    requires msg != [] && |msg| % PIECE == 0
    ensures exists p :: Splits(p, msg) && |p| < |Pieces(msg)|
  {
    var p := Pieces(msg);
    var n := |p| - 1;
    JoinedPieces(msg, n);
    assert msg[..|msg|] == msg;
    assert Splits(p[..n], msg);
  }

  // ---------- the authentication reply ----------

  const BASE_LENGTH: nat := 8
  const VNS_AUTH_REPLY: uint32 := 256
  const KEY_LENGTH: nat := 64
  const DIGEST_LENGTH: nat := 20

  datatype AuthReply = AuthReply(username: seq<byte>, ssp: seq<byte>)

  function PackReply(r: AuthReply): seq<byte>
    requires |r.username| < 0x1_0000_0000
  {
    BigEndian32(|r.username|) + r.username + r.ssp
  }

  /** Slices that stop at the end of the body, as Python's do. */
  function UnpackReply(body: seq<byte>): AuthReply
    requires |body| >= 4
  {
    var n, rest := Word32(body[..4]), body[4..];
    var m := if n <= |rest| then n else |rest|;
    AuthReply(rest[..m], rest[m..])
  }

  /** The length the Python class declares for the body. */
  function DeclaredLength(r: AuthReply): nat {
    |r.username| + |r.ssp|
  }

  /** Unpacking undoes packing. */
  lemma ReplyRoundTrip(r: AuthReply)
    requires |r.username| < 0x1_0000_0000
    ensures UnpackReply(PackReply(r)) == r
  {
    hide BigEndian32, Word32;
    var s := PackReply(r);
    assert s[..4] == BigEndian32(|r.username|) && s[4..] == r.username + r.ssp;
  }

  /** The declared length is four short: a receiver that takes only so many octets
      loses the last four of the digest. */
  lemma DeclaredReplyIsCut(r: AuthReply)
    requires |r.username| < 0x1_0000_0000 && |r.ssp| >= 4
    ensures DeclaredLength(r) <= |PackReply(r)|
    ensures UnpackReply(PackReply(r)[..DeclaredLength(r)]) == r.(ssp := r.ssp[..|r.ssp| - 4])
  {
    hide BigEndian32, Word32;
    var s := PackReply(r)[..DeclaredLength(r)];
    assert s[..4] == BigEndian32(|r.username|);
    assert s[4..] == r.username + r.ssp[..|r.ssp| - 4];
  }

  /** A digest in network order. */
  function DigestOctets(x: Words): (s: seq<byte>)
    ensures |s| == DIGEST_LENGTH
  {
    WordOctets(x.a) + WordOctets(x.b) + WordOctets(x.c) + WordOctets(x.d) + WordOctets(x.e)
  }

  function WordOctets(w: bv32): (s: seq<byte>)
    ensures |s| == 4
  {
    BigEndian32(w as int)
  }

  /** The reply to an authentication request: header, user name, and the digest of
      the salt followed by the key. What comes after the header unpacks, on the
      Python side, to exactly that user name and digest. */
  method BuildAuthReply(user: Name, salt: seq<byte>, key: seq<byte>) returns (buf: array<byte>)
    requires |key| == KEY_LENGTH && |salt| < 0x1_0000_0000
    ensures fresh(buf) && 12 <= buf.Length < 0x1_0000_0000
    ensures buf[..] == BigEndian32(buf.Length) + BigEndian32(VNS_AUTH_REPLY) + buf[8..]
    ensures UnpackReply(buf[8..]) == AuthReply(user, DigestOctets(Sha1(salt + key)))
  {
    hide Sha1, DigestOctets, Context.Streaming, Context.Finished;
    var sha := new Context();
    sha.Reset();
    sha.Input(salt);
    sha.Input(key);
    var ok := sha.Result();
    assert sha.State() == Closed(salt + key);
    assert sha.Value() == Sha1(salt + key) by { sha.FinishedValue(); }
    var digest := DigestOctets(Words(sha.digest[0], sha.digest[1], sha.digest[2], sha.digest[3], sha.digest[4]));
    var reply := AuthReply(user, digest);
    ReplyRoundTrip(reply);
    buf := FillReply(user, digest);
  }

  /** Writes the header, the length of the name, the name, and the digest over the
      NUL that ends the name. */
  method FillReply(user: Name, digest: seq<byte>) returns (buf: array<byte>)
    requires |digest| == DIGEST_LENGTH
    ensures fresh(buf) && buf.Length == 12 + |user| + DIGEST_LENGTH
    ensures buf[..] == BigEndian32(buf.Length) + BigEndian32(VNS_AUTH_REPLY) + PackReply(AuthReply(user, digest))
    ensures buf[8..] == PackReply(AuthReply(user, digest))
  {
    hide BigEndian32, Spliced;
    var len := 12 + |user| + DIGEST_LENGTH;
    buf := new byte[len];
    var h, k, n := BigEndian32(len), BigEndian32(VNS_AUTH_REPLY), BigEndian32(|user|);
    CopyIn(buf, 0, h);
    assert buf[..4] == h;
    CopyIn(buf, 4, k);
    CopyIn(buf, 8, n);
    assert buf[..12] == h + k + n;
    CopyIn(buf, 12, user + [0]);
    DropLast(buf[..13 + |user|], h + k + n, user);
    assert buf[..12 + |user|] == buf[..13 + |user|][..12 + |user|];
    CopyIn(buf, 12 + |user|, digest);
    Regroup(h, k, n, user, digest);
    assert buf[..len] == buf[..];
    assert buf[8..] == buf[..][8..];
  }

  lemma DropLast(s: seq<byte>, a: seq<byte>, b: seq<byte>)
    requires s == a + (b + [0])
    ensures s[..|a| + |b|] == a + b
  {}

  lemma Regroup(h: seq<byte>, k: seq<byte>, n: seq<byte>, u: seq<byte>, d: seq<byte>)
    ensures h + k + n + u + d == h + k + (n + u + d)
    ensures (h + k + n + u + d)[|h| + |k|..] == n + u + d
  {
    assert h + k + n + u + d == h + k + (n + u + d);
  }
}
