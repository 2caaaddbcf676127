/** The streaming SHA-1 implementation: a context that buffers one block, counts
    bits in two 32-bit words, and hashes in place. */
module Sha1Context {
  import opened Bytes
  import opened Sha1Standard

  const WORD := 0x1_0000_0000

  lemma ChainStep(s: seq<byte>, b: Block)
    requires |s| % BLOCK == 0
    ensures |s + b| % BLOCK == 0 && Chain(s + b) == Compress(Chain(s), b)
  {
    hide Compress;
    assert (s + b)[..|s + b| - BLOCK] == s && (s + b)[|s + b| - BLOCK..] == b;
  }

  /** A context as its caller sees it: taking input, finished, or unusable. */
  datatype Phase = Open(message: seq<byte>) | Closed(message: seq<byte>) | Broken

  /** Input that would bring the length to 2 to the 64 bits, or that is not empty
      and comes after the result, makes the context unusable. */
  function Fed(p: Phase, data: seq<byte>): Phase {
    if data == [] then p
    else if p.Open? && 8 * (|p.message| + |data|) < LENGTH_LIMIT then Open(p.message + data)
    else Broken
  }

  function Concluded(p: Phase): Phase {
    if p.Open? then Closed(p.message) else p
  }

  // ---------- any history of calls ----------

  datatype Call = Feed(data: seq<byte>) | Ask

  /** The context after a history of calls since the last reset. */
  function After(calls: seq<Call>): Phase {
    if calls == [] then Open([])
    else
      var p := After(calls[..|calls| - 1]);
      match calls[|calls| - 1]
      case Feed(data) => Fed(p, data)
      case Ask => Concluded(p)
  }

  predicate Asked(calls: seq<Call>) {
    Ask in calls
  }

  /** Everything fed before the first request for the result. */
  function Message(calls: seq<Call>): seq<byte> {
    if calls == [] then []
    else
      var init, last := calls[..|calls| - 1], calls[|calls| - 1];
      if last.Feed? && !Asked(init) then Message(init) + last.data else Message(init)
  }

  /** Everything fed after it. */
  function Late(calls: seq<Call>): seq<byte> {
    if calls == [] then []
    else
      var init, last := calls[..|calls| - 1], calls[|calls| - 1];
      if last.Feed? && Asked(init) then Late(init) + last.data else Late(init)
  }

  /** However a message is split over calls, the context ends with the message as
      a whole; it is unusable exactly when the message reaches 2 to the 64 bits or
      something not empty is fed after the result. */
  lemma {:induction false} HistoryClosedForm(calls: seq<Call>)
    ensures After(calls) ==
      if 8 * |Message(calls)| >= LENGTH_LIMIT || Late(calls) != [] then Broken
      else if Asked(calls) then Closed(Message(calls))
      else Open(Message(calls))
  {
    if calls != [] {
      var init, last := calls[..|calls| - 1], calls[|calls| - 1];
      HistoryClosedForm(init);
      assert calls == init + [last];
      if last.Feed? && last.data == [] {
        assert Message(init) + [] == Message(init) && Late(init) + [] == Late(init);
      }
      if Asked(init) {
        assert Asked(calls);
      } else {
        NothingLate(init);
      }
    }
  }

  lemma {:induction false} NothingLate(calls: seq<Call>)
    requires !Asked(calls)
    ensures Late(calls) == []
  {
    if calls != [] {
      assert calls == calls[..|calls| - 1] + [calls[|calls| - 1]];
      NothingLate(calls[..|calls| - 1]);
    }
  }

  /** The octets of a word by shifts and masks read as the word. */
  lemma OctetsReadBack(v: uint32)
    ensures Word32([v / 0x100_0000, v / 0x1_0000 % 0x100, v / 0x100 % 0x100, v % 0x100]) == v
  {
    var v1 := v / 0x100;
    var v2 := v1 / 0x100;
    var v3 := v2 / 0x100;
    assert v2 == v / 0x1_0000 && v3 == v / 0x100_0000;
    assert v == 0x100 * v1 + v % 0x100 && v1 == 0x100 * v2 + v1 % 0x100 && v2 == 0x100 * v3 + v2 % 0x100;
  }

  lemma LengthWords(high: uint32, low: uint32)
    ensures LengthField(WORD * high + low) == BigEndian32(high) + BigEndian32(low)
  {
    hide BigEndian32;
  }

  lemma PadParts(m: seq<byte>)
    requires 8 * |m| < LENGTH_LIMIT
    ensures Pad(m) == m + [0x80] + Zeros(ZeroFill(|m|)) + LengthField(8 * |m|)
  {
    hide LengthField, ZeroFill;
    var z, l := Zeros(ZeroFill(|m|)), LengthField(8 * |m|);
    assert m + ([0x80] + z + l) == m + [0x80] + z + l;
  }

  lemma FillOfTail(blocks: nat, index: nat)
    requires index < BLOCK
    ensures ZeroFill(BLOCK * blocks + index) == if index <= 55 then 55 - index else 119 - index
    ensures (BLOCK * blocks + index + 8) / BLOCK + 1 == if index <= 55 then blocks + 1 else blocks + 2
  {}

  lemma ChainOfNothing()
    ensures Chain([]) == INITIAL
  {}

  lemma ScheduleStep(m: Block, t: nat)
    ensures t < 16 ==> ScheduleWord(m, t) == WordOf(m[4 * t], m[4 * t + 1], m[4 * t + 2], m[4 * t + 3])
    ensures t >= 16 ==>
      ScheduleWord(m, t) == Mix(ScheduleWord(m, t - 3), ScheduleWord(m, t - 8),
        ScheduleWord(m, t - 14), ScheduleWord(m, t - 16))
  {
    hide WordOf, Mix;
  }

  lemma LowWord(high: nat, low: nat, octets: nat)
    requires WORD * high + low == 8 * octets
    ensures low % 8 == 0
  {
    assert low == 8 * (octets - WORD / 8 * high);
  }

  /** A round loop's step: one more word, one more round. */
  lemma RoundStep(w: seq<bv32>, x: Words, t: nat)
    requires t < |w|
    ensures Rounds(w[..t + 1], x) == Round(t, w[t], Rounds(w[..t], x))
  {
    hide Round;
    assert w[..t + 1][..t] == w[..t];
  }

  class Context {
    const digest: array<bv32>
    const block: array<byte>
    var lengthLow: uint32
    var lengthHigh: uint32
    var index: nat
    var computed: bool
    var corrupted: bool
    ghost var consumed: seq<byte>
    ghost var hashed: seq<byte>
    ghost var blocks: nat

    ghost predicate Shape()
      reads this
    {
      digest.Length == 5 && block.Length == BLOCK
    }

    ghost function Value(): Words
      reads digest
      requires digest.Length == 5
    {
      Words(digest[0], digest[1], digest[2], digest[3], digest[4])
    }

    /** Before the result: the whole blocks of the message are hashed, the rest is
        in the buffer, and the two length words count its bits. */
    ghost predicate Streaming()
      reads this, digest, block
      requires Shape()
    {
      && 8 * |consumed| < LENGTH_LIMIT && WORD * lengthHigh + lengthLow == 8 * |consumed|
      && |hashed| == BLOCK * blocks && index < BLOCK
      && consumed == hashed + block[..index]
      && Value() == Chain(hashed)
    }

    /** After it: the digest words are the digest of the message. */
    ghost predicate Finished()
      reads this, digest
      requires Shape()
    {
      && 8 * |consumed| < LENGTH_LIMIT && Value() == Sha1(consumed)
      && blocks == (|consumed| + 8) / BLOCK + 1
    }

    ghost predicate Valid()
      reads this, digest, block
    {
      Shape() && index < BLOCK && (!corrupted ==> if computed then Finished() else Streaming())
    }

    constructor ()
      ensures Shape() && fresh(digest) && fresh(block)
    {
      digest, block := new bv32[5], new byte[BLOCK];
    }

    method Reset()
      requires Shape()
      modifies this, digest
      ensures Valid() && !computed && !corrupted && consumed == []
    {
      hide Chain, Sha1;
      lengthLow, lengthHigh, index := 0, 0, 0;
      digest[0], digest[1], digest[2] := 0x67452301, 0xEFCDAB89, 0x98BADCFE;
      digest[3], digest[4] := 0x10325476, 0xC3D2E1F0;
      computed, corrupted := false, false;
      consumed, hashed, blocks := [], [], 0;
      ChainOfNothing();
      assert Value() == INITIAL && consumed == hashed + block[..index];
    }

    /** Hashes the block in the buffer. */
    method ProcessMessageBlock()
      requires Shape()
      modifies this`index, this`blocks, digest
      ensures Value() == Compress(old(Value()), block[..])
      ensures index == 0 && blocks == old(blocks) + 1
    {
      hide Schedule, Rounds, Add;
      var w := ExpandBlock(block);
      var x := RunRounds(w[..], Words(digest[0], digest[1], digest[2], digest[3], digest[4]));
      digest[0] := Add(digest[0], x.a);
      digest[1] := Add(digest[1], x.b);
      digest[2] := Add(digest[2], x.c);
      digest[3] := Add(digest[3], x.d);
      digest[4] := Add(digest[4], x.e);
      index, blocks := 0, blocks + 1;
    }

    /** One octet of the message: into the buffer, and hashed with its block. */
    method AcceptByte(b: byte)
      requires Valid() && !computed && !corrupted
      modifies this, digest, block
      ensures Valid() && !computed && consumed == old(consumed) + [b]
      ensures corrupted <==> 8 * |consumed| >= LENGTH_LIMIT
    {
      hide Chain, Sha1;
      LowWord(lengthHigh, lengthLow, |consumed|);
      block[index] := b;
      index := index + 1;
      CountBits();
      consumed := consumed + [b];
      assert consumed == hashed + block[..index];
      if index == 64 {
        HashBuffer();
      }
    }

    /** Hashes the whole buffer, whatever the index. */
    method HashBlock()
      requires Shape() && |hashed| == BLOCK * blocks && Value() == Chain(hashed)
      modifies this`index, this`blocks, this`hashed, digest
      ensures index == 0 && blocks == old(blocks) + 1 && |hashed| == BLOCK * blocks
      ensures hashed == old(hashed + block[..]) && Value() == Chain(hashed)
    {
      hide Chain, Compress;
      ChainStep(hashed, block[..]);
      hashed := hashed + block[..];
      ProcessMessageBlock();
    }

    /** Hashes a full buffer. */
    method HashBuffer()
      requires Shape() && index == BLOCK && |hashed| == BLOCK * blocks && Value() == Chain(hashed)
      modifies this`index, this`blocks, this`hashed, digest
      ensures index == 0 && blocks == old(blocks) + 1 && |hashed| == BLOCK * blocks
      ensures hashed + block[..index] == old(hashed + block[..index]) && Value() == Chain(hashed)
    {
      hide Chain, Compress;
      assert block[..] == block[..index];
      HashBlock();
      assert hashed + block[..0] == hashed;
    }

    /** Adds eight to the two-word bit count, which wraps at 2 to the 64. */
    method CountBits()
      requires !corrupted && lengthLow % 8 == 0
      modifies this`lengthLow, this`lengthHigh, this`corrupted
      ensures corrupted <==> old(WORD * lengthHigh + lengthLow) + 8 >= LENGTH_LIMIT
      ensures !corrupted ==> WORD * lengthHigh + lengthLow == old(WORD * lengthHigh + lengthLow) + 8
    {
      lengthLow := (lengthLow + 8) % WORD;
      if lengthLow == 0 {
        lengthHigh := (lengthHigh + 1) % WORD;
        if lengthHigh == 0 {
          corrupted := true;
        }
      }
    }

    /** What a caller can tell of the context. */
    ghost function State(): Phase
      reads this
    {
      if corrupted then Broken else if computed then Closed(consumed) else Open(consumed)
    }

    /** Takes the next piece of the message. */
    method Input(data: seq<byte>)
      requires Valid() && |data| < WORD
      modifies this, digest, block
      ensures Valid() && State() == Fed(old(State()), data)
    {
      hide Streaming, Finished;
      if |data| == 0 {
        return;
      }
      if computed || corrupted {
        corrupted := true;
        return;
      }
      StreamingLength();
      ghost var start := consumed;
      var i := 0;
      while i < |data| && !corrupted
        invariant i <= |data| && Valid() && !computed && consumed == start + data[..i]
        invariant corrupted <==> 8 * |consumed| >= LENGTH_LIMIT
        decreases |data| - i
      {
        AcceptByte(data[i]);
        assert data[..i + 1] == data[..i] + [data[i]];
        i := i + 1;
      }
      assert !corrupted ==> data[..i] == data;
    }

    lemma StreamingLength()
      requires Valid() && !corrupted && !computed
      ensures 8 * |consumed| < LENGTH_LIMIT
    {}

    lemma FinishedValue()
      requires Valid()
      ensures State().Closed? ==> 8 * |consumed| < LENGTH_LIMIT && Value() == Sha1(consumed)
    {
      hide Sha1, Streaming;
    }

    /** Pads and hashes what is left, once. */
    method Result() returns (ok: bool)
      requires Valid()
      modifies this, digest, block
      ensures Valid() && State() == Concluded(old(State())) && (ok <==> !State().Broken?)
    {
      hide Chain, Sha1;
      if corrupted {
        return false;
      }
      if !computed {
        PadMessage();
        computed := true;
      }
      return true;
    }

    /** Zeros into the buffer up to `limit`. */
    method FillTo(limit: nat)
      requires Shape() && index <= limit <= BLOCK
      modifies this`index, block
      ensures index == limit
      ensures hashed + block[..index] == old(hashed + block[..index]) + Zeros(limit - old(index))
    {
      ghost var start, from := hashed + block[..index], index;
      while index < limit
        invariant from <= index <= limit && hashed + block[..index] == start + Zeros(index - from)
      {
        ghost var before := hashed + block[..index];
        block[index] := 0;
        index := index + 1;
        assert hashed + block[..index] == before + [0];
        assert start + Zeros(index - from) == start + Zeros(index - 1 - from) + [0];
      }
    }

    /** The length of the message into the last eight octets of the buffer. */
    method StoreLength(ghost bits: nat)
      requires Shape() && bits < LENGTH_LIMIT && WORD * lengthHigh + lengthLow == bits
      modifies block
      ensures block[..56] == old(block[..56]) && block[56..] == LengthField(bits)
    {
      hide LengthField;
      StoreWord(56, lengthHigh);
      StoreWord(60, lengthLow);
      LengthWords(lengthHigh, lengthLow);
      assert block[56..] == block[56..60] + block[60..64];
    }

    /** A word into the buffer, most significant octet first. */
    method StoreWord(at: nat, v: uint32)
      requires Shape() && at + 4 <= BLOCK
      modifies block
      ensures block[at..at + 4] == BigEndian32(v)
      ensures block[..at] == old(block[..at]) && block[at + 4..] == old(block[at + 4..])
    {
      hide BigEndian32, Word32;
      block[at], block[at + 1] := v / 0x100_0000, v / 0x1_0000 % 0x100;
      block[at + 2], block[at + 3] := v / 0x100 % 0x100, v % 0x100;
      OctetsReadBack(v);
      OctetsOfWord32(block[at..at + 4]);
      assert block[at..at + 4] == [v / 0x100_0000, v / 0x1_0000 % 0x100, v / 0x100 % 0x100, v % 0x100];
    }

    /** The one bit and the zeros, up to the place of the length. */
    method PadToLength()
      requires Shape() && Streaming()
      modifies this`index, this`blocks, this`hashed, digest, block
      ensures index == 56 && |hashed| == BLOCK * blocks && Value() == Chain(hashed)
      ensures hashed + block[..56] == consumed + [0x80] + Zeros(ZeroFill(|consumed|))
      ensures blocks == (|consumed| + 8) / BLOCK
    {
      hide Chain, ZeroFill;
      ghost var m, i := consumed, index;
      FillOfTail(blocks, i);
      if index > 55 {
        PutOneBit();
        FillTo(64);
        HashBuffer();
        FillTo(56);
        assert m + [0x80] + Zeros(63 - i) + Zeros(56) == m + [0x80] + Zeros(119 - i);
      } else {
        PutOneBit();
        FillTo(56);
      }
    }

    method PutOneBit()
      requires Shape() && index < BLOCK
      modifies this`index, block
      ensures index == old(index) + 1 && hashed + block[..index] == old(hashed + block[..index]) + [0x80]
    {
      block[index] := 0x80;
      index := index + 1;
    }

    /** The padding of section 4, in one block or two. */
    method PadMessage()
      requires Shape() && Streaming()
      modifies this`index, this`blocks, this`hashed, digest, block
      ensures 8 * |consumed| < LENGTH_LIMIT && index == 0 && Value() == Sha1(consumed)
        && blocks == (|consumed| + 8) / BLOCK + 1
    {
      hide Chain, LengthField, ZeroFill, Pad;
      ghost var m := consumed;
      PadToLength();
      StoreLength(8 * |m|);
      assert block[..] == block[..56] + LengthField(8 * |m|);
      HashBlock();
      PadParts(m);
      assert hashed == Pad(m);
    }
  }

  /** Any history of calls, on a context of its own. */
  method Replay(calls: seq<Call>) returns (sha: Context)
    requires forall i :: 0 <= i < |calls| && calls[i].Feed? ==> |calls[i].data| < WORD
    ensures fresh(sha) && sha.Valid() && sha.State() == After(calls)
    ensures After(calls).Closed? ==> 8 * |Message(calls)| < LENGTH_LIMIT && sha.Value() == Sha1(Message(calls))
  {
    hide Context.Streaming, Context.Finished, Sha1;
    sha := new Context();
    sha.Reset();
    for i := 0 to |calls|
      invariant sha.Valid() && sha.State() == After(calls[..i])
      invariant fresh(sha) && fresh(sha.digest) && fresh(sha.block)
    {
      assert calls[..i + 1][..i] == calls[..i];
      if calls[i].Feed? {
        sha.Input(calls[i].data);
      } else {
        var _ := sha.Result();
      }
    }
    assert calls[..|calls|] == calls;
    HistoryClosedForm(calls);
    sha.FinishedValue();
  }

  /** A message in any pieces: the digest is that of their concatenation. */
  method HashPieces(pieces: seq<seq<byte>>) returns (sha: Context)
    requires 8 * |Joined(pieces)| < LENGTH_LIMIT && forall i :: 0 <= i < |pieces| ==> |pieces[i]| < WORD
    ensures fresh(sha) && sha.Shape() && sha.Value() == Sha1(Joined(pieces))
  {
    hide Context.Streaming, Context.Finished, Sha1;
    sha := new Context();
    sha.Reset();
    for i := 0 to |pieces|
      invariant sha.Valid() && sha.State() == Open(Joined(pieces[..i]))
      invariant fresh(sha) && fresh(sha.digest) && fresh(sha.block)
    {
      assert pieces[..i + 1][..i] == pieces[..i];
      assert Joined(pieces[..i]) + [] == Joined(pieces[..i]);
      JoinedPrefix(pieces, i + 1);
      sha.Input(pieces[i]);
    }
    assert pieces[..|pieces|] == pieces;
    var _ := sha.Result();
    sha.FinishedValue();
  }

  lemma {:induction false} JoinedPrefix(pieces: seq<seq<byte>>, n: nat)
    requires n <= |pieces|
    ensures |Joined(pieces[..n])| <= |Joined(pieces)|
    decreases |pieces|
  {
    if n < |pieces| {
      var init := pieces[..|pieces| - 1];
      JoinedPrefix(init, n);
      assert init[..n] == pieces[..n];
    } else {
      assert pieces[..n] == pieces;
    }
  }

  /** Four octets moved into place and joined, as the code does it. */
  function Assembled(b0: byte, b1: byte, b2: byte, b3: byte): bv32 {
    ((((b0 as bv32) << 24) | ((b1 as bv32) << 16)) | ((b2 as bv32) << 8)) | (b3 as bv32)
  }

  lemma DigitsInPlace(a: bv32, b: bv32, c: bv32, d: bv32)
    requires a < 0x100 && b < 0x100 && c < 0x100 && d < 0x100
    ensures ((((a << 24) | (b << 16)) | (c << 8)) | d) == 0x100_0000 * a + 0x1_0000 * b + 0x100 * c + d
  {}

  lemma OctetIsSmall(b: byte)
    ensures (b as bv32) < 0x100
  {}

  /** Shifts and masks make the word of the standard. */
  lemma AssembledIsWord(b0: byte, b1: byte, b2: byte, b3: byte)
    ensures Assembled(b0, b1, b2, b3) == WordOf(b0, b1, b2, b3)
  {
    OctetIsSmall(b0);
    OctetIsSmall(b1);
    OctetIsSmall(b2);
    OctetIsSmall(b3);
    DigitsInPlace(b0 as bv32, b1 as bv32, b2 as bv32, b3 as bv32);
  }

  /** Fills the 80 words of the schedule. */
  method ExpandBlock(block: array<byte>) returns (w: array<bv32>)
    requires block.Length == BLOCK
    ensures fresh(w) && w[..] == Schedule(block[..])
  {
    hide WordOf, Assembled, Mix, ScheduleWord;
    ghost var m: Block := block[..];
    w := new bv32[80];
    for t := 0 to 16
      invariant forall i :: 0 <= i < t ==> w[i] == ScheduleWord(m, i)
    {
      ScheduleStep(m, t);
      AssembledIsWord(block[4 * t], block[4 * t + 1], block[4 * t + 2], block[4 * t + 3]);
      w[t] := Assembled(block[4 * t], block[4 * t + 1], block[4 * t + 2], block[4 * t + 3]);
    }
    for t := 16 to 80
      invariant forall i :: 0 <= i < t ==> w[i] == ScheduleWord(m, i)
    {
      ScheduleStep(m, t);
      w[t] := Mix(w[t - 3], w[t - 8], w[t - 14], w[t - 16]);
    }
    assert w[..] == Schedule(m);
  }

  /** The four round loops. */
  method RunRounds(w: seq<bv32>, h: Words) returns (x: Words)
    requires |w| == 80
    ensures x == Rounds(w, h)
  {
    hide Rotate, Rounds, Round, Add, Choose, Parity, Majority;
    var a, b, c, d, e := h.a, h.b, h.c, h.d, h.e;
    NoRounds(w, h);
    for t := 0 to 20
      invariant Words(a, b, c, d, e) == Rounds(w[..t], h)
    {
      RoundStep(w, h, t);
      RoundForms(t, w[t], Words(a, b, c, d, e));
      var temp := Add(Add(Add(Add(Rotate(5, a), Choose(b, c, d)), e), w[t]), 0x5A827999);
      a, b, c, d, e := temp, a, Rotate(30, b), c, d;
    }
    for t := 20 to 40
      invariant Words(a, b, c, d, e) == Rounds(w[..t], h)
    {
      RoundStep(w, h, t);
      RoundForms(t, w[t], Words(a, b, c, d, e));
      var temp := Add(Add(Add(Add(Rotate(5, a), Parity(b, c, d)), e), w[t]), 0x6ED9EBA1);
      a, b, c, d, e := temp, a, Rotate(30, b), c, d;
    }
    for t := 40 to 60
      invariant Words(a, b, c, d, e) == Rounds(w[..t], h)
    {
      RoundStep(w, h, t);
      RoundForms(t, w[t], Words(a, b, c, d, e));
      var temp := Add(Add(Add(Add(Rotate(5, a), Majority(b, c, d)), e), w[t]), 0x8F1BBCDC);
      a, b, c, d, e := temp, a, Rotate(30, b), c, d;
    }
    for t := 60 to 80
      invariant Words(a, b, c, d, e) == Rounds(w[..t], h)
    {
      RoundStep(w, h, t);
      RoundForms(t, w[t], Words(a, b, c, d, e));
      var temp := Add(Add(Add(Add(Rotate(5, a), Parity(b, c, d)), e), w[t]), 0xCA62C1D6);
      a, b, c, d, e := temp, a, Rotate(30, b), c, d;
    }
    assert w[..80] == w;
    x := Words(a, b, c, d, e);
  }

  lemma NoRounds(w: seq<bv32>, h: Words)
    ensures Rounds(w[..0], h) == h
  {}

  /** The four forms of a round. */
  lemma RoundForms(t: nat, w: bv32, x: Words)
    ensures var s := Rotate(5, x.a);
      Round(t, w, x) ==
      if t < 20 then Turned(x, Add(Add(Add(Add(s, Choose(x.b, x.c, x.d)), x.e), w), 0x5A827999))
      else if t < 40 then Turned(x, Add(Add(Add(Add(s, Parity(x.b, x.c, x.d)), x.e), w), 0x6ED9EBA1))
      else if t < 60 then Turned(x, Add(Add(Add(Add(s, Majority(x.b, x.c, x.d)), x.e), w), 0x8F1BBCDC))
      else Turned(x, Add(Add(Add(Add(s, Parity(x.b, x.c, x.d)), x.e), w), 0xCA62C1D6))
  {
    hide Rotate, Add, Choose, Parity, Majority;
  }

  /** The buffers move on by one, the new word coming in at A. */
  function Turned(x: Words, temp: bv32): Words {
    Words(temp, x.a, Rotate(30, x.b), x.c, x.d)
  }
}
