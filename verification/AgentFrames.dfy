/** FrameParser: frames out of a byte stream that arrives in pieces. */
module AgentFrames {
  import opened AgentCodec

  datatype Parsed = NeedMore | Malformed | Got(frame: Frame, rest: seq<Byte>)

  /** What the front of the buffered bytes holds. */
  function ParseFront(s: seq<Byte>): Parsed {
    if |s| < HeaderSize then NeedMore
    else
      var size := ValueU32(s[0], s[1], s[2], s[3]);
      if size > MaxPayloadSize then Malformed
      else if |s| < HeaderSize + size then NeedMore
      else Got(Frame(ValueU16(s[4], s[5]), ValueU16(s[6], s[7]), s[HeaderSize..HeaderSize + size]),
               s[HeaderSize + size..])
  }

  class FrameParser {
    var buffer: seq<Byte>
    var offset: nat

    ghost predicate Valid()
      reads this
    {
      offset <= |buffer|
    }

    /** The bytes that have been fed and not consumed. */
    ghost function Rest(): seq<Byte>
      requires Valid()
      reads this
    {
      buffer[offset..]
    }

    constructor ()
      ensures Valid() && Rest() == []
    {
      buffer, offset := [], 0;
    }

    method Feed(bytes: seq<Byte>)
      requires Valid()
      modifies this
      ensures Valid() && Rest() == old(Rest()) + bytes
    {
      buffer := buffer + bytes;
    }

    /** The next complete frame: 1 and the frame, 0 when more data is needed, -1 for good on a malformed
        stream. */
    method Next() returns (r: int, frame: Frame)
      requires Valid()
      modifies this
      ensures Valid()
      ensures match ParseFront(old(Rest()))
              case NeedMore => r == 0 && Rest() == old(Rest())
              case Malformed => r == -1 && Rest() == old(Rest())
              case Got(f, rest) => r == 1 && frame == f && Rest() == rest
    {
      hide ValueU32, ValueU16;
      frame := Frame(0, 0, []);
      var available := |buffer| - offset;
      if available < HeaderSize {
        Compact();
        return 0, frame;
      }
      ghost var s := Rest();
      var p := offset;
      assert s[0] == buffer[p] && s[1] == buffer[p + 1] && s[2] == buffer[p + 2] && s[3] == buffer[p + 3];
      var size := ValueU32(buffer[p], buffer[p + 1], buffer[p + 2], buffer[p + 3]);
      if size > MaxPayloadSize {
        return -1, frame;
      }
      if available < HeaderSize + size {
        Compact();
        return 0, frame;
      }
      assert s[4] == buffer[p + 4] && s[5] == buffer[p + 5] && s[6] == buffer[p + 6] && s[7] == buffer[p + 7];
      frame := Frame(ValueU16(buffer[p + 4], buffer[p + 5]), ValueU16(buffer[p + 6], buffer[p + 7]),
                     buffer[p + HeaderSize..p + HeaderSize + size]);
      offset := offset + HeaderSize + size;
      r := 1;
      Sliced(buffer, p, HeaderSize, HeaderSize + size);
    }

    method Buffered() returns (n: nat)
      requires Valid()
      ensures n == |Rest()|
    {
      n := |buffer| - offset;
    }

    /** Drops the consumed front of the buffer. */
    method Compact()
      requires Valid()
      modifies this
      ensures Valid() && Rest() == old(Rest())
    {
      if offset > 0 {
        buffer := buffer[offset..];
        offset := 0;
      }
    }
  }

  lemma Sliced(b: seq<Byte>, p: nat, i: nat, j: nat)
    requires p <= |b| && i <= j <= |b| - p
    ensures b[p..][i..j] == b[p + i..p + j] && b[p..][j..] == b[p + j..]
  {
  }

  // ---------- one frame ----------

  /** The two directions of the header: whatever is parsed is the encoding of the frame that is got, and
      every encoded frame is got back. */
  lemma GotIsEncoded(s: seq<Byte>)
    requires ParseFront(s).Got?
    ensures var g := ParseFront(s);
            |g.frame.payload| <= MaxPayloadSize && s == FrameBytes(g.frame) + g.rest
  {
    hide ValueU32, ValueU16, BytesU32, BytesU16;
    BytesOfValueU32(s[0], s[1], s[2], s[3]);
    BytesOfValueU16(s[4], s[5]);
    BytesOfValueU16(s[6], s[7]);
    var g := ParseFront(s);
    var size := |g.frame.payload|;
    assert s[..HeaderSize] == [s[0], s[1], s[2], s[3]] + [s[4], s[5]] + [s[6], s[7]];
    assert s == s[..HeaderSize] + s[HeaderSize..HeaderSize + size] + s[HeaderSize + size..];
  }

  lemma EncodedIsGot(f: Frame, more: seq<Byte>)
    requires |f.payload| <= MaxPayloadSize
    ensures ParseFront(FrameBytes(f) + more) == Got(f, more)
  {
    hide ValueU32, ValueU16, BytesU32, BytesU16;
    var n, v, k := BytesU32(|f.payload|), BytesU16(f.version), BytesU16(f.kind);
    var s := FrameBytes(f) + more;
    U32RoundTrip(|f.payload|);
    U16RoundTrip(f.version);
    U16RoundTrip(f.kind);
    assert s[0] == n[0] && s[1] == n[1] && s[2] == n[2] && s[3] == n[3];
    assert s[4] == v[0] && s[5] == v[1] && s[6] == k[0] && s[7] == k[1];
    assert s[HeaderSize..HeaderSize + |f.payload|] == f.payload && s[HeaderSize + |f.payload|..] == more;
  }

  /** A proper part of an encoded frame is not enough. */
  lemma PartNeedsMore(f: Frame, s: seq<Byte>)
    requires |f.payload| <= MaxPayloadSize && s <= FrameBytes(f) && |s| < |FrameBytes(f)|
    ensures ParseFront(s) == NeedMore
  {
    hide ValueU32, BytesU32, BytesU16;
    if |s| >= HeaderSize {
      var b, n := FrameBytes(f), BytesU32(|f.payload|);
      U32RoundTrip(|f.payload|);
      assert s[0] == b[0] == n[0] && s[1] == b[1] == n[1] && s[2] == b[2] == n[2] && s[3] == b[3] == n[3];
    }
  }

  // ---------- streams ----------

  function EncodeAll(fs: seq<Frame>): seq<Byte>
    requires forall f | f in fs :: |f.payload| <= MaxPayloadSize
  {
    if fs == [] then [] else FrameBytes(fs[0]) + EncodeAll(fs[1..])
  }

  datatype Op = Feed(bytes: seq<Byte>) | Next

  /** A parser after some operations: what it holds, what it was fed, what it produced, and what its last
      next returned. */
  datatype Session = Session(rest: seq<Byte>, fed: seq<Byte>, produced: seq<Frame>, last: int)

  function Step(s: Session, op: Op): Session {
    match op
    case Feed(bytes) => s.(rest := s.rest + bytes, fed := s.fed + bytes)
    case Next =>
      match ParseFront(s.rest)
      case NeedMore => s.(last := 0)
      case Malformed => s.(last := -1)
      case Got(f, rest) => s.(rest := rest, produced := s.produced + [f], last := 1)
  }

  function Run(ops: seq<Op>): Session {
    if ops == [] then Session([], [], [], 1) else Step(Run(ops[..|ops| - 1]), ops[|ops| - 1])
  }

  ghost predicate Sound(s: Session) {
    && (forall f | f in s.produced :: |f.payload| <= MaxPayloadSize)
    && s.fed == EncodeAll(s.produced) + s.rest
  }

  lemma {:induction false} EncodeAppend(fs: seq<Frame>, gs: seq<Frame>)
    requires forall f | f in fs || f in gs :: |f.payload| <= MaxPayloadSize
    ensures forall f | f in fs + gs :: |f.payload| <= MaxPayloadSize
    ensures EncodeAll(fs + gs) == EncodeAll(fs) + EncodeAll(gs)
    decreases |fs|
  {
    hide FrameBytes;
    if fs == [] {
      assert fs + gs == gs;
    } else {
      assert (fs + gs)[0] == fs[0] && (fs + gs)[1..] == fs[1..] + gs;
      EncodeAppend(fs[1..], gs);
    }
  }

  lemma EncodeOne(f: Frame)
    requires |f.payload| <= MaxPayloadSize
    ensures EncodeAll([f]) == FrameBytes(f)
  {
    hide FrameBytes;
    assert [f][1..] == [];
  }

  /** However the bytes are split and however feeding and taking alternate, what was fed is the encoding
      of what was produced followed by what is held. */
  lemma {:induction false} NothingLost(ops: seq<Op>)
    ensures Sound(Run(ops))
    decreases |ops|
  {
    hide FrameBytes, ParseFront;
    if ops != [] {
      var s, op := Run(ops[..|ops| - 1]), ops[|ops| - 1];
      NothingLost(ops[..|ops| - 1]);
      if op.Next? && ParseFront(s.rest).Got? {
        var g := ParseFront(s.rest);
        GotIsEncoded(s.rest);
        EncodeOne(g.frame);
        EncodeAppend(s.produced, [g.frame]);
        assert EncodeAll(s.produced) + (FrameBytes(g.frame) + g.rest)
               == EncodeAll(s.produced) + FrameBytes(g.frame) + g.rest;
      } else if op.Feed? {
        assert EncodeAll(s.produced) + s.rest + op.bytes == EncodeAll(s.produced) + (s.rest + op.bytes);
      }
    }
  }

  /** Frames whose encodings lie at the front of the same stream agree. */
  lemma {:induction false} SameFront(fs: seq<Frame>, gs: seq<Frame>, rest: seq<Byte>)
    requires forall f | f in fs || f in gs :: |f.payload| <= MaxPayloadSize
    requires EncodeAll(fs) + rest <= EncodeAll(gs)
    ensures fs <= gs && rest <= EncodeAll(gs[|fs|..])
    decreases |fs|
  {
    hide FrameBytes, ParseFront;
    if fs == [] {
      assert EncodeAll(fs) + rest == rest && gs[0..] == gs;
    } else {
      NonEmptyStream(fs, gs, rest);
      HeadsAgree(fs, gs, rest);
      assert EncodeAll(fs) + rest == FrameBytes(fs[0]) + (EncodeAll(fs[1..]) + rest);
      SameFront(fs[1..], gs[1..], rest);
      assert fs == [fs[0]] + fs[1..] && gs == [gs[0]] + gs[1..];
      assert gs[|fs|..] == gs[1..][|fs[1..]|..];
    }
  }

  lemma NonEmptyStream(fs: seq<Frame>, gs: seq<Frame>, rest: seq<Byte>)
    requires forall f | f in fs || f in gs :: |f.payload| <= MaxPayloadSize
    requires fs != [] && EncodeAll(fs) + rest <= EncodeAll(gs)
    ensures gs != []
  {
    assert |EncodeAll(fs)| >= HeaderSize;
  }

  lemma HeadsAgree(fs: seq<Frame>, gs: seq<Frame>, rest: seq<Byte>)
    requires forall f | f in fs || f in gs :: |f.payload| <= MaxPayloadSize
    requires fs != [] && gs != [] && EncodeAll(fs) + rest <= EncodeAll(gs)
    ensures fs[0] == gs[0] && EncodeAll(fs[1..]) + rest <= EncodeAll(gs[1..])
  {
    hide FrameBytes, ParseFront, EncodeAll;
    EncodeFirst(fs);
    EncodeFirst(gs);
    var first, tail := FrameBytes(fs[0]), EncodeAll(fs[1..]) + rest;
    Regroup(first, EncodeAll(fs[1..]), rest);
    var more := EncodeAll(gs)[|first + tail|..];
    Regroup(first, tail, more);
    assert EncodeAll(gs) == first + (tail + more);
    EncodedIsGot(fs[0], tail + more);
    EncodedIsGot(gs[0], EncodeAll(gs[1..]));
  }

  lemma EncodeFirst(fs: seq<Frame>)
    requires fs != [] && forall f | f in fs :: |f.payload| <= MaxPayloadSize
    ensures EncodeAll(fs) == FrameBytes(fs[0]) + EncodeAll(fs[1..])
  {
  }

  lemma Regroup(a: seq<Byte>, b: seq<Byte>, c: seq<Byte>)
    ensures a + b + c == a + (b + c)
  {
  }

  /** More frames than have been produced are longer by at least the next one. */
  lemma LongerPrefix(produced: seq<Frame>, fs: seq<Frame>, n: nat)
    requires forall f | f in fs :: |f.payload| <= MaxPayloadSize
    requires produced <= fs && |produced| < n <= |fs|
    ensures |EncodeAll(produced)| + |FrameBytes(fs[|produced|])| <= |EncodeAll(fs[..n])|
  {
    hide FrameBytes;
    var more := fs[|produced|..n];
    assert fs[..n] == produced + more;
    EncodeAppend(produced, more);
    assert more[0] == fs[|produced|];
  }

  lemma FirstPrefix(produced: seq<Frame>, fs: seq<Frame>)
    requires forall f | f in fs :: |f.payload| <= MaxPayloadSize
    requires produced <= fs && |produced| < |fs|
    ensures |EncodeAll(fs[..|produced| + 1])| == |EncodeAll(produced)| + |FrameBytes(fs[|produced|])|
  {
    hide FrameBytes;
    var f := fs[|produced|];
    assert fs[..|produced| + 1] == produced + [f];
    EncodeAppend(produced, [f]);
    EncodeOne(f);
  }

  /** Chunking does not matter: as long as the fed bytes are the beginning of some encoded frames, the
      frames produced are the first of them, next never reports a malformed stream, and when it asks
      for more, all the complete frames have been produced. */
  lemma ChunkingInvariance(ops: seq<Op>, fs: seq<Frame>)
    requires forall f | f in fs :: |f.payload| <= MaxPayloadSize
    requires Run(ops).fed <= EncodeAll(fs)
    ensures var s := Run(ops);
            && s.produced <= fs && s.rest <= EncodeAll(fs[|s.produced|..])
            && Step(s, Next).last != -1
            && (Step(s, Next).last == 0 <==>
                  forall n | |s.produced| < n <= |fs| :: |s.fed| < |EncodeAll(fs[..n])|)
  {
    hide FrameBytes, ParseFront, EncodeAll, Run;
    var s := Run(ops);
    NothingLost(ops);
    SameFront(s.produced, fs, s.rest);
    var todo := fs[|s.produced|..];
    AtFront(s.rest, todo);
    forall n | |s.produced| < n <= |fs|
      ensures |EncodeAll(s.produced)| + |FrameBytes(todo[0])| <= |EncodeAll(fs[..n])|
    {
      LongerPrefix(s.produced, fs, n);
    }
    if todo != [] {
      FirstPrefix(s.produced, fs);
    }
  }

  /** At a beginning of encoded frames, more is needed exactly when the first is not complete. */
  lemma AtFront(s: seq<Byte>, fs: seq<Frame>)
    requires (forall f | f in fs :: |f.payload| <= MaxPayloadSize) && s <= EncodeAll(fs)
    ensures ParseFront(s) != Malformed
    ensures ParseFront(s) == NeedMore <==> fs == [] || |s| < |FrameBytes(fs[0])|
  {
    hide FrameBytes;
    if fs != [] {
      var b := FrameBytes(fs[0]);
      if |s| < |b| {
        assert s <= b;
        PartNeedsMore(fs[0], s);
      } else {
        assert s[..|b|] == b;
        assert s == b + s[|b|..];
        EncodedIsGot(fs[0], s[|b|..]);
      }
    }
  }

  /** An oversized header at the front makes every later next fail, whatever is fed. */
  lemma {:induction false} MalformedForever(ops: seq<Op>, more: seq<Op>)
    requires ParseFront(Run(ops).rest) == Malformed
    ensures ParseFront(Run(ops + more).rest) == Malformed && Run(ops + more).produced == Run(ops).produced
    ensures more != [] && more[|more| - 1] == Next ==> Run(ops + more).last == -1
    decreases |more|
  {
    hide ValueU32;
    if more == [] {
      assert ops + more == ops;
    } else {
      var front := more[..|more| - 1];
      assert (ops + more)[..|ops + more| - 1] == ops + front;
      MalformedForever(ops, front);
    }
  }

  lemma OversizedIsMalformed(s: seq<Byte>)
    requires |s| >= HeaderSize
    ensures ParseFront(s) == Malformed <==>
            s[0] as nat * 0x100_0000 + s[1] as nat * 0x1_0000 + s[2] as nat * 0x100 + s[3] as nat > 16 * 1024 * 1024
  {
  }
}
