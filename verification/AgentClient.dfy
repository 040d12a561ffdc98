/** A client of the agent: what it reads out of the frames it gets, and that this is what the writer has
    written, however the bytes are split on the way. */
module AgentClient {
  import opened AgentCodec
  import opened AgentBatches
  import opened AgentFrames
  import AgentOrder
  import opened AgentQueue

  type Msg = AgentOrder.Msg

  /** What one frame says, by the protocol of version 1: type 9 is a watch that has missed events, type 8 a
      batch of events of one watch, and anything else a reply. */
  function Understood(f: Frame): seq<Msg>
    requires |f.payload| < TwoTo32
  {
    if f.version == 1 && f.kind == 9 then [AgentOrder.Missed(GetU32(Cursor(f.payload, 0, true)).0)]
    else if f.version == 1 && f.kind == 8 then
      var (id, records, _) := GetBatch(f.payload);
      seq(|records|, i requires 0 <= i < |records| => AgentOrder.Event(id, records[i]))
    else [AgentOrder.Control(FrameBytes(f))]
  }

  ghost predicate Small(fs: seq<Frame>) {
    forall f | f in fs :: |f.payload| <= MaxPayloadSize
  }

  function UnderstoodAll(fs: seq<Frame>): seq<Msg>
    requires forall f | f in fs :: |f.payload| < TwoTo32
  {
    if fs == [] then [] else UnderstoodAll(fs[..|fs| - 1]) + Understood(fs[|fs| - 1])
  }

  /** The output as one stream of bytes. */
  function Stream(output: seq<seq<Byte>>): seq<Byte> {
    if output == [] then [] else Stream(output[..|output| - 1]) + output[|output| - 1]
  }

  /** A complete frame of another type than markers and batches, as every reply is. */
  ghost predicate IsReply(bytes: seq<Byte>) {
    exists kind: U16Value, payload: seq<Byte> ::
      kind != 8 && kind != 9 && |payload| <= MaxPayloadSize && bytes == FrameBytes(Frame(1, kind, payload))
  }

  // ---------- the layout of a frame ----------

  /** Byte by byte, what the header and the payloads of frames look like on the wire. */
  lemma FrameLayout(f: Frame)
    requires |f.payload| < TwoTo32
    ensures var b := FrameBytes(f);
            && |b| == 8 + |f.payload| && b[8..] == f.payload
            && |f.payload| == b[0] as nat * 0x100_0000 + b[1] as nat * 0x1_0000 + b[2] as nat * 0x100 + b[3] as nat
            && f.version == b[4] as nat * 0x100 + b[5] as nat && f.kind == b[6] as nat * 0x100 + b[7] as nat
  {
    hide BytesU32, BytesU16, ValueU32, ValueU16;
    var b, size, v, k := FrameBytes(f), BytesU32(|f.payload|), BytesU16(f.version), BytesU16(f.kind);
    U32RoundTrip(|f.payload|);
    U16RoundTrip(f.version);
    U16RoundTrip(f.kind);
    assert b[0] == size[0] && b[1] == size[1] && b[2] == size[2] && b[3] == size[3];
    assert b[4] == v[0] && b[5] == v[1] && b[6] == k[0] && b[7] == k[1];
  }

  lemma StrLayout(s: seq<Byte>)
    requires |s| < TwoTo32
    ensures var b := BytesStr(s);
            && b[4..] == s
            && |s| == b[0] as nat * 0x100_0000 + b[1] as nat * 0x1_0000 + b[2] as nat * 0x100 + b[3] as nat
  {
    hide BytesU32, ValueU32;
    U32RoundTrip(|s|);
    assert |s| % 0x1_0000_0000 == |s|;
    var b, size := BytesStr(s), BytesU32(|s|);
    assert b == size + s;
    assert b[0] == size[0] && b[1] == size[1] && b[2] == size[2] && b[3] == size[3];
  }

  /** A record is its action, its path and its old path, each string after its length. */
  lemma RecordLayout(r: Record)
    ensures RecordBytes(r)[0] == r.action
    ensures RecordBytes(r)[1..] == BytesStr(r.path) + BytesStr(r.oldPath)
  {
    hide BytesStr;
  }

  /** A batch is the watch, the number of records, and the records in order. */
  lemma BatchLayout(id: U32Value, records: seq<Record>)
    requires |records| < TwoTo32
    ensures var b := BatchBytes(id, records);
            && |b| >= 8
            && id == b[0] as nat * 0x100_0000 + b[1] as nat * 0x1_0000 + b[2] as nat * 0x100 + b[3] as nat
            && |records| == b[4] as nat * 0x100_0000 + b[5] as nat * 0x1_0000 + b[6] as nat * 0x100 + b[7] as nat
            && b[8..] == RecordsBytes(records)
  {
    hide BytesU32, ValueU32, RecordsBytes;
    U32RoundTrip(id);
    U32RoundTrip(|records|);
    var b := BatchBytes(id, records);
    assert |records| % 0x1_0000_0000 == |records|;
    assert b[..4] == BytesU32(id) && b[4..8] == BytesU32(|records|);
    assert b[4] == b[4..8][0] && b[5] == b[4..8][1] && b[6] == b[4..8][2] && b[7] == b[4..8][3];
  }

  // ---------- one frame ----------

  lemma {:induction false} RecordsLong(rs: seq<Record>)
    ensures |RecordsBytes(rs)| >= |rs| && forall r | r in rs :: |RecordsBytes(rs)| >= r.StringBytes()
    decreases |rs|
  {
    hide RecordBytes;
    if rs != [] {
      RecordsLong(rs[..|rs| - 1]);
    }
  }

  lemma BatchRead(id: U32Value, rs: seq<Record>) returns (g: Frame)
    requires |ToBytes(Batch(id, rs))| <= HeaderSize + MaxPayloadSize
    ensures |g.payload| <= MaxPayloadSize && FrameBytes(g) == ToBytes(Batch(id, rs))
    ensures Understood(g) == Meant(Batch(id, rs))
  {
    hide BytesU32, BytesU16, RecordsBytes, GetBatch;
    RecordsLong(rs);
    BatchRoundTrip(id, rs);
    g := Frame(1, 8, BatchBytes(id, rs));
  }

  lemma MarkerRead(id: U32Value)
    ensures Understood(Frame(1, 9, BytesU32(id))) == Meant(Marker(id))
    ensures FrameBytes(Frame(1, 9, BytesU32(id))) == ToBytes(Marker(id))
  {
    hide BytesU32, ValueU32, FrameBytes;
    WholeIsBefore(BytesU32(id));
    ReadU32(Cursor(BytesU32(id), 0, true), id);
  }

  lemma FrameRead(f: OutFrame) returns (g: Frame)
    requires |ToBytes(f)| <= HeaderSize + MaxPayloadSize && (f.Reply? ==> IsReply(f.bytes))
    ensures |g.payload| <= MaxPayloadSize && FrameBytes(g) == ToBytes(f) && Understood(g) == Meant(f)
  {
    hide FrameBytes, BytesU32, GetBatch;
    match f
    case Reply(bytes) =>
      var kind: U16Value, payload :|
        kind != 8 && kind != 9 && |payload| <= MaxPayloadSize && bytes == FrameBytes(Frame(1, kind, payload));
      g := Frame(1, kind, payload);
    case Marker(id) =>
      MarkerRead(id);
      g := Frame(1, 9, BytesU32(id));
    case Batch(id, rs) =>
      g := BatchRead(id, rs);
  }

  // ---------- the whole output ----------

  lemma {:induction false} FramesRead(frames: seq<OutFrame>) returns (fs: seq<Frame>)
    requires forall f | f in frames :: |ToBytes(f)| <= HeaderSize + MaxPayloadSize && (f.Reply? ==> IsReply(f.bytes))
    ensures Small(fs) && EncodeAll(fs) == Stream(AllBytes(frames)) && UnderstoodAll(fs) == MeantAll(frames)
    decreases |frames|
  {
    hide FrameBytes, Understood, Meant, ToBytes, IsReply;
    fs := [];
    if frames != [] {
      var front, last := frames[..|frames| - 1], frames[|frames| - 1];
      var gs := FramesRead(front);
      var g := FrameRead(last);
      fs := gs + [g];
      assert fs[..|fs| - 1] == gs;
      EncodeOne(g);
      EncodeAppend(gs, [g]);
      assert frames == front + [last];
      AllBytesNext(front, last);
      assert AllBytes(frames)[..|frames| - 1] == AllBytes(front);
    }
  }

  lemma {:induction false} UnderstoodAppend(a: seq<Frame>, b: seq<Frame>)
    requires forall f | f in a || f in b :: |f.payload| < TwoTo32
    ensures forall f | f in a + b :: |f.payload| < TwoTo32
    ensures UnderstoodAll(a + b) == UnderstoodAll(a) + UnderstoodAll(b)
    decreases |b|
  {
    hide Understood;
    if b == [] {
      assert a + b == a;
    } else {
      assert (a + b)[..|a + b| - 1] == a + b[..|b| - 1];
      UnderstoodAppend(a, b[..|b| - 1]);
    }
  }

  lemma {:induction false} ReplyMeant(frames: seq<OutFrame>, i: nat)
    requires i < |frames| && frames[i].Reply?
    ensures AgentOrder.Control(frames[i].bytes) in MeantAll(frames)
    decreases |frames|
  {
    if i < |frames| - 1 {
      ReplyMeant(frames[..|frames| - 1], i);
    }
  }

  /** Each frame of the output can be read. */
  lemma OutputReadable(agent: Agent)
    requires agent.Writing() && forall b | b in agent.output :: |b| <= HeaderSize + MaxPayloadSize
    requires forall i | i in agent.st.written && i.msg.Control? :: IsReply(i.msg.frame)
    ensures forall f | f in agent.frames ::
              |ToBytes(f)| <= HeaderSize + MaxPayloadSize && (f.Reply? ==> IsReply(f.bytes))
  {
    hide AgentOrder.Inv, ToBytes, IsReply, MeantAll;
    forall f | f in agent.frames
      ensures |ToBytes(f)| <= HeaderSize + MaxPayloadSize && (f.Reply? ==> IsReply(f.bytes))
    {
      var i :| 0 <= i < |agent.frames| && agent.frames[i] == f;
      assert agent.output[i] == ToBytes(f);
      if f.Reply? {
        ReplyMeant(agent.frames, i);
        var k :| 0 <= k < |agent.st.written| && Msgs(agent.st.written)[k] == AgentOrder.Control(f.bytes);
        assert agent.st.written[k].msg == AgentOrder.Control(f.bytes);
      }
    }
  }

  /** However the output is split, a client that feeds it to the parser reads the first of the written
      messages, in order; when it has been fed everything and nothing complete is held, it has read all of
      them. The replies have to be frames of their own types, and no frame may exceed the limit. */
  lemma ClientReads(agent: Agent, ops: seq<Op>)
    requires agent.Writing() && forall b | b in agent.output :: |b| <= HeaderSize + MaxPayloadSize
    requires forall i | i in agent.st.written && i.msg.Control? :: IsReply(i.msg.frame)
    requires AgentFrames.Run(ops).fed <= Stream(agent.output)
    ensures var s := AgentFrames.Run(ops);
            && Small(s.produced) && UnderstoodAll(s.produced) <= Msgs(agent.st.written)
            && (s.fed == Stream(agent.output) && AgentFrames.Step(s, Next).last == 0 ==>
                  UnderstoodAll(s.produced) == Msgs(agent.st.written))
  {
    hide AgentOrder.Inv, ToBytes, IsReply, MeantAll, Msgs, AgentFrames.Run, AgentFrames.Step, Stream, EncodeAll,
         UnderstoodAll, Agent.Shared;
    OutputReadable(agent);
    var fs := FramesRead(agent.frames);
    var s := AgentFrames.Run(ops);
    NothingLost(ops);
    ChunkingInvariance(ops, fs);
    var rest := fs[|s.produced|..];
    assert fs == s.produced + rest;
    UnderstoodAppend(s.produced, rest);
    if s.fed == Stream(agent.output) && AgentFrames.Step(s, Next).last == 0 {
      assert fs[..|fs|] == fs;
      assert s.produced == fs;
    }
  }
}
