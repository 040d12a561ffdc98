/** EVENT_BATCH frames: the writer splits a watch's pending events, and nothing is lost in between. */
module AgentBatches {
  import opened AgentCodec

  /** WatchEventRecord */
  datatype Record = Record(action: Byte, path: seq<Byte>, oldPath: seq<Byte>)
  {
    function StringBytes(): nat {
      |path| + |oldPath|
    }
  }

  const MessageEventBatch: nat := 8
  const BatchLimit: nat := 4096

  function RecordBytes(r: Record): (b: seq<Byte>)
    ensures |b| == 9 + r.StringBytes()
  {
    [r.action] + BytesStr(r.path) + BytesStr(r.oldPath)
  }

  function RecordsBytes(rs: seq<Record>): seq<Byte> {
    if rs == [] then [] else RecordsBytes(rs[..|rs| - 1]) + RecordBytes(rs[|rs| - 1])
  }

  function BatchBytes(id: U32Value, rs: seq<Record>): seq<Byte> {
    BytesU32(id) + BytesU32(|rs| % 0x1_0000_0000) + RecordsBytes(rs)
  }

  // ---------- reading a batch ----------

  function GetRecord(c: Cursor): (r: (Record, Cursor))
    requires c.Valid()
    ensures r.1.Valid()
  {
    var (action, c1) := GetU8(c);
    var (path, c2) := GetStr(c1);
    var (oldPath, c3) := GetStr(c2);
    (Record(action, path, oldPath), c3)
  }

  function GetRecords(c: Cursor, n: nat): (r: (seq<Record>, Cursor))
    requires c.Valid()
    ensures r.1.Valid()
  {
    if n == 0 then ([], c)
    else
      var (rs, c1) := GetRecords(c, n - 1);
      var (r, c2) := GetRecord(c1);
      (rs + [r], c2)
  }

  /** What a client reads out of an EVENT_BATCH payload. */
  function GetBatch(payload: seq<Byte>): (U32Value, seq<Record>, Cursor) {
    var (id, c1) := GetU32(Cursor(payload, 0, true));
    var (n, c2) := GetU32(c1);
    var (rs, c3) := GetRecords(c2, n);
    (id, rs, c3)
  }

  predicate Fits(r: Record) {
    |r.path| < TwoTo32 && |r.oldPath| < TwoTo32
  }

  lemma ReadRecord(c: Cursor, r: Record)
    requires c.Valid() && Before(c, RecordBytes(r)) && Fits(r)
    ensures GetRecord(c) == (r, c.Skip(|RecordBytes(r)|))
  {
    hide BytesStr, GetStr, GetU8, Before;
    BeforeSplit(c, [r.action] + BytesStr(r.path), BytesStr(r.oldPath));
    BeforeSplit(c, [r.action], BytesStr(r.path));
    ReadU8(c, r.action);
    ReadStr(c.Skip(1), r.path);
    ReadStr(c.Skip(1).Skip(4 + |r.path|), r.oldPath);
  }

  lemma {:induction false} ReadRecords(c: Cursor, rs: seq<Record>)
    requires c.Valid() && Before(c, RecordsBytes(rs)) && forall r | r in rs :: Fits(r)
    ensures GetRecords(c, |rs|) == (rs, c.Skip(|RecordsBytes(rs)|))
    decreases |rs|
  {
    hide RecordBytes, GetRecord, Before, RecordsBytes;
    RecordsLast(rs);
    if rs != [] {
      var front, last := rs[..|rs| - 1], rs[|rs| - 1];
      BeforeSplit(c, RecordsBytes(front), RecordBytes(last));
      ReadRecords(c, front);
      BeforeIsValid(c, RecordsBytes(front));
      ReadRecord(c.Skip(|RecordsBytes(front)|), last);
      assert rs == front + [last];
    }
  }

  lemma RecordsLast(rs: seq<Record>)
    ensures if rs == [] then RecordsBytes(rs) == []
            else RecordsBytes(rs) == RecordsBytes(rs[..|rs| - 1]) + RecordBytes(rs[|rs| - 1])
  {
  }

  lemma BeforeIsValid(c: Cursor, bytes: seq<Byte>)
    requires Before(c, bytes)
    ensures c.Valid() && c.Skip(|bytes|).Valid()
  {
  }

  /** A batch reads back as it was, and to its end. */
  lemma BatchRoundTrip(id: U32Value, rs: seq<Record>)
    requires |rs| < TwoTo32 && forall r | r in rs :: Fits(r)
    ensures var (i, back, c) := GetBatch(BatchBytes(id, rs)); i == id && back == rs && c.ok && c.AtEnd()
  {
    hide BytesU32, ValueU32, Before, RecordsBytes, GetRecords, GetU32;
    var p := BatchBytes(id, rs);
    var c := Cursor(p, 0, true);
    var head := BytesU32(id) + BytesU32(|rs|);
    WholeIsBefore(p);
    assert |rs| % 0x1_0000_0000 == |rs|;
    BeforeSplit(c, head, RecordsBytes(rs));
    BeforeSplit(c, BytesU32(id), BytesU32(|rs|));
    ReadU32(c, id);
    ReadU32(c.Skip(4), |rs|);
    BeforeIsValid(c, head);
    ReadRecords(c.Skip(8), rs);
  }

  lemma WholeIsBefore(p: seq<Byte>)
    ensures Before(Cursor(p, 0, true), p)
  {
  }

  // ---------- splitting ----------

  /** The runs of at most 4096 records that one flush writes, from a start on. */
  function ChunksFrom(list: seq<Record>, start: nat): seq<seq<Record>>
    requires start <= |list|
    decreases |list| - start
  {
    if start == |list| then []
    else
      var end := if start + BatchLimit < |list| then start + BatchLimit else |list|;
      [list[start..end]] + ChunksFrom(list, end)
  }

  function Flatten(chunks: seq<seq<Record>>): seq<Record> {
    if chunks == [] then [] else chunks[0] + Flatten(chunks[1..])
  }

  /** The records that a client reads out of these payloads. */
  function ReadAll(payloads: seq<seq<Byte>>): seq<Record> {
    if payloads == [] then [] else GetBatch(payloads[0]).1 + ReadAll(payloads[1..])
  }

  function Payloads(id: U32Value, chunks: seq<seq<Record>>): seq<seq<Byte>> {
    seq(|chunks|, i requires 0 <= i < |chunks| => BatchBytes(id, chunks[i]))
  }

  lemma {:induction false} ChunksSplit(list: seq<Record>, start: nat)
    requires start <= |list|
    ensures Flatten(ChunksFrom(list, start)) == list[start..]
    ensures forall k | k in ChunksFrom(list, start) :: 1 <= |k| <= BatchLimit && forall r | r in k :: r in list
    ensures |ChunksFrom(list, start)| == (|list| - start + 4095) / 4096
    decreases |list| - start
  {
    hide Flatten;
    if start == |list| {
      FlattenNone();
    } else {
      var end := if start + BatchLimit < |list| then start + BatchLimit else |list|;
      ChunksSplit(list, end);
      FlattenFirst(list[start..end], ChunksFrom(list, end));
      assert list[start..] == list[start..end] + list[end..];
      assert forall r | r in list[start..end] :: r in list;
    }
  }

  lemma FlattenNone()
    ensures Flatten([]) == []
  {
  }

  lemma FlattenFirst(k: seq<Record>, rest: seq<seq<Record>>)
    ensures Flatten([k] + rest) == k + Flatten(rest)
  {
    assert ([k] + rest)[1..] == rest;
  }

  lemma {:induction false} PayloadsRead(id: U32Value, chunks: seq<seq<Record>>)
    requires forall k | k in chunks :: |k| < TwoTo32 && forall r | r in k :: Fits(r)
    ensures ReadAll(Payloads(id, chunks)) == Flatten(chunks)
    ensures forall p | p in Payloads(id, chunks) :: GetBatch(p).0 == id && GetBatch(p).2.ok && GetBatch(p).2.AtEnd()
    decreases |chunks|
  {
    hide BatchBytes, GetBatch, Fits;
    if chunks != [] {
      BatchRoundTrip(id, chunks[0]);
      PayloadsRead(id, chunks[1..]);
      assert Payloads(id, chunks) == [BatchBytes(id, chunks[0])] + Payloads(id, chunks[1..]);
    }
  }

  /** Each batch of one flush holds 1 to 4096 records, and read in order they are the whole pending list,
      with the reader in order and at its end. */
  lemma SplittingLossless(id: U32Value, list: seq<Record>)
    requires forall r | r in list :: Fits(r)
    ensures var chunks := ChunksFrom(list, 0);
            && (forall k | k in chunks :: 1 <= |k| <= 4096) && |chunks| == (|list| + 4095) / 4096
            && ReadAll(Payloads(id, chunks)) == list
            && forall p | p in Payloads(id, chunks) :: GetBatch(p).0 == id && GetBatch(p).2.ok && GetBatch(p).2.AtEnd()
  {
    hide GetBatch, BatchBytes;
    ChunksSplit(list, 0);
    PayloadsRead(id, ChunksFrom(list, 0));
    assert list[0..] == list;
  }

  // ---------- the size of a batch ----------

  lemma {:induction false} RecordsSize(rs: seq<Record>, b: nat)
    requires forall r | r in rs :: r.StringBytes() <= b
    ensures |RecordsBytes(rs)| <= |rs| * (9 + b)
    ensures (forall r | r in rs :: r.StringBytes() == b) ==> |RecordsBytes(rs)| == |rs| * (9 + b)
    decreases |rs|
  {
    hide RecordBytes;
    if rs != [] {
      var front := rs[..|rs| - 1];
      RecordsSize(front, b);
      assert |rs| * (9 + b) == |front| * (9 + b) + (9 + b);
    }
  }

  predicate ShortRecords(list: seq<Record>, b: nat) {
    forall r | r in list :: r.StringBytes() <= b
  }

  predicate PayloadsFit(id: U32Value, list: seq<Record>) {
    forall k | k in ChunksFrom(list, 0) :: |BatchBytes(id, k)| <= MaxPayloadSize
  }

  ghost predicate PayloadsWithin(b: nat) {
    forall id: U32Value, list: seq<Record> | ShortRecords(list, b) :: PayloadsFit(id, list)
  }

  /** 4086 bytes of strings a record always fit the frame limit, and no larger number does. */
  lemma BoundExact(b: nat)
    ensures PayloadsWithin(b) <==> b <= 4086
  {
    if b <= 4086 {
      forall id: U32Value, list: seq<Record>, k | ShortRecords(list, b) && k in ChunksFrom(list, 0)
        ensures |BatchBytes(id, k)| <= MaxPayloadSize
      {
        ChunksSplit(list, 0);
        RecordsSize(k, 4086);
        assert |k| * (9 + 4086) <= 4096 * (9 + 4086);
      }
    } else {
      var r := Record(1, seq(4087, _ => 0), []);
      var list := seq(BatchLimit, _ => r);
      assert forall x | x in list :: x == r;
      RecordsSize(list, 4087);
      OneChunk(list);
      assert |BatchBytes(0, list)| > MaxPayloadSize;
      assert list in ChunksFrom(list, 0);
      assert ShortRecords(list, b) && !PayloadsFit(0, list);
    }
  }

  lemma OneChunk(list: seq<Record>)
    requires |list| == BatchLimit
    ensures ChunksFrom(list, 0) == [list]
  {
    assert list[0..BatchLimit] == list;
    assert ChunksFrom(list, BatchLimit) == [];
  }

  // ---------- the loop ----------

  function Framed(payload: seq<Byte>): seq<Byte> {
    BytesU32(|payload| % 0x1_0000_0000) + BytesU16(ProtocolVersion) + BytesU16(MessageEventBatch) + payload
  }

  function FramedAll(payloads: seq<seq<Byte>>): seq<seq<Byte>> {
    seq(|payloads|, i requires 0 <= i < |payloads| => Framed(payloads[i]))
  }

  /** The batches of one watch in writerLoop. */
  method WriteEvents(id: U32Value, list: seq<Record>) returns (frames: seq<seq<Byte>>)
    ensures frames == FramedAll(Payloads(id, ChunksFrom(list, 0)))
  {
    frames := [];
    var start := 0;
    while start < |list|
      invariant start <= |list|
      invariant FramedAll(Payloads(id, ChunksFrom(list, 0)))
                == frames + FramedAll(Payloads(id, ChunksFrom(list, start)))
    {
      var end := if start + BatchLimit < |list| then start + BatchLimit else |list|;
      var w := WriteBatch(id, list, start, end);
      var frame := w.ToFrame(MessageEventBatch);
      NextFrames(id, list, start, end);
      frames := frames + [frame];
      start := end;
    }
  }

  method WriteBatch(id: U32Value, list: seq<Record>, start: nat, end: nat) returns (w: Writer)
    requires start <= end <= |list|
    ensures fresh(w) && w.data == BatchBytes(id, list[start..end])
  {
    hide BytesU32, BytesStr, RecordsBytes;
    w := new Writer();
    w.U32(id);
    w.U32((end - start) % 0x1_0000_0000);
    var head := w.data;
    RecordsNone(list, start);
    for i := start to end
      invariant w.data == head + RecordsBytes(list[start..i])
    {
      RecordsNext(list, start, i);
      w.U8(list[i].action);
      w.Str(list[i].path);
      w.Str(list[i].oldPath);
    }
  }

  lemma RecordsNone(list: seq<Record>, start: nat)
    requires start <= |list|
    ensures RecordsBytes(list[start..start]) == []
  {
  }

  lemma RecordsNext(list: seq<Record>, start: nat, i: nat)
    requires start <= i < |list|
    ensures RecordsBytes(list[start..i + 1]) == RecordsBytes(list[start..i]) + RecordBytes(list[i])
  {
    hide RecordBytes;
    assert list[start..i + 1][..i - start] == list[start..i];
  }

  lemma NextFrames(id: U32Value, list: seq<Record>, start: nat, end: nat)
    requires start < |list| && end == if start + BatchLimit < |list| then start + BatchLimit else |list|
    ensures FramedAll(Payloads(id, ChunksFrom(list, start)))
            == [Framed(BatchBytes(id, list[start..end]))] + FramedAll(Payloads(id, ChunksFrom(list, end)))
  {
    hide Framed, BatchBytes;
  }
}
