/** Agent: the registered watches, the queue the listeners and the command thread fill, and one round of
    the writer. */
module AgentQueue {
  import opened Collections
  import opened AgentCodec
  import opened AgentBatches
  import opened AgentOrder

  const MessageUnwatchOk: nat := 7
  const MessageMissedEvents: nat := 9

  /** A frame as the writer makes it. */
  datatype OutFrame = Reply(bytes: seq<Byte>) | Marker(id: U32Value) | Batch(id: U32Value, records: seq<Record>)

  function ToBytes(f: OutFrame): seq<Byte> {
    match f
    case Reply(bytes) => bytes
    case Marker(id) => FrameBytes(Frame(ProtocolVersion, MessageMissedEvents, BytesU32(id)))
    case Batch(id, records) => Framed(BatchBytes(id, records))
  }

  function AllBytes(frames: seq<OutFrame>): seq<seq<Byte>> {
    seq(|frames|, i requires 0 <= i < |frames| => ToBytes(frames[i]))
  }

  // ---------- what the data stands for ----------

  function Msgs(items: seq<Item>): seq<Msg> {
    seq(|items|, i requires 0 <= i < |items| => items[i].msg)
  }

  function Replies(frames: seq<seq<Byte>>): seq<Msg> {
    seq(|frames|, i requires 0 <= i < |frames| => Control(frames[i]))
  }

  function Markers(ids: seq<U32Value>): seq<Msg> {
    seq(|ids|, i requires 0 <= i < |ids| => Missed(ids[i]))
  }

  function Events(id: U32Value, records: seq<Record>): seq<Msg> {
    seq(|records|, i requires 0 <= i < |records| => Event(id, records[i]))
  }

  function Meant(f: OutFrame): seq<Msg> {
    match f
    case Reply(bytes) => [Control(bytes)]
    case Marker(id) => [Missed(id)]
    case Batch(id, records) => Events(id, records)
  }

  function MeantAll(frames: seq<OutFrame>): seq<Msg> {
    if frames == [] then [] else MeantAll(frames[..|frames| - 1]) + Meant(frames[|frames| - 1])
  }

  ghost predicate SameEvents(events: map<U32Value, seq<Record>>, items: Pending) {
    events.Keys == items.Keys && forall id | id in events :: Events(id, events[id]) == Msgs(items[id])
  }

  lemma Appended(items: seq<Item>, i: Item, frames: seq<seq<Byte>>, f: seq<Byte>, ids: seq<U32Value>, id: U32Value)
    ensures Msgs(items + [i]) == Msgs(items) + [i.msg]
    ensures Replies(frames + [f]) == Replies(frames) + [Control(f)]
    ensures Markers(ids + [id]) == Markers(ids) + [Missed(id)]
  {
  }

  lemma EventAppended(id: U32Value, records: seq<Record>, r: Record, items: seq<Item>, i: Item)
    requires Events(id, records) == Msgs(items) && i.msg == Event(id, r)
    ensures Events(id, records + [r]) == Msgs(items + [i])
  {
    assert Events(id, records + [r]) == Events(id, records) + [Event(id, r)];
    assert Msgs(items + [i]) == Msgs(items) + [i.msg];
  }

  lemma NoEvents(id: U32Value)
    ensures Events(id, []) == Msgs([])
  {
  }

  class Agent {
    var watches: map<U32Value, (int, int)>
    var byEfsw: map<(int, int), U32Value>
    var outgoing: seq<seq<Byte>>
    var pendingEvents: map<U32Value, seq<Record>>
    var pendingMissed: seq<U32Value>
    var stop: bool
    /** The frames written to standard output. */
    var output: seq<seq<Byte>>
    ghost var frames: seq<OutFrame>
    ghost var st: St

    ghost predicate Valid()
      reads this
    {
      && Inv(st) && Idle(st) && Shared() && Told()
    }

    /** What holds at every critical section, also in the middle of a round of the writer. */
    ghost predicate Writing()
      reads this
    {
      Inv(st) && Shared() && Told()
    }

    ghost predicate Shared()
      reads `outgoing, `pendingEvents, `pendingMissed, `stop, `st
    {
      && Replies(outgoing) == Msgs(st.outgoing) && SameEvents(pendingEvents, st.events)
      && Markers(pendingMissed) == Msgs(st.missed) && stop == st.stop
    }

    ghost predicate Told()
      reads `output, `frames, `st
    {
      output == AllBytes(frames) && MeantAll(frames) == Msgs(st.written)
    }

    constructor ()
      ensures Valid() && st == Start
    {
      watches, byEfsw, outgoing, pendingEvents, pendingMissed, stop := map[], map[], [], map[], [], false;
      output, frames, st := [], [], Start;
      new;
      StartInv();
    }

    // ---------- the queue ----------

    /** send: a reply of some type with the payload that has been written. */
    method Send(kind: U16Value, payload: Writer)
      requires Writing() && !stop && |payload.data| < TwoTo32
      modifies `outgoing, `st
      ensures Writing() && (old(Valid()) ==> Valid())
      ensures outgoing == old(outgoing) + [FrameBytes(Frame(1, kind, payload.data))]
      ensures st == Apply(old(st), PutControl(FrameBytes(Frame(1, kind, payload.data))))
    {
      hide Inv, Msgs, Replies, Markers, FrameBytes;
      var frame := payload.ToFrame(kind);
      StepInv(st, PutControl(frame));
      Appended(st.outgoing, Item(|st.history|, Control(frame)), outgoing, frame, [], 0);
      outgoing := outgoing + [frame];
      st := Apply(st, PutControl(frame));
    }

    /** lookup: the first critical section of onEvent and onMissed. */
    method Lookup(key: int, efswId: int) returns (found: bool, watchId: U32Value)
      ensures found <==> (key, efswId) in byEfsw
      ensures found ==> watchId == byEfsw[(key, efswId)]
    {
      found := (key, efswId) in byEfsw;
      watchId := if found then byEfsw[(key, efswId)] else 0;
    }

    /** The second critical section of onEvent. The watch may have been forgotten meanwhile. */
    method PushEvent(watchId: U32Value, record: Record)
      requires Writing() && !stop
      modifies `pendingEvents, `st
      ensures Writing() && (old(Valid()) ==> Valid()) && st == Apply(old(st), PutEvent(watchId, record))
      ensures pendingEvents == old(pendingEvents)[
                watchId := (if watchId in old(pendingEvents) then old(pendingEvents)[watchId] else []) + [record]]
    {
      hide Inv, Msgs, Replies, Markers, Events;
      StepInv(st, PutEvent(watchId, record));
      NoEvents(watchId);
      EventAppended(watchId, if watchId in pendingEvents then pendingEvents[watchId] else [], record,
                    At(st.events, watchId), Item(|st.history|, Event(watchId, record)));
      var list := if watchId in pendingEvents then pendingEvents[watchId] else [];
      pendingEvents := pendingEvents[watchId := list + [record]];
      st := Apply(st, PutEvent(watchId, record));
    }

    /** The second critical section of onMissed: a rescan supersedes every pending event of the watch. */
    method PushMissed(watchId: U32Value)
      requires Writing() && !stop
      modifies `pendingEvents, `pendingMissed, `st
      ensures Writing() && (old(Valid()) ==> Valid()) && st == Apply(old(st), PutMissed(watchId))
      ensures pendingEvents == old(pendingEvents) - {watchId} && pendingMissed == old(pendingMissed) + [watchId]
    {
      hide Inv, Msgs, Replies, Markers, Events;
      StepInv(st, PutMissed(watchId));
      Appended(st.missed, Item(|st.history|, Missed(watchId)), [], [], pendingMissed, watchId);
      pendingEvents := pendingEvents - {watchId};
      pendingMissed := pendingMissed + [watchId];
      st := Apply(st, PutMissed(watchId));
    }

    /** onEvent without an interruption: an event of a watch that is not registered is dropped. */
    method OnEvent(key: int, efswId: int, record: Record)
      requires Writing() && !stop
      modifies `pendingEvents, `st
      ensures Writing() && (old(Valid()) ==> Valid())
      ensures st == if (key, efswId) in byEfsw then Apply(old(st), PutEvent(byEfsw[(key, efswId)], record)) else old(st)
    {
      var found, watchId := Lookup(key, efswId);
      if found {
        PushEvent(watchId, record);
      }
    }

    /** onMissed without an interruption. */
    method OnMissed(key: int, efswId: int)
      requires Writing() && !stop
      modifies `pendingEvents, `pendingMissed, `st
      ensures Writing() && (old(Valid()) ==> Valid())
      ensures st == if (key, efswId) in byEfsw then Apply(old(st), PutMissed(byEfsw[(key, efswId)])) else old(st)
    {
      var found, watchId := Lookup(key, efswId);
      if found {
        PushMissed(watchId);
      }
    }

    /** The registration at the end of WATCH. */
    method Register(id: U32Value, key: int, efswId: int)
      modifies `watches, `byEfsw
      ensures watches == old(watches)[id := (key, efswId)] && byEfsw == old(byEfsw)[(key, efswId) := id]
    {
      watches := watches[id := (key, efswId)];
      byEfsw := byEfsw[(key, efswId) := id];
    }

    /** The first critical section of UNWATCH: no event of the watch is found again. */
    method Unregister(id: U32Value)
      modifies `watches, `byEfsw
      ensures watches == old(watches) - {id}
      ensures byEfsw == old(byEfsw) - (if id in old(watches) then {old(watches)[id]} else {})
    {
      if id in watches {
        byEfsw := byEfsw - {watches[id]};
        watches := watches - {id};
      }
    }

    /** The second one: what is pending is forgotten. */
    method ForgetPending(id: U32Value)
      requires Writing() && !stop
      modifies `pendingEvents, `st
      ensures Writing() && (old(Valid()) ==> Valid()) && st == Apply(old(st), Forget(id))
      ensures pendingEvents == old(pendingEvents) - {id}
    {
      hide Inv;
      StepInv(st, Forget(id));
      pendingEvents := pendingEvents - {id};
      st := Apply(st, Forget(id));
    }

    /** UNWATCH without an interruption: the reply goes out behind what has been forgotten. */
    method Unwatch(id: U32Value)
      requires Writing() && !stop
      modifies `watches, `byEfsw, `pendingEvents, `outgoing, `st
      ensures Writing() && (old(Valid()) ==> Valid()) && watches == old(watches) - {id}
      ensures byEfsw == old(byEfsw) - (if id in old(watches) then {old(watches)[id]} else {})
      ensures st == Apply(Apply(old(st), Forget(id)),
                          PutControl(FrameBytes(Frame(1, 7, BytesU32(id)))))
    {
      hide Inv, FrameBytes, BytesU32, Shared, Told;
      Unregister(id);
      ForgetPending(id);
      var w := new Writer();
      w.U32(id);
      assert w.data == BytesU32(id);
      Send(MessageUnwatchOk, w);
    }

    method Stop()
      requires Valid()
      modifies `stop, `st
      ensures Valid() && st == Apply(old(st), AgentOrder.Stop)
    {
      hide Inv;
      StepInv(st, AgentOrder.Stop);
      stop := true;
      st := Apply(st, AgentOrder.Stop);
    }

    // ---------- the writer ----------

    /** writeOutput of one frame, which writes these items. */
    method Emit(bytes: seq<Byte>, ghost f: OutFrame, ghost step: Step, ghost items: seq<Item>)
      requires Writing() && Enabled(st, step) && bytes == ToBytes(f) && Meant(f) == Msgs(items)
      requires var e := Apply(st, step);
               && e.written == st.written + items && e.outgoing == st.outgoing && e.events == st.events
               && e.missed == st.missed && e.stop == st.stop
      modifies `output, `frames, `st
      ensures Writing() && st == Apply(old(st), step)
    {
      hide Inv, Apply, Enabled, ToBytes, Meant, Msgs, Replies, Markers, Events;
      StepInv(st, step);
      Told1(frames, f, st.written, items);
      output := output + [bytes];
      frames := frames + [f];
      st := Apply(st, step);
    }

    method WriteReplies(own: seq<seq<Byte>>) returns (ghost steps: seq<Step>)
      requires Writing() && Replies(own) == Msgs(st.ownOutgoing)
      modifies `output, `frames, `st
      ensures Writing() && Reaches(old(st), steps, st) && st.returned == old(st.returned)
      ensures st.ownOutgoing == [] && st.ownMissed == old(st.ownMissed) && st.ownEvents == old(st.ownEvents)
    {
      hide Inv, Reaches, Shared, Told;
      ghost var start := st;
      steps := [];
      ReachesByNone(st);
      WholeRest(own, []);
      for i := 0 to |own|
        invariant Writing() && Reaches(start, steps, st) && st.returned == start.returned
        invariant Replies(own[i..]) == Msgs(st.ownOutgoing)
        invariant st.ownMissed == start.ownMissed && st.ownEvents == start.ownEvents
      {
        ghost var was := st;
        NextReply(own, i, st.ownOutgoing);
        Emit(own[i], Reply(own[i]), WriteControl, [st.ownOutgoing[0]]);
        ReachesByOne(was, WriteControl);
        ReachesOn(start, steps, was, [WriteControl], st);
        steps := steps + [WriteControl];
      }
      NoneLeft(own, st.ownOutgoing);
    }

    method WriteMarkers(own: seq<U32Value>) returns (ghost steps: seq<Step>)
      requires Writing() && st.ownOutgoing == [] && Markers(own) == Msgs(st.ownMissed)
      modifies `output, `frames, `st
      ensures Writing() && Reaches(old(st), steps, st) && st.returned == old(st.returned)
      ensures st.ownOutgoing == [] && st.ownMissed == [] && st.ownEvents == old(st.ownEvents)
    {
      hide Inv, Reaches, Shared, Told, FrameBytes;
      ghost var start := st;
      steps := [];
      ReachesByNone(st);
      WholeRest([], own);
      for i := 0 to |own|
        invariant Writing() && Reaches(start, steps, st) && st.returned == start.returned
        invariant Markers(own[i..]) == Msgs(st.ownMissed)
        invariant st.ownOutgoing == [] && st.ownEvents == start.ownEvents
      {
        ghost var was := st;
        var w := new Writer();
        w.U32(own[i]);
        assert w.data == BytesU32(own[i]);
        var frame := w.ToFrame(MessageMissedEvents);
        NextMarker(own, i, st.ownMissed);
        Emit(frame, Marker(own[i]), AgentOrder.WriteMissed, [st.ownMissed[0]]);
        ReachesByOne(was, AgentOrder.WriteMissed);
        ReachesOn(start, steps, was, [AgentOrder.WriteMissed], st);
        steps := steps + [AgentOrder.WriteMissed];
      }
      NoMarkerLeft(own, st.ownMissed);
    }

    /** The batches of one watch. */
    method WriteWatch(id: U32Value, list: seq<Record>)
      requires Writing() && Enabled(st, AgentOrder.WriteEvents(id)) && Events(id, list) == Msgs(st.ownEvents[id])
      modifies `output, `frames, `st
      ensures Writing() && st == Apply(old(st), AgentOrder.WriteEvents(id))
    {
      hide Inv, Msgs, Replies, Markers, Events, MeantAll, AllBytes, Batches, Payloads;
      StepInv(st, AgentOrder.WriteEvents(id));
      var written := AgentBatches.WriteEvents(id, list);
      ghost var batches, items := Batches(id, ChunksFrom(list, 0)), st.ownEvents[id];
      BatchesBytes(id, ChunksFrom(list, 0));
      AllBytesAppend(frames, batches);
      MeantAppend(frames, batches);
      MeantBatches(id, ChunksFrom(list, 0));
      ChunksSplit(list, 0);
      WholeList(list);
      MsgsAppend(st.written, items);
      output := output + written;
      frames := frames + batches;
      st := Apply(st, AgentOrder.WriteEvents(id));
    }

    /** The least of the watches that remain, as the map's order has it. */
    method Least(ids: set<U32Value>) returns (least: U32Value)
      requires ids != {}
      ensures least in ids && forall i | i in ids :: least <= i
    {
      least := Pick(ids);
      var todo := ids - {least};
      while todo != {}
        invariant todo <= ids && least in ids && forall i | i in ids && i !in todo :: least <= i
      {
        var i := Pick(todo);
        if i < least {
          least := i;
        }
        todo := todo - {i};
      }
    }

    method WriteBatches(events: map<U32Value, seq<Record>>) returns (ghost steps: seq<Step>)
      requires Writing() && st.ownOutgoing == [] && st.ownMissed == [] && SameEvents(events, st.ownEvents)
      modifies `output, `frames, `st
      ensures Writing() && Reaches(old(st), steps, st) && st.returned == old(st.returned) && Idle(st)
    {
      hide Inv, Reaches, Shared, Told, Msgs, Events;
      ghost var start := st;
      steps := [];
      ReachesByNone(st);
      var left := events.Keys;
      while left != {}
        invariant Writing() && Reaches(start, steps, st) && st.returned == start.returned
        invariant left <= events.Keys && st.ownOutgoing == [] && st.ownMissed == []
        invariant st.ownEvents.Keys == left
        invariant forall id | id in left :: Events(id, events[id]) == Msgs(st.ownEvents[id])
      {
        ghost var was := st;
        var id := Least(left);
        WriteWatch(id, events[id]);
        ReachesByOne(was, AgentOrder.WriteEvents(id));
        ReachesOn(start, steps, was, [AgentOrder.WriteEvents(id)], st);
        steps := steps + [AgentOrder.WriteEvents(id)];
        left := left - {id};
      }
      assert st.ownEvents == map[];
    }

    /** One round of writerLoop: it ends when it has been told to stop and nothing is pending; otherwise
        it writes the replies, then the markers, then the batches of every watch. */
    method WriterRound() returns (ended: bool, ghost steps: seq<Step>)
      requires Valid() && !st.returned
      modifies `outgoing, `pendingEvents, `pendingMissed, `output, `frames, `st
      ensures Valid() && Reaches(old(st), steps, st) && st.returned == ended
      ensures ended <==> old(stop && outgoing == [] && pendingEvents == map[] && pendingMissed == [])
      ensures outgoing == [] && pendingEvents == map[] && pendingMissed == []
    {
      hide Inv, Reaches, Msgs, Replies, Markers, Events, MeantAll, AllBytes, SameEvents, SharedEmpty;
      ghost var start := st;
      Emptied(outgoing, pendingEvents, pendingMissed, st);
      if outgoing == [] && pendingEvents == map[] && pendingMissed == [] {
        if stop {
          StepInv(st, Return);
          ReachesByOne(st, Return);
          st := Apply(st, Return);
          return true, [Return];
        }
        ReachesByNone(st);
        return false, [];
      }
      StepInv(st, Swap);
      ReachesByOne(st, Swap);
      var own, events, missed := outgoing, pendingEvents, pendingMissed;
      outgoing, pendingEvents, pendingMissed := [], map[], [];
      st := Apply(st, Swap);
      NothingShared();
      ghost var swapped := st;
      ghost var writes := WriteSwapped(own, events, missed);
      ReachesOn(start, [Swap], swapped, writes, st);
      steps := [Swap] + writes;
      ended := false;
    }

    /** The writes of one round: the replies, then the markers, then the batches. */
    method WriteSwapped(own: seq<seq<Byte>>, events: map<U32Value, seq<Record>>, missed: seq<U32Value>)
      returns (ghost steps: seq<Step>)
      requires Writing() && Replies(own) == Msgs(st.ownOutgoing) && Markers(missed) == Msgs(st.ownMissed)
      requires SameEvents(events, st.ownEvents)
      modifies `output, `frames, `st
      ensures Writing() && Reaches(old(st), steps, st) && st.returned == old(st.returned) && Idle(st)
    {
      hide Inv, Reaches, Msgs, Replies, Markers, Shared, Told, SameEvents, Idle;
      ghost var start := st;
      ghost var replies := WriteReplies(own);
      ghost var replied := st;
      ghost var markers := WriteMarkers(missed);
      ghost var marked := st;
      ghost var batches := WriteBatches(events);
      ReachesOn(start, replies, replied, markers, marked);
      ReachesOn(start, replies + markers, marked, batches, st);
      steps := replies + markers + batches;
    }
  }

  lemma WholeList(list: seq<Record>)
    ensures list[0..] == list
  {
  }

  lemma NothingShared()
    ensures Replies([]) == Msgs([]) && Markers([]) == Msgs([]) && SameEvents(map[], map[])
  {
  }

  lemma Told1(frames: seq<OutFrame>, f: OutFrame, written: seq<Item>, items: seq<Item>)
    requires MeantAll(frames) == Msgs(written) && Meant(f) == Msgs(items)
    ensures MeantAll(frames + [f]) == Msgs(written + items)
    ensures AllBytes(frames + [f]) == AllBytes(frames) + [ToBytes(f)]
  {
    hide Meant, ToBytes;
    MsgsAppend(written, items);
    assert (frames + [f])[..|frames|] == frames;
    AllBytesNext(frames, f);
  }

  lemma AllBytesNext(frames: seq<OutFrame>, f: OutFrame)
    ensures AllBytes(frames + [f]) == AllBytes(frames) + [ToBytes(f)]
  {
    hide ToBytes;
  }

  lemma WholeRest(own: seq<seq<Byte>>, ids: seq<U32Value>)
    ensures own[0..] == own && ids[0..] == ids
  {
  }

  lemma SameParts(x: Msg, a: seq<Msg>, y: Msg, b: seq<Msg>)
    requires [x] + a == [y] + b
    ensures x == y && a == b
  {
    assert ([x] + a)[0] == x && ([y] + b)[0] == y;
    assert a == ([x] + a)[1..] && b == ([y] + b)[1..];
  }

  lemma NextReply(own: seq<seq<Byte>>, i: nat, items: seq<Item>)
    requires i < |own| && Replies(own[i..]) == Msgs(items)
    ensures items != [] && items[0].msg == Control(own[i]) && Replies(own[i + 1..]) == Msgs(items[1..])
    ensures Meant(Reply(own[i])) == Msgs([items[0]])
  {
    assert Replies(own[i..]) == [Control(own[i])] + Replies(own[i + 1..]);
    assert items != [] by {
      assert |Msgs(items)| == |items|;
    }
    assert Msgs(items) == [items[0].msg] + Msgs(items[1..]);
    SameParts(Control(own[i]), Replies(own[i + 1..]), items[0].msg, Msgs(items[1..]));
    assert Msgs([items[0]]) == [items[0].msg];
  }

  lemma NextMarker(own: seq<U32Value>, i: nat, items: seq<Item>)
    requires i < |own| && Markers(own[i..]) == Msgs(items)
    ensures items != [] && items[0].msg == Missed(own[i]) && Markers(own[i + 1..]) == Msgs(items[1..])
    ensures Meant(Marker(own[i])) == Msgs([items[0]])
  {
    assert Markers(own[i..]) == [Missed(own[i])] + Markers(own[i + 1..]);
    assert items != [] by {
      assert |Msgs(items)| == |items|;
    }
    assert Msgs(items) == [items[0].msg] + Msgs(items[1..]);
    SameParts(Missed(own[i]), Markers(own[i + 1..]), items[0].msg, Msgs(items[1..]));
    assert Msgs([items[0]]) == [items[0].msg];
  }

  lemma NoMarkerLeft(own: seq<U32Value>, items: seq<Item>)
    requires Markers(own[|own|..]) == Msgs(items)
    ensures items == []
  {
    assert |Msgs(items)| == |items|;
  }

  // The batches of one watch.

  function Batches(id: U32Value, chunks: seq<seq<Record>>): seq<OutFrame> {
    seq(|chunks|, i requires 0 <= i < |chunks| => Batch(id, chunks[i]))
  }

  lemma BatchesBytes(id: U32Value, chunks: seq<seq<Record>>)
    ensures AllBytes(Batches(id, chunks)) == FramedAll(Payloads(id, chunks))
  {
    hide Framed, BatchBytes;
  }

  lemma {:induction false} MeantAppend(a: seq<OutFrame>, b: seq<OutFrame>)
    ensures MeantAll(a + b) == MeantAll(a) + MeantAll(b)
    decreases |b|
  {
    hide Meant;
    if b == [] {
      assert a + b == a;
    } else {
      assert (a + b)[..|a + b| - 1] == a + b[..|b| - 1];
      MeantAppend(a, b[..|b| - 1]);
    }
  }

  lemma MeantFirst(f: OutFrame, rest: seq<OutFrame>)
    ensures MeantAll([f] + rest) == Meant(f) + MeantAll(rest)
  {
    hide Meant;
    MeantAppend([f], rest);
    assert [f][..0] == [];
  }

  lemma {:induction false} MeantBatches(id: U32Value, chunks: seq<seq<Record>>)
    ensures MeantAll(Batches(id, chunks)) == Events(id, Flatten(chunks))
    decreases |chunks|
  {
    if chunks != [] {
      var rest := Batches(id, chunks[1..]);
      assert Batches(id, chunks) == [Batch(id, chunks[0])] + rest;
      MeantFirst(Batch(id, chunks[0]), rest);
      MeantBatches(id, chunks[1..]);
      assert Events(id, chunks[0] + Flatten(chunks[1..])) == Events(id, chunks[0]) + Events(id, Flatten(chunks[1..]));
    }
  }

  lemma AllBytesAppend(a: seq<OutFrame>, b: seq<OutFrame>)
    ensures AllBytes(a + b) == AllBytes(a) + AllBytes(b)
  {
    hide ToBytes;
  }

  lemma MsgsAppend(a: seq<Item>, b: seq<Item>)
    ensures Msgs(a + b) == Msgs(a) + Msgs(b)
  {
  }

  lemma Emptied(outgoing: seq<seq<Byte>>, events: map<U32Value, seq<Record>>, missed: seq<U32Value>, s: St)
    requires Replies(outgoing) == Msgs(s.outgoing) && SameEvents(events, s.events) && Markers(missed) == Msgs(s.missed)
    ensures (outgoing == [] && events == map[] && missed == []) <==> SharedEmpty(s)
  {
    assert |Msgs(s.outgoing)| == |s.outgoing| && |Msgs(s.missed)| == |s.missed|;
    assert |Replies(outgoing)| == |outgoing| && |Markers(missed)| == |missed|;
  }

  lemma NoneLeft(own: seq<seq<Byte>>, items: seq<Item>)
    requires Replies(own[|own|..]) == Msgs(items)
    ensures items == []
  {
    assert |Msgs(items)| == |items|;
  }
}
