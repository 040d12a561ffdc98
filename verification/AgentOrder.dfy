/** The agent's output queue under every interleaving of listener threads, the command thread and the
    writer. A step is one critical section, or one write of the writer between two of them. Entries are
    numbered in the order in which they are made, so that order and loss can be told. */
module AgentOrder {
  import opened AgentCodec
  import opened AgentBatches

  datatype Msg = Control(frame: seq<Byte>) | Missed(id: U32Value) | Event(id: U32Value, record: Record)
  {
    predicate About(i: U32Value) {
      !Control? && id == i
    }
  }

  /** A message with its number. */
  datatype Item = Item(n: nat, msg: Msg)

  /** What was done to the queue: a message put in, or the pending events of a watch forgotten. */
  datatype Entry = Put(msg: Msg) | Unwatch(id: U32Value)

  type Pending = map<U32Value, seq<Item>>

  /** The shared queue, what the writer has swapped out of it, and what it has written. */
  datatype St = St(history: seq<Entry>,
                   outgoing: seq<Item>, events: Pending, missed: seq<Item>, stop: bool,
                   ownOutgoing: seq<Item>, ownEvents: Pending, ownMissed: seq<Item>,
                   written: seq<Item>, returned: bool)

  datatype Step =
    | PutControl(frame: seq<Byte>)
    | PutEvent(id: U32Value, record: Record)
    | PutMissed(id: U32Value)
    | Forget(id: U32Value)
    | Stop
    | Swap
    | WriteControl
    | WriteMissed
    | WriteEvents(id: U32Value)
    | Return

  const Start := St([], [], map[], [], false, [], map[], [], [], false)

  function At(m: Pending, id: U32Value): seq<Item> {
    if id in m then m[id] else []
  }

  predicate SharedEmpty(s: St) {
    s.outgoing == [] && s.events == map[] && s.missed == []
  }

  /** The writer has nothing left to write. */
  predicate Idle(s: St) {
    s.ownOutgoing == [] && s.ownEvents == map[] && s.ownMissed == []
  }

  predicate Enabled(s: St, step: Step) {
    match step
    case PutControl(_) => !s.stop
    case PutEvent(_, _) => !s.stop
    case PutMissed(_) => !s.stop
    case Forget(_) => !s.stop
    case Stop => true
    case Swap => Idle(s) && !s.returned && !SharedEmpty(s)
    case WriteControl => s.ownOutgoing != []
    case WriteMissed => s.ownOutgoing == [] && s.ownMissed != []
    case WriteEvents(id) =>
      s.ownOutgoing == [] && s.ownMissed == [] && id in s.ownEvents && forall i | i in s.ownEvents :: id <= i
    case Return => Idle(s) && s.stop && SharedEmpty(s)
  }

  function Apply(s: St, step: Step): St
    requires Enabled(s, step)
  {
    var n := |s.history|;
    match step
    case PutControl(frame) =>
      s.(history := s.history + [Put(Control(frame))], outgoing := s.outgoing + [Item(n, Control(frame))])
    case PutEvent(id, record) =>
      s.(history := s.history + [Put(Event(id, record))],
         events := s.events[id := At(s.events, id) + [Item(n, Event(id, record))]])
    case PutMissed(id) =>
      s.(history := s.history + [Put(Missed(id))], events := s.events - {id},
         missed := s.missed + [Item(n, Missed(id))])
    case Forget(id) => s.(history := s.history + [Unwatch(id)], events := s.events - {id})
    case Stop => s.(stop := true)
    case Swap =>
      s.(outgoing := [], events := map[], missed := [],
         ownOutgoing := s.outgoing, ownEvents := s.events, ownMissed := s.missed)
    case WriteControl => s.(ownOutgoing := s.ownOutgoing[1..], written := s.written + [s.ownOutgoing[0]])
    case WriteMissed => s.(ownMissed := s.ownMissed[1..], written := s.written + [s.ownMissed[0]])
    case WriteEvents(id) => s.(ownEvents := s.ownEvents - {id}, written := s.written + s.ownEvents[id])
    case Return => s.(returned := true)
  }

  // ---------- what should hold ----------

  /** The items about one watch. */
  function Of(items: seq<Item>, id: U32Value): (r: seq<Item>)
    ensures forall i :: i in r <==> i in items && i.msg.About(id)
  {
    if items == [] then []
    else Of(items[..|items| - 1], id) + (if items[|items| - 1].msg.About(id) then [items[|items| - 1]] else [])
  }

  function Controls(items: seq<Item>): seq<Item> {
    if items == [] then []
    else Controls(items[..|items| - 1]) + (if items[|items| - 1].msg.Control? then [items[|items| - 1]] else [])
  }

  /** Everything about one watch that is written or still to be written, in that order. */
  function Line(s: St, id: U32Value): seq<Item> {
    Of(s.written, id) + (Of(s.ownMissed, id) + At(s.ownEvents, id)) + (Of(s.missed, id) + At(s.events, id))
  }

  function ControlLine(s: St): seq<Item> {
    Controls(s.written) + s.ownOutgoing + s.outgoing
  }

  /** The control frames ever put in, in order. */
  function ControlsOf(history: seq<Entry>): seq<Item> {
    if history == [] then []
    else
      var e := history[|history| - 1];
      ControlsOf(history[..|history| - 1])
      + (if e.Put? && e.msg.Control? then [Item(|history| - 1, e.msg)] else [])
  }

  /** In the order of the history, each at most once, and each as it was put in. */
  ghost predicate InOrder(items: seq<Item>, history: seq<Entry>) {
    && (forall i | 0 <= i < |items| :: items[i].n < |history| && history[items[i].n] == Put(items[i].msg))
    && (forall i, j | 0 <= i < j < |items| :: items[i].n < items[j].n)
  }

  /** A later missed-marker or UNWATCH of the same watch makes an event dispensable. */
  ghost predicate Superseded(history: seq<Entry>, n: nat, id: U32Value) {
    exists j :: n < j < |history| && (history[j] == Put(Missed(id)) || history[j] == Unwatch(id))
  }

  /** Where each thing put in for a watch has got to. */
  ghost predicate Accounted(items: seq<Item>, history: seq<Entry>, id: U32Value) {
    forall n: nat | n < |history| && history[n].Put? && history[n].msg.About(id) ::
      Item(n, history[n].msg) in items || (history[n].msg.Event? && Superseded(history, n, id))
  }

  /** The queues hold what they are for. */
  ghost predicate Sorted(s: St) {
    && (forall i | i in s.outgoing || i in s.ownOutgoing :: i.msg.Control?)
    && (forall i | i in s.missed || i in s.ownMissed :: i.msg.Missed?)
    && (forall id, k | id in s.events && k in s.events[id] :: k.msg.Event? && k.msg.id == id)
    && (forall id, k | id in s.ownEvents && k in s.ownEvents[id] :: k.msg.Event? && k.msg.id == id)
  }

  ghost predicate Inv(s: St) {
    && Sorted(s)
    && (forall id: U32Value :: InOrder(Line(s, id), s.history) && Accounted(Line(s, id), s.history, id))
    && ControlLine(s) == ControlsOf(s.history)
    && (s.returned ==> s.stop && Idle(s) && SharedEmpty(s))
  }

  // ---------- filters ----------

  lemma {:induction false} OfAppend(a: seq<Item>, b: seq<Item>, id: U32Value)
    ensures Of(a + b, id) == Of(a, id) + Of(b, id)
    decreases |b|
  {
    hide Msg.About;
    if b == [] {
      assert a + b == a;
    } else {
      assert (a + b)[..|a + b| - 1] == a + b[..|b| - 1];
      OfAppend(a, b[..|b| - 1], id);
    }
  }

  lemma {:induction false} ControlsAppend(a: seq<Item>, b: seq<Item>)
    ensures Controls(a + b) == Controls(a) + Controls(b)
    decreases |b|
  {
    if b == [] {
      assert a + b == a;
    } else {
      assert (a + b)[..|a + b| - 1] == a + b[..|b| - 1];
      ControlsAppend(a, b[..|b| - 1]);
    }
  }

  lemma {:induction false} OfEvents(items: seq<Item>, owner: U32Value, id: U32Value)
    requires forall k | k in items :: k.msg.Event? && k.msg.id == owner
    ensures Of(items, id) == if id == owner then items else []
    decreases |items|
  {
    if items != [] {
      var front, last := items[..|items| - 1], items[|items| - 1];
      assert items == front + [last];
      OfEvents(front, owner, id);
    }
  }

  lemma {:induction false} NoControls(items: seq<Item>)
    requires forall k | k in items :: !k.msg.Control?
    ensures Controls(items) == []
    decreases |items|
  {
    if items != [] {
      var front, last := items[..|items| - 1], items[|items| - 1];
      assert items == front + [last];
      NoControls(front);
    }
  }

  lemma Regroup(a: seq<Item>, x: seq<Item>, b: seq<Item>)
    ensures a + x + b == a + (x + b)
  {
  }

  lemma WithEmpty(a: seq<Item>, x: seq<Item>)
    ensures a + ([] + []) + x == a + x && a + x + ([] + []) == a + x
    ensures a + x + ([] + []) == a + ([] + x) && a + [] == a
  {
  }

  lemma OfNone(id: U32Value)
    ensures Of([], id) == [] && Controls([]) == []
  {
  }

  lemma OfOne(i: Item, id: U32Value)
    ensures Of([i], id) == if i.msg.About(id) then [i] else []
    ensures Controls([i]) == if i.msg.Control? then [i] else []
  {
    assert [i][..0] == [];
  }

  // ---------- order and account ----------

  lemma InOrderAppend(items: seq<Item>, history: seq<Entry>, msg: Msg)
    requires InOrder(items, history)
    ensures InOrder(items + [Item(|history|, msg)], history + [Put(msg)])
  {
  }

  lemma InOrderLater(items: seq<Item>, history: seq<Entry>, e: Entry)
    requires InOrder(items, history)
    ensures InOrder(items, history + [e])
  {
  }

  lemma InOrderFront(a: seq<Item>, b: seq<Item>, history: seq<Entry>)
    requires InOrder(a + b, history)
    ensures InOrder(a, history)
  {
    assert forall i | 0 <= i < |a| :: (a + b)[i] == a[i];
  }

  lemma SupersededLater(history: seq<Entry>, e: Entry, n: nat, id: U32Value)
    requires Superseded(history, n, id)
    ensures Superseded(history + [e], n, id)
  {
    var j :| n < j < |history| && (history[j] == Put(Missed(id)) || history[j] == Unwatch(id));
    assert (history + [e])[j] == history[j];
  }

  /** Another entry, which is not about this watch or has been added to the line. */
  lemma AccountedLater(items: seq<Item>, now: seq<Item>, history: seq<Entry>, e: Entry, id: U32Value)
    requires Accounted(items, history, id) && forall i | i in items :: i in now
    requires e.Put? && e.msg.About(id) ==> Item(|history|, e.msg) in now
    ensures Accounted(now, history + [e], id)
  {
    hide Superseded;
    var h := history + [e];
    forall n: nat | n < |h| && h[n].Put? && h[n].msg.About(id)
      ensures Item(n, h[n].msg) in now || (h[n].msg.Event? && Superseded(h, n, id))
    {
      if n < |history| {
        assert h[n] == history[n];
        if Item(n, h[n].msg) !in items {
          SupersededLater(history, e, n, id);
        }
      }
    }
  }

  /** An entry after which the events at the end of the line are dispensable. */
  lemma AccountedWithout(kept: seq<Item>, dropped: seq<Item>, now: seq<Item>, history: seq<Entry>, e: Entry,
                         id: U32Value)
    requires Accounted(kept + dropped, history, id) && InOrder(kept + dropped, history)
    requires forall i | i in dropped :: i.msg.Event?
    requires e == Put(Missed(id)) || e == Unwatch(id)
    requires (forall i | i in kept :: i in now) && (e.Put? ==> Item(|history|, e.msg) in now)
    ensures Accounted(now, history + [e], id)
  {
    hide Superseded, InOrder;
    var h := history + [e];
    forall n: nat | n < |h| && h[n].Put? && h[n].msg.About(id)
      ensures Item(n, h[n].msg) in now || (h[n].msg.Event? && Superseded(h, n, id))
    {
      if n < |history| {
        assert h[n] == history[n];
        var item := Item(n, h[n].msg);
        if item in dropped {
          SupersededBy(history, e, n, id);
        } else if item !in kept {
          SupersededLater(history, e, n, id);
        }
      }
    }
  }

  lemma SupersededBy(history: seq<Entry>, e: Entry, n: nat, id: U32Value)
    requires n < |history| && (e == Put(Missed(id)) || e == Unwatch(id))
    ensures Superseded(history + [e], n, id)
  {
    assert (history + [e])[|history|] == e;
  }

  // ---------- every step keeps the invariant ----------

  ghost predicate LineHolds(s: St, id: U32Value) {
    InOrder(Line(s, id), s.history) && Accounted(Line(s, id), s.history, id)
  }

  lemma ControlsGrow(history: seq<Entry>, e: Entry)
    ensures ControlsOf(history + [e]) == ControlsOf(history)
            + (if e.Put? && e.msg.Control? then [Item(|history|, e.msg)] else [])
  {
    assert (history + [e])[..|history|] == history;
  }

  lemma PutControlLine(s: St, frame: seq<Byte>, id: U32Value)
    requires Enabled(s, PutControl(frame)) && LineHolds(s, id)
    ensures LineHolds(Apply(s, PutControl(frame)), id)
  {
    hide InOrder, Accounted, Of;
    var e := Put(Control(frame));
    InOrderLater(Line(s, id), s.history, e);
    AccountedLater(Line(s, id), Line(s, id), s.history, e, id);
  }

  lemma PutEventLine(s: St, owner: U32Value, record: Record, id: U32Value)
    requires Enabled(s, PutEvent(owner, record)) && LineHolds(s, id)
    ensures LineHolds(Apply(s, PutEvent(owner, record)), id)
  {
    hide InOrder, Accounted, Of;
    var e, item := Put(Event(owner, record)), Item(|s.history|, Event(owner, record));
    var line, now := Line(s, id), Line(Apply(s, PutEvent(owner, record)), id);
    if id == owner {
      assert now == line + [item];
      InOrderAppend(line, s.history, e.msg);
    } else {
      assert now == line;
      InOrderLater(line, s.history, e);
    }
    AccountedLater(line, now, s.history, e, id);
  }

  /** The part of a line before the pending events. */
  function Front(s: St, id: U32Value): seq<Item> {
    Of(s.written, id) + (Of(s.ownMissed, id) + At(s.ownEvents, id)) + Of(s.missed, id)
  }

  lemma LineFront(s: St, id: U32Value)
    ensures Line(s, id) == Front(s, id) + At(s.events, id)
  {
    hide Of, At;
  }

  /** A marker of another watch leaves the line alone; its own takes the pending events' place. */
  lemma PutMissedFront(s: St, owner: U32Value, id: U32Value)
    requires Enabled(s, PutMissed(owner))
    ensures var e := Apply(s, PutMissed(owner));
            if id == owner then Line(e, id) == Front(s, id) + [Item(|s.history|, Missed(owner))]
            else Line(e, id) == Line(s, id)
  {
    hide Of;
    var item := Item(|s.history|, Missed(owner));
    OfAppend(s.missed, [item], id);
    OfOne(item, id);
    var own := Of(s.written, id) + (Of(s.ownMissed, id) + At(s.ownEvents, id));
    var missed, events := Of(s.missed, id), At(s.events, id);
    Regroup(own, missed, events);
    Regroup(own, missed, [item]);
    assert missed + [] == missed && missed + [item] + [] == missed + [item];
  }

  lemma PutMissedLine(s: St, owner: U32Value, id: U32Value)
    requires Enabled(s, PutMissed(owner)) && LineHolds(s, id) && Sorted(s)
    ensures LineHolds(Apply(s, PutMissed(owner)), id)
  {
    hide InOrder, Accounted, Of, Line, Front;
    var e, item := Put(Missed(owner)), Item(|s.history|, Missed(owner));
    PutMissedFront(s, owner, id);
    LineFront(s, id);
    if id == owner {
      var front, dropped := Front(s, id), At(s.events, id);
      InOrderFront(front, dropped, s.history);
      InOrderAppend(front, s.history, e.msg);
      AccountedWithout(front, dropped, front + [item], s.history, e, id);
    } else {
      InOrderLater(Line(s, id), s.history, e);
      AccountedLater(Line(s, id), Line(s, id), s.history, e, id);
    }
  }

  lemma ForgetLine(s: St, owner: U32Value, id: U32Value)
    requires Enabled(s, Forget(owner)) && LineHolds(s, id) && Sorted(s)
    ensures LineHolds(Apply(s, Forget(owner)), id)
  {
    hide InOrder, Accounted, Of, Line;
    var e := Unwatch(owner);
    var s' := Apply(s, Forget(owner));
    LineFront(s, id);
    LineFront(s', id);
    var front, dropped := Front(s, id), At(s.events, id);
    if id == owner {
      assert Line(s', id) == front;
      InOrderFront(front, dropped, s.history);
      InOrderLater(front, s.history, e);
      AccountedWithout(front, dropped, front, s.history, e, id);
    } else {
      InOrderLater(Line(s, id), s.history, e);
      AccountedLater(Line(s, id), Line(s, id), s.history, e, id);
    }
  }

  lemma SwapLine(s: St, id: U32Value)
    requires Enabled(s, Swap)
    ensures Line(Apply(s, Swap), id) == Line(s, id)
  {
    hide Of;
    OfNone(id);
    WithEmpty(Of(s.written, id), Of(s.missed, id) + At(s.events, id));
  }

  lemma WriteControlLine(s: St, id: U32Value)
    requires Enabled(s, WriteControl) && Sorted(s)
    ensures Line(Apply(s, WriteControl), id) == Line(s, id)
    ensures ControlLine(Apply(s, WriteControl)) == ControlLine(s)
  {
    hide Of, Controls, At;
    var own := s.ownOutgoing;
    var item := own[0];
    assert item in own && own == [item] + own[1..];
    OfAppend(s.written, [item], id);
    ControlsAppend(s.written, [item]);
    OfOne(item, id);
    Regroup(Controls(s.written), [item], own[1..]);
    assert Of(s.written, id) + [] == Of(s.written, id);
  }

  lemma WriteMissedLine(s: St, id: U32Value)
    requires Enabled(s, WriteMissed) && Sorted(s)
    ensures Line(Apply(s, WriteMissed), id) == Line(s, id)
    ensures ControlLine(Apply(s, WriteMissed)) == ControlLine(s)
  {
    hide Of, Controls, At;
    var own := s.ownMissed;
    var item := own[0];
    assert item in own && own == [item] + own[1..];
    OfAppend(s.written, [item], id);
    ControlsAppend(s.written, [item]);
    OfAppend([item], own[1..], id);
    OfOne(item, id);
    Regroup(Of([item], id), Of(own[1..], id), At(s.ownEvents, id));
    Regroup(Of(s.written, id), Of([item], id), Of(own[1..], id) + At(s.ownEvents, id));
    assert Controls(s.written) + [] == Controls(s.written);
  }

  lemma WriteEventsLine(s: St, owner: U32Value, id: U32Value)
    requires Enabled(s, WriteEvents(owner)) && Sorted(s)
    ensures Line(Apply(s, WriteEvents(owner)), id) == Line(s, id)
    ensures ControlLine(Apply(s, WriteEvents(owner))) == ControlLine(s)
  {
    hide Of, Controls;
    var items := s.ownEvents[owner];
    OfAppend(s.written, items, id);
    ControlsAppend(s.written, items);
    OfEvents(items, owner, id);
    NoControls(items);
    OfNone(id);
    WithEmpty(Controls(s.written), []);
    WithEmpty(Of(s.written, id), items);
    WithEmpty(Of(s.written, id), []);
  }

  lemma SortedStep(s: St, step: Step)
    requires Sorted(s) && Enabled(s, step)
    ensures Sorted(Apply(s, step))
  {
  }

  lemma StepInv(s: St, step: Step)
    requires Inv(s) && Enabled(s, step)
    ensures Inv(Apply(s, step))
  {
    hide Sorted, InOrder, Accounted, Line, ControlLine, ControlsOf, Apply;
    SortedStep(s, step);
    ReturnedStep(s, step);
    ControlStep(s, step);
    forall id: U32Value
      ensures LineHolds(Apply(s, step), id)
    {
      assert LineHolds(s, id);
      LineStep(s, step, id);
    }
    forall id: U32Value
      ensures InOrder(Line(Apply(s, step), id), Apply(s, step).history)
      ensures Accounted(Line(Apply(s, step), id), Apply(s, step).history, id)
    {
      assert LineHolds(Apply(s, step), id);
    }
  }

  lemma ReturnedStep(s: St, step: Step)
    requires Enabled(s, step) && (s.returned ==> s.stop && Idle(s) && SharedEmpty(s))
    ensures var e := Apply(s, step); e.returned ==> e.stop && Idle(e) && SharedEmpty(e)
  {
  }

  lemma ControlStep(s: St, step: Step)
    requires Enabled(s, step) && Sorted(s) && ControlLine(s) == ControlsOf(s.history)
    ensures ControlLine(Apply(s, step)) == ControlsOf(Apply(s, step).history)
  {
    hide Controls, ControlsOf;
    match step
    case PutControl(frame) => ControlsGrow(s.history, Put(Control(frame)));
    case PutEvent(id, record) => ControlsGrow(s.history, Put(Event(id, record)));
    case PutMissed(id) => ControlsGrow(s.history, Put(Missed(id)));
    case Forget(id) => ControlsGrow(s.history, Unwatch(id));
    case WriteControl => WriteControlLine(s, 0);
    case WriteMissed => WriteMissedLine(s, 0);
    case WriteEvents(owner) => WriteEventsLine(s, owner, 0);
    case Stop =>
    case Swap =>
    case Return =>
  }

  lemma LineStep(s: St, step: Step, id: U32Value)
    requires Enabled(s, step) && Sorted(s) && LineHolds(s, id)
    ensures LineHolds(Apply(s, step), id)
  {
    hide InOrder, Accounted, Of, Sorted;
    match step
    case PutControl(frame) => PutControlLine(s, frame, id);
    case PutEvent(owner, record) => PutEventLine(s, owner, record, id);
    case PutMissed(owner) => PutMissedLine(s, owner, id);
    case Forget(owner) => ForgetLine(s, owner, id);
    case Swap => SwapLine(s, id);
    case WriteControl => WriteControlLine(s, id);
    case WriteMissed => WriteMissedLine(s, id);
    case WriteEvents(owner) => WriteEventsLine(s, owner, id);
    case Stop =>
    case Return =>
  }

  lemma StartInv()
    ensures Inv(Start)
  {
  }

  // ---------- runs ----------

  predicate Possible(s: St, steps: seq<Step>)
    decreases |steps|
  {
    steps != [] ==> Enabled(s, steps[0]) && Possible(Apply(s, steps[0]), steps[1..])
  }

  function Run(s: St, steps: seq<Step>): St
    requires Possible(s, steps)
    decreases |steps|
  {
    if steps == [] then s else Run(Apply(s, steps[0]), steps[1..])
  }

  /** These steps lead from one state to the other. */
  ghost predicate Reaches(s: St, steps: seq<Step>, e: St) {
    Possible(s, steps) && Run(s, steps) == e
  }

  lemma ReachesByNone(s: St)
    ensures Reaches(s, [], s)
  {
  }

  lemma ReachesByOne(s: St, step: Step)
    requires Enabled(s, step)
    ensures Reaches(s, [step], Apply(s, step))
  {
    hide Enabled, Apply;
    var e := Apply(s, step);
    assert [step][1..] == [] && Possible(e, []) && Run(e, []) == e;
  }

  lemma {:induction false} ReachesOn(s: St, a: seq<Step>, mid: St, b: seq<Step>, e: St)
    requires Reaches(s, a, mid) && Reaches(mid, b, e)
    ensures Reaches(s, a + b, e)
    decreases |a|
  {
    hide Enabled, Apply;
    if a == [] {
      assert a + b == b;
    } else {
      assert (a + b)[0] == a[0] && (a + b)[1..] == a[1..] + b;
      ReachesOn(Apply(s, a[0]), a[1..], mid, b, e);
    }
  }

  lemma {:induction false} RunInv(s: St, steps: seq<Step>)
    requires Inv(s) && Possible(s, steps)
    ensures Inv(Run(s, steps))
    decreases |steps|
  {
    hide Inv, Enabled, Apply;
    if steps != [] {
      StepInv(s, steps[0]);
      RunInv(Apply(s, steps[0]), steps[1..]);
    }
  }

  /** What holds in every interleaving. What has been written about a watch is what was put in about it,
      in order and without repetition, so that no event comes after a marker it preceded; an event that
      is neither written nor still to be written has been superseded by a later marker or UNWATCH, and
      nothing else is ever missing; control frames are written first in, first out. */
  lemma WriterOrder(steps: seq<Step>, id: U32Value)
    requires Possible(Start, steps)
    ensures var s := Run(Start, steps);
            && InOrder(Of(s.written, id), s.history)
            && Accounted(Line(s, id), s.history, id)
            && Controls(s.written) <= ControlsOf(s.history)
            && Controls(s.written) + s.ownOutgoing + s.outgoing == ControlsOf(s.history)
  {
    hide Enabled, Apply, Controls, ControlsOf, Of, InOrder, Accounted;
    StartInv();
    RunInv(Start, steps);
    var s := Run(Start, steps);
    var rest := (Of(s.ownMissed, id) + At(s.ownEvents, id)) + (Of(s.missed, id) + At(s.events, id));
    assert Line(s, id) == Of(s.written, id) + rest;
    InOrderFront(Of(s.written, id), rest, s.history);
    assert Controls(s.written) + s.ownOutgoing + s.outgoing == Controls(s.written) + (s.ownOutgoing + s.outgoing);
  }

  /** When the writer loop has returned, nothing is left: all control frames and all missed-markers are
      written, and every event is written or superseded. */
  lemma NothingRemains(steps: seq<Step>, id: U32Value)
    requires Possible(Start, steps) && Run(Start, steps).returned
    ensures var s := Run(Start, steps);
            && Controls(s.written) == ControlsOf(s.history)
            && forall n: nat | n < |s.history| && s.history[n].Put? && s.history[n].msg.About(id) ::
                 Item(n, s.history[n].msg) in s.written
                 || (s.history[n].msg.Event? && Superseded(s.history, n, id))
  {
    hide Enabled, Apply, Controls, ControlsOf, Superseded;
    WriterOrder(steps, id);
    StartInv();
    RunInv(Start, steps);
    var s := Run(Start, steps);
    OfNone(id);
    assert Line(s, id) == Of(s.written, id);
  }

  // ---------- what a run was asked for ----------

  /** The entries of the history, from the steps alone. */
  function Asked(steps: seq<Step>): seq<Entry> {
    if steps == [] then [] else Asked(steps[..|steps| - 1]) + AskedBy(steps[|steps| - 1])
  }

  function AskedBy(step: Step): seq<Entry> {
    match step
    case PutControl(frame) => [Put(Control(frame))]
    case PutEvent(id, record) => [Put(Event(id, record))]
    case PutMissed(id) => [Put(Missed(id))]
    case Forget(id) => [Unwatch(id)]
    case _ => []
  }

  lemma HistoryStep(s: St, step: Step)
    requires Enabled(s, step)
    ensures Apply(s, step).history == s.history + AskedBy(step)
  {
  }

  lemma {:induction false} RunLast(s: St, steps: seq<Step>)
    requires steps != [] && Possible(s, steps)
    ensures var front, last := steps[..|steps| - 1], steps[|steps| - 1];
            && Possible(s, front) && Enabled(Run(s, front), last)
            && Run(s, steps) == Apply(Run(s, front), last)
    decreases |steps|
  {
    hide Enabled, Apply;
    if |steps| == 1 {
      assert steps[1..] == [] && steps[..0] == [];
    } else {
      var rest := steps[1..];
      RunLast(Apply(s, steps[0]), rest);
      assert steps[..|steps| - 1][1..] == rest[..|rest| - 1];
    }
  }

  /** Everything a step asks for is entered in the history, in the order of the steps. */
  lemma {:induction false} HistoryKept(steps: seq<Step>)
    requires Possible(Start, steps)
    ensures Run(Start, steps).history == Asked(steps)
    decreases |steps|
  {
    hide Enabled, Apply, AskedBy;
    if steps != [] {
      RunLast(Start, steps);
      HistoryKept(steps[..|steps| - 1]);
      HistoryStep(Run(Start, steps[..|steps| - 1]), steps[|steps| - 1]);
    }
  }

  // ---------- silence after UNWATCH ----------

  /** No UNWATCH of its watch lies between an event and a message. */
  ghost predicate Fresh(history: seq<Entry>, event: Item, later: nat) {
    event.msg.Event? ==> forall k | event.n < k < later && k < |history| :: history[k] != Unwatch(event.msg.id)
  }

  /** Every item has a number that has been given. */
  ghost predicate Numbered(s: St) {
    && (forall i | i in s.written || i in s.ownOutgoing || i in s.outgoing :: i.n < |s.history|)
    && (forall id, i | id in s.events && i in s.events[id] :: i.n < |s.history|)
    && (forall id, i | id in s.ownEvents && i in s.ownEvents[id] :: i.n < |s.history|)
    && (forall i | i in s.missed || i in s.ownMissed :: i.n < |s.history|)
  }

  /** The pending events have come since the last UNWATCH of their watch. */
  ghost predicate SharedFresh(s: St) {
    forall id, e | id in s.events && e in s.events[id] :: Fresh(s.history, e, |s.history|)
  }

  /** The replies of the same round, and all before, are from before any UNWATCH that an event which is still
      to be written has outlived. */
  ghost predicate OwnFresh(s: St) {
    forall id, e, c | id in s.ownEvents && e in s.ownEvents[id] && OwnReply(s, c) :: Fresh(s.history, e, c.n)
  }

  predicate OwnReply(s: St, c: Item) {
    c.msg.Control? && (c in s.ownOutgoing || c in s.written)
  }

  /** No event is written behind a reply that is from after an UNWATCH the event was made before. */
  ghost predicate WrittenFresh(written: seq<Item>, history: seq<Entry>) {
    forall i, j | 0 <= i < j < |written| && written[i].msg.Control? :: Fresh(history, written[j], written[i].n)
  }

  ghost predicate Quiet(s: St) {
    Sorted(s) && Numbered(s) && SharedFresh(s) && OwnFresh(s) && WrittenFresh(s.written, s.history)
  }

  lemma FreshLater(history: seq<Entry>, e: Entry, event: Item, later: nat)
    requires Fresh(history, event, later) && later <= |history|
    ensures Fresh(history + [e], event, later)
    ensures later == |history| && event.msg.Event? && e != Unwatch(event.msg.id) ==>
              Fresh(history + [e], event, later + 1)
  {
  }

  lemma NumberedStep(s: St, step: Step)
    requires Numbered(s) && Enabled(s, step)
    ensures Numbered(Apply(s, step))
  {
  }

  lemma SharedFreshStep(s: St, step: Step)
    requires Sorted(s) && SharedFresh(s) && Enabled(s, step)
    ensures SharedFresh(Apply(s, step))
  {
    var s' := Apply(s, step);
    forall id, e | id in s'.events && e in s'.events[id]
      ensures Fresh(s'.history, e, |s'.history|)
    {
      if id in s.events && e in s.events[id] {
        assert e.msg.Event? && e.msg.id == id;
        assert Fresh(s.history, e, |s.history|);
        assert s'.history == s.history || s'.history == s.history + [s'.history[|s.history|]];
      } else {
        assert e.n + 1 == |s'.history|;
      }
    }
  }

  lemma OwnFreshStep(s: St, step: Step)
    requires Sorted(s) && Numbered(s) && SharedFresh(s) && OwnFresh(s) && Enabled(s, step)
    ensures OwnFresh(Apply(s, step))
  {
    hide SharedFresh;
    var s' := Apply(s, step);
    forall id, e, c | id in s'.ownEvents && e in s'.ownEvents[id] && OwnReply(s', c)
      ensures Fresh(s'.history, e, c.n)
    {
      assert c.n < |s.history|;
      if step.Swap? {
        SharedIsFresh(s, id, e);
      } else {
        assert OwnReply(s, c) && Fresh(s.history, e, c.n);
      }
    }
  }

  lemma SharedIsFresh(s: St, id: U32Value, e: Item)
    requires SharedFresh(s) && id in s.events && e in s.events[id]
    ensures forall n: nat | n < |s.history| :: Fresh(s.history, e, n)
  {
    assert Fresh(s.history, e, |s.history|);
  }

  lemma WrittenAppend(written: seq<Item>, more: seq<Item>, history: seq<Entry>)
    requires WrittenFresh(written, history) && forall c | c in more :: !c.msg.Control? || |more| == 1
    requires forall c, e | c in written && e in more && c.msg.Control? :: Fresh(history, e, c.n)
    ensures WrittenFresh(written + more, history)
  {
    hide Fresh;
    var all := written + more;
    assert forall k | |written| <= k < |all| :: all[k] in more;
    forall i, j | 0 <= i < j < |all| && all[i].msg.Control?
      ensures Fresh(history, all[j], all[i].n)
    {
      if i < |written| {
        assert all[i] in written && all[i] == written[i];
        assert j < |written| ==> all[j] == written[j];
      }
    }
  }

  lemma WrittenFreshStep(s: St, step: Step)
    requires Sorted(s) && Numbered(s) && OwnFresh(s) && WrittenFresh(s.written, s.history) && Enabled(s, step)
    ensures WrittenFresh(Apply(s, step).written, Apply(s, step).history)
  {
    hide WrittenFresh;
    match step
    case WriteControl =>
      assert s.ownOutgoing[0] in s.ownOutgoing;
      WrittenAppend(s.written, [s.ownOutgoing[0]], s.history);
    case WriteMissed =>
      assert s.ownMissed[0] in s.ownMissed;
      WrittenAppend(s.written, [s.ownMissed[0]], s.history);
    case WriteEvents(id) => WrittenAppend(s.written, s.ownEvents[id], s.history);
    case PutControl(frame) => WrittenLater(s, Put(Control(frame)));
    case PutEvent(id, record) => WrittenLater(s, Put(Event(id, record)));
    case PutMissed(id) => WrittenLater(s, Put(Missed(id)));
    case Forget(id) => WrittenLater(s, Unwatch(id));
    case Stop =>
    case Swap =>
    case Return =>
  }

  lemma WrittenLater(s: St, e: Entry)
    requires Numbered(s) && WrittenFresh(s.written, s.history)
    ensures WrittenFresh(s.written, s.history + [e])
  {
    forall i, j | 0 <= i < j < |s.written| && s.written[i].msg.Control?
      ensures Fresh(s.history + [e], s.written[j], s.written[i].n)
    {
      assert s.written[i] in s.written;
      FreshLater(s.history, e, s.written[j], s.written[i].n);
    }
  }

  lemma QuietStep(s: St, step: Step)
    requires Quiet(s) && Enabled(s, step)
    ensures Quiet(Apply(s, step))
  {
    hide Sorted, Numbered, SharedFresh, OwnFresh, WrittenFresh, Enabled, Apply;
    SortedStep(s, step);
    NumberedStep(s, step);
    SharedFreshStep(s, step);
    OwnFreshStep(s, step);
    WrittenFreshStep(s, step);
  }

  lemma StartQuiet()
    ensures Quiet(Start)
  {
  }

  lemma {:induction false} RunQuiet(s: St, steps: seq<Step>)
    requires Quiet(s) && Possible(s, steps)
    ensures Quiet(Run(s, steps))
    decreases |steps|
  {
    hide Quiet, Enabled, Apply;
    if steps != [] {
      QuietStep(s, steps[0]);
      RunQuiet(Apply(s, steps[0]), steps[1..]);
    }
  }

  /** In every interleaving: once a reply has been written that was made after an UNWATCH, as UNWATCH_OK is,
      no event is written any more that was made before that UNWATCH. */
  lemma SilentAfterUnwatch(steps: seq<Step>, id: U32Value, k: nat, i: nat, j: nat)
    requires Possible(Start, steps) && k < |Asked(steps)| && Asked(steps)[k] == Unwatch(id)
    requires var written := Run(Start, steps).written;
             && i < |written| && j < |written| && written[i].msg.Control? && k < written[i].n
             && written[j].msg.Event? && written[j].msg.id == id && written[j].n < k
    ensures j < i
  {
    hide Enabled, Apply, Sorted;
    HistoryKept(steps);
    StartQuiet();
    RunQuiet(Start, steps);
  }
}
