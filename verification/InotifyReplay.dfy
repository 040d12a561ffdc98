/** What the replay of one batch of inotify events does: every event takes the table to the next one,
    and every rename half of a watched directory is settled exactly once, in kernel order. */
module InotifyReplay {
  import opened Paths
  import opened InotifyEvents
  import opened InotifyWatch
  import opened InotifyWalk
  import opened MovedOut
  import opened PathTracking

  /** One kernel event and what the file system shows at its path when it is handled. */
  datatype BatchEvent = BatchEvent(wd: int, kind: Kind, cookie: int, filename: string, at: Node)

  /** The source of a rename: the watch it was reported on, as it is now, and the name. */
  datatype Source = Source(wd: int, entry: Entry, file: string)

  /** What the replay did with one event. */
  datatype Outcome =
    | Dropped
    | Deferred
    | MovedAway(source: Source)
    | Coalesced(source: Source)
    | Handled(entered: seq<Entry>)

  /** One round of the replay: the table before and after it, what was decided, and the listener calls. */
  datatype Step = Step(before: map<int, Entry>, after: map<int, Entry>, outcome: Outcome, calls: seq<Callback>)

  /** Each cookie pairs at most one FROM with one later TO. */
  ghost predicate CookiesPaired(events: seq<BatchEvent>) {
    forall i, j | 0 <= i < j < |events| && events[i].cookie == events[j].cookie ::
      && !(events[i].kind.MovedFrom? && events[j].kind.MovedFrom?)
      && !(events[i].kind.MovedTo? && events[j].kind.MovedTo?)
      && !(events[i].kind.MovedTo? && events[j].kind.MovedFrom?)
  }

  // ---------- what one event does ----------

  /** The rewriting loop over the whole table. */
  ghost function Reprefixed(t: map<int, Entry>, opath: string, npath: string): map<int, Entry> {
    map v | v in t :: t[v].(dir := Reprefix(t[v].dir, opath, npath))
  }

  /** A rename with a known source: one Moved, and a directory is followed through the table. */
  ghost predicate Renames(t: map<int, Entry>, t': map<int, Entry>, w: Entry, file: string, at: Node,
                          oldFile: string, calls: seq<Callback>)
  {
    && calls == [FileAction(w.watch.id, w.dir, file, Moved, oldFile)]
    && t' == if w.watch.recursive && at.Folder?
             then Reprefixed(t, MoveSource(w.dir, oldFile), AddSlash(w.dir + file)) else t
  }

  /** handleAction: what one event does to the table and tells the listener of its watch. */
  ghost predicate Acts(t: map<int, Entry>, t': map<int, Entry>, es: seq<Entry>, w: Entry, file: string, kind: Kind,
                       at: Node, oldFile: string, calls: seq<Callback>)
  {
    var id := w.watch.id;
    match kind
    case QueueOverflow => t' == t && es == [] && calls == [Missed(id, w.dir)]
    case CloseWrite | Modify => t' == t && es == [] && calls == [FileAction(id, w.dir, file, Modified, "")]
    case MovedTo =>
      if oldFile != "" then es == [] && Renames(t, t', w, file, at, oldFile, calls)
      else Appears(t, t', es, w, file, at,
                   [FileAction(id, w.dir, file, Add, ""), FileAction(id, w.dir, file, Modified, "")], calls)
    case Create => Appears(t, t', es, w, file, at, [FileAction(id, w.dir, file, Add, "")], calls)
    case Remove => es == [] && exists gone :: Deleted(t, gone, w, file, calls) && t' == t - gone
    case MovedFrom | OtherKind => t' == t && es == [] && calls == []
  }

  /** A new directory is registered before the new entry is reported. */
  ghost predicate Appears(t: map<int, Entry>, t': map<int, Entry>, es: seq<Entry>, w: Entry, file: string, at: Node,
                          last: seq<Callback>, calls: seq<Callback>)
  {
    && t' == Entered(t, es)
    && exists reports :: calls == reports + last && Arrives(t, es, w.watch, AddSlash(w.dir + file), at, reports)
  }

  /** The old name a rename is reported with: the bare name within one watch, the full path between two. */
  function OldName(source: Source, w: Entry): string {
    if source.entry.watch == w.watch then source.file else source.entry.dir + source.file
  }

  /** The step is what the code does with this event. */
  ghost predicate StepFits(e: BatchEvent, s: Step) {
    match s.outcome
    case Dropped => e.wd !in s.before && s.after == s.before && s.calls == []
    case Deferred => e.kind.MovedFrom? && e.wd in s.before && s.after == s.before && s.calls == []
    case MovedAway(source) =>
      && (if e.kind.MovedFrom? then e.wd in s.before && source == Source(e.wd, s.before[e.wd], e.filename)
          else e.kind.MovedTo? && e.wd !in s.before)
      && exists gone :: LeavesTree(s.before, gone, source.entry, source.file, s.calls) && s.after == s.before - gone
    case Coalesced(source) =>
      && e.kind.MovedTo? && e.wd in s.before
      && Renames(s.before, s.after, s.before[e.wd], e.filename, e.at, OldName(source, s.before[e.wd]), s.calls)
    case Handled(entered) =>
      && !e.kind.MovedFrom? && e.wd in s.before
      && Acts(s.before, s.after, entered, s.before[e.wd], e.filename, e.kind, e.at, "", s.calls)
  }

  lemma QuietFits(e: BatchEvent, s: Step)
    requires s.calls == [] && s.after == s.before
    requires (s.outcome.Dropped? && e.wd !in s.before) || (s.outcome.Deferred? && e.kind.MovedFrom? && e.wd in s.before)
    ensures StepFits(e, s)
  {
  }

  /** The steps follow one another from the first table to the last. */
  ghost predicate Linked(t: map<int, Entry>, steps: seq<Step>, t': map<int, Entry>) {
    if steps == [] then t' == t
    else
      && steps[0].before == t && steps[|steps| - 1].after == t'
      && forall k | 0 < k < |steps| :: steps[k].before == steps[k - 1].after
  }

  lemma LinkedStep(t: map<int, Entry>, steps: seq<Step>, m: map<int, Entry>, s: Step)
    requires Linked(t, steps, m) && s.before == m
    ensures Linked(t, steps + [s], s.after)
  {
  }

  function Concat(steps: seq<Step>): seq<Callback> {
    if steps == [] then [] else Concat(steps[..|steps| - 1]) + steps[|steps| - 1].calls
  }

  /** The explicit registrations are where they were. */
  ghost predicate RootsStay(s: Step) {
    forall v | v in s.before && v in s.after && s.before[v].watch.parent == null :: s.after[v].dir == s.before[v].dir
  }

  // ---------- following a source ----------

  /** What has become of a watch after a step: it is where the table has it, or where it was when it left. */
  function Now(s: Step, wd: int, w: Entry): Entry {
    if wd in s.after && s.after[wd].watch == w.watch then s.after[wd] else w
  }

  /** The watch of event i, as it is before step n. */
  function WatchAt(events: seq<BatchEvent>, steps: seq<Step>, i: nat, n: nat): Entry
    requires i < |steps| <= |events| && n <= |steps| && events[i].wd in steps[i].before
    decreases n
  {
    if n <= i then steps[i].before[events[i].wd]
    else Now(steps[n - 1], events[i].wd, WatchAt(events, steps, i, n - 1))
  }

  function SourceAt(events: seq<BatchEvent>, steps: seq<Step>, i: nat, n: nat): Source
    requires i < |steps| <= |events| && n <= |steps| && events[i].wd in steps[i].before
  {
    Source(events[i].wd, WatchAt(events, steps, i, n), events[i].filename)
  }

  lemma {:induction false} WatchStays(events: seq<BatchEvent>, steps: seq<Step>, s: Step, i: nat, n: nat)
    requires i < |steps| < |events| && n <= |steps| && events[i].wd in steps[i].before
    ensures WatchAt(events, steps + [s], i, n) == WatchAt(events, steps, i, n)
    decreases n
  {
    if n > i {
      WatchStays(events, steps, s, i, n - 1);
    }
  }

  // ---------- what a batch is owed ----------

  /** A source is deferred exactly when its batch holds its destination, on the same watch or on a
      watch of the same registration that reports moves between directories. */
  ghost predicate Deferrable(events: seq<BatchEvent>, t: map<int, Entry>, e: BatchEvent) {
    exists j ::
      0 <= j < |events| && events[j].kind.MovedTo? && events[j].cookie == e.cookie && Joins(t, e.wd, events[j].wd)
  }

  predicate Joins(t: map<int, Entry>, source: int, destination: int) {
    && source in t && destination in t
    && (source == destination
        || (t[destination].watch.reportCrossDirectoryMoves && t[destination].watch.id == t[source].watch.id))
  }

  /** The step reports the end of this rename. */
  predicate Settles(s: Step, source: Source) {
    (s.outcome.Coalesced? || s.outcome.MovedAway?) && s.outcome.source == source
  }

  /** Event j ends the rename that event i started, with the watch of event i as it is then. */
  ghost predicate Pairs(events: seq<BatchEvent>, steps: seq<Step>, i: int, j: int)
    requires |steps| <= |events|
  {
    && 0 <= i < j < |steps|
    && events[i].kind.MovedFrom? && steps[i].outcome.Deferred? && events[i].wd in steps[i].before
    && events[j].kind.MovedTo? && events[j].cookie == events[i].cookie
    && Settles(steps[j], SourceAt(events, steps, i, j))
  }

  /** Every FROM on a live watch is settled by its own step or by exactly one later one, and a step
      that settles a rename settles one that was started. */
  ghost predicate AllSettled(events: seq<BatchEvent>, steps: seq<Step>)
    requires |steps| == |events|
  {
    && (forall i | 0 <= i < |steps| && events[i].kind.MovedFrom? && events[i].wd in steps[i].before ::
          steps[i].outcome.MovedAway? || exists j :: Pairs(events, steps, i, j))
    && (forall j | 0 <= j < |steps| && (steps[j].outcome.Coalesced? || steps[j].outcome.MovedAway?) ::
          (events[j].kind.MovedFrom? && steps[j].outcome.MovedAway?) || exists i :: Pairs(events, steps, i, j))
  }

  /** No rename is ended twice and none of the ends is shared. */
  lemma PairsUnique(events: seq<BatchEvent>, steps: seq<Step>, i: int, j: int, k: int)
    requires |steps| <= |events| && CookiesPaired(events)
    ensures Pairs(events, steps, i, j) && Pairs(events, steps, i, k) ==> j == k
    ensures Pairs(events, steps, i, j) && Pairs(events, steps, k, j) ==> i == k
  {
  }

  // ---------- the renames waiting for their destination ----------

  /** Event i is a deferred source whose destination has not come so far. */
  ghost predicate Waiting(events: seq<BatchEvent>, steps: seq<Step>, i: int)
    requires |steps| <= |events|
  {
    && 0 <= i < |steps| && steps[i].outcome.Deferred? && events[i].kind.MovedFrom? && events[i].wd in steps[i].before
    && forall j | i < j < |steps| && events[j].kind.MovedTo? :: events[j].cookie != events[i].cookie
  }

  /** The pending sources are the waiting ones, and everything else so far is settled. */
  ghost predicate Accounted(events: seq<BatchEvent>, steps: seq<Step>, pending: map<int, Source>)
    requires |steps| <= |events|
  {
    && (forall c | c in pending :: AwaitedBy(events, steps, c, pending[c]))
    && (forall i | 0 <= i < |steps| && events[i].kind.MovedFrom? && events[i].wd in steps[i].before ::
          SourceKnown(events, steps, i, pending))
    && (forall j | 0 <= j < |steps| && (steps[j].outcome.Coalesced? || steps[j].outcome.MovedAway?) ::
          EndKnown(events, steps, j))
  }

  /** A waiting source has this cookie, and this is what it is now. */
  ghost predicate AwaitedBy(events: seq<BatchEvent>, steps: seq<Step>, cookie: int, source: Source)
    requires |steps| <= |events|
  {
    exists i :: Waiting(events, steps, i) && events[i].cookie == cookie && SourceAt(events, steps, i, |steps|) == source
  }

  ghost predicate SourceKnown(events: seq<BatchEvent>, steps: seq<Step>, i: nat, pending: map<int, Source>)
    requires i < |steps| <= |events|
  {
    || steps[i].outcome.MovedAway?
    || (Waiting(events, steps, i) && events[i].cookie in pending)
    || exists j :: Pairs(events, steps, i, j)
  }

  ghost predicate EndKnown(events: seq<BatchEvent>, steps: seq<Step>, j: nat)
    requires j < |steps| <= |events|
  {
    (events[j].kind.MovedFrom? && steps[j].outcome.MovedAway?) || exists i :: Pairs(events, steps, i, j)
  }

  /** The pending sources after a step that neither adds nor settles one. */
  function Carried(s: Step, was: map<int, Source>): map<int, Source> {
    map c | c in was :: was[c].(entry := Now(s, was[c].wd, was[c].entry))
  }

  /** How one step changes the pending sources. */
  ghost predicate PendingChange(e: BatchEvent, s: Step, was: map<int, Source>, now: map<int, Source>) {
    if e.kind.MovedFrom? then
      if s.outcome.Deferred? then
        e.wd in s.after && now == Carried(s, was)[e.cookie := Source(e.wd, s.after[e.wd], e.filename)]
      else now == Carried(s, was) && (s.outcome.MovedAway? || s.outcome.Dropped?)
    else if e.kind.MovedTo? && e.cookie in was then
      now == Carried(s, was) - {e.cookie} && Settles(s, was[e.cookie])
    else now == Carried(s, was) && (s.outcome.Handled? || s.outcome.Dropped?)
  }

  lemma PairsGrow(events: seq<BatchEvent>, steps: seq<Step>, s: Step, i: int, j: int)
    requires |steps| < |events|
    ensures Pairs(events, steps, i, j) ==> Pairs(events, steps + [s], i, j)
  {
    if Pairs(events, steps, i, j) {
      WatchStays(events, steps, s, i, j);
    }
  }

  lemma WaitingGrows(events: seq<BatchEvent>, steps: seq<Step>, s: Step, i: int)
    requires |steps| < |events| && Waiting(events, steps, i)
    ensures !(events[|steps|].kind.MovedTo? && events[|steps|].cookie == events[i].cookie) ==>
              Waiting(events, steps + [s], i)
    ensures var now := SourceAt(events, steps, i, |steps|);
            SourceAt(events, steps + [s], i, |steps| + 1) == now.(entry := Now(s, now.wd, now.entry))
  {
    WatchStays(events, steps, s, i, |steps|);
  }

  lemma WaitingStarts(events: seq<BatchEvent>, steps: seq<Step>, s: Step)
    requires |steps| < |events| && s.outcome.Deferred? && events[|steps|].kind.MovedFrom?
    requires StepFits(events[|steps|], s)
    ensures Waiting(events, steps + [s], |steps|)
    ensures SourceAt(events, steps + [s], |steps|, |steps| + 1)
            == Source(events[|steps|].wd, s.after[events[|steps|].wd], events[|steps|].filename)
  {
    var n, more := |steps|, steps + [s];
    assert WatchAt(events, more, n, n) == s.before[events[n].wd];
  }

  /** A destination whose cookie is pending pairs with the source that waits for it, and with no other. */
  lemma PairMade(events: seq<BatchEvent>, steps: seq<Step>, s: Step, was: map<int, Source>) returns (src: int)
    requires |steps| < |events| && CookiesPaired(events) && Accounted(events, steps, was)
    requires var e := events[|steps|]; e.kind.MovedTo? && e.cookie in was && Settles(s, was[e.cookie])
    ensures Pairs(events, steps + [s], src, |steps|)
    ensures forall i | Waiting(events, steps, i) && events[i].cookie == events[|steps|].cookie :: i == src
  {
    var e := events[|steps|];
    assert AwaitedBy(events, steps, e.cookie, was[e.cookie]);
    src :| Waiting(events, steps, src) && events[src].cookie == e.cookie
           && SourceAt(events, steps, src, |steps|) == was[e.cookie];
    WatchStays(events, steps, s, src, |steps|);
  }

  lemma SourceAwaited(events: seq<BatchEvent>, steps: seq<Step>, s: Step, was: map<int, Source>,
                      now: map<int, Source>, c: int)
    requires |steps| < |events| && Accounted(events, steps, was) && StepFits(events[|steps|], s)
    requires PendingChange(events[|steps|], s, was, now) && c in now
    ensures AwaitedBy(events, steps + [s], c, now[c])
  {
    hide Settles, Pairs, EndKnown, SourceKnown, StepFits, Now, WatchAt;
    if events[|steps|].kind.MovedFrom? && s.outcome.Deferred? && c == events[|steps|].cookie {
      WaitingStarts(events, steps, s);
    } else {
      assert AwaitedBy(events, steps, c, was[c]);
      var i :| Waiting(events, steps, i) && events[i].cookie == c && SourceAt(events, steps, i, |steps|) == was[c];
      WaitingGrows(events, steps, s, i);
    }
  }

  lemma SourceStillKnown(events: seq<BatchEvent>, steps: seq<Step>, s: Step, was: map<int, Source>,
                         now: map<int, Source>, i: nat)
    requires |steps| < |events| && CookiesPaired(events) && Accounted(events, steps, was)
    requires PendingChange(events[|steps|], s, was, now) && i < |steps| && SourceKnown(events, steps, i, was)
    ensures SourceKnown(events, steps + [s], i, now)
  {
    hide Accounted, CookiesPaired, Settles, Pairs, Now, WatchAt;
    var e := events[|steps|];
    if j :| Pairs(events, steps, i, j) {
      PairsGrow(events, steps, s, i, j);
    } else if Waiting(events, steps, i) && events[i].cookie in was {
      WaitingGrows(events, steps, s, i);
      if e.kind.MovedTo? && e.cookie == events[i].cookie {
        var _ := PairMade(events, steps, s, was);
      }
    }
  }

  lemma NewSourceKnown(events: seq<BatchEvent>, steps: seq<Step>, s: Step, was: map<int, Source>, now: map<int, Source>)
    requires |steps| < |events| && events[|steps|].kind.MovedFrom? && events[|steps|].wd in s.before
    requires StepFits(events[|steps|], s) && PendingChange(events[|steps|], s, was, now)
    ensures SourceKnown(events, steps + [s], |steps|, now)
  {
    hide Pairs, Waiting, Acts, LeavesTree, Renames;
    if s.outcome.Deferred? {
      WaitingStarts(events, steps, s);
    }
  }

  lemma EndStillKnown(events: seq<BatchEvent>, steps: seq<Step>, s: Step, j: nat)
    requires |steps| < |events| && j < |steps| && EndKnown(events, steps, j)
    ensures EndKnown(events, steps + [s], j)
  {
    hide Pairs;
    if i :| Pairs(events, steps, i, j) {
      PairsGrow(events, steps, s, i, j);
    }
  }

  lemma NewEndKnown(events: seq<BatchEvent>, steps: seq<Step>, s: Step, was: map<int, Source>, now: map<int, Source>)
    requires |steps| < |events| && CookiesPaired(events) && Accounted(events, steps, was)
    requires PendingChange(events[|steps|], s, was, now) && StepFits(events[|steps|], s)
    requires s.outcome.Coalesced? || s.outcome.MovedAway?
    ensures EndKnown(events, steps + [s], |steps|)
  {
    hide Accounted, CookiesPaired, Pairs, Acts, LeavesTree, Renames;
    var e := events[|steps|];
    if e.kind.MovedTo? && e.cookie in was {
      var _ := PairMade(events, steps, s, was);
    }
  }

  /** One step keeps the account. */
  lemma AccountedStep(events: seq<BatchEvent>, steps: seq<Step>, s: Step, was: map<int, Source>, now: map<int, Source>)
    requires |steps| < |events| && CookiesPaired(events)
    requires Accounted(events, steps, was)
    requires StepFits(events[|steps|], s) && PendingChange(events[|steps|], s, was, now)
    ensures Accounted(events, steps + [s], now)
  {
    hide CookiesPaired, StepFits, PendingChange, AwaitedBy, SourceKnown, EndKnown;
    var k, steps' := |steps|, steps + [s];
    forall c | c in now {
      SourceAwaited(events, steps, s, was, now, c);
    }
    forall i | 0 <= i < |steps'| && events[i].kind.MovedFrom? && events[i].wd in steps'[i].before
      ensures SourceKnown(events, steps', i, now)
    {
      if i < k {
        SourceStillKnown(events, steps, s, was, now, i);
      } else {
        NewSourceKnown(events, steps, s, was, now);
      }
    }
    forall j | 0 <= j < |steps'| && (steps'[j].outcome.Coalesced? || steps'[j].outcome.MovedAway?)
      ensures EndKnown(events, steps', j)
    {
      if j < k {
        EndStillKnown(events, steps, s, j);
      } else {
        NewEndKnown(events, steps, s, was, now);
      }
    }
  }

  /** The replay of the first events of a batch. */
  ghost predicate Replayed(events: seq<BatchEvent>, steps: seq<Step>, pending: map<int, Source>,
                           before: seq<Callback>, after: seq<Callback>)
  {
    && |steps| <= |events| && after == before + Concat(steps)
    && (forall k | 0 <= k < |steps| :: StepFits(events[k], steps[k]))
    && (forall k | 0 <= k < |steps| && events[k].kind.MovedFrom? ::
          steps[k].outcome.Deferred? <==> Deferrable(events, steps[k].before, events[k]))
    && Accounted(events, steps, pending)
  }

  lemma ReplayedMeans(events: seq<BatchEvent>, steps: seq<Step>, pending: map<int, Source>,
                      before: seq<Callback>, after: seq<Callback>)
    requires Replayed(events, steps, pending, before, after)
    ensures |steps| <= |events| && after == before + Concat(steps)
    ensures forall k | 0 <= k < |steps| :: StepFits(events[k], steps[k])
    ensures forall k | 0 <= k < |steps| && events[k].kind.MovedFrom? ::
              steps[k].outcome.Deferred? <==> Deferrable(events, steps[k].before, events[k])
  {
    hide StepFits, Deferrable, Accounted, Concat;
  }

  lemma NoSteps(events: seq<BatchEvent>, t: map<int, Entry>, log: seq<Callback>)
    ensures Replayed(events, [], map[], log, log) && Linked(t, [], t)
  {
  }

  lemma ReplayedStep(events: seq<BatchEvent>, steps: seq<Step>, s: Step, was: map<int, Source>, now: map<int, Source>,
                     before: seq<Callback>, after: seq<Callback>)
    requires |steps| < |events| && CookiesPaired(events) && Replayed(events, steps, was, before, after)
    requires StepFits(events[|steps|], s) && PendingChange(events[|steps|], s, was, now)
    requires events[|steps|].kind.MovedFrom? ==>
               (s.outcome.Deferred? <==> Deferrable(events, s.before, events[|steps|]))
    ensures Replayed(events, steps + [s], now, before, after + s.calls)
  {
    hide StepFits, Deferrable, PendingChange, Accounted;
    AccountedStep(events, steps, s, was, now);
    assert (steps + [s])[..|steps|] == steps;
    assert before + Concat(steps) + s.calls == before + (Concat(steps) + s.calls);
  }

  /** Every deferred source has a destination in the batch, so nothing is pending at its end. */
  lemma NothingPending(events: seq<BatchEvent>, steps: seq<Step>, pending: map<int, Source>,
                       before: seq<Callback>, after: seq<Callback>)
    requires |steps| == |events| && CookiesPaired(events) && Replayed(events, steps, pending, before, after)
    ensures pending == map[] && AllSettled(events, steps)
  {
    hide Acts, LeavesTree, Renames, Concat;
    forall i | 0 <= i < |steps| && steps[i].outcome.Deferred?
      ensures !Waiting(events, steps, i)
    {
      assert StepFits(events[i], steps[i]) && Deferrable(events, steps[i].before, events[i]);
      var j :| 0 <= j < |events| && events[j].kind.MovedTo? && events[j].cookie == events[i].cookie;
      assert i < j;
    }
    assert forall c :: c !in pending;
  }

  /** With paired cookies the last destination of a cookie is its only one. */
  lemma DeferrableByPairs(events: seq<BatchEvent>, pairs: map<int, int>, t: map<int, Entry>, e: BatchEvent)
    requires CookiesPaired(events)
    requires forall c | c in pairs :: exists j :: 0 <= j < |events| && events[j].kind.MovedTo?
                                                  && events[j].cookie == c && events[j].wd == pairs[c]
    requires forall j | 0 <= j < |events| && events[j].kind.MovedTo? :: events[j].cookie in pairs
    ensures (e.cookie in pairs && Joins(t, e.wd, pairs[e.cookie])) <==> Deferrable(events, t, e)
  {
    forall j | 0 <= j < |events| && events[j].kind.MovedTo? && events[j].cookie == e.cookie
      ensures e.cookie in pairs && events[j].wd == pairs[e.cookie]
    {
      var k :| 0 <= k < |events| && events[k].kind.MovedTo? && events[k].cookie == e.cookie
          && events[k].wd == pairs[e.cookie];
      assert j < k || j == k || k < j;
    }
  }

  // ---------- what the listener is told ----------

  /** A coalesced rename is one Moved of the destination in the directory of its watch. The old name is the
      bare one when both halves came from one watch, and the full path of the source otherwise. */
  lemma RenameTold(events: seq<BatchEvent>, steps: seq<Step>, i: int, j: int)
    requires |steps| <= |events| && Pairs(events, steps, i, j) && StepFits(events[j], steps[j])
    requires steps[j].outcome.Coalesced?
    ensures events[j].wd in steps[j].before
    ensures var to, from := steps[j].before[events[j].wd], WatchAt(events, steps, i, j);
            steps[j].calls == [FileAction(to.watch.id, to.dir, events[j].filename, Moved,
                                          if from.watch == to.watch then events[i].filename
                                          else from.dir + events[i].filename)]
  {
  }

  /** The same for all renames of a batch; and a source is deferred exactly when its batch holds its
      destination, on the same watch or on one of the same registration that reports such moves. */
  lemma RenamesTold(events: seq<BatchEvent>, steps: seq<Step>)
    requires |steps| == |events| && forall k | 0 <= k < |steps| :: StepFits(events[k], steps[k])
    requires forall k | 0 <= k < |steps| && events[k].kind.MovedFrom? ::
               steps[k].outcome.Deferred? <==> Deferrable(events, steps[k].before, events[k])
    ensures forall i, j | Pairs(events, steps, i, j) && steps[j].outcome.Coalesced? ::
              && events[j].wd in steps[j].before
              && var to, from := steps[j].before[events[j].wd], WatchAt(events, steps, i, j);
                 steps[j].calls == [FileAction(to.watch.id, to.dir, events[j].filename, Moved,
                                               if from.watch == to.watch then events[i].filename
                                               else from.dir + events[i].filename)]
    ensures forall i | 0 <= i < |events| && events[i].kind.MovedFrom? ::
              steps[i].outcome.Deferred? <==>
              exists j :: && 0 <= j < |events| && events[j].kind.MovedTo? && events[j].cookie == events[i].cookie
                          && var (t, v, w) := (steps[i].before, events[i].wd, events[j].wd);
                             v in t && w in t
                             && (v == w || (t[w].watch.reportCrossDirectoryMoves && t[w].watch.id == t[v].watch.id))
  {
    hide StepFits, WatchAt;
    forall i, j | Pairs(events, steps, i, j) && steps[j].outcome.Coalesced? {
      RenameTold(events, steps, i, j);
    }
  }

  /** What is told about every other event. */
  lemma EventTold(e: BatchEvent, s: Step)
    requires StepFits(e, s)
    ensures s.outcome.Dropped? || s.outcome.Deferred? ==> s.calls == []
    ensures s.outcome.Handled? ==> e.wd in s.before
    ensures s.outcome.Handled? ==>
              var (id, dir, n) := (s.before[e.wd].watch.id, s.before[e.wd].dir, |s.calls|);
              && (e.kind.QueueOverflow? ==> s.calls == [Missed(id, dir)])
              && (e.kind.CloseWrite? || e.kind.Modify? ==> s.calls == [FileAction(id, dir, e.filename, Modified, "")])
              && (e.kind.Remove? ==> s.calls == [FileAction(id, dir, e.filename, Delete, "")])
              && (e.kind.Create? ==> n >= 1 && s.calls[n - 1] == FileAction(id, dir, e.filename, Add, ""))
              && (e.kind.MovedTo? ==> n >= 2 && s.calls[n - 2] == FileAction(id, dir, e.filename, Add, "")
                                      && s.calls[n - 1] == FileAction(id, dir, e.filename, Modified, ""))
              && (e.kind.OtherKind? ==> s.calls == [])
  {
    hide Arrives, LeavesTree, Renames, Entered, RemovesAt, AddSlash;
    if s.outcome.Handled? && (e.kind.Create? || e.kind.MovedTo?) {
      AppearsTold(s.before, s.after, s.outcome.entered, s.before[e.wd], e, s.calls);
    }
  }

  lemma AppearsTold(t: map<int, Entry>, t': map<int, Entry>, es: seq<Entry>, w: Entry, e: BatchEvent,
                    calls: seq<Callback>)
    requires e.kind.Create? || e.kind.MovedTo?
    requires Acts(t, t', es, w, e.filename, e.kind, e.at, "", calls)
    ensures var (id, dir, n) := (w.watch.id, w.dir, |calls|);
            && (e.kind.Create? ==> n >= 1 && calls[n - 1] == FileAction(id, dir, e.filename, Add, ""))
            && (e.kind.MovedTo? ==> n >= 2 && calls[n - 2] == FileAction(id, dir, e.filename, Add, "")
                                    && calls[n - 1] == FileAction(id, dir, e.filename, Modified, ""))
  {
    hide Arrives, Entered;
  }

  /** A new entry's directory, below a recursive watch, is entered and reported with everything in it, unless
      it is watched already; any other entry leaves the table alone. */
  lemma ArrivalKept(e: BatchEvent, s: Step)
    requires StepFits(e, s) && s.outcome.Handled? && (e.kind.Create? || e.kind.MovedTo?)
    ensures e.wd in s.before
    ensures var (w, at, dir, es) := (s.before[e.wd].watch, e.at, AddSlash(s.before[e.wd].dir + e.filename),
                                     s.outcome.entered);
            var own := if e.kind.Create? then 1 else 2;
            && s.after == Entered(s.before, es) && |s.calls| >= own
            && (w.recursive && at.Folder? && at.readable && !at.remote
                && (forall v | v in s.before :: s.before[v].dir != dir)
                && SlashAtEnd(dir) && WellNamed(at) && RootFree(s.before, dir) ==>
                  && CoversTree(es, dir, at)
                  && forall c :: c in s.calls[..|s.calls| - own] <==> w.syntheticEvents && Found(w.id, dir, at, c))
            && (!(w.recursive && at.Folder? && at.readable && !at.remote
                  && forall v | v in s.before :: s.before[v].dir != dir) ==>
                  s.after == s.before && |s.calls| == own)
  {
    hide Acts, LeavesTree, Renames, CoversTree, Found, AddSlash, WellNamed, RootFree, Arrives;
    var w, dir := s.before[e.wd], AddSlash(s.before[e.wd].dir + e.filename);
    var own, reports := AppearsParts(s.before, s.after, s.outcome.entered, w, e, s.calls);
    ArrivalMeans(s.before, s.outcome.entered, w.watch, dir, e.at, reports);
  }

  lemma AppearsParts(t: map<int, Entry>, t': map<int, Entry>, es: seq<Entry>, w: Entry, e: BatchEvent,
                     calls: seq<Callback>) returns (own: nat, reports: seq<Callback>)
    requires e.kind.Create? || e.kind.MovedTo?
    requires Acts(t, t', es, w, e.filename, e.kind, e.at, "", calls)
    ensures t' == Entered(t, es) && own == (if e.kind.Create? then 1 else 2)
    ensures |calls| == |reports| + own && calls[..|calls| - own] == reports
    ensures Arrives(t, es, w.watch, AddSlash(w.dir + e.filename), e.at, reports)
  {
    hide Arrives, Entered, AddSlash;
    own := if e.kind.Create? then 1 else 2;
    var add := FileAction(w.watch.id, w.dir, e.filename, Add, "");
    var last := if e.kind.Create? then [add] else [add, add.(action := Modified)];
    reports :| calls == reports + last && Arrives(t, es, w.watch, AddSlash(w.dir + e.filename), e.at, reports);
  }

  /** A deleted entry's watches go when it was a directory below a recursive watch, and nothing else changes. */
  lemma RemovalKept(e: BatchEvent, s: Step)
    requires StepFits(e, s) && s.outcome.Handled? && e.kind.Remove?
    ensures e.wd in s.before
    ensures var (w, dir) := (s.before[e.wd].watch, AddSlash(s.before[e.wd].dir + e.filename));
            && (forall v | v in s.after :: v in s.before && s.after[v] == s.before[v])
            && (!w.recursive || (forall v | v in s.before :: s.before[v].dir != dir) ==> s.after == s.before)
            && (w.recursive && Unique(s.before) ==> forall v | v in s.after :: s.after[v].dir != dir)
  {
    hide AddSlash, InTree;
  }

  /** No other kind of event changes the table. */
  lemma TableStays(e: BatchEvent, s: Step)
    requires StepFits(e, s)
    ensures s.outcome.Handled? && !(e.kind.Create? || e.kind.MovedTo? || e.kind.Remove?) ==> s.after == s.before
    ensures s.outcome.Dropped? || s.outcome.Deferred? ==> s.after == s.before
  {
    hide Appears, LeavesTree, Renames, Deleted;
  }
}
