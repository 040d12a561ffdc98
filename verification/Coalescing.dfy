/** FileActionBatch: the events of one poll, with Add/Delete pairs of the same file in two directories
    dispatched as one Moved. */
module Coalescing {
  import opened Collections
  import opened Paths
  import opened Files
  import opened InotifyEvents

  datatype Event = Event(watch: int, directory: string, filename: string, action: Action, oldFilename: string,
                         info: FileInfo)

  predicate MetadataMatches(source: FileInfo, destination: FileInfo) {
    && source.mtime == destination.mtime && source.size == destination.size
    && source.owner == destination.owner && source.group == destination.group
    && source.permissions == destination.permissions
    && source.IsDirectory() == destination.IsDirectory()
    && source.IsRegularFile() == destination.IsRegularFile()
  }

  predicate PathContains(directory: string, path: string) {
    && directory != "" && |directory| < |path| && directory <= path
    && (directory[|directory| - 1] == Slash || path[|directory|] == Slash)
  }

  // ---------- the rule ----------

  /** What takes part in matching: an Add or a Delete with a file identity. */
  predicate Tracked(e: Event) {
    e.info.inode != 0 && (e.action == Add || e.action == Delete)
  }

  function Identity(e: Event): (nat, nat) {
    (e.info.device, e.info.inode)
  }

  /** Events s and d are the only Delete and the only Add of one file. */
  predicate OnlyPair(events: seq<Event>, s: nat, d: nat) {
    && s < |events| && d < |events| && Tracked(events[s]) && Tracked(events[d])
    && events[s].action == Delete && events[d].action == Add && Identity(events[s]) == Identity(events[d])
    && forall k | 0 <= k < |events| && Tracked(events[k]) && Identity(events[k]) == Identity(events[s]) ::
         k == s || k == d
  }

  /** The two ends of a move between directories that can be told for certain. */
  predicate Matches(source: Event, destination: Event) {
    && source.directory != destination.directory
    && source.info.SameInode(destination.info)
    && !(source.info.IsRegularFile() && (source.info.links != 1 || destination.info.links != 1))
    && MetadataMatches(source.info, destination.info)
  }

  predicate IsMove(events: seq<Event>, s: nat, d: nat) {
    s < |events| && d < |events| && OnlyPair(events, s, d) && Matches(events[s], events[d])
  }

  predicate IsSource(events: seq<Event>, s: nat) {
    exists d :: 0 <= d < |events| && IsMove(events, s, d)
  }

  predicate IsDestination(events: seq<Event>, d: nat) {
    exists s :: 0 <= s < |events| && IsMove(events, s, d)
  }

  /** An Add inside the destination or a Delete inside the source of this moved directory. */
  predicate InsideMove(source: Event, destination: Event, e: Event) {
    && source.info.IsDirectory()
    && ((e.action == Delete && PathContains(source.info.path, e.info.path))
        || (e.action == Add && PathContains(destination.info.path, e.info.path)))
  }

  /** Inside a directory that is reported as moved. */
  predicate Inside(events: seq<Event>, i: nat)
    requires i < |events|
  {
    exists s, d ::
      0 <= s < |events| && 0 <= d < |events| && IsMove(events, s, d) && InsideMove(events[s], events[d], events[i])
  }

  function Verbatim(e: Event): Callback {
    FileAction(e.watch, e.directory, e.filename, e.action, e.oldFilename)
  }

  function MoveOf(source: Event, destination: Event, canonical: string -> string): Callback {
    FileAction(destination.watch, destination.directory, destination.filename, Moved, canonical(source.info.path))
  }

  /** What becomes of event i: the end of a move is reported as Moved, the start of one and what lies
      inside a moved directory not at all, and everything else as it is. */
  ghost function Outcome(events: seq<Event>, i: nat, canonical: string -> string): Option<Callback>
    requires i < |events|
  {
    if s: nat :| s < |events| && IsMove(events, s, i) then Some(MoveOf(events[s], events[i], canonical))
    else if IsSource(events, i) || Inside(events, i) then None
    else Some(Verbatim(events[i]))
  }

  ghost function Outcomes(events: seq<Event>, canonical: string -> string): seq<Option<Callback>> {
    seq(|events|, i requires 0 <= i < |events| => Outcome(events, i, canonical))
  }

  function Unchanged(events: seq<Event>): seq<Option<Callback>> {
    seq(|events|, i requires 0 <= i < |events| => Some(Verbatim(events[i])))
  }

  /** The calls that are made, in order. */
  function Flatten(calls: seq<Option<Callback>>): seq<Callback> {
    if calls == [] then []
    else Flatten(calls[..|calls| - 1]) + (match calls[|calls| - 1] case None => [] case Some(c) => [c])
  }

  lemma FlattenNone(calls: seq<Option<Callback>>)
    ensures Flatten(calls[..0]) == []
  {
  }

  lemma FlattenNext(calls: seq<Option<Callback>>, n: nat)
    requires n < |calls|
    ensures Flatten(calls[..n + 1]) == Flatten(calls[..n]) + (match calls[n] case None => [] case Some(c) => [c])
  {
    assert calls[..n + 1][..n] == calls[..n];
  }

  lemma {:induction false} FlattenUnchanged(events: seq<Event>)
    ensures Flatten(Unchanged(events)) == seq(|events|, i requires 0 <= i < |events| => Verbatim(events[i]))
    decreases |events|
  {
    if events != [] {
      var front := events[..|events| - 1];
      FlattenUnchanged(front);
      assert Unchanged(events)[..|events| - 1] == Unchanged(front);
    }
  }

  // ---------- candidates ----------

  /** The first n events that are tracked, have this identity and this action. */
  function IndicesOf(events: seq<Event>, n: nat, id: (nat, nat), action: Action): (r: seq<nat>)
    requires n <= |events|
    ensures forall k ::
              k in r <==> 0 <= k < n && Tracked(events[k]) && Identity(events[k]) == id && events[k].action == action
    ensures forall x, y | 0 <= x < y < |r| :: r[x] < r[y]
  {
    if n == 0 then []
    else
      var before := IndicesOf(events, n - 1, id, action);
      var e := events[n - 1];
      assert forall x | 0 <= x < |before| :: before[x] in before;
      if Tracked(e) && Identity(e) == id && e.action == action then before + [n - 1] else before
  }

  datatype Candidates = Candidates(created: seq<nat>, deleted: seq<nat>)

  ghost function CandidatesOf(events: seq<Event>, n: nat, id: (nat, nat)): Candidates
    requires n <= |events|
  {
    Candidates(IndicesOf(events, n, id, Add), IndicesOf(events, n, id, Delete))
  }

  /** The candidates among the first n events. */
  ghost predicate CollectedUpTo(events: seq<Event>, n: nat, candidates: map<(nat, nat), Candidates>)
    requires n <= |events|
  {
    && (forall id | id in candidates :: candidates[id] == CandidatesOf(events, n, id))
    && (forall id | id !in candidates :: CandidatesOf(events, n, id) == Candidates([], []))
    && (forall k | 0 <= k < n && Tracked(events[k]) :: Identity(events[k]) in candidates)
  }

  lemma CollectedNone(events: seq<Event>)
    ensures CollectedUpTo(events, 0, map[])
  {
    hide Tracked, Identity;
  }

  /** The candidates of one identity with one more event of it. */
  function WithIndex(c: Candidates, i: nat, action: Action): Candidates {
    if action == Add then c.(created := c.created + [i]) else c.(deleted := c.deleted + [i])
  }

  lemma CandidatesNext(events: seq<Event>, i: nat, id: (nat, nat))
    requires i < |events|
    ensures CandidatesOf(events, i + 1, id) ==
            if Tracked(events[i]) && Identity(events[i]) == id
            then WithIndex(CandidatesOf(events, i, id), i, events[i].action) else CandidatesOf(events, i, id)
  {
    hide Identity;
  }

  lemma CollectedNext(events: seq<Event>, i: nat, candidates: map<(nat, nat), Candidates>)
    requires i < |events| && CollectedUpTo(events, i, candidates)
    ensures !Tracked(events[i]) ==> CollectedUpTo(events, i + 1, candidates)
    ensures Tracked(events[i]) ==>
              var id := Identity(events[i]);
              var was := if id in candidates then candidates[id] else Candidates([], []);
              CollectedUpTo(events, i + 1, candidates[id := WithIndex(was, i, events[i].action)])
  {
    hide Tracked, Identity, CandidatesOf, WithIndex;
    forall id {
      CandidatesNext(events, i, id);
    }
  }

  lemma CollectedAll(events: seq<Event>, candidates: map<(nat, nat), Candidates>)
    requires CollectedUpTo(events, |events|, candidates)
    ensures forall id | id in candidates :: candidates[id] == CandidatesOf(events, |events|, id)
    ensures forall k | 0 <= k < |events| && Tracked(events[k]) :: Identity(events[k]) in candidates
  {
    hide Tracked, Identity, CandidatesOf;
  }

  /** One Add and one Delete are an only pair. */
  lemma SinglesPair(events: seq<Event>, id: (nat, nat), c: Candidates)
    requires c == CandidatesOf(events, |events|, id) && |c.created| == 1 && |c.deleted| == 1
    ensures OnlyPair(events, c.deleted[0], c.created[0]) && Identity(events[c.deleted[0]]) == id
  {
    assert c.created[0] in c.created && c.deleted[0] in c.deleted;
    forall k | 0 <= k < |events| && Tracked(events[k]) && Identity(events[k]) == id
      ensures k == c.deleted[0] || k == c.created[0]
    {
      assert k in c.created || k in c.deleted;
    }
  }

  lemma PairSingles(events: seq<Event>, s: nat, d: nat)
    requires OnlyPair(events, s, d)
    ensures CandidatesOf(events, |events|, Identity(events[s])) == Candidates([d], [s])
  {
    var c := CandidatesOf(events, |events|, Identity(events[s]));
    OnlyElement(c.created, d);
    OnlyElement(c.deleted, s);
  }

  lemma OnlyElement(r: seq<nat>, x: nat)
    requires forall k :: k in r <==> k == x
    requires forall i, j | 0 <= i < j < |r| :: r[i] < r[j]
    ensures r == [x]
  {
    assert |r| > 1 ==> r[0] < r[1];
    assert x in r;
    forall i | 0 <= i < |r|
      ensures r[i] == x
    {
      assert r[i] in r;
    }
  }

  /** A file identity belongs to at most one move. */
  lemma OneMoveEach(events: seq<Event>, s: nat, d: nat, s': nat, d': nat)
    requires IsMove(events, s, d) && IsMove(events, s', d')
    ensures s == s' <==> d == d'
    ensures Identity(events[s]) == Identity(events[s']) ==> s == s' && d == d'
    ensures s != d' && d != s'
  {
  }

  // ---------- dispatch ----------

  /** Events of this move are not dispatched as they are. */
  predicate HiddenBy(events: seq<Event>, s: nat, d: nat, i: nat)
    requires s < |events| && d < |events| && i < |events|
  {
    i == s || i == d || InsideMove(events[s], events[d], events[i])
  }

  /** The matching loop has done the moves of all but these identities. */
  ghost predicate Matched(events: seq<Event>, todo: set<(nat, nat)>, suppressed: seq<bool>, moves: map<nat, nat>) {
    && |suppressed| == |events|
    && (forall i | 0 <= i < |events| :: suppressed[i] <==>
          exists s, d :: 0 <= s < |events| && 0 <= d < |events| && IsMove(events, s, d) && Identity(events[s]) !in todo
                         && HiddenBy(events, s, d, i))
    && (forall d | d in moves :: IsMove(events, moves[d], d))
    && (forall s: nat, d: nat | IsMove(events, s, d) && Identity(events[s]) !in todo :: d in moves)
  }

  lemma NoMove(events: seq<Event>, id: (nat, nat), c: Candidates)
    requires c == CandidatesOf(events, |events|, id)
    requires |c.created| == 1 && |c.deleted| == 1 ==>
               c.created[0] < |events| && c.deleted[0] < |events|
               && !Matches(events[c.deleted[0]], events[c.created[0]])
    ensures forall s: nat, d: nat | IsMove(events, s, d) :: Identity(events[s]) != id
  {
    forall s: nat, d: nat | IsMove(events, s, d)
      ensures Identity(events[s]) != id
    {
      PairSingles(events, s, d);
    }
  }

  lemma MatchedLength(events: seq<Event>, todo: set<(nat, nat)>, suppressed: seq<bool>, moves: map<nat, nat>)
    requires Matched(events, todo, suppressed, moves)
    ensures |suppressed| == |events|
  {
  }

  lemma MatchedMoves(events: seq<Event>, suppressed: seq<bool>, moves: map<nat, nat>)
    requires Matched(events, {}, suppressed, moves)
    ensures |suppressed| == |events| && forall d | d in moves :: moves[d] < |events|
  {
    hide Matches, OnlyPair;
  }

  /** An identity without a move needs nothing done. */
  lemma NoneMatched(events: seq<Event>, todo: set<(nat, nat)>, id: (nat, nat), hidden: seq<bool>, moves: map<nat, nat>)
    requires Matched(events, todo, hidden, moves)
    requires forall s: nat, d: nat | IsMove(events, s, d) :: Identity(events[s]) != id
    ensures Matched(events, todo - {id}, hidden, moves)
  {
    hide Matches, OnlyPair, IsMove, HiddenBy;
  }

  lemma MoveMatched(events: seq<Event>, todo: set<(nat, nat)>, hidden: seq<bool>, moves: map<nat, nat>,
                    s: nat, d: nat, suppressed: seq<bool>)
    requires Matched(events, todo, hidden, moves) && IsMove(events, s, d) && Identity(events[s]) in todo
    requires |suppressed| == |events|
    requires forall i | 0 <= i < |events| :: suppressed[i] == (hidden[i] || HiddenBy(events, s, d, i))
    ensures Matched(events, todo - {Identity(events[s])}, suppressed, moves[d := s])
  {
    hide Matches, InsideMove, OnlyPair;
    forall s': nat, d': nat | IsMove(events, s', d') && Identity(events[s']) == Identity(events[s])
      ensures s' == s && d' == d
    {
      OneMoveEach(events, s, d, s', d');
    }
  }

  lemma OutcomeIs(events: seq<Event>, suppressed: seq<bool>, moves: map<nat, nat>, i: nat, canonical: string -> string)
    requires Matched(events, {}, suppressed, moves) && i < |events|
    ensures Outcome(events, i, canonical) ==
            if i in moves then Some(MoveOf(events[moves[i]], events[i], canonical))
            else if suppressed[i] then None
            else Some(Verbatim(events[i]))
  {
    hide Matches, InsideMove, OnlyPair;
    forall s: nat | IsMove(events, s, i)
      ensures i in moves && moves[i] == s
    {
      OneMoveEach(events, s, i, moves[i], i);
    }
  }

  // ---------- what is told, in terms of the events alone ----------

  /** The Delete s and the Add d are of one file that is in another directory now: it has an inode, nothing
      but its path and its link count is different, a regular file has one link, and no other Add or
      Delete is about it. */
  ghost predicate Relocated(events: seq<Event>, s: int, d: int) {
    && 0 <= s < |events| && 0 <= d < |events| && events[s].action == Delete && events[d].action == Add
    && events[s].directory != events[d].directory
    && var was, now := events[s].info, events[d].info;
    && was.inode != 0 && was.(path := now.path, links := now.links) == now
    && (was.permissions / 0x1000 % 16 == 8 ==> was.links == 1 && now.links == 1)
    && forall k | 0 <= k < |events| && (events[k].action == Add || events[k].action == Delete)
                  && events[k].info.device == was.device && events[k].info.inode == was.inode :: k == s || k == d
  }

  ghost predicate Below(directory: string, path: string) {
    directory != "" && exists rest | rest != "" && path == directory + rest ::
      directory[|directory| - 1] == '/' || rest[0] == '/'
  }

  /** The Delete that the move starts with, or an event inside the directory that moves. */
  ghost predicate Covers(events: seq<Event>, s: int, d: int, i: nat)
    requires i < |events|
  {
    && Relocated(events, s, d)
    && (|| i == s
        || (events[s].info.permissions / 0x1000 % 16 == 4
            && ((events[i].action == Delete && Below(events[s].info.path, events[i].info.path))
                || (events[i].action == Add && Below(events[d].info.path, events[i].info.path)))))
  }

  ghost predicate Covered(events: seq<Event>, i: nat)
    requires i < |events|
  {
    exists s, d :: Covers(events, s, d, i)
  }

  /** The call that is made for event i. */
  ghost predicate Tells(events: seq<Event>, i: nat, canonical: string -> string, c: Callback)
    requires i < |events|
  {
    var e := events[i];
    || (c == FileAction(e.watch, e.directory, e.filename, e.action, e.oldFilename)
        && !Covered(events, i) && !exists s :: Relocated(events, s, i))
    || exists s | Relocated(events, s, i) ::
         c == FileAction(e.watch, e.directory, e.filename, Moved, canonical(events[s].info.path))
  }

  ghost predicate Ascending(at: seq<nat>) {
    forall j, k | 0 <= j < k < |at| :: at[j] < at[k]
  }

  /** The calls are those for events at, and everything else is covered by a move. */
  ghost predicate ToldAt(events: seq<Event>, canonical: string -> string, calls: seq<Callback>, at: seq<nat>) {
    && |at| == |calls| && Ascending(at)
    && (forall k | 0 <= k < |at| :: at[k] < |events| && Tells(events, at[k], canonical, calls[k]))
    && forall i | 0 <= i < |events| && i !in at :: Covered(events, i) && !exists s :: Relocated(events, s, i)
  }

  ghost predicate Dispatched(events: seq<Event>, canonical: string -> string, calls: seq<Callback>) {
    exists at :: ToldAt(events, canonical, calls, at)
  }

  /** The rule by which moves are found names exactly the relocated files. */
  lemma MovesAre(events: seq<Event>, s: nat, d: nat)
    ensures IsMove(events, s, d) <==> Relocated(events, s, d)
  {
    if s < |events| && d < |events| {
      assert events[s].info.IsRegularFile() <==> events[s].info.permissions / 0x1000 % 16 == 8;
    }
  }

  lemma BelowIs(directory: string, path: string)
    ensures PathContains(directory, path) <==> Below(directory, path)
  {
    if |directory| < |path| && directory <= path {
      var rest := path[|directory|..];
      assert path == directory + rest && rest != "" && rest[0] == path[|directory|];
    }
  }

  lemma CoveredIs(events: seq<Event>, i: nat)
    requires i < |events|
    ensures IsSource(events, i) || Inside(events, i) <==> Covered(events, i)
  {
    hide IsMove, Relocated, PathContains, Below;
    forall s: nat, d: nat {
      MovesAre(events, s, d);
    }
    forall directory, path {
      BelowIs(directory, path);
    }
    if s: nat, d: nat :| IsMove(events, s, d) && s < |events| && d < |events|
                         && (s == i || InsideMove(events[s], events[d], events[i])) {
      assert Covers(events, s, d, i);
    }
    if s, d :| Covers(events, s, d, i) {
      RelocatedBounds(events, s, d);
      assert IsMove(events, s, d) && (s == i || InsideMove(events[s], events[d], events[i]));
    }
  }

  lemma RelocatedBounds(events: seq<Event>, s: int, d: int)
    requires Relocated(events, s, d)
    ensures 0 <= s < |events| && 0 <= d < |events|
  {
  }

  /** The calls that are made, with the place of each. */
  ghost predicate Placed(calls: seq<Option<Callback>>, made: seq<Callback>, at: seq<nat>) {
    && |at| == |made| && Ascending(at)
    && (forall k | 0 <= k < |at| :: at[k] < |calls| && calls[at[k]] == Some(made[k]))
    && forall i | 0 <= i < |calls| :: i in at <==> calls[i].Some?
  }

  lemma PlacedNext(calls: seq<Option<Callback>>, made: seq<Callback>, at: seq<nat>, call: Option<Callback>)
    requires Placed(calls, made, at)
    ensures call.None? ==> Placed(calls + [call], made, at)
    ensures call.Some? ==> Placed(calls + [call], made + [call.value], at + [|calls|])
  {
  }

  lemma {:induction false} FlattenPlaced(calls: seq<Option<Callback>>) returns (at: seq<nat>)
    ensures Placed(calls, Flatten(calls), at)
    decreases |calls|
  {
    hide Placed;
    if calls == [] {
      at := [];
      NothingPlaced();
    } else {
      var front, last := calls[..|calls| - 1], calls[|calls| - 1];
      at := FlattenPlaced(front);
      PlacedNext(front, Flatten(front), at, last);
      assert front + [last] == calls;
      assert Flatten(front) + [] == Flatten(front);
      at := if last.Some? then at + [|front|] else at;
    }
  }

  lemma NothingPlaced()
    ensures Placed([], [], [])
  {
  }

  lemma OutcomeTells(events: seq<Event>, i: nat, canonical: string -> string)
    requires i < |events|
    ensures match Outcome(events, i, canonical)
            case Some(c) => Tells(events, i, canonical, c)
            case None => Covered(events, i) && !exists s :: Relocated(events, s, i)
  {
    hide IsMove, Relocated, Covered, Inside, IsSource, Below;
    CoveredIs(events, i);
    forall s: nat {
      MovesAre(events, s, i);
    }
    forall s | Relocated(events, s, i)
      ensures 0 <= s < |events|
    {
      RelocatedBounds(events, s, i);
    }
  }

  /** Every event is told as it is, or is the Add of a relocated file and told as its one Moved, or is covered
      by such a move. */
  lemma OutcomesTell(events: seq<Event>, canonical: string -> string)
    ensures Dispatched(events, canonical, Flatten(Outcomes(events, canonical)))
  {
    hide Outcome, Tells, Covered, Relocated, Ascending;
    var at := FlattenPlaced(Outcomes(events, canonical));
    forall i | 0 <= i < |events| {
      OutcomeTells(events, i, canonical);
    }
    assert ToldAt(events, canonical, Flatten(Outcomes(events, canonical)), at);
  }

  class FileActionBatch {
    var events: seq<Event>
    /** What the listener has been told. */
    var log: seq<Callback>

    constructor ()
      ensures events == [] && log == []
    {
      events, log := [], [];
    }

    method Clear()
      modifies `events
      ensures events == []
    {
      events := [];
    }

    method AddEvent(watch: int, directory: string, filename: string, action: Action, oldFilename: string,
                    info: FileInfo)
      modifies `events
      ensures events == old(events) + [Event(watch, directory, filename, action, oldFilename, info)]
    {
      events := events + [Event(watch, directory, filename, action, oldFilename, info)];
    }

    /** dispatch; a null listener is told nothing. */
    method Dispatch(listening: bool, detectMoves: bool, canonical: string -> string)
      modifies this
      ensures events == []
      ensures log == old(log) + if !listening then []
                                else if detectMoves then Flatten(Outcomes(old(events), canonical))
                                else Flatten(Unchanged(old(events)))
      ensures listening && detectMoves ==> Dispatched(old(events), canonical, log[|old(log)|..])
      ensures listening && !detectMoves ==>
                && |log| == |old(log)| + |old(events)|
                && forall i | 0 <= i < |old(events)| ::
                     var e := old(events)[i];
                     log[|old(log)| + i] == FileAction(e.watch, e.directory, e.filename, e.action, e.oldFilename)
    {
      hide Dispatched, Outcomes, Outcome, Matched;
      if !listening {
        Clear();
        return;
      }
      if !detectMoves {
        EmitUnchanged();
        FlattenUnchanged(events);
        Clear();
        return;
      }
      OutcomesTell(events, canonical);
      var candidates := CollectCandidates();
      var suppressed, moves := MatchMoves(candidates);
      Emit(suppressed, moves, canonical);
      Clear();
    }

    /** The loop without move detection. */
    method EmitUnchanged()
      modifies `log
      ensures log == old(log) + Flatten(Unchanged(events))
    {
      ghost var calls := Unchanged(events);
      for i := 0 to |events|
        invariant log == old(log) + Flatten(calls[..i])
      {
        FlattenNext(calls, i);
        log := log + [Verbatim(events[i])];
      }
      assert calls[..|events|] == calls;
    }

    method CollectCandidates() returns (candidates: map<(nat, nat), Candidates>)
      ensures forall id | id in candidates :: candidates[id] == CandidatesOf(events, |events|, id)
      ensures forall k | 0 <= k < |events| && Tracked(events[k]) :: Identity(events[k]) in candidates
    {
      hide CollectedUpTo, Tracked, Identity;
      candidates := map[];
      CollectedNone(events);
      for i := 0 to |events|
        invariant CollectedUpTo(events, i, candidates)
      {
        var event := events[i];
        CollectedNext(events, i, candidates);
        if Tracked(event) {
          var id := Identity(event);
          var identity := if id in candidates then candidates[id] else Candidates([], []);
          identity := if event.action == Add then identity.(created := identity.created + [i])
                      else identity.(deleted := identity.deleted + [i]);
          candidates := candidates[id := identity];
        }
      }
      CollectedAll(events, candidates);
    }

    method MatchMoves(candidates: map<(nat, nat), Candidates>) returns (suppressed: seq<bool>, moves: map<nat, nat>)
      requires forall id | id in candidates :: candidates[id] == CandidatesOf(events, |events|, id)
      requires forall k | 0 <= k < |events| && Tracked(events[k]) :: Identity(events[k]) in candidates
      ensures Matched(events, {}, suppressed, moves)
    {
      suppressed := seq(|events|, _ => false);
      moves := map[];
      var todo := candidates.Keys;
      while todo != {}
        invariant todo <= candidates.Keys && Matched(events, todo, suppressed, moves)
      {
        var id := Pick(todo);
        suppressed, moves := MatchIdentity(id, candidates[id], suppressed, moves, todo);
        todo := todo - {id};
      }
    }

    /** One round: the candidates of one identity. */
    method MatchIdentity(id: (nat, nat), entries: Candidates, hidden: seq<bool>, before: map<nat, nat>,
                         ghost todo: set<(nat, nat)>) returns (suppressed: seq<bool>, moves: map<nat, nat>)
      requires entries == CandidatesOf(events, |events|, id) && id in todo
      requires Matched(events, todo, hidden, before)
      ensures Matched(events, todo - {id}, suppressed, moves)
    {
      hide Matched, Matches, HiddenBy, CandidatesOf;
      MatchedLength(events, todo, hidden, before);
      suppressed, moves := hidden, before;
      if |entries.created| != 1 || |entries.deleted| != 1 {
        NoMove(events, id, entries);
        NoneMatched(events, todo, id, hidden, before);
        return;
      }
      var s, d := entries.deleted[0], entries.created[0];
      SinglesPair(events, id, entries);
      if !Matches(events[s], events[d]) {
        NoMove(events, id, entries);
        NoneMatched(events, todo, id, hidden, before);
        return;
      }
      assert IsMove(events, s, d);
      moves := moves[d := s];
      suppressed := Suppress(s, d, hidden);
      MoveMatched(events, todo, hidden, before, s, d, suppressed);
    }

    /** Suppresses the ends of a move and, for a directory, what lies inside it. */
    method Suppress(s: nat, d: nat, hidden: seq<bool>) returns (suppressed: seq<bool>)
      requires s < |events| && d < |events| && |hidden| == |events|
      ensures |suppressed| == |events|
      ensures forall k | 0 <= k < |events| :: suppressed[k] == (hidden[k] || HiddenBy(events, s, d, k))
    {
      hide PathContains;
      suppressed := hidden[s := true][d := true];
      if events[s].info.IsDirectory() {
        for i := 0 to |events|
          invariant |suppressed| == |events|
          invariant forall k | 0 <= k < |events| ::
                      suppressed[k] == (hidden[k] || k == s || k == d
                                        || (k < i && InsideMove(events[s], events[d], events[k])))
        {
          if events[i].action == Delete && PathContains(events[s].info.path, events[i].info.path) {
            suppressed := suppressed[i := true];
          } else if events[i].action == Add && PathContains(events[d].info.path, events[i].info.path) {
            suppressed := suppressed[i := true];
          }
        }
      }
    }

    method Emit(suppressed: seq<bool>, moves: map<nat, nat>, canonical: string -> string)
      requires Matched(events, {}, suppressed, moves)
      modifies `log
      ensures log == old(log) + Flatten(Outcomes(events, canonical))
    {
      hide Matched, Flatten, Outcome;
      ghost var calls := Outcomes(events, canonical);
      MatchedMoves(events, suppressed, moves);
      FlattenNone(calls);
      for i := 0 to |events|
        invariant log == old(log) + Flatten(calls[..i])
      {
        FlattenNext(calls, i);
        OutcomeIs(events, suppressed, moves, i, canonical);
        if i in moves {
          log := log + [MoveOf(events[moves[i]], events[i], canonical)];
        } else if !suppressed[i] {
          log := log + [Verbatim(events[i])];
        }
      }
      assert calls[..|events|] == calls;
    }
  }

  // ---------- what dispatching does to a set of paths ----------

  /** The path an event or a callback is about, and the one a move takes away. */
  function PathOf(e: Event): string {
    e.directory + e.filename
  }

  predicate Absolute(path: string) {
    path != "" && path[0] == Slash
  }

  function Source(c: Callback): string
    requires c.FileAction?
  {
    if Absolute(c.oldFile) then c.oldFile else c.dir + c.oldFile
  }

  /** This call says that the path is there, or that it is gone. */
  predicate Adds(c: Callback, path: string) {
    c.FileAction? && (c.action == Add || c.action == Moved) && path == c.dir + c.file
  }

  predicate Drops(c: Callback, path: string) {
    c.FileAction? && ((c.action == Delete && path == c.dir + c.file) || (c.action == Moved && path == Source(c)))
  }

  predicate Mentions(c: Callback, path: string) {
    Adds(c, path) || Drops(c, path)
  }

  function Apply(paths: set<string>, c: Callback): set<string> {
    match c
    case Missed(_, _) => paths
    case FileAction(_, dir, file, action, _) =>
      match action
      case Add => paths + {dir + file}
      case Delete => paths - {dir + file}
      case Modified => paths
      case Moved => paths - {Source(c)} + {dir + file}
  }

  /** The set of paths that somebody who follows the calls ends up with. */
  function Follow(paths: set<string>, calls: seq<Callback>): set<string> {
    if calls == [] then paths else Apply(Follow(paths, calls[..|calls| - 1]), calls[|calls| - 1])
  }

  /** The same over optional calls. */
  function FollowSome(paths: set<string>, calls: seq<Option<Callback>>): set<string> {
    if calls == [] then paths
    else
      var before := FollowSome(paths, calls[..|calls| - 1]);
      match calls[|calls| - 1] case None => before case Some(c) => Apply(before, c)
  }

  lemma FollowAppend(paths: set<string>, calls: seq<Callback>, c: Callback)
    ensures Follow(paths, calls + [c]) == Apply(Follow(paths, calls), c)
  {
    assert (calls + [c])[..|calls|] == calls;
  }

  lemma {:induction false} FollowFlat(paths: set<string>, calls: seq<Option<Callback>>)
    ensures Follow(paths, Flatten(calls)) == FollowSome(paths, calls)
    decreases |calls|
  {
    hide Apply;
    if calls != [] {
      var front, last := calls[..|calls| - 1], calls[|calls| - 1];
      FollowFlat(paths, front);
      if last.Some? {
        FollowAppend(paths, Flatten(front), last.value);
      } else {
        assert Flatten(calls) == Flatten(front);
      }
    }
  }

  lemma ApplyAt(paths: set<string>, c: Callback, p: string)
    ensures p in Apply(paths, c) <==> Adds(c, p) || (!Drops(c, p) && p in paths)
  {
  }

  /** No path is mentioned by two of the calls. */
  ghost predicate OnceEach(calls: seq<Option<Callback>>) {
    forall i, j, p | 0 <= i < j < |calls| && calls[i].Some? && calls[j].Some? ::
      !(Mentions(calls[i].value, p) && Mentions(calls[j].value, p))
  }

  /** A path nobody mentions stays as it is. */
  lemma {:induction false} FollowUnmentioned(paths: set<string>, calls: seq<Option<Callback>>, p: string)
    requires forall i | 0 <= i < |calls| && calls[i].Some? :: !Mentions(calls[i].value, p)
    ensures p in FollowSome(paths, calls) <==> p in paths
    decreases |calls|
  {
    hide Adds, Drops, Apply;
    if calls != [] {
      FollowUnmentioned(paths, calls[..|calls| - 1], p);
      if calls[|calls| - 1].Some? {
        ApplyAt(FollowSome(paths, calls[..|calls| - 1]), calls[|calls| - 1].value, p);
      }
    }
  }

  /** A path that one call mentions is there afterwards exactly when that call adds it. */
  lemma {:induction false} FollowMentioned(paths: set<string>, calls: seq<Option<Callback>>, k: nat, p: string)
    requires k < |calls| && calls[k].Some? && Mentions(calls[k].value, p)
    requires forall i | 0 <= i < |calls| && i != k && calls[i].Some? :: !Mentions(calls[i].value, p)
    ensures p in FollowSome(paths, calls) <==> Adds(calls[k].value, p)
    decreases |calls|
  {
    hide Adds, Drops, Apply;
    var front, last := calls[..|calls| - 1], calls[|calls| - 1];
    if k < |front| {
      FollowMentioned(paths, front, k, p);
    }
    if last.Some? {
      ApplyAt(FollowSome(paths, front), last.value, p);
    }
  }

  /** Every move's source is named by its canonical path, which is absolute. */
  ghost predicate SourcesNamed(events: seq<Event>, canonical: string -> string) {
    forall s: nat | s < |events| && IsSource(events, s) ::
      canonical(events[s].info.path) == PathOf(events[s]) && Absolute(PathOf(events[s]))
  }

  /** No Add or Delete is left out merely because it lies inside a moved directory. */
  ghost predicate NothingSwallowed(events: seq<Event>) {
    forall i: nat | i < |events| && Inside(events, i) :: IsSource(events, i) || IsDestination(events, i)
  }

  /** A dispatched call mentions only what its own event mentions or, for a move, its source. */
  lemma OutcomeMentions(events: seq<Event>, i: nat, canonical: string -> string, p: string)
    requires i < |events| && SourcesNamed(events, canonical)
    requires !Mentions(Verbatim(events[i]), p)
    requires forall s: nat | s < |events| && IsMove(events, s, i) :: !Mentions(Verbatim(events[s]), p)
    ensures Outcome(events, i, canonical).Some? ==> !Mentions(Outcome(events, i, canonical).value, p)
  {
    hide Matches, OnlyPair, Inside;
    if s: nat :|
      s < |events| && IsMove(events, s, i)
      && Outcome(events, i, canonical) == Some(MoveOf(events[s], events[i], canonical)) {
      MoveEnds(events, s, i, canonical);
    }
  }

  lemma MoveEnds(events: seq<Event>, s: nat, d: nat, canonical: string -> string)
    requires IsMove(events, s, d) && SourcesNamed(events, canonical)
    ensures events[s].action == Delete && events[d].action == Add
    ensures Source(MoveOf(events[s], events[d], canonical)) == PathOf(events[s])
    ensures IsSource(events, s) && IsDestination(events, d)
  {
    hide Matches;
  }

  /** If only event k mentions a path, and k is no end of a move, at most its own outcome mentions it. */
  lemma OnlyOwnOutcome(events: seq<Event>, canonical: string -> string, k: nat, p: string)
    requires k < |events| && SourcesNamed(events, canonical)
    requires forall i | 0 <= i < |events| && i != k :: !Mentions(Verbatim(events[i]), p)
    requires !IsSource(events, k)
    ensures forall i | 0 <= i < |events| && i != k && Outcomes(events, canonical)[i].Some? ::
              !Mentions(Outcomes(events, canonical)[i].value, p)
  {
    hide Matches, OnlyPair, Inside, Outcome, Mentions;
    forall i | 0 <= i < |events| && i != k
      ensures Outcome(events, i, canonical).Some? ==> !Mentions(Outcome(events, i, canonical).value, p)
    {
      OutcomeMentions(events, i, canonical, p);
    }
  }

  /** The path of a move's source is mentioned by the move alone. */
  lemma OnlyMoveOutcome(events: seq<Event>, canonical: string -> string, s: nat, d: nat)
    requires SourcesNamed(events, canonical) && IsMove(events, s, d)
    requires forall i | 0 <= i < |events| && i != s :: !Mentions(Verbatim(events[i]), PathOf(events[s]))
    ensures Outcome(events, s, canonical) == None
    ensures Outcome(events, d, canonical) == Some(MoveOf(events[s], events[d], canonical))
    ensures forall i | 0 <= i < |events| && i != d && Outcomes(events, canonical)[i].Some? ::
              !Mentions(Outcomes(events, canonical)[i].value, PathOf(events[s]))
  {
    hide Matches, OnlyPair, Inside, Mentions;
    NotBothEnds(events, s, d);
    var p := PathOf(events[s]);
    forall i | 0 <= i < |events| && i != d && i != s
      ensures Outcome(events, i, canonical).Some? ==> !Mentions(Outcome(events, i, canonical).value, p)
    {
      forall s': nat | s' < |events| && IsMove(events, s', i)
        ensures s' != s
      {
        OneMoveEach(events, s, d, s', i);
      }
      OutcomeMentions(events, i, canonical, p);
    }
  }

  lemma NotBothEnds(events: seq<Event>, s: nat, d: nat)
    requires IsMove(events, s, d)
    ensures !IsDestination(events, s) && !IsSource(events, d)
    ensures forall s': nat | s' < |events| && IsMove(events, s', d) :: s' == s
  {
    hide Matches;
  }

  lemma OnlyMention(events: seq<Event>, k: nat, p: string)
    requires OnceEach(Unchanged(events)) && k < |events| && Mentions(Verbatim(events[k]), p)
    ensures forall i | 0 <= i < |events| && i != k :: !Mentions(Verbatim(events[i]), p)
  {
    hide Mentions;
    var raw := Unchanged(events);
    forall i | 0 <= i < |events| && i != k
      ensures !Mentions(Verbatim(events[i]), p)
    {
      assert raw[i] == Some(Verbatim(events[i])) && raw[k] == Some(Verbatim(events[k]));
    }
  }

  /** The event that mentions a path, if there is one, decides about it in both lists. */
  lemma SameAt(events: seq<Event>, canonical: string -> string, paths: set<string>, p: string)
    requires OnceEach(Unchanged(events)) && SourcesNamed(events, canonical)
    requires forall i: nat | i < |events| && Mentions(Verbatim(events[i]), p) && Inside(events, i) ::
               IsSource(events, i) || IsDestination(events, i)
    ensures p in FollowSome(paths, Outcomes(events, canonical)) <==> p in FollowSome(paths, Unchanged(events))
  {
    hide Matches, OnlyPair, Inside, Mentions, IsMove;
    var raw, out := Unchanged(events), Outcomes(events, canonical);
    if k: nat :| k < |events| && Mentions(Verbatim(events[k]), p) {
      OnlyMention(events, k, p);
      FollowMentioned(paths, raw, k, p);
      if d: nat :| d < |events| && IsMove(events, k, d) {
        SourceAt(events, canonical, k, d, p, paths);
      } else if s: nat :| s < |events| && IsMove(events, s, k) {
        DestinationAt(events, canonical, s, k, p, paths);
      } else {
        OnlyOwnOutcome(events, canonical, k, p);
        FollowMentioned(paths, out, k, p);
      }
    } else {
      forall i | 0 <= i < |events|
        ensures out[i].Some? ==> !Mentions(out[i].value, p)
      {
        OutcomeMentions(events, i, canonical, p);
      }
      FollowUnmentioned(paths, raw, p);
      FollowUnmentioned(paths, out, p);
    }
  }

  lemma SourceAt(events: seq<Event>, canonical: string -> string, s: nat, d: nat, p: string, paths: set<string>)
    requires SourcesNamed(events, canonical) && IsMove(events, s, d) && Mentions(Verbatim(events[s]), p)
    requires forall i | 0 <= i < |events| && i != s :: !Mentions(Verbatim(events[i]), p)
    ensures p !in FollowSome(paths, Outcomes(events, canonical)) && !Adds(Verbatim(events[s]), p)
  {
    hide Matches, Inside, Outcome;
    MoveEnds(events, s, d, canonical);
    assert p == PathOf(events[s]);
    OnlyMoveOutcome(events, canonical, s, d);
    assert Mentions(Verbatim(events[d]), PathOf(events[d]));
    FollowMentioned(paths, Outcomes(events, canonical), d, p);
  }

  lemma DestinationAt(events: seq<Event>, canonical: string -> string, s: nat, d: nat, p: string, paths: set<string>)
    requires SourcesNamed(events, canonical) && IsMove(events, s, d) && Mentions(Verbatim(events[d]), p)
    requires forall i | 0 <= i < |events| && i != d :: !Mentions(Verbatim(events[i]), p)
    ensures p in FollowSome(paths, Outcomes(events, canonical)) && Adds(Verbatim(events[d]), p)
  {
    hide Matches, Inside;
    MoveEnds(events, s, d, canonical);
    NotBothEnds(events, s, d);
    assert p == PathOf(events[d]);
    OnlyOwnOutcome(events, canonical, d, p);
    FollowMentioned(paths, Outcomes(events, canonical), d, p);
  }

  /** Where something is swallowed, the two lists can be told apart. */
  lemma SwallowedAt(events: seq<Event>, canonical: string -> string, k: nat) returns (paths: set<string>)
    requires OnceEach(Unchanged(events)) && SourcesNamed(events, canonical)
    requires k < |events| && Inside(events, k) && !IsSource(events, k) && !IsDestination(events, k)
    ensures FollowSome(paths, Outcomes(events, canonical)) != FollowSome(paths, Unchanged(events))
  {
    hide Matches, OnlyPair;
    var p, raw, out := PathOf(events[k]), Unchanged(events), Outcomes(events, canonical);
    paths := if events[k].action == Add then {} else {p};
    assert events[k].action == Add || events[k].action == Delete;
    assert Mentions(Verbatim(events[k]), p) && raw[k] == Some(Verbatim(events[k])) && out[k] == None;
    OnlyMention(events, k, p);
    OnlyOwnOutcome(events, canonical, k, p);
    FollowMentioned(paths, raw, k, p);
    FollowUnmentioned(paths, out, p);
  }

  /** When no path is changed twice, following the dispatched calls gives the same set of paths as
      following the events as they were, from any start, exactly when nothing was swallowed by a moved
      directory. */
  lemma EffectKept(events: seq<Event>, canonical: string -> string)
    requires OnceEach(Unchanged(events)) && SourcesNamed(events, canonical)
    ensures (forall paths ::
               Follow(paths, Flatten(Outcomes(events, canonical))) == Follow(paths, Flatten(Unchanged(events))))
            <==> NothingSwallowed(events)
  {
    hide Matches, OnlyPair, Inside, IsMove, OnceEach, SourcesNamed, Follow, FollowSome, Flatten;
    forall paths
      ensures Follow(paths, Flatten(Outcomes(events, canonical))) == FollowSome(paths, Outcomes(events, canonical))
      ensures Follow(paths, Flatten(Unchanged(events))) == FollowSome(paths, Unchanged(events))
    {
      FollowFlat(paths, Outcomes(events, canonical));
      FollowFlat(paths, Unchanged(events));
    }
    if NothingSwallowed(events) {
      forall paths
        ensures FollowSome(paths, Outcomes(events, canonical)) == FollowSome(paths, Unchanged(events))
      {
        forall p {
          SameAt(events, canonical, paths, p);
        }
      }
    } else {
      var k: nat :| k < |events| && Inside(events, k) && !IsSource(events, k) && !IsDestination(events, k);
      var paths := SwallowedAt(events, canonical, k);
      assert Follow(paths, Flatten(Outcomes(events, canonical))) != Follow(paths, Flatten(Unchanged(events)));
    }
  }

  /** Without a moved directory nothing is swallowed. */
  lemma NoDirectoryMoved(events: seq<Event>)
    requires forall s: nat | s < |events| && IsSource(events, s) :: !events[s].info.IsDirectory()
    ensures NothingSwallowed(events)
  {
    hide Matches, OnlyPair, FileInfo.IsDirectory, PathContains;
  }

  const MovedInfo := FileInfo("/r/a/x", 0, 0, 0, 0, 0x41ED, 1, 5, 1)
  const NewInfo := FileInfo("/r/b/x/n", 0, 0, 0, 0, 0x81A4, 1, 9, 1)

  /** A directory x moves from /r/a to /r/b, and a file n has been made in it since. */
  const SwallowingEvents := [
    Event(1, "/r/a/", "x", Delete, "", MovedInfo),
    Event(1, "/r/b/", "x", Add, "", MovedInfo.(path := "/r/b/x")),
    Event(1, "/r/b/x/", "n", Add, "", NewInfo)]

  /** The Add of a new file in a moved directory is swallowed, so that whoever follows the calls does not
      have the file. */
  lemma SwallowedExample()
    ensures var events, canonical := SwallowingEvents, (path: string) => path;
            && !NothingSwallowed(events)
            && Flatten(Unchanged(events)) == [Verbatim(events[0]), Verbatim(events[1]), Verbatim(events[2])]
            && Flatten(Outcomes(events, canonical)) == [MoveOf(events[0], events[1], canonical)]
  {
    hide PathContains;
    var events, canonical := SwallowingEvents, (path: string) => path;
    assert IsMove(events, 0, 1);
    assert InsideMove(events[0], events[1], events[2]) by {
      PathsInside();
    }
    assert Inside(events, 2) && IsSource(events, 0) && IsDestination(events, 1);
    NotBothEnds(events, 0, 1);
    assert !IsSource(events, 2) && !IsDestination(events, 2);
    var raw, out := Unchanged(events), Outcomes(events, canonical);
    FlattenThree(raw);
    FlattenThree(out);
  }

  lemma PathsInside()
    ensures PathContains("/r/b/x", "/r/b/x/n")
  {
    assert "/r/b/x/n"[..6] == "/r/b/x";
  }

  lemma FlattenThree(calls: seq<Option<Callback>>)
    requires |calls| == 3
    ensures Flatten(calls) == Called(calls[0]) + Called(calls[1]) + Called(calls[2])
  {
    assert calls[..3] == calls && calls[..0] == [];
    FlattenNext(calls, 0);
    FlattenNext(calls, 1);
    FlattenNext(calls, 2);
  }

  function Called(call: Option<Callback>): seq<Callback> {
    match call case None => [] case Some(c) => [c]
  }
}
