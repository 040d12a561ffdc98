/** A whole batch against the kernel's directory tree: with every orderly event that tells of a change of
    the tree, the paths in the watch table stay those of the inodes they watch. */
module TrackedBatches {
  import opened Collections
  import opened Paths
  import opened InotifyEvents
  import opened InotifyWatch
  import opened InotifyWalk
  import opened InotifyReplay
  import opened MovedOut
  import opened PathTracking
  import opened WatchTrees
  import opened WatchTreeSteps

  /** What an event tells of the tree: nothing, a directory renamed, gone, or come with its content. */
  datatype Change =
    | Same
    | Renamed(src: seq<string>, dst: seq<string>)
    | Gone(src: seq<string>)
    | Came(dst: seq<string>, sub: Dir)

  predicate CanChange(tree: Dir, c: Change) {
    match c
    case Same => true
    case Renamed(src, dst) => CanRename(tree, src, dst)
    case Gone(src) => src != [] && AreNames(src) && Lookup(tree, src).Some?
    case Came(dst, _) => dst != [] && AreNames(dst) && Lookup(tree, Parent(dst)).Some? && Lookup(tree, dst).None?
  }

  function Changed(tree: Dir, c: Change): Dir
    requires CanChange(tree, c)
  {
    match c
    case Same => tree
    case Renamed(src, dst) => Rename(tree, src, dst)
    case Gone(src) => Detach(tree, src)
    case Came(dst, sub) => Attach(tree, dst, sub)
  }

  /** Every watch in the table is where its inode is. */
  ghost predicate Tracked(tree: Dir, t: map<int, Entry>, inos: map<int, nat>) {
    forall v | v in t :: v in inos && IsPathOf(tree, t[v].dir, inos[v])
  }

  ghost predicate Unwatched(t: map<int, Entry>, names: seq<string>) {
    forall v | v in t :: !(PathOf(names) <= t[v].dir)
  }

  /** Nothing has been entered and nothing rewritten. */
  ghost predicate OnlyFewer(t: map<int, Entry>, t': map<int, Entry>) {
    forall v | v in t' :: v in t && t'[v] == t[v]
  }

  // ---------- what each change asks of the table ----------

  lemma SameTracked(tree: Dir, t: map<int, Entry>, t': map<int, Entry>, inos: map<int, nat>)
    requires Tracked(tree, t, inos) && OnlyFewer(t, t')
    ensures Tracked(tree, t', inos)
  {
  }

  /** A directory that is gone takes along exactly the paths at and below it. */
  lemma GoneTracked(tree: Dir, t: map<int, Entry>, t': map<int, Entry>, inos: map<int, nat>, src: seq<string>)
    requires Tracked(tree, t, inos) && OnlyFewer(t, t') && CanChange(tree, Gone(src))
    ensures Tracked(Detach(tree, src), t', inos) <==> Unwatched(t', src)
  {
    forall v | v in t'
      ensures IsPathOf(Detach(tree, src), t'[v].dir, inos[v]) <==> !(PathOf(src) <= t'[v].dir)
    {
      var names := NamesOf(tree, t[v].dir, inos[v]);
      DetachKeeps(tree, src, names);
      PathPrefix(src, names);
      if IsPathOf(Detach(tree, src), t'[v].dir, inos[v]) {
        var now := NamesOf(Detach(tree, src), t'[v].dir, inos[v]);
        PathPrefix(names, now);
      }
    }
  }

  /** A directory that has come leaves every other path as it was. */
  lemma CameTracked(tree: Dir, t: map<int, Entry>, inos: map<int, nat>, dst: seq<string>, sub: Dir, v: int)
    requires Tracked(tree, t, inos) && CanChange(tree, Came(dst, sub)) && v in t
    ensures IsPathOf(Attach(tree, dst, sub), t[v].dir, inos[v])
  {
    var names := NamesOf(tree, t[v].dir, inos[v]);
    if dst <= names {
      LookupPrefix(tree, dst, names);
    }
    AttachShows(tree, dst, sub, names);
  }

  /** A rename that the table has followed, or of which nothing is left in it. */
  lemma RenamedTracked(tree: Dir, t: map<int, Entry>, t': map<int, Entry>, inos: map<int, nat>,
                       src: seq<string>, dst: seq<string>)
    requires Tracked(tree, t, inos) && CanRename(tree, src, dst) && Unwatched(t, dst)
    requires t' == Reprefixed(t, PathOf(src), PathOf(dst)) || (OnlyFewer(t, t') && Unwatched(t', src))
    ensures Tracked(Rename(tree, src, dst), t', inos)
  {
    hide IsPathOf, Lookup, PathOf, Reprefix, CanRename;
    forall v | v in t'
      ensures v in inos && IsPathOf(Rename(tree, src, dst), t'[v].dir, inos[v])
    {
      PathMoves(tree, t[v].dir, inos[v], src, dst);
    }
  }

  /** Where the path of an inode is after a rename. */
  lemma PathMoves(tree: Dir, dir: string, ino: nat, src: seq<string>, dst: seq<string>)
    requires CanRename(tree, src, dst) && IsPathOf(tree, dir, ino) && !(PathOf(dst) <= dir)
    ensures IsPathOf(Rename(tree, src, dst), Reprefix(dir, PathOf(src), PathOf(dst)), ino)
    ensures !(PathOf(src) <= dir) ==> IsPathOf(Rename(tree, src, dst), dir, ino)
  {
    var names := NamesOf(tree, dir, ino);
    PathPrefix(src, names);
    PathPrefix(dst, names);
    InodeMoves(tree, src, dst, names);
    ReprefixMeans(names, src, dst);
  }

  // ---------- a directory that has come ----------

  /** The file system shows the directory as it is in the kernel's tree, and the descriptors are those of
      its inodes. */
  ghost predicate Shows(node: Node, sub: Dir, inos: map<int, nat>) {
    node.Folder? ==>
      && (node.wd >= 0 ==> node.wd in inos && inos[node.wd] == sub.ino)
      && (forall e | e in node.entries && e.1.Folder? :: e.0 in sub.kids && Shows(e.1, sub.kids[e.0], inos))
  }

  /** A request got the descriptor of what the tree has at its path. */
  ghost predicate AnswerShown(r: Request, dir: string, sub: Dir, inos: map<int, nat>) {
    exists rel :: AreNames(rel) && r.path == dir + Join(rel) && Lookup(sub, rel).Some?
                  && r.wd in inos && inos[r.wd] == Lookup(sub, rel).value.ino
  }

  lemma ChildShown(r: Request, dir: string, sub: Dir, inos: map<int, nat>, name: string)
    requires IsName(name) && name in sub.kids && AnswerShown(r, ChildDir(dir, name), sub.kids[name], inos)
    ensures AnswerShown(r, dir, sub, inos)
  {
    var rel :| AreNames(rel) && r.path == ChildDir(dir, name) + Join(rel) && Lookup(sub.kids[name], rel).Some?
               && r.wd in inos && inos[r.wd] == Lookup(sub.kids[name], rel).value.ino;
    var from := [name] + rel;
    assert from[0] == name && from[1..] == rel;
    assert Join(from) == name + [Slash] + Join(rel);
    assert r.path == dir + Join(from);
  }

  lemma OwnShown(dir: string, node: Node, sub: Dir, inos: map<int, nat>)
    requires node.Folder? && node.wd >= 0 && Shows(node, sub, inos)
    ensures AnswerShown(Request(dir, node.wd), dir, sub, inos)
  {
    assert dir == dir + Join([]);
    assert Lookup(sub, []) == Some(sub);
  }

  lemma {:induction false} WalkShown(dir: string, node: Node, sub: Dir, inos: map<int, nat>)
    requires node.Folder? && WellNamed(node) && Shows(node, sub, inos)
    ensures forall r | r in Answered(Walk(dir, node, true)) :: AnswerShown(r, dir, sub, inos)
    decreases node, |node.entries| + 1
  {
    hide AnswerShown, Shows, WellNamed;
    if node.wd >= 0 {
      AnsweredAppend([Request(dir, node.wd)], WalkBelow(dir, node, |node.entries|));
      assert [Request(dir, node.wd)][..0] == [];
      OwnShown(dir, node, sub, inos);
      BelowShown(dir, node, sub, inos, |node.entries|);
    } else {
      Unanswered(dir, node);
    }
  }

  lemma {:induction false} BelowShown(dir: string, node: Node, sub: Dir, inos: map<int, nat>, n: nat)
    requires node.Folder? && n <= |node.entries| && WellNamed(node) && Shows(node, sub, inos)
    ensures forall r | r in Answered(WalkBelow(dir, node, n)) :: AnswerShown(r, dir, sub, inos)
    decreases node, n
  {
    hide AnswerShown, Shows, WellNamed, Walk, WalkBelow;
    if n == 0 {
      NoneShape(dir, node);
    } else {
      BelowShown(dir, node, sub, inos, n - 1);
      WalkBelowStep(dir, node, n);
      StepShown(dir, node, sub, inos, n - 1);
    }
  }

  lemma {:induction false} StepShown(dir: string, node: Node, sub: Dir, inos: map<int, nat>, i: nat)
    requires node.Folder? && i < |node.entries| && WellNamed(node) && Shows(node, sub, inos)
    ensures forall r | r in Answered(WalkStep(dir, node, i)) :: AnswerShown(r, dir, sub, inos)
    decreases node, i
  {
    hide AnswerShown, WellNamed, Walk, WalkBelow;
    assert node.entries[i] in node.entries;
    EntryNamed(node, i);
    var (name, child) := node.entries[i];
    if Watchable(child) {
      WalkShown(ChildDir(dir, name), child, sub.kids[name], inos);
      forall r | r in Answered(WalkStep(dir, node, i)) {
        ChildShown(r, dir, sub, inos, name);
      }
    }
  }

  /** What has been shown below the new directory is where it should be in the new tree. */
  lemma ShownTracked(tree: Dir, dst: seq<string>, sub: Dir, r: Request, inos: map<int, nat>)
    requires CanChange(tree, Came(dst, sub)) && AnswerShown(r, PathOf(dst), sub, inos)
    ensures r.wd in inos && IsPathOf(Attach(tree, dst, sub), r.path, inos[r.wd])
  {
    var rel :| AreNames(rel) && r.path == PathOf(dst) + Join(rel) && Lookup(sub, rel).Some?
               && r.wd in inos && inos[r.wd] == Lookup(sub, rel).value.ino;
    PathAppend(dst, rel);
    AttachShows(tree, dst, sub, dst + rel);
    assert (dst + rel)[|dst|..] == rel;
  }

  /** A new directory that is registered with all it holds. */
  lemma ArrivedTracked(tree: Dir, t: map<int, Entry>, es: seq<Entry>, inos: map<int, nat>, dst: seq<string>, sub: Dir,
                       at: Node)
    requires Tracked(tree, t, inos) && CanChange(tree, Came(dst, sub)) && FreshWds(t, es)
    requires es != [] ==> at.Folder? && WellNamed(at) && Shows(at, sub, inos)
                          && RequestsOf(es) == Answered(Walk(PathOf(dst), at, true))
    ensures Tracked(Attach(tree, dst, sub), Entered(t, es), inos)
  {
    hide IsPathOf, AnswerShown, Shows, WellNamed, Walk, Answered, PathOf, Lookup, Parent, Entered;
    EnteredFresh(t, es);
    var t' := Entered(t, es);
    forall v | v in t'
      ensures v in inos && IsPathOf(Attach(tree, dst, sub), t'[v].dir, inos[v])
    {
      if v in t {
        CameTracked(tree, t, inos, dst, sub, v);
      } else {
        var k :| 0 <= k < |es| && es[k].watch.wd == v;
        WalkShown(PathOf(dst), at, sub, inos);
        assert RequestsOf(es)[k] == Request(t'[v].dir, v);
        assert RequestsOf(es)[k] in RequestsOf(es);
        ShownTracked(tree, dst, sub, RequestsOf(es)[k], inos);
      }
    }
  }

  // ---------- the events of a batch ----------

  /** No explicit registration lies in this directory. */
  ghost predicate NoRootIn(t: map<int, Entry>, names: seq<string>) {
    forall v | v in t && t[v].watch.parent == null :: !(PathOf(names) <= t[v].dir)
  }

  /** The change is about this entry of this directory. */
  predicate IsAt(names: seq<string>, dir: string, file: string) {
    PathOf(names) == ChildDir(dir, file)
  }

  /** What each event tells of the tree. An event on a watch that is gone may tell of anything that is not
      watched; a directory that goes takes no explicit registration along; a directory that is renamed is
      found at its new path, where nothing has been watched; and one that comes is shown as it is. */
  ghost predicate Means(e: BatchEvent, s: Step, c: Change, inos: map<int, nat>) {
    match s.outcome
    case Dropped =>
      && (c.Gone? || c.Renamed? ==> Unwatched(s.before, c.src))
      && (c.Renamed? ==> Unwatched(s.before, c.dst))
    case Deferred => c == Same
    case MovedAway(source) =>
      || c == Same
      || ((c.Gone? || (c.Renamed? && Unwatched(s.before, c.dst)))
          && IsAt(c.src, source.entry.dir, source.file) && NoRootIn(s.before, c.src))
    case Coalesced(source) =>
      && e.wd in s.before
      && if c.Renamed? then
           && IsAt(c.src, source.entry.dir, source.file) && IsAt(c.dst, s.before[e.wd].dir, e.filename)
           && s.before[e.wd].watch.recursive && e.at.Folder? && Unwatched(s.before, c.dst)
         else c == Same && !e.at.Folder?
    case Handled(es) =>
      && e.wd in s.before
      && if c.Came? then
           && (e.kind.Create? || e.kind.MovedTo?) && IsAt(c.dst, s.before[e.wd].dir, e.filename)
           && Shows(e.at, c.sub, inos)
         else if c.Gone? then
           e.kind.Remove? && IsAt(c.src, s.before[e.wd].dir, e.filename) && NoRootIn(s.before, c.src)
         else c == Same && es == []
  }

  lemma DroppedTracked(tree: Dir, e: BatchEvent, s: Step, c: Change, inos: map<int, nat>)
    requires Tracked(tree, s.before, inos) && StepFits(e, s) && (s.outcome.Dropped? || s.outcome.Deferred?)
    requires CanChange(tree, c) && Means(e, s, c, inos)
    ensures Tracked(Changed(tree, c), s.after, inos)
  {
    hide IsPathOf, Lookup;
    var t := s.before;
    match c
    case Same =>
    case Gone(src) => GoneTracked(tree, t, t, inos, src);
    case Renamed(src, dst) => RenamedTracked(tree, t, t, inos, src, dst);
    case Came(dst, sub) =>
      forall v | v in t {
        CameTracked(tree, t, inos, dst, sub, v);
      }
  }

  lemma AwayTracked(tree: Dir, e: BatchEvent, s: Step, c: Change, inos: map<int, nat>)
    requires Tracked(tree, s.before, inos) && Neat(s.before) && StepFits(e, s) && s.outcome.MovedAway? && Orderly(e, s)
    requires Current(s.before, s.outcome.source.entry) && CanChange(tree, c) && Means(e, s, c, inos)
    ensures Tracked(Changed(tree, c), s.after, inos)
  {
    hide IsPathOf, Lookup, Neat, LeavesTree, Tracked, CanRename;
    var t, source := s.before, s.outcome.source;
    var gone :| LeavesTree(t, gone, source.entry, source.file, s.calls) && s.after == t - gone;
    if c == Same {
      SameTracked(tree, t, s.after, inos);
    } else {
      NeatLeaves(t, gone, source.entry, source.file, s.calls);
      NothingLeft(t, source.entry.dir, source.file, c.src);
      if c.Gone? {
        GoneTracked(tree, t, s.after, inos, c.src);
      } else {
        RenamedTracked(tree, t, s.after, inos, c.src, c.dst);
      }
    }
  }

  lemma NothingLeft(t: map<int, Entry>, dir: string, file: string, src: seq<string>)
    requires IsAt(src, dir, file) && NoRootIn(t, src)
    ensures Unwatched(t - InnerBelow(t, ChildDir(dir, file)), src)
  {
  }

  lemma CoalescedTracked(tree: Dir, e: BatchEvent, s: Step, c: Change, inos: map<int, nat>)
    requires Tracked(tree, s.before, inos) && Neat(s.before) && StepFits(e, s) && s.outcome.Coalesced? && Orderly(e, s)
    requires Current(s.before, s.outcome.source.entry) && CanChange(tree, c) && Means(e, s, c, inos)
    ensures Tracked(Changed(tree, c), s.after, inos)
  {
    hide IsPathOf, Lookup, Neat, Tracked, CanRename, MoveSource, AddSlash, Reprefix, PathOf, ChildDir;
    var source, w := s.outcome.source, s.before[e.wd];
    if c == Same {
      SameTracked(tree, s.before, s.after, inos);
    } else {
      SourcePath(w, source);
      ShapeParts(s.before, e.wd);
      PathOfChild(w.dir, e.filename);
      RenamedTracked(tree, s.before, s.after, inos, c.src, c.dst);
    }
  }

  /** A directory that comes is registered with all it holds, or not at all. */
  lemma CameHere(tree: Dir, e: BatchEvent, s: Step, c: Change, inos: map<int, nat>)
    requires Tracked(tree, s.before, inos) && Neat(s.before) && StepFits(e, s) && s.outcome.Handled? && Orderly(e, s)
    requires c.Came? && CanChange(tree, c) && Means(e, s, c, inos)
    ensures Tracked(Changed(tree, c), s.after, inos)
  {
    hide IsPathOf, Lookup, Neat, Tracked, AddSlash, PathOf, Walk, Answered, WellNamed, NamesDiffer, FreshWds, Kin,
         WalkReports, Shows, Entered, Parent, IsDirPath, HangsOn;
    var t, w, es := s.before, s.before[e.wd], s.outcome.entered;
    ShapeParts(t, e.wd);
    PathOfChild(w.dir, e.filename);
    var dir := ChildDir(w.dir, e.filename);
    var reports :| Arrives(t, es, w.watch, AddSlash(w.dir + e.filename), e.at, reports);
    if es == [] {
      NoneFresh(t);
      ArrivedTracked(tree, t, es, inos, c.dst, c.sub, e.at);
    } else {
      assert RootFree(t, dir);
      assert SlashAtEnd(dir);
      ArrivedTracked(tree, t, es, inos, c.dst, c.sub, e.at);
    }
  }

  lemma NoneFresh(t: map<int, Entry>)
    ensures FreshWds(t, [])
  {
  }

  /** A directory that is deleted is not watched any more. */
  lemma DeletedHere(tree: Dir, e: BatchEvent, s: Step, c: Change, inos: map<int, nat>)
    requires Tracked(tree, s.before, inos) && Neat(s.before) && StepFits(e, s) && s.outcome.Handled? && Orderly(e, s)
    requires e.kind.Remove? && CanChange(tree, c) && Means(e, s, c, inos)
    ensures Tracked(Changed(tree, c), s.after, inos)
  {
    hide IsPathOf, Lookup, Neat, Tracked, Deleted, CanRename;
    var t := s.before;
    var gone :| Deleted(t, gone, t[e.wd], e.filename, s.calls) && s.after == t - gone;
    if c == Same {
      SameTracked(tree, t, s.after, inos);
    } else {
      NoneDeletedLeft(t, gone, e.wd, e.filename, s.calls, c.src);
      GoneTracked(tree, t, s.after, inos, c.src);
    }
  }

  lemma NoneDeletedLeft(t: map<int, Entry>, gone: set<int>, wd: int, file: string, calls: seq<Callback>,
                        src: seq<string>)
    requires Neat(t) && wd in t && IsName(file) && Deleted(t, gone, t[wd], file, calls)
    requires IsAt(src, t[wd].dir, file) && NoRootIn(t, src)
    requires forall v | v in t :: !(ChildDir(t[wd].dir, file) < t[v].dir)
    ensures Unwatched(t - gone, src)
  {
    hide Neat, InTree, HangsOn, AddSlash, PathOf;
    ShapeParts(t, wd);
    PathOfChild(t[wd].dir, file);
    var dir := ChildDir(t[wd].dir, file);
    if v :| v in t && dir <= t[v].dir {
      assert t[v].dir == dir;
      ShapeParts(t, v);
      var u :| u in t && t[u].watch.id == t[v].watch.id && t[u].watch.recursive && HangsOn(t[v].dir, t[u].dir);
      HangsBelow(t[wd].dir, file, t[v].dir, t[u].dir);
      HungIsLonger(t[v].dir, t[u].dir);
      SameWatch(t, wd, u);
      var x :| x in t && t[x].dir == dir && gone == RemovedFrom(t, x);
      SameWatch(t, v, x);
      forall y | y in t && dir <= t[y].dir
        ensures y in gone
      {
        assert t[y].dir == dir;
        SameWatch(t, y, x);
      }
    }
  }

  /** Every orderly event that tells what has happened keeps the table's paths true. */
  lemma StepTracked(tree: Dir, e: BatchEvent, s: Step, c: Change, inos: map<int, nat>)
    requires Tracked(tree, s.before, inos) && Neat(s.before) && StepFits(e, s) && Orderly(e, s)
    requires s.outcome.MovedAway? || s.outcome.Coalesced? ==> Current(s.before, s.outcome.source.entry)
    requires CanChange(tree, c) && Means(e, s, c, inos)
    ensures Tracked(Changed(tree, c), s.after, inos)
  {
    hide Tracked, Neat, Orderly, Current, CanChange, Changed;
    if s.outcome.Dropped? || s.outcome.Deferred? {
      DroppedTracked(tree, e, s, c, inos);
    } else if s.outcome.MovedAway? {
      AwayTracked(tree, e, s, c, inos);
    } else if s.outcome.Coalesced? {
      CoalescedTracked(tree, e, s, c, inos);
    } else if c.Came? {
      CameHere(tree, e, s, c, inos);
    } else if e.kind.Remove? {
      DeletedHere(tree, e, s, c, inos);
    } else {
      PlainTracked(tree, e, s, c, inos);
    }
  }

  /** An event without a change of the tree enters nothing. */
  lemma PlainTracked(tree: Dir, e: BatchEvent, s: Step, c: Change, inos: map<int, nat>)
    requires Tracked(tree, s.before, inos) && StepFits(e, s) && s.outcome.Handled? && !e.kind.Remove? && !c.Came?
    requires CanChange(tree, c) && Means(e, s, c, inos)
    ensures Tracked(Changed(tree, c), s.after, inos)
  {
    hide Tracked, Arrives;
  }

  /** The trees of a batch, one for each point between two events. */
  ghost predicate Trees(trees: seq<Dir>, changes: seq<Change>) {
    && |trees| == |changes| + 1
    && forall k | 0 <= k < |changes| :: CanChange(trees[k], changes[k]) && trees[k + 1] == Changed(trees[k], changes[k])
  }

  /** The paths of the table stay true through a whole batch of orderly events: renames within the tree,
      departures and arrivals, directories made and deleted, in any order. */
  lemma {:induction false} BatchTracked(t: map<int, Entry>, events: seq<BatchEvent>, steps: seq<Step>,
                                        t': map<int, Entry>, trees: seq<Dir>, changes: seq<Change>,
                                        inos: map<int, nat>, n: nat)
    requires n <= |steps| == |events| == |changes| && Neat(t) && Linked(t, steps, t') && AllSettled(events, steps)
    requires forall k | 0 <= k < |steps| :: StepFits(events[k], steps[k]) && Orderly(events[k], steps[k])
    requires Trees(trees, changes) && Tracked(trees[0], t, inos)
    requires forall k | 0 <= k < |steps| :: Means(events[k], steps[k], changes[k], inos)
    ensures Tracked(trees[n], if n < |steps| then steps[n].before else t', inos)
    decreases n
  {
    hide Neat, StepFits, Orderly, Means, Current, Tracked, AllSettled, RootsStay, CanChange, Changed;
    if n > 0 {
      var j := n - 1;
      BatchTracked(t, events, steps, t', trees, changes, inos, j);
      NeatUpTo(t, events, steps, t', n);
      SourceCurrent(t, events, steps, t', j);
      StepTracked(trees[j], events[j], steps[j], changes[j], inos);
    }
  }
}
