/** The shape of a watch table: recursive registrations as trees that are closed under parent directories
    and apart from one another. It is what registering establishes, what every orderly event keeps, and
    what makes a moved-out directory leave nothing behind. */
module WatchTrees {
  import opened Paths
  import opened InotifyEvents
  import opened InotifyWatch
  import opened InotifyWalk
  import opened MovedOut

  /** An inner watch hangs on a recursive watch of its registration. */
  ghost predicate Hung(t: map<int, Entry>, v: int)
    requires v in t
  {
    exists u :: u in t && t[u].watch.id == t[v].watch.id && t[u].watch.recursive && HangsOn(t[v].dir, t[u].dir)
  }

  /** The root of an inner watch is watched. */
  ghost predicate Rooted(t: map<int, Entry>, v: int)
    requires v in t
  {
    exists r :: r in t && t[r].watch.parent == null && t[r].watch.recursive && t[r].watch.id == t[v].watch.id
                && InTree(t[v].watch, t[r].watch)
  }

  /** Explicit watches are named after their descriptor; inner ones hang together. */
  ghost predicate InShape(t: map<int, Entry>, v: int)
    requires v in t
  {
    && IsDirPath(t[v].dir)
    && if t[v].watch.parent == null then t[v].watch.id == v
       else t[v].watch.recursive && Hung(t, v) && Rooted(t, v)
  }

  /** What lies inside the directory of a recursive watch belongs to its registration. */
  ghost predicate Apart(t: map<int, Entry>) {
    forall v, w | v in t && w in t && v != w && t[v].watch.recursive && t[v].dir <= t[w].dir ::
      t[w].watch.parent != null && t[w].watch.id == t[v].watch.id
  }

  ghost predicate Neat(t: map<int, Entry>) {
    Keyed(t) && Unique(t) && Apart(t) && forall v | v in t :: InShape(t, v)
  }

  lemma EmptyNeat()
    ensures Neat(map[])
  {
  }

  // ---------- moved out of a neat table ----------

  /** What a directory below a child hangs on is below the child too, or is the parent itself. */
  lemma HangsBelow(base: string, name: string, dir: string, above: string)
    requires SlashAtEnd(base) && IsName(name) && HangsOn(dir, above) && ChildDir(base, name) <= dir
    ensures above == base || ChildDir(base, name) <= above
  {
    hide ParentDir, FileName;
    var prefix := ChildDir(base, name);
    if |above| < |prefix| {
      assert dir[|prefix| - 1] == prefix[|prefix| - 1] == Slash;
      var n := dir[|above|..|dir| - 1];
      assert forall i | |above| <= i < |dir| - 1 :: dir[i] == n[i - |above|] && dir[i] in n;
      assert prefix == dir;
      HangsOnParts(dir, above);
      var last := prefix[|base|..|prefix| - 1];
      assert last == name;
      HangsOnParts(dir, base);
    }
  }

  /** In a neat table every recursive watch is the top of a tidy tree. */
  lemma NeatTidy(t: map<int, Entry>, wd: int, name: string)
    requires Neat(t) && wd in t && t[wd].watch.recursive && IsName(name)
    ensures Tidy(t, wd, name)
  {
    hide HangsOn, InTree;
    var prefix := ChildDir(t[wd].dir, name);
    assert InShape(t, wd);
    forall v | v in Below(t, prefix)
      ensures ClosedAt(t, v, t[wd], prefix)
    {
      assert t[wd].dir <= prefix && |t[wd].dir| < |prefix|;
      assert InShape(t, v) && t[v].watch.parent != null;
      var u :| u in t && t[u].watch.id == t[v].watch.id && t[u].watch.recursive && HangsOn(t[v].dir, t[u].dir);
      HangsBelow(t[wd].dir, name, t[v].dir, t[u].dir);
    }
  }

  /** The inner watches at or below a directory. */
  ghost function InnerBelow(t: map<int, Entry>, prefix: string): set<int> {
    set v | v in t && StartsWith(prefix, t[v].dir) && t[v].watch.parent != null
  }

  lemma ParentIsShorter(dir: string)
    requires IsDirPath(dir)
    ensures ParentDir(dir) <= dir && ParentDir(dir) != dir
  {
    ParentDirPrefix(dir);
    var p := RemoveSlash(dir);
    if |p| > 0 {
      assert p[0] == Slash;
      assert LastSlash(RemoveSlash(p)) >= 0 || RemoveSlash(p) == "";
    }
  }

  lemma NeatHangs(t: map<int, Entry>, v: int)
    requires Neat(t) && v in t
    ensures Hangs(t, v)
  {
    hide HangsOn, InTree, ParentDir;
    assert InShape(t, v);
    ParentIsShorter(t[v].dir);
  }

  /** Whatever source is reported away, the inner watches below it go and all others stay. */
  lemma NeatLeaves(t: map<int, Entry>, gone: set<int>, w: Entry, file: string, calls: seq<Callback>)
    requires Neat(t) && LeavesTree(t, gone, w, file, calls) && SlashAtEnd(w.dir) && IsName(file)
    requires forall v | v in t && t[v].watch == w.watch :: t[v] == w
    ensures gone == InnerBelow(t, ChildDir(w.dir, file))
  {
    hide Hangs, InTree, InShape, Swept, AddSlash, Apart;
    var prefix := ChildDir(w.dir, file);
    var ps: seq<Place> :| Collected(t, w.watch, prefix, ps) && ReportsLeft(t, gone, w, file, ps, calls);
    assert |w.dir| < |prefix|;
    forall v | v in Below(t, prefix)
      ensures t[v].watch != w.watch
    {
    }
    CollectedAll(t, w.watch, prefix, ps);
    if ps == [] {
      ChildParts(w.dir, file);
      assert forall v | v in t :: v !in Below(t, prefix);
      assert gone == {};
    } else {
      NeatSweep(t, gone, w.watch, prefix, ps, calls);
    }
  }

  lemma NeatSweep(t: map<int, Entry>, gone: set<int>, except: WatcherInotify, prefix: string, ps: seq<Place>,
                  calls: seq<Callback>)
    requires Neat(t) && Collected(t, except, prefix, ps) && Swept(t, gone, ps, calls)
    requires forall v | v in Below(t, prefix) :: t[v].watch != except
    ensures gone == InnerBelow(t, prefix)
  {
    hide Hangs, InTree, InShape, Swept, Apart, Less;
    forall p | p in ps
      ensures p.wd in t && Hangs(t, p.wd)
    {
      NeatHangs(t, p.wd);
    }
    SortedStrictly(ps);
    SweptExactly(t, gone, ps, calls);
    assert forall v | v in InnerBelow(t, prefix) :: v in Below(t, prefix) && Place(v, t[v].dir) in ps;
  }

  /** Taking out inner watches with everything below them leaves a neat table. */
  lemma NeatWithout(t: map<int, Entry>, gone: set<int>)
    requires Neat(t)
    requires forall v | v in gone && v in t :: t[v].watch.parent != null
    requires forall u, v | u in gone && u in t && v in t && v !in gone && t[v].watch.parent != null ::
               !HangsOn(t[v].dir, t[u].dir)
    ensures Neat(t - gone)
  {
    hide InShape, Keyed, Unique, Apart;
    StillApart(t, gone);
    forall v | v in t && v !in gone {
      StillInShape(t, gone, v);
    }
  }

  lemma StillInShape(t: map<int, Entry>, gone: set<int>, v: int)
    requires Neat(t) && v in t && v !in gone
    requires forall u | u in gone && u in t :: t[u].watch.parent != null
    requires t[v].watch.parent != null ==> forall u | u in gone && u in t :: !HangsOn(t[v].dir, t[u].dir)
    ensures InShape(t - gone, v)
  {
    hide HangsOn, InTree, IsDirPath, Neat;
    var t' := t - gone;
    ShapeParts(t, v);
    if t[v].watch.parent != null {
      var u :| u in t && t[u].watch.id == t[v].watch.id && t[u].watch.recursive && HangsOn(t[v].dir, t[u].dir);
      assert u in t';
      var r :| r in t && t[r].watch.parent == null && t[r].watch.recursive && t[r].watch.id == t[v].watch.id
               && InTree(t[v].watch, t[r].watch);
      assert r in t';
    }
  }

  lemma StillApart(t: map<int, Entry>, gone: set<int>)
    requires Neat(t)
    ensures Keyed(t - gone) && Unique(t - gone) && Apart(t - gone)
  {
    hide InShape;
  }

  lemma LeavesNeat(t: map<int, Entry>, prefix: string)
    requires Neat(t)
    ensures Neat(t - InnerBelow(t, prefix))
  {
    hide InTree, InShape, Apart;
    forall u, v | u in InnerBelow(t, prefix) && v in t && v !in InnerBelow(t, prefix) && t[v].watch.parent != null
      ensures !HangsOn(t[v].dir, t[u].dir)
    {
    }
    NeatWithout(t, InnerBelow(t, prefix));
  }

  // ---------- a directory deleted ----------

  /** A directory is deleted when it is empty, so that nothing in it is watched any more. */
  lemma DeletedNeat(t: map<int, Entry>, gone: set<int>, wd: int, file: string, calls: seq<Callback>)
    requires Neat(t) && wd in t && IsName(file) && Deleted(t, gone, t[wd], file, calls)
    requires forall v | v in t :: !(ChildDir(t[wd].dir, file) < t[v].dir)
    ensures Neat(t - gone)
  {
    hide Neat, InTree, AddSlash, RemovedFrom;
    ShapeParts(t, wd);
    ChildParts(t[wd].dir, file);
    if gone == {} {
      assert t - gone == t;
    } else {
      var vd :| vd in t && t[vd].dir == ChildDir(t[wd].dir, file) && gone == RemovedFrom(t, vd);
      InsideRecursive(t, wd, vd);
      InnerAlone(t, vd);
      LeafNeat(t, vd);
    }
  }

  lemma InnerAlone(t: map<int, Entry>, vd: int)
    requires vd in t && t[vd].watch.parent != null
    ensures RemovedFrom(t, vd) == {vd}
  {
    hide InTree;
  }

  /** An inner watch with nothing below it can go. */
  lemma LeafNeat(t: map<int, Entry>, vd: int)
    requires Neat(t) && vd in t && t[vd].watch.parent != null && forall v | v in t :: !(t[vd].dir < t[v].dir)
    ensures Neat(t - {vd})
  {
    hide Neat, HangsOn;
    forall v | v in t && v != vd
      ensures !HangsOn(t[v].dir, t[vd].dir)
    {
      if HangsOn(t[v].dir, t[vd].dir) {
        HungIsLonger(t[v].dir, t[vd].dir);
      }
    }
    NeatWithout(t, {vd});
  }

  lemma HungIsLonger(dir: string, above: string)
    requires HangsOn(dir, above)
    ensures above < dir
  {
  }

  lemma ShapeParts(t: map<int, Entry>, v: int)
    requires Neat(t) && v in t
    ensures IsDirPath(t[v].dir)
    ensures t[v].watch.parent == null ==> t[v].watch.id == v
    ensures t[v].watch.parent != null ==> t[v].watch.recursive && Hung(t, v) && Rooted(t, v)
  {
    assert InShape(t, v);
  }

  lemma InsideRecursive(t: map<int, Entry>, wd: int, v: int)
    requires Neat(t) && wd in t && v in t && wd != v && t[wd].watch.recursive && t[wd].dir <= t[v].dir
    ensures t[v].watch.parent != null && t[v].watch.id == t[wd].watch.id
  {
  }

  // ---------- a directory registered ----------

  /** No directory has two entries of the same name. */
  predicate NamesDiffer(node: Node) {
    node.Folder? ==>
      && (forall i, j | 0 <= i < j < |node.entries| :: node.entries[i].0 != node.entries[j].0)
      && (forall e | e in node.entries :: NamesDiffer(e.1))
  }

  /** Each request is for a directory path below dir that hangs on dir or on an earlier one. */
  ghost predicate HangTogether(rs: seq<Request>, dir: string) {
    forall r | r in rs ::
      && dir < r.path && SlashAtEnd(r.path)
      && (HangsOn(r.path, dir) || exists q :: q in rs && HangsOn(r.path, q.path))
  }

  ghost predicate PathsDiffer(rs: seq<Request>) {
    forall i, j | 0 <= i < j < |rs| :: rs[i].path != rs[j].path
  }

  /** Everything asked for among the first n entries lies in one of them. */
  ghost predicate InEntries(rs: seq<Request>, dir: string, node: Node, n: nat)
    requires node.Folder? && n <= |node.entries|
  {
    forall r | r in rs :: exists i :: 0 <= i < n && ChildDir(dir, node.entries[i].0) <= r.path
  }

  lemma {:induction false} WalkShape(dir: string, node: Node)
    requires node.Folder? && SlashAtEnd(dir) && WellNamed(node) && node.wd >= 0
    ensures var below := Answered(WalkBelow(dir, node, |node.entries|));
            && Answered(Walk(dir, node, true)) == [Request(dir, node.wd)] + below
            && HangTogether(below, dir)
            && (NamesDiffer(node) ==> PathsDiffer(below))
    decreases node, |node.entries| + 1
  {
    hide HangTogether, PathsDiffer, InEntries, WellNamed, NamesDiffer, Answered, WalkBelow;
    AnsweredAppend([Request(dir, node.wd)], WalkBelow(dir, node, |node.entries|));
    SingleAnswer(Request(dir, node.wd));
    BelowShape(dir, node, |node.entries|);
  }

  lemma SingleAnswer(r: Request)
    requires r.wd >= 0
    ensures Answered([r]) == [r]
  {
    assert [r][..0] == [];
  }

  lemma {:induction false} BelowShape(dir: string, node: Node, n: nat)
    requires node.Folder? && n <= |node.entries| && SlashAtEnd(dir) && WellNamed(node)
    ensures var below := Answered(WalkBelow(dir, node, n));
            HangTogether(below, dir) && InEntries(below, dir, node, n) && (NamesDiffer(node) ==> PathsDiffer(below))
    decreases node, n
  {
    hide HangTogether, PathsDiffer, InEntries, WalkStep, WellNamed, NamesDiffer, Answered, WalkBelow;
    if n == 0 {
      NoneShape(dir, node);
    } else {
      BelowShape(dir, node, n - 1);
      var some, more := Answered(WalkBelow(dir, node, n - 1)), Answered(WalkStep(dir, node, n - 1));
      WalkBelowStep(dir, node, n);
      StepShape(dir, node, n - 1);
      JoinShape(dir, node, n - 1, some, more);
    }
  }

  lemma WalkBelowStep(dir: string, node: Node, n: nat)
    requires node.Folder? && 0 < n <= |node.entries|
    ensures Answered(WalkBelow(dir, node, n))
            == Answered(WalkBelow(dir, node, n - 1)) + Answered(WalkStep(dir, node, n - 1))
  {
    hide Answered;
    AnsweredAppend(WalkBelow(dir, node, n - 1), WalkStep(dir, node, n - 1));
  }

  lemma NoneShape(dir: string, node: Node)
    requires node.Folder?
    ensures Answered(WalkBelow(dir, node, 0)) == []
    ensures HangTogether([], dir) && InEntries([], dir, node, 0) && PathsDiffer([])
  {
  }

  /** What one entry adds. */
  lemma {:induction false} StepShape(dir: string, node: Node, i: nat)
    requires node.Folder? && i < |node.entries| && SlashAtEnd(dir) && WellNamed(node)
    ensures var rs := Answered(WalkStep(dir, node, i));
            && HangTogether(rs, dir)
            && (forall r | r in rs :: ChildDir(dir, node.entries[i].0) <= r.path)
            && (NamesDiffer(node) ==> PathsDiffer(rs))
    decreases node, i
  {
    hide HangTogether, PathsDiffer, Walk, WalkBelow, Answered, WellNamed, NamesDiffer;
    assert node.entries[i] in node.entries;
    var (name, child) := node.entries[i];
    EntryNamed(node, i);
    var top := ChildDir(dir, name);
    if Watchable(child) {
      if child.wd >= 0 {
        WalkShape(top, child);
        HeadShape(dir, name, child.wd, Answered(WalkBelow(top, child, |child.entries|)));
      } else {
        Unanswered(top, child);
        NoneShape(dir, node);
      }
    } else {
      NoneShape(dir, node);
      assert WalkStep(dir, node, i) == [] == WalkBelow(dir, node, 0) by {
        NoEntries(dir, node, i);
      }
    }
  }

  lemma NoEntries(dir: string, node: Node, i: nat)
    requires node.Folder? && i < |node.entries| && !Watchable(node.entries[i].1)
    ensures WalkStep(dir, node, i) == [] == WalkBelow(dir, node, 0)
  {
  }

  lemma Unanswered(dir: string, node: Node)
    requires node.Folder? && node.wd < 0
    ensures Answered(Walk(dir, node, true)) == []
  {
  }

  lemma EntryNamed(node: Node, i: nat)
    requires node.Folder? && i < |node.entries| && WellNamed(node)
    ensures IsName(node.entries[i].0) && WellNamed(node.entries[i].1)
    ensures NamesDiffer(node) ==> NamesDiffer(node.entries[i].1)
  {
    assert node.entries[i] in node.entries;
  }

  /** A child's own request and those below it, seen from the parent. */
  lemma HeadShape(dir: string, name: string, wd: int, below: seq<Request>)
    requires SlashAtEnd(dir) && IsName(name) && HangTogether(below, ChildDir(dir, name))
    ensures var rs := [Request(ChildDir(dir, name), wd)] + below;
            && HangTogether(rs, dir) && (forall r | r in rs :: ChildDir(dir, name) <= r.path)
            && (PathsDiffer(below) ==> PathsDiffer(rs))
  {
    hide HangsOn;
    var top, rs := ChildDir(dir, name), [Request(ChildDir(dir, name), wd)] + below;
    ChildHangs(dir, name);
    assert rs[0].path == top;
    forall r | r in rs
      ensures dir < r.path && SlashAtEnd(r.path) && top <= r.path
      ensures HangsOn(r.path, dir) || exists q :: q in rs && HangsOn(r.path, q.path)
    {
      if r in below && HangsOn(r.path, top) {
        assert rs[0] in rs;
      } else if r in below {
        var q :| q in below && HangsOn(r.path, q.path);
        assert q in rs;
      }
    }
    if PathsDiffer(below) {
      assert forall k | 0 < k < |rs| :: rs[k] == below[k - 1] && rs[k] in below;
    }
  }

  lemma ChildHangs(dir: string, name: string)
    requires SlashAtEnd(dir) && IsName(name)
    ensures HangsOn(ChildDir(dir, name), dir) && SlashAtEnd(ChildDir(dir, name)) && dir < ChildDir(dir, name)
  {
    assert ChildDir(dir, name)[|dir|..|ChildDir(dir, name)| - 1] == name;
  }

  lemma JoinShape(dir: string, node: Node, i: nat, some: seq<Request>, more: seq<Request>)
    requires node.Folder? && i < |node.entries| && WellNamed(node)
    requires HangTogether(some, dir) && InEntries(some, dir, node, i) && HangTogether(more, dir)
    requires forall r | r in more :: ChildDir(dir, node.entries[i].0) <= r.path
    requires NamesDiffer(node) ==> PathsDiffer(some) && PathsDiffer(more)
    ensures HangTogether(some + more, dir) && InEntries(some + more, dir, node, i + 1)
    ensures NamesDiffer(node) ==> PathsDiffer(some + more)
  {
    hide HangsOn;
    if NamesDiffer(node) {
      forall a, b | 0 <= a < |some| && 0 <= b < |more|
        ensures some[a].path != more[b].path
      {
        assert some[a] in some && more[b] in more;
        var k :| 0 <= k < i && ChildDir(dir, node.entries[k].0) <= some[a].path;
        EntryNamed(node, k);
        EntryNamed(node, i);
        if some[a].path == more[b].path {
          OneEntry(dir, node.entries[k].0, node.entries[i].0, some[a].path);
        }
      }
    }
  }

  /** A path lies in one entry of a directory only. */
  lemma OneEntry(dir: string, a: string, b: string, path: string)
    requires IsName(a) && IsName(b) && ChildDir(dir, a) <= path && ChildDir(dir, b) <= path
    ensures a == b
  {
    if |a| <= |b| {
      assert ChildDir(dir, a) <= ChildDir(dir, b);
      SameChild(dir, a, b);
    } else {
      assert ChildDir(dir, b) <= ChildDir(dir, a);
      SameChild(dir, b, a);
    }
  }

  // ---------- no report is made twice ----------

  ghost predicate CallsDiffer(cs: seq<Callback>) {
    forall i, j | 0 <= i < j < |cs| :: cs[i] != cs[j]
  }

  /** Calls about directories at or below a path. */
  ghost predicate CallsWithin(cs: seq<Callback>, dir: string) {
    forall c | c in cs :: c.FileAction? && dir <= c.dir
  }

  /** Each is about something in one of the first n entries. */
  ghost predicate CallsInEntries(cs: seq<Callback>, dir: string, node: Node, n: nat)
    requires node.Folder? && n <= |node.entries|
  {
    forall c | c in cs :: c.FileAction? && exists i :: 0 <= i < n && ChildDir(dir, node.entries[i].0) <= c.dir
  }

  lemma CallsDifferAppend(a: seq<Callback>, b: seq<Callback>)
    requires CallsDiffer(a) && CallsDiffer(b) && forall c | c in b :: c !in a
    ensures CallsDiffer(a + b)
  {
    assert forall i | 0 <= i < |a| :: a[i] in a;
    assert forall i | 0 <= i < |b| :: b[i] in b;
  }

  lemma {:induction false} EntriesReportedOnce(id: int, dir: string, node: Node, n: nat)
    requires node.Folder? && n <= |node.entries| && NamesDiffer(node)
    ensures CallsDiffer(EntryReports(id, dir, node, n))
    ensures forall c | c in EntryReports(id, dir, node, n) :: c.FileAction? && c.dir == dir
    decreases n
  {
    if n > 0 {
      EntriesReportedOnce(id, dir, node, n - 1);
      var c := FileAction(id, dir, node.entries[n - 1].0, Add, "");
      EntryReportsHas(id, dir, node, n - 1, c);
      var sofar := EntryReports(id, dir, node, n - 1);
      CallsDifferAppend(sofar, if c in sofar then [] else [c]);
    }
  }

  /** The synthetic reports of a recursive registration are all different. */
  lemma {:induction false} ReportedOnce(id: int, dir: string, node: Node)
    requires node.Folder? && WellNamed(node) && NamesDiffer(node)
    ensures CallsDiffer(WalkReports(id, dir, node)) && CallsWithin(WalkReports(id, dir, node), dir)
    decreases node, |node.entries| + 1
  {
    hide EntryReports, ReportsBelow, CallsDiffer, WellNamed, NamesDiffer;
    if node.wd >= 0 {
      EntriesReportedOnce(id, dir, node, |node.entries|);
      BelowReportedOnce(id, dir, node, |node.entries|);
      var here, below := EntryReports(id, dir, node, |node.entries|), ReportsBelow(id, dir, node, |node.entries|);
      forall c | c in below
        ensures c.FileAction? && dir < c.dir
      {
        var i :| 0 <= i < |node.entries| && ChildDir(dir, node.entries[i].0) <= c.dir;
        assert dir < ChildDir(dir, node.entries[i].0);
      }
      CallsDifferAppend(here, below);
    } else {
      NoCalls();
    }
  }

  lemma NoCalls()
    ensures CallsDiffer([])
  {
  }

  lemma {:induction false} BelowReportedOnce(id: int, dir: string, node: Node, n: nat)
    requires node.Folder? && n <= |node.entries| && WellNamed(node) && NamesDiffer(node)
    ensures CallsDiffer(ReportsBelow(id, dir, node, n)) && CallsInEntries(ReportsBelow(id, dir, node, n), dir, node, n)
    decreases node, n
  {
    hide WalkReports, CallsDiffer, WellNamed, NamesDiffer;
    if n == 0 {
      NoCalls();
    } else {
      BelowReportedOnce(id, dir, node, n - 1);
      EntryNamed(node, n - 1);
      var (name, child) := node.entries[n - 1];
      var some, more := ReportsBelow(id, dir, node, n - 1), ReportsStep(id, dir, node, n - 1);
      if Watchable(child) {
        ReportedOnce(id, ChildDir(dir, name), child);
      } else {
        NoCalls();
      }
      forall c | c in more
        ensures c !in some
      {
        if c in some {
          var i :| 0 <= i < n - 1 && ChildDir(dir, node.entries[i].0) <= c.dir;
          EntryNamed(node, i);
          EntryNamesDiffer(node, i, n - 1);
          OneEntry(dir, node.entries[i].0, name, c.dir);
        }
      }
      CallsDifferAppend(some, more);
    }
  }

  lemma EntryNamesDiffer(node: Node, i: nat, j: nat)
    requires node.Folder? && NamesDiffer(node) && i < j < |node.entries|
    ensures node.entries[i].0 != node.entries[j].0
  {
  }
}
