/** Registering a directory: which watches a recursive registration asks the kernel for, what it enters
    in the table, and what it reports. */
module InotifyWalk {
  import opened Paths
  import opened InotifyEvents
  import opened InotifyWatch

  /** A path handed to inotify_add_watch and its answer. */
  datatype Request = Request(path: string, wd: int)

  /** A subdirectory the recursive walk registers. */
  predicate Watchable(node: Node) {
    node.Folder? && node.readable && !node.remote
  }

  /** The requests of a recursive registration, parents first. */
  function Walk(dir: string, node: Node, recursive: bool): seq<Request>
    requires node.Folder?
    decreases node, 1, 0
  {
    [Request(dir, node.wd)] + (if recursive && node.wd >= 0 then WalkBelow(dir, node, |node.entries|) else [])
  }

  /** The same for the first n entries of a directory. */
  function WalkBelow(dir: string, node: Node, n: nat): seq<Request>
    requires node.Folder? && n <= |node.entries|
    decreases node, 0, n
  {
    if n == 0 then []
    else
      var (name, child) := node.entries[n - 1];
      WalkBelow(dir, node, n - 1) + (if Watchable(child) then Walk(ChildDir(dir, name), child, true) else [])
  }

  function WalkStep(dir: string, node: Node, i: nat): seq<Request>
    requires node.Folder? && i < |node.entries|
  {
    var (name, child) := node.entries[i];
    if Watchable(child) then Walk(ChildDir(dir, name), child, true) else []
  }

  /** The requests that got a descriptor. */
  function Answered(rs: seq<Request>): seq<Request> {
    if rs == [] then []
    else Answered(rs[..|rs| - 1]) + if rs[|rs| - 1].wd >= 0 then [rs[|rs| - 1]] else []
  }

  lemma {:induction false} AnsweredAppend(a: seq<Request>, b: seq<Request>)
    ensures Answered(a + b) == Answered(a) + Answered(b)
    decreases |b|
  {
    if b == [] {
      assert a + b == a;
    } else {
      assert (a + b)[..|a + b| - 1] == a + b[..|b| - 1];
      AnsweredAppend(a, b[..|b| - 1]);
    }
  }

  /** Every entry of the tree has a proper name. */
  predicate WellNamed(node: Node) {
    node.Folder? ==> forall e | e in node.entries :: IsName(e.0) && WellNamed(e.1)
  }

  // ---------- what is entered ----------

  function RequestsOf(es: seq<Entry>): seq<Request> {
    seq(|es|, i requires 0 <= i < |es| => Request(es[i].dir, es[i].watch.wd))
  }

  lemma RequestsAppend(a: seq<Entry>, b: seq<Entry>)
    ensures RequestsOf(a + b) == RequestsOf(a) + RequestsOf(b)
  {
  }

  /** These watches belong to the tree below top and do as it does. */
  ghost predicate Kin(es: seq<Entry>, top: WatcherInotify) {
    forall e | e in es :: InTree(e.watch, top) && Alike(e.watch, top)
  }

  ghost predicate Alike(w: WatcherInotify, top: WatcherInotify) {
    && w.id == top.id && w.recursive == top.recursive && w.syntheticEvents == top.syntheticEvents
    && w.reportCrossDirectoryMoves == top.reportCrossDirectoryMoves
  }

  /** A tree of watches headed by a watch of this directory under this descriptor. */
  ghost predicate Headed(es: seq<Entry>, dir: string, wd: int, parent: WatcherInotify?) {
    && es != [] && es[0].dir == dir && es[0].watch.wd == wd && es[0].watch.parent == parent
    && es[0].watch.id == (if parent == null then wd else parent.id)
    && (parent != null ==> InTree(es[0].watch, parent))
    && Kin(es[1..], es[0].watch)
  }

  lemma KinAppend(a: seq<Entry>, b: seq<Entry>, top: WatcherInotify)
    requires Kin(a, top) && Kin(b, top)
    ensures Kin(a + b, top)
  {
    hide InTree, Alike;
  }

  /** The tree of a child belongs to its parent's. */
  lemma KinAbove(es: seq<Entry>, dir: string, wd: int, top: WatcherInotify)
    requires Headed(es, dir, wd, top) && Alike(es[0].watch, top)
    ensures Kin(es, top)
  {
    forall e | e in es
      ensures InTree(e.watch, top) && Alike(e.watch, top)
    {
      if e.watch != es[0].watch {
        assert e in es[1..];
        InTreeTransitive(e.watch, es[0].watch, top);
      }
    }
  }

  // ---------- what is reported ----------

  /** The Add of each of the first n entries of a new directory. */
  function EntryReports(id: int, dir: string, node: Node, n: nat): seq<Callback>
    requires node.Folder? && n <= |node.entries|
  {
    if n == 0 then []
    else
      var (name, child) := node.entries[n - 1];
      EntryReports(id, dir, node, n - 1) +
      if child.Regular? || child.Folder? then [FileAction(id, dir, name, Add, "")] else []
  }

  /** The synthetic reports of the walk: each new directory's entries when it is entered. */
  function WalkReports(id: int, dir: string, node: Node): seq<Callback>
    requires node.Folder?
    decreases node, 1, 0
  {
    if node.wd < 0 then []
    else EntryReports(id, dir, node, |node.entries|) + ReportsBelow(id, dir, node, |node.entries|)
  }

  function ReportsBelow(id: int, dir: string, node: Node, n: nat): seq<Callback>
    requires node.Folder? && n <= |node.entries|
    decreases node, 0, n
  {
    if n == 0 then []
    else
      var (name, child) := node.entries[n - 1];
      ReportsBelow(id, dir, node, n - 1) + if Watchable(child) then WalkReports(id, ChildDir(dir, name), child) else []
  }

  function ReportsStep(id: int, dir: string, node: Node, i: nat): seq<Callback>
    requires node.Folder? && i < |node.entries|
  {
    var (name, child) := node.entries[i];
    if Watchable(child) then WalkReports(id, ChildDir(dir, name), child) else []
  }

  // ---------- what a walk finds, in terms of the directory alone ----------

  /** The names lead from a directory to one inside it, through directories that the kernel has given a
      descriptor; each one after the first is readable and not remote. */
  ghost predicate LeadsTo(node: Node, names: seq<string>, at: Node)
    decreases |names|
  {
    if names == [] then at == node
    else
      node.Folder? && node.wd >= 0
      && exists i | 0 <= i < |node.entries| ::
           && node.entries[i].0 == names[0]
           && (var child := node.entries[i].1; child.Folder? && child.readable && !child.remote)
           && LeadsTo(node.entries[i].1, names[1..], at)
  }

  /** One name further down. */
  lemma LeadsFurther(dir: string, node: Node, i: nat, names: seq<string>, at: Node)
    requires node.Folder? && node.wd >= 0 && i < |node.entries| && LeadsTo(node.entries[i].1, names, at)
    requires var child := node.entries[i].1; child.Folder? && child.readable && !child.remote
    ensures LeadsTo(node, [node.entries[i].0] + names, at)
    ensures dir + Join([node.entries[i].0] + names) == ChildDir(dir, node.entries[i].0) + Join(names)
  {
    var all := [node.entries[i].0] + names;
    assert all[1..] == names && all[0] == node.entries[i].0;
  }

  lemma LeadsFirst(dir: string, node: Node, names: seq<string>, at: Node) returns (i: nat)
    requires names != [] && LeadsTo(node, names, at)
    ensures node.Folder? && node.wd >= 0 && i < |node.entries| && node.entries[i].0 == names[0]
    ensures var child := node.entries[i].1; child.Folder? && child.readable && !child.remote
    ensures LeadsTo(node.entries[i].1, names[1..], at)
    ensures dir + Join(names) == ChildDir(dir, node.entries[i].0) + Join(names[1..])
  {
    i :| 0 <= i < |node.entries| && node.entries[i].0 == names[0] && LeadsTo(node.entries[i].1, names[1..], at)
         && (var child := node.entries[i].1; child.Folder? && child.readable && !child.remote);
  }

  lemma {:induction false} RequestLeads(dir: string, node: Node, r: Request) returns (names: seq<string>, at: Node)
    requires node.Folder? && r in Walk(dir, node, true)
    ensures LeadsTo(node, names, at) && at.Folder? && r == Request(dir + Join(names), at.wd)
    decreases node, 1, 0
  {
    if r == Request(dir, node.wd) {
      names, at := [], node;
      assert dir + Join([]) == dir;
    } else {
      names, at := RequestLeadsBelow(dir, node, |node.entries|, r);
    }
  }

  lemma {:induction false} RequestLeadsBelow(dir: string, node: Node, n: nat, r: Request)
    returns (names: seq<string>, at: Node)
    requires node.Folder? && node.wd >= 0 && n <= |node.entries| && r in WalkBelow(dir, node, n)
    ensures LeadsTo(node, names, at) && at.Folder? && r == Request(dir + Join(names), at.wd)
    decreases node, 0, n
  {
    var (name, child) := node.entries[n - 1];
    if r in WalkBelow(dir, node, n - 1) {
      names, at := RequestLeadsBelow(dir, node, n - 1, r);
    } else {
      var rest;
      rest, at := RequestLeads(ChildDir(dir, name), child, r);
      LeadsFurther(dir, node, n - 1, rest, at);
      names := [name] + rest;
    }
  }

  lemma {:induction false} LeadsToRequest(dir: string, node: Node, names: seq<string>, at: Node)
    requires node.Folder? && LeadsTo(node, names, at)
    ensures at.Folder? && Request(dir + Join(names), at.wd) in Walk(dir, node, true)
    decreases |names|
  {
    if names == [] {
      assert dir + Join([]) == dir;
    } else {
      var i := LeadsFirst(dir, node, names, at);
      LeadsToRequest(ChildDir(dir, node.entries[i].0), node.entries[i].1, names[1..], at);
      InWalkBelow(dir, node, i, |node.entries|, Request(dir + Join(names), at.wd));
    }
  }

  lemma {:induction false} InWalkBelow(dir: string, node: Node, i: nat, n: nat, r: Request)
    requires node.Folder? && i < n <= |node.entries| && r in WalkStep(dir, node, i)
    ensures r in WalkBelow(dir, node, n)
    decreases n
  {
    hide Walk;
    if i < n - 1 {
      InWalkBelow(dir, node, i, n - 1, r);
    }
  }

  /** Such a chain leads to a directory at this path, for which the kernel's answer is this descriptor. */
  ghost predicate Reaches(dir: string, node: Node, path: string, wd: int) {
    exists names, at :: LeadsTo(node, names, at) && at.Folder? && at.wd == wd && path == dir + Join(names)
  }

  /** A recursive registration asks the kernel for exactly the directories that are reached, down to where
      the kernel refuses one; one that is not recursive asks for its own directory alone. */
  lemma WalkComplete(dir: string, node: Node, r: Request)
    requires node.Folder?
    ensures r in Walk(dir, node, true) <==> Reaches(dir, node, r.path, r.wd)
    ensures Walk(dir, node, false) == [Request(dir, node.wd)]
  {
    if r in Walk(dir, node, true) {
      var names, at := RequestLeads(dir, node, r);
    }
    if names, at :| LeadsTo(node, names, at) && at.Folder? && at.wd == r.wd && r.path == dir + Join(names) {
      LeadsToRequest(dir, node, names, at);
    }
  }

  lemma {:induction false} AnsweredHas(rs: seq<Request>, r: Request)
    ensures r in Answered(rs) <==> r in rs && r.wd >= 0
    decreases |rs|
  {
    if rs != [] {
      AnsweredHas(rs[..|rs| - 1], r);
    }
  }

  ghost predicate IsEntered(es: seq<Entry>, path: string, wd: int) {
    exists k :: 0 <= k < |es| && es[k].dir == path && es[k].watch.wd == wd
  }

  /** The watches that are entered are those of exactly these directories, as far as the kernel has given
      each a descriptor. */
  ghost predicate CoversTree(es: seq<Entry>, dir: string, node: Node) {
    forall path, wd :: IsEntered(es, path, wd) <==> wd >= 0 && Reaches(dir, node, path, wd)
  }

  lemma EnteredComplete(es: seq<Entry>, dir: string, node: Node)
    requires node.Folder? && RequestsOf(es) == Answered(Walk(dir, node, true))
    ensures CoversTree(es, dir, node)
  {
    hide Reaches, Walk, Answered;
    forall path, wd
      ensures IsEntered(es, path, wd) <==> wd >= 0 && Reaches(dir, node, path, wd)
    {
      var r := Request(path, wd);
      WalkComplete(dir, node, r);
      AnsweredHas(Walk(dir, node, true), r);
      if k :| 0 <= k < |es| && es[k].dir == path && es[k].watch.wd == wd {
        assert RequestsOf(es)[k] == r;
      }
      if r in RequestsOf(es) {
        var k :| 0 <= k < |es| && RequestsOf(es)[k] == r;
        assert es[k].dir == path && es[k].watch.wd == wd;
      }
    }
  }

  /** Such a chain leads to a directory that got a descriptor and holds the file or directory this Add is
      about. */
  ghost predicate Found(id: int, dir: string, node: Node, c: Callback) {
    exists names, at, i: nat ::
      && LeadsTo(node, names, at) && at.Folder? && at.wd >= 0 && i < |at.entries|
      && (at.entries[i].1.Regular? || at.entries[i].1.Folder?)
      && c == FileAction(id, dir + Join(names), at.entries[i].0, Add, "")
  }

  lemma {:induction false} EntryReportsHas(id: int, dir: string, node: Node, n: nat, c: Callback)
    requires node.Folder? && n <= |node.entries|
    ensures c in EntryReports(id, dir, node, n) <==>
            exists i :: && 0 <= i < n && (node.entries[i].1.Regular? || node.entries[i].1.Folder?)
                        && c == FileAction(id, dir, node.entries[i].0, Add, "")
    decreases n
  {
    if n > 0 {
      EntryReportsHas(id, dir, node, n - 1, c);
    }
  }

  lemma {:induction false} ReportFound(id: int, dir: string, node: Node, c: Callback)
    requires node.Folder? && c in WalkReports(id, dir, node)
    ensures Found(id, dir, node, c)
    decreases node, 1, 0
  {
    if c in EntryReports(id, dir, node, |node.entries|) {
      EntryReportsHas(id, dir, node, |node.entries|, c);
      var i :| 0 <= i < |node.entries| && c == FileAction(id, dir, node.entries[i].0, Add, "")
               && (node.entries[i].1.Regular? || node.entries[i].1.Folder?);
      assert dir + Join([]) == dir && LeadsTo(node, [], node);
    } else {
      ReportFoundBelow(id, dir, node, |node.entries|, c);
    }
  }

  lemma {:induction false} ReportFoundBelow(id: int, dir: string, node: Node, n: nat, c: Callback)
    requires node.Folder? && node.wd >= 0 && n <= |node.entries| && c in ReportsBelow(id, dir, node, n)
    ensures Found(id, dir, node, c)
    decreases node, 0, n
  {
    var (name, child) := node.entries[n - 1];
    if c in ReportsBelow(id, dir, node, n - 1) {
      ReportFoundBelow(id, dir, node, n - 1, c);
    } else {
      ReportFound(id, ChildDir(dir, name), child, c);
      var rest, at, i: nat :|
        && LeadsTo(child, rest, at) && at.Folder? && at.wd >= 0 && i < |at.entries|
        && (at.entries[i].1.Regular? || at.entries[i].1.Folder?)
        && c == FileAction(id, ChildDir(dir, name) + Join(rest), at.entries[i].0, Add, "");
      LeadsFurther(dir, node, n - 1, rest, at);
    }
  }

  lemma {:induction false} FoundReported(id: int, dir: string, node: Node, names: seq<string>, at: Node, c: Callback)
    requires node.Folder? && LeadsTo(node, names, at) && at.Folder? && at.wd >= 0
    requires c in EntryReports(id, dir + Join(names), at, |at.entries|)
    ensures c in WalkReports(id, dir, node)
    decreases |names|
  {
    hide EntryReports;
    if names == [] {
      assert dir + Join([]) == dir;
    } else {
      var i := LeadsFirst(dir, node, names, at);
      FoundReported(id, ChildDir(dir, node.entries[i].0), node.entries[i].1, names[1..], at, c);
      InReportsBelow(id, dir, node, i, |node.entries|, c);
    }
  }

  lemma {:induction false} InReportsBelow(id: int, dir: string, node: Node, i: nat, n: nat, c: Callback)
    requires node.Folder? && i < n <= |node.entries| && c in ReportsStep(id, dir, node, i)
    ensures c in ReportsBelow(id, dir, node, n)
    decreases n
  {
    hide WalkReports;
    if i < n - 1 {
      InReportsBelow(id, dir, node, i, n - 1, c);
    }
  }

  /** The synthetic reports of a recursive registration are the Adds of exactly the files and directories
      in the directories that got a descriptor. */
  lemma ReportsComplete(id: int, dir: string, node: Node, c: Callback)
    requires node.Folder?
    ensures c in WalkReports(id, dir, node) <==> Found(id, dir, node, c)
  {
    if c in WalkReports(id, dir, node) {
      ReportFound(id, dir, node, c);
    }
    if names, at, i: nat :|
      && LeadsTo(node, names, at) && at.Folder? && at.wd >= 0 && i < |at.entries|
      && (at.entries[i].1.Regular? || at.entries[i].1.Folder?)
      && c == FileAction(id, dir + Join(names), at.entries[i].0, Add, "")
    {
      EntryReportsHas(id, dir + Join(names), at, |at.entries|, c);
      FoundReported(id, dir, node, names, at, c);
    }
  }

  // ---------- the loop over the entries of a new directory ----------

  /** What the first n entries have made of the requests and the log, and which watches were entered. */
  ghost predicate Walked(adds: seq<Request>, adds': seq<Request>, log: seq<Callback>, log': seq<Callback>,
                         es: seq<Entry>, id: int, dir: string, node: Node, n: nat, reported: bool)
    requires node.Folder? && n <= |node.entries|
  {
    && adds' == adds + WalkBelow(dir, node, n) && RequestsOf(es) == Answered(WalkBelow(dir, node, n))
    && (reported ==> log' == log + ReportsBelow(id, dir, node, n))
  }

  lemma WalkedNone(adds: seq<Request>, log: seq<Callback>, id: int, dir: string, node: Node, reported: bool)
    requires node.Folder?
    ensures Walked(adds, adds, log, log, [], id, dir, node, 0, reported)
  {
  }

  lemma WalkedNext(adds: seq<Request>, mid: seq<Request>, adds': seq<Request>, log: seq<Callback>, sofar: seq<Callback>,
                   log': seq<Callback>, es: seq<Entry>, more: seq<Entry>, id: int, dir: string, node: Node, i: nat,
                   reported: bool)
    requires node.Folder? && i < |node.entries| && Walked(adds, mid, log, sofar, es, id, dir, node, i, reported)
    requires adds' == mid + WalkStep(dir, node, i) && RequestsOf(more) == Answered(WalkStep(dir, node, i))
    requires reported ==> log' == sofar + ReportsStep(id, dir, node, i)
    ensures Walked(adds, adds', log, log', es + more, id, dir, node, i + 1, reported)
  {
    hide Answered;
    AnsweredAppend(WalkBelow(dir, node, i), WalkStep(dir, node, i));
    assert WalkBelow(dir, node, i + 1) == WalkBelow(dir, node, i) + WalkStep(dir, node, i);
    assert ReportsBelow(id, dir, node, i + 1) == ReportsBelow(id, dir, node, i) + ReportsStep(id, dir, node, i);
    RequestsAppend(es, more);
    assert reported ==> log' == log + (ReportsBelow(id, dir, node, i) + ReportsStep(id, dir, node, i));
    assert adds' == adds + (WalkBelow(dir, node, i) + WalkStep(dir, node, i));
  }

  // ---------- a directory that appears below a watch ----------

  /** No explicit registration is strictly below this path. */
  ghost predicate RootFree(t: map<int, Entry>, dir: string) {
    forall v | v in t && t[v].watch.parent == null :: !(dir < t[v].dir)
  }

  /** A watch on a directory below w, and on every directory the walk finds in it. */
  ghost predicate Registered(t: map<int, Entry>, es: seq<Entry>, w: WatcherInotify, dir: string, node: Node,
                             reports: seq<Callback>)
    requires node.Folder?
  {
    && (if node.wd < 0 then es == [] && reports == [] else Headed(es, dir, node.wd, w) && Alike(es[0].watch, w))
    && AllAdds(reports) && (!w.syntheticEvents ==> reports == [])
    && (SlashAtEnd(dir) && WellNamed(node) && RootFree(t, dir) ==>
          && RequestsOf(es) == Answered(Walk(dir, node, true))
          && (w.syntheticEvents ==> reports == WalkReports(w.id, dir, node)))
  }

  /** checkForNewWatcher: what a directory that appears at a path makes a watch register and report. */
  ghost predicate Arrives(t: map<int, Entry>, es: seq<Entry>, w: WatcherInotify, dir: string, at: Node,
                          reports: seq<Callback>)
  {
    if w.recursive && Watchable(at) && (forall v | v in t :: t[v].dir != dir)
    then Registered(t, es, w, dir, at, reports)
    else es == [] && reports == []
  }

  /** A readable, local directory that appears below a recursive watch is registered with everything it
      holds, unless it is watched already; anything else is not. */
  lemma ArrivalMeans(t: map<int, Entry>, es: seq<Entry>, w: WatcherInotify, dir: string, at: Node,
                     reports: seq<Callback>)
    requires Arrives(t, es, w, dir, at, reports)
    ensures !(w.recursive && at.Folder? && at.readable && !at.remote && forall v | v in t :: t[v].dir != dir) ==>
              es == [] && reports == []
    ensures w.recursive && at.Folder? && at.readable && !at.remote && (forall v | v in t :: t[v].dir != dir)
            && SlashAtEnd(dir) && WellNamed(at) && RootFree(t, dir) ==>
              && CoversTree(es, dir, at)
              && forall c :: c in reports <==> w.syntheticEvents && Found(w.id, dir, at, c)
  {
    hide CoversTree, Found, WalkReports, Walk, Answered, Headed, RequestsOf;
    if at.Folder? && Registered(t, es, w, dir, at, reports) && SlashAtEnd(dir) && WellNamed(at) && RootFree(t, dir) {
      EnteredComplete(es, dir, at);
      forall c {
        ReportsComplete(w.id, dir, at, c);
      }
    }
  }
}
