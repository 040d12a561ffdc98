/** The watches of the inotify backend, and the watch table as a value. */
module InotifyWatch {
  import opened Paths

  class WatcherInotify {
    const id: int
    const wd: int
    const recursive: bool
    const parent: WatcherInotify?
    const syntheticEvents: bool
    const reportCrossDirectoryMoves: bool
    ghost const depth: nat
    var directory: string
    var oldFileName: string

    constructor (directory: string, wd: int, recursive: bool, parent: WatcherInotify?,
                 syntheticEvents: bool, reportCrossDirectoryMoves: bool)
      ensures this.directory == directory && this.wd == wd && this.recursive == recursive
      ensures this.parent == parent && oldFileName == ""
      ensures this.syntheticEvents == syntheticEvents
      ensures this.reportCrossDirectoryMoves == reportCrossDirectoryMoves
      ensures id == if parent == null then wd else parent.id
      ensures parent != null ==> parent.depth < depth
    {
      this.id := if parent == null then wd else parent.id;
      this.wd := wd;
      this.recursive := recursive;
      this.parent := parent;
      this.syntheticEvents := syntheticEvents;
      this.reportCrossDirectoryMoves := reportCrossDirectoryMoves;
      this.depth := if parent == null then 0 else parent.depth + 1;
      this.directory := directory;
      this.oldFileName := "";
    }
  }

  /** p is on w's chain of parents. */
  ghost predicate InTree(w: WatcherInotify, p: WatcherInotify)
    decreases w.depth
  {
    w.parent != null && w.parent.depth < w.depth && (w.parent == p || InTree(w.parent, p))
  }

  lemma {:induction false} InTreeTransitive(a: WatcherInotify, b: WatcherInotify, c: WatcherInotify)
    requires InTree(a, b) && InTree(b, c)
    ensures InTree(a, c)
    decreases a.depth
  {
    if a.parent != b {
      InTreeTransitive(a.parent, b, c);
    }
  }

  /** A watch and where it says it is; everything else about a watch never changes. */
  datatype Entry = Entry(watch: WatcherInotify, dir: string)

  /** Every watch is entered under its own descriptor. */
  ghost predicate Keyed(t: map<int, Entry>) {
    forall v | v in t :: t[v].watch.wd == v
  }

  /** No directory is watched twice. */
  ghost predicate Unique(t: map<int, Entry>) {
    forall v, w | v in t && w in t && v != w :: t[v].dir != t[w].dir
  }

  /** The watches at or below a directory. */
  ghost function Below(t: map<int, Entry>, prefix: string): set<int> {
    set v | v in t && StartsWith(prefix, t[v].dir)
  }

  /** What removing a watch takes out: the watch itself and, for a recursive root, its whole tree. */
  ghost function RemovedFrom(t: map<int, Entry>, wd: int): set<int> {
    if wd !in t then {}
    else set v | v in t && (v == wd || (t[wd].watch.recursive && t[wd].watch.parent == null
                                        && InTree(t[v].watch, t[wd].watch)))
  }

  /** What goes when the first watch with this directory, if there is one, is removed. */
  ghost predicate RemovesAt(t: map<int, Entry>, gone: set<int>, dir: string) {
    || (gone == {} && forall v | v in t :: t[v].dir != dir)
    || exists v :: v in t && t[v].dir == dir && gone == RemovedFrom(t, v)
  }

  /** A new watch over whatever was under its descriptor. */
  ghost function PutIn(t: map<int, Entry>, e: Entry): map<int, Entry> {
    (t - RemovedFrom(t, e.watch.wd))[e.watch.wd := e]
  }

  /** The table after these watches have been entered, one after the other. */
  ghost function Entered(t: map<int, Entry>, es: seq<Entry>): map<int, Entry> {
    if es == [] then t else PutIn(Entered(t, es[..|es| - 1]), es[|es| - 1])
  }

  lemma {:induction false} EnteredAppend(t: map<int, Entry>, a: seq<Entry>, b: seq<Entry>)
    ensures Entered(t, a + b) == Entered(Entered(t, a), b)
    decreases |b|
  {
    hide PutIn;
    if b == [] {
      assert a + b == a;
    } else {
      assert (a + b)[..|a + b| - 1] == a + b[..|b| - 1];
      EnteredAppend(t, a, b[..|b| - 1]);
    }
  }

  lemma EnteredOne(t: map<int, Entry>, e: Entry)
    ensures Entered(t, [e]) == PutIn(t, e)
  {
    hide PutIn;
    assert Entered(t, [e][..0]) == t;
  }

  /** An entry was there before or is one of those entered. */
  lemma {:induction false} EnteredFrom(t: map<int, Entry>, es: seq<Entry>, v: int)
    requires v in Entered(t, es)
    ensures (v in t && Entered(t, es)[v] == t[v]) || exists k :: 0 <= k < |es| && Entered(t, es)[v] == es[k]
    decreases |es|
  {
    hide RemovedFrom;
    if es != [] && v != es[|es| - 1].watch.wd {
      var front := es[..|es| - 1];
      EnteredFrom(t, front, v);
      if k :| 0 <= k < |front| && Entered(t, front)[v] == front[k] {
        assert Entered(t, es)[v] == es[k];
      }
    }
  }

  /** Descriptors that are different and free. */
  ghost predicate FreshWds(t: map<int, Entry>, es: seq<Entry>) {
    && (forall k | 0 <= k < |es| :: es[k].watch.wd !in t)
    && (forall j, k | 0 <= j < k < |es| :: es[j].watch.wd != es[k].watch.wd)
  }

  /** The table has gained these entries and nothing else has changed. */
  ghost predicate Gained(t: map<int, Entry>, t': map<int, Entry>, es: seq<Entry>) {
    && (forall v | v in t :: v in t' && t'[v] == t[v])
    && (forall k | 0 <= k < |es| :: es[k].watch.wd in t' && t'[es[k].watch.wd] == es[k])
    && (forall v | v in t' && v !in t :: exists k :: 0 <= k < |es| && es[k].watch.wd == v)
  }

  /** Watches entered under free descriptors are exactly what the table gains. */
  lemma {:induction false} EnteredFresh(t: map<int, Entry>, es: seq<Entry>)
    requires FreshWds(t, es)
    ensures Gained(t, Entered(t, es), es)
    decreases |es|
  {
    hide InTree, FreshWds, Gained;
    if es == [] {
      NoneGained(t);
    } else {
      FreshFront(t, es);
      var front, e := es[..|es| - 1], es[|es| - 1];
      EnteredFresh(t, front);
      var mid := Entered(t, front);
      NotGained(t, mid, es);
      assert PutIn(mid, e) == mid[e.watch.wd := e];
      GainedNext(t, mid, es);
    }
  }

  lemma NoneGained(t: map<int, Entry>)
    ensures Gained(t, t, [])
  {
  }

  lemma FreshFront(t: map<int, Entry>, es: seq<Entry>)
    requires es != [] && FreshWds(t, es)
    ensures FreshWds(t, es[..|es| - 1])
  {
  }

  /** The last one's descriptor is still free when its turn comes. */
  lemma NotGained(t: map<int, Entry>, mid: map<int, Entry>, es: seq<Entry>)
    requires es != [] && FreshWds(t, es) && Gained(t, mid, es[..|es| - 1])
    ensures es[|es| - 1].watch.wd !in mid
  {
    var front := es[..|es| - 1];
    forall k | 0 <= k < |front|
      ensures front[k].watch.wd != es[|es| - 1].watch.wd
    {
      assert front[k] == es[k];
    }
  }

  lemma GainedNext(t: map<int, Entry>, mid: map<int, Entry>, es: seq<Entry>)
    requires es != [] && Gained(t, mid, es[..|es| - 1]) && es[|es| - 1].watch.wd !in mid
    ensures Gained(t, mid[es[|es| - 1].watch.wd := es[|es| - 1]], es)
  {
    var front, e := es[..|es| - 1], es[|es| - 1];
    var now := mid[e.watch.wd := e];
    assert forall k | 0 <= k < |front| :: front[k] == es[k] && front[k].watch.wd in mid;
    forall v | v in now && v !in t
      ensures exists k :: 0 <= k < |es| && es[k].watch.wd == v
    {
      if v != e.watch.wd {
        var k :| 0 <= k < |front| && front[k].watch.wd == v;
        assert es[k].watch.wd == v;
      }
    }
  }
}
