/** What registering, removing and every orderly event of a batch do to the shape of the watch table. */
module WatchTreeSteps {
  import opened Paths
  import opened InotifyEvents
  import opened InotifyWatch
  import opened InotifyWalk
  import opened InotifyReplay
  import opened MovedOut
  import opened Ownership
  import opened PathTracking
  import opened WatchTrees

  // ---------- registering ----------

  /** A directory path that starts the path of a child starts the path of its parent, or is the child. */
  lemma PrefixOfChild(path: string, dir: string, above: string)
    requires SlashAtEnd(path) && HangsOn(dir, above) && path <= dir && path != dir
    ensures path <= above
  {
    var n := dir[|above|..|dir| - 1];
    assert forall i | |above| <= i < |dir| - 1 :: dir[i] == n[i - |above|] && dir[i] in n;
    assert dir[|path| - 1] == path[|path| - 1] == Slash;
  }

  lemma Comparable(a: string, b: string, path: string)
    requires a <= path && b <= path
    ensures a <= b || b <= a
  {
  }

  /** The head of a new tree: an explicit root outside every recursive registration, or a directory that
      hangs on a recursive watch. */
  ghost predicate HeadFits(t: map<int, Entry>, head: Entry) {
    if head.watch.parent == null
    then head.watch.id == head.watch.wd && forall v | v in t && t[v].watch.recursive :: !(t[v].dir <= head.dir)
    else head.watch.recursive && exists c :: c in t && HangsOnWatch(t, c, head)
  }

  ghost predicate HangsOnWatch(t: map<int, Entry>, c: int, head: Entry)
    requires c in t
  {
    t[c].watch.recursive && t[c].watch.id == head.watch.id && HangsOn(head.dir, t[c].dir)
    && head.watch.parent == t[c].watch
    && InTree(head.watch, t[c].watch)
  }

  /** A tree of new watches whose directories hang together, for a place nothing watched is in the way of. */
  ghost predicate NewTree(t: map<int, Entry>, es: seq<Entry>) {
    && es != [] && FreshWds(t, es) && HeadFits(t, es[0]) && Kin(es[1..], es[0].watch) && IsDirPath(es[0].dir)
    && HangTogether(RequestsOf(es[1..]), es[0].dir) && PathsDiffer(RequestsOf(es[1..]))
    && (es[0].watch.recursive || es[1..] == [])
    && forall v | v in t :: t[v].dir != es[0].dir && (es[0].watch.recursive ==> !(es[0].dir <= t[v].dir))
  }

  lemma NewBelow(t: map<int, Entry>, es: seq<Entry>, k: nat)
    requires NewTree(t, es) && k < |es|
    ensures es[0].dir <= es[k].dir && IsDirPath(es[k].dir) && es[k].watch.id == es[0].watch.id
    ensures k > 0 ==> es[k].watch.parent != null && es[k].watch.recursive && es[0].watch.recursive
    ensures k > 0 ==> es[0].dir < es[k].dir && InTree(es[k].watch, es[0].watch)
    ensures forall j | 0 <= j < k :: es[j].dir != es[k].dir
  {
    hide HangsOn, HeadFits;
    if k > 0 {
      var rs := RequestsOf(es[1..]);
      assert es[1..][k - 1] == es[k] && rs[k - 1].path == es[k].dir;
      assert rs[k - 1] in rs && es[k] in es[1..];
      forall j | 0 <= j < k
        ensures es[j].dir != es[k].dir
      {
        assert j > 0 ==> rs[j - 1].path == es[j].dir;
      }
    }
  }

  /** Each new inner watch hangs on a new one, or the head on an old one. */
  lemma NewHangs(t: map<int, Entry>, t': map<int, Entry>, es: seq<Entry>, k: nat)
    requires Neat(t) && NewTree(t, es) && Gained(t, t', es) && k < |es| && es[k].watch.parent != null
    ensures es[k].watch.wd in t' && Hung(t', es[k].watch.wd)
  {
    hide HangsOn, InTree, Neat, IsDirPath, PathsDiffer, NewTree, HangTogether;
    NewBelow(t, es, k);
    var above := NewAbove(t, es, k);
    if k == 0 {
      assert t'[above] == t[above];
    }
    assert t'[es[k].watch.wd] == es[k];
  }

  /** What a new inner watch hangs on: another new one, or for the head an old one. */
  lemma NewAbove(t: map<int, Entry>, es: seq<Entry>, k: nat) returns (above: int)
    requires NewTree(t, es) && k < |es| && es[k].watch.parent != null
    ensures k == 0 ==> above in t && HangsOnWatch(t, above, es[0])
    ensures k > 0 ==> exists j :: 0 <= j < |es| && es[j].watch.wd == above && es[j].watch.id == es[k].watch.id
                                  && es[j].watch.recursive && HangsOn(es[k].dir, es[j].dir)
  {
    hide HangsOn, InTree, IsDirPath, PathsDiffer, FreshWds;
    if k == 0 {
      above :| above in t && HangsOnWatch(t, above, es[0]);
    } else {
      var rs := RequestsOf(es[1..]);
      NewBelow(t, es, k);
      assert es[1..][k - 1] == es[k] && rs[k - 1] in rs && rs[k - 1].path == es[k].dir;
      if HangsOn(es[k].dir, es[0].dir) {
        above := es[0].watch.wd;
      } else {
        var q :| q in rs && HangsOn(es[k].dir, q.path);
        var j :| 0 <= j < |rs| && rs[j] == q;
        assert es[1..][j] == es[j + 1];
        NewBelow(t, es, j + 1);
        above := es[j + 1].watch.wd;
      }
    }
  }

  lemma NewRooted(t: map<int, Entry>, t': map<int, Entry>, es: seq<Entry>, k: nat)
    requires Neat(t) && NewTree(t, es) && Gained(t, t', es) && k < |es| && es[k].watch.parent != null
    ensures es[k].watch.wd in t' && Rooted(t', es[k].watch.wd)
  {
    hide HangsOn, InTree, Neat, IsDirPath, PathsDiffer, HangTogether;
    NewBelow(t, es, k);
    var head := es[0].watch;
    assert t'[es[k].watch.wd] == es[k] && t'[head.wd] == es[0];
    if head.parent != null {
      var c :| c in t && HangsOnWatch(t, c, es[0]);
      if k > 0 {
        InTreeTransitive(es[k].watch, head, t[c].watch);
      }
      ShapeParts(t, c);
      assert t'[c] == t[c];
      if t[c].watch.parent != null {
        var r :| r in t && t[r].watch.parent == null && t[r].watch.recursive && t[r].watch.id == t[c].watch.id
                 && InTree(t[c].watch, t[r].watch);
        InTreeTransitive(es[k].watch, t[c].watch, t[r].watch);
        assert t'[r] == t[r];
      }
    }
  }

  /** What an old watch was, it still is. */
  lemma OldInShape(t: map<int, Entry>, t': map<int, Entry>, es: seq<Entry>, v: int)
    requires Neat(t) && Gained(t, t', es) && v in t
    ensures v in t' && InShape(t', v)
  {
    hide HangsOn, InTree, IsDirPath, Neat;
    ShapeParts(t, v);
    assert t'[v] == t[v];
    if t[v].watch.parent != null {
      var u :| u in t && t[u].watch.id == t[v].watch.id && t[u].watch.recursive && HangsOn(t[v].dir, t[u].dir);
      assert t'[u] == t[u];
      var r :| r in t && t[r].watch.parent == null && t[r].watch.recursive && t[r].watch.id == t[v].watch.id
               && InTree(t[v].watch, t[r].watch);
      assert t'[r] == t[r];
    }
  }

  /** A recursive watch above a new one belongs to the same registration. */
  lemma OldAbove(t: map<int, Entry>, es: seq<Entry>, v: int, k: nat)
    requires Neat(t) && NewTree(t, es) && v in t && k < |es| && t[v].watch.recursive && t[v].dir <= es[k].dir
    ensures es[k].watch.parent != null && es[k].watch.id == t[v].watch.id
  {
    hide HangsOn, InTree, PathsDiffer, HangTogether;
    NewBelow(t, es, k);
    assert InShape(t, v);
    NewElsewhere(t, es, 0, v);
    Comparable(t[v].dir, es[0].dir, es[k].dir);
    if es[0].watch.parent != null {
      var c :| c in t && HangsOnWatch(t, c, es[0]);
      PrefixOfChild(t[v].dir, es[0].dir, t[c].dir);
      assert v == c || t[c].watch.id == t[v].watch.id;
    }
  }

  lemma NewUnique(t: map<int, Entry>, t': map<int, Entry>, es: seq<Entry>)
    requires Neat(t) && NewTree(t, es) && Gained(t, t', es)
    ensures Keyed(t') && Unique(t')
  {
    hide HangsOn, InTree, PathsDiffer, HangTogether, HeadFits, Kin, InShape, Apart, IsDirPath;
    forall k | 0 <= k < |es| {
      NewBelow(t, es, k);
    }
    forall v, w | v in t' && w in t' && v != w
      ensures t'[v].dir != t'[w].dir
    {
      if v !in t && w !in t {
        var j :| 0 <= j < |es| && es[j].watch.wd == v;
        var k :| 0 <= k < |es| && es[k].watch.wd == w;
        assert j < k || k < j;
      } else if v !in t {
        var j :| 0 <= j < |es| && es[j].watch.wd == v;
        NewElsewhere(t, es, j, w);
      } else if w !in t {
        var k :| 0 <= k < |es| && es[k].watch.wd == w;
        NewElsewhere(t, es, k, v);
      }
    }
  }

  lemma NewElsewhere(t: map<int, Entry>, es: seq<Entry>, k: nat, v: int)
    requires NewTree(t, es) && k < |es| && v in t
    ensures t[v].dir != es[k].dir
    ensures es[k].watch.recursive ==> !(es[k].dir <= t[v].dir)
  {
    hide HangsOn, InTree, PathsDiffer, HangTogether, HeadFits, Kin, IsDirPath;
    NewBelow(t, es, k);
  }

  lemma NewApart(t: map<int, Entry>, t': map<int, Entry>, es: seq<Entry>)
    requires Neat(t) && NewTree(t, es) && Gained(t, t', es)
    ensures Apart(t')
  {
    hide HangsOn, InTree, PathsDiffer, HangTogether, HeadFits, Kin, InShape, IsDirPath, Unique, Keyed;
    forall v, w | v in t' && w in t' && v != w && t'[v].watch.recursive && t'[v].dir <= t'[w].dir
      ensures t'[w].watch.parent != null && t'[w].watch.id == t'[v].watch.id
    {
      if v !in t {
        var j :| 0 <= j < |es| && es[j].watch.wd == v;
        if w in t {
          NewElsewhere(t, es, j, w);
        } else {
          var k :| 0 <= k < |es| && es[k].watch.wd == w;
          NewBelow(t, es, j);
          NewBelow(t, es, k);
        }
      } else if w !in t {
        var k :| 0 <= k < |es| && es[k].watch.wd == w;
        OldAbove(t, es, v, k);
      }
    }
  }

  /** A new tree keeps the table neat. */
  lemma GrownNeat(t: map<int, Entry>, es: seq<Entry>)
    requires Neat(t) && NewTree(t, es)
    ensures Neat(Entered(t, es))
  {
    hide InShape, Apart, Unique, NewTree, Hung, Rooted;
    var t' := Entered(t, es);
    FreshOf(t, es);
    EnteredFresh(t, es);
    NewUnique(t, t', es);
    NewApart(t, t', es);
    forall v | v in t'
      ensures InShape(t', v)
    {
      if v in t {
        OldInShape(t, t', es, v);
      } else {
        var k :| 0 <= k < |es| && es[k].watch.wd == v;
        NewInShape(t, t', es, k);
      }
    }
  }

  lemma FreshOf(t: map<int, Entry>, es: seq<Entry>)
    requires NewTree(t, es)
    ensures FreshWds(t, es)
  {
  }

  lemma NewInShape(t: map<int, Entry>, t': map<int, Entry>, es: seq<Entry>, k: nat)
    requires Neat(t) && NewTree(t, es) && Gained(t, t', es) && k < |es|
    ensures es[k].watch.wd in t' && InShape(t', es[k].watch.wd)
  {
    hide HangsOn, InTree, PathsDiffer, HangTogether, Neat, IsDirPath;
    NewBelow(t, es, k);
    assert t'[es[k].watch.wd] == es[k];
    if es[k].watch.parent != null {
      NewHangs(t, t', es, k);
      NewRooted(t, t', es, k);
    }
  }

  /** What the walk enters is such a tree. */
  lemma WalkedTree(t: map<int, Entry>, es: seq<Entry>, dir: string, node: Node, parent: WatcherInotify?)
    requires node.Folder? && node.wd >= 0 && Headed(es, dir, node.wd, parent)
    requires RequestsOf(es) == Answered(Walk(dir, node, es[0].watch.recursive))
    requires WellNamed(node) && NamesDiffer(node) && IsDirPath(dir)
    ensures HangTogether(RequestsOf(es[1..]), dir) && PathsDiffer(RequestsOf(es[1..]))
    ensures es[0].watch.recursive || es[1..] == []
  {
    hide HangsOn, InTree, WalkBelow, WellNamed, NamesDiffer, Answered, HangTogether, PathsDiffer, Kin;
    var rs := RequestsOf(es);
    assert rs[1..] == RequestsOf(es[1..]);
    if es[0].watch.recursive {
      WalkShape(dir, node);
      assert rs[1..] == Answered(WalkBelow(dir, node, |node.entries|));
    } else {
      OneAnswer(dir, node);
      assert |es| == |rs| == 1;
      NoneShape(dir, node);
    }
  }

  lemma OneAnswer(dir: string, node: Node)
    requires node.Folder? && node.wd >= 0
    ensures Answered(Walk(dir, node, false)) == [Request(dir, node.wd)]
  {
    assert [Request(dir, node.wd)][..0] == [];
  }

  /** A directory that appears below a recursive watch of a neat table is registered with all it holds, and
      the table stays neat. */
  lemma ArrivedNeat(t: map<int, Entry>, es: seq<Entry>, c: int, name: string, at: Node, reports: seq<Callback>)
    requires Neat(t) && c in t && IsName(name) && Arrives(t, es, t[c].watch, ChildDir(t[c].dir, name), at, reports)
    requires es != [] ==>
               && WellNamed(at) && NamesDiffer(at) && FreshWds(t, es)
               && forall v | v in t :: !(ChildDir(t[c].dir, name) <= t[v].dir)
    ensures Neat(Entered(t, es))
  {
    hide Neat, WellNamed, NamesDiffer, HangsOn, Walk, Answered, FreshWds, Kin, WalkReports, IsDirPath,
         HangTogether, PathsDiffer;
    if es != [] {
      var dir, w := ChildDir(t[c].dir, name), t[c].watch;
      ShapeParts(t, c);
      PathOfChild(t[c].dir, name);
      assert RootFree(t, dir);
      assert es[0].watch.recursive && es[0].dir == dir && Headed(es, dir, at.wd, w);
      WalkedTree(t, es, dir, at, w);
      assert HangsOnWatch(t, c, es[0]);
      assert NewTree(t, es);
      GrownNeat(t, es);
    }
  }

  lemma PathOfChild(dir: string, name: string)
    requires IsDirPath(dir) && IsName(name)
    ensures IsDirPath(ChildDir(dir, name)) && HangsOn(ChildDir(dir, name), dir) && SlashAtEnd(ChildDir(dir, name))
    ensures AddSlash(dir + name) == ChildDir(dir, name)
  {
    ChildHangs(dir, name);
    ChildParts(dir, name);
  }

  /** The root of a watch lies above it. */
  lemma {:induction false} RootAbove(t: map<int, Entry>, v: int) returns (r: int)
    requires Neat(t) && v in t
    ensures r in t && t[r].watch.parent == null && t[r].dir <= t[v].dir && t[r].watch.id == t[v].watch.id
    ensures t[v].watch.parent != null || t[v].watch.recursive ==> t[r].watch.recursive
    ensures t[v].watch.parent == null ==> r == v
    decreases |t[v].dir|
  {
    hide Neat, InTree, Rooted;
    ShapeParts(t, v);
    if t[v].watch.parent == null {
      r := v;
    } else {
      var u :| u in t && t[u].watch.id == t[v].watch.id && t[u].watch.recursive && HangsOn(t[v].dir, t[u].dir);
      HungIsLonger(t[v].dir, t[u].dir);
      r := RootAbove(t, u);
    }
  }

  /** No explicit registration in the table conflicts with this one, by their stored paths. */
  ghost predicate NoConflicts(t: map<int, Entry>, dir: string, recursive: bool) {
    forall r | r in t && t[r].watch.parent == null ::
      Check(Root(t[r].dir, t[r].watch.recursive), Root(dir, recursive)) == NoConflict
  }

  /** Single ownership of the roots keeps all watches out of one another's way. */
  lemma OwnedApart(t: map<int, Entry>, dir: string, recursive: bool, v: int)
    requires Neat(t) && v in t && IsDirPath(dir) && NoConflicts(t, dir, recursive)
    ensures t[v].watch.recursive ==> !(t[v].dir <= dir)
    ensures t[v].dir != dir && (recursive ==> !(dir <= t[v].dir))
  {
    hide Neat;
    var r := RootAbove(t, v);
    ShapeParts(t, r);
    assert Check(Root(t[r].dir, t[r].watch.recursive), Root(dir, recursive)) == NoConflict;
    InsideIs(t[r].dir, dir);
    InsideIs(dir, t[r].dir);
    if dir <= t[v].dir {
      Comparable(t[r].dir, dir, t[v].dir);
    }
  }

  lemma InsideIs(a: string, b: string)
    requires SlashAtEnd(a)
    ensures Inside(b, a) <==> a < b
  {
    assert a <= b ==> b[..|a|] == a;
  }

  /** An explicit registration that conflicts with no other one keeps the table neat. */
  lemma ExplicitNeat(t: map<int, Entry>, es: seq<Entry>, dir: string, node: Node)
    requires Neat(t) && node.Folder? && node.wd >= 0 && Headed(es, dir, node.wd, null) && FreshWds(t, es)
    requires RequestsOf(es) == Answered(Walk(dir, node, es[0].watch.recursive))
    requires WellNamed(node) && NamesDiffer(node) && IsDirPath(dir) && NoConflicts(t, dir, es[0].watch.recursive)
    ensures Neat(Entered(t, es))
  {
    hide Neat, WellNamed, NamesDiffer, HangsOn, Walk, Answered, FreshWds, Kin, IsDirPath, HangTogether,
         PathsDiffer, NoConflicts;
    WalkedTree(t, es, dir, node, null);
    forall v | v in t {
      OwnedApart(t, dir, es[0].watch.recursive, v);
    }
    assert HeadFits(t, es[0]);
    assert NewTree(t, es);
    GrownNeat(t, es);
  }

  // ---------- removing a registration ----------

  lemma {:induction false} OneTop(a: WatcherInotify, p: WatcherInotify, q: WatcherInotify)
    requires InTree(a, p) && InTree(a, q) && p.parent == null && q.parent == null
    ensures p == q
    decreases a.depth
  {
    if a.parent != p && a.parent != q {
      OneTop(a.parent, p, q);
    }
  }

  /** A registration's watches are those named after it. */
  lemma TreeIsNamed(t: map<int, Entry>, r: int, v: int)
    requires Neat(t) && r in t && v in t && t[r].watch.parent == null
    ensures t[v].watch.id == r <==> v in RemovedFrom(t, r)
  {
    hide Neat, Hung, InTree, IsDirPath;
    ShapeParts(t, r);
    ShapeParts(t, v);
    if t[v].watch.parent != null {
      var q :| q in t && t[q].watch.parent == null && t[q].watch.recursive && t[q].watch.id == t[v].watch.id
               && InTree(t[v].watch, t[q].watch);
      ShapeParts(t, q);
      KeyedParts(t, r, q);
      if InTree(t[v].watch, t[r].watch) {
        OneTop(t[v].watch, t[q].watch, t[r].watch);
      }
    } else {
      RootInNoTree(t[v].watch, t[r].watch);
    }
  }

  lemma RootInNoTree(a: WatcherInotify, p: WatcherInotify)
    requires a.parent == null
    ensures !InTree(a, p)
  {
  }

  lemma KeyedParts(t: map<int, Entry>, v: int, w: int)
    requires Neat(t) && v in t && w in t
    ensures t[v].watch == t[w].watch ==> v == w
  {
  }

  /** Removing an explicit registration takes out its watches and leaves a neat table. */
  lemma RemovalNeat(t: map<int, Entry>, r: int)
    requires Neat(t) && r in t && t[r].watch.parent == null
    ensures Neat(t - RemovedFrom(t, r))
  {
    hide InShape, Hung, Rooted, RemovedFrom;
    var t' := t - RemovedFrom(t, r);
    forall v | v in t'
      ensures InShape(t', v)
    {
      LeftInShape(t, r, v);
    }
  }

  lemma LeftInShape(t: map<int, Entry>, r: int, v: int)
    requires Neat(t) && r in t && v in t && t[r].watch.parent == null && v !in RemovedFrom(t, r)
    ensures InShape(t - RemovedFrom(t, r), v)
  {
    hide Neat, InTree, HangsOn, RemovedFrom;
    ShapeParts(t, v);
    TreeIsNamed(t, r, v);
    if t[v].watch.parent != null {
      var u :| u in t && t[u].watch.id == t[v].watch.id && t[u].watch.recursive && HangsOn(t[v].dir, t[u].dir);
      TreeIsNamed(t, r, u);
      var q :| q in t && t[q].watch.parent == null && t[q].watch.recursive && t[q].watch.id == t[v].watch.id
               && InTree(t[v].watch, t[q].watch);
      TreeIsNamed(t, r, q);
      var t' := t - RemovedFrom(t, r);
      assert t'[u] == t[u] && t'[q] == t[q] && t'[v] == t[v];
    }
  }

  // ---------- a directory renamed ----------

  /** A directory of one recursive watch becomes one of another watch of the registration. */
  ghost predicate Moves(t: map<int, Entry>, s: int, c: int, from: string, to: string) {
    && Neat(t) && s in t && c in t && t[s].watch.recursive && t[c].watch.recursive && t[s].watch.id == t[c].watch.id
    && IsName(from) && IsName(to)
    && !(ChildDir(t[s].dir, from) <= ChildDir(t[c].dir, to))
    && forall v | v in t :: !(ChildDir(t[c].dir, to) <= t[v].dir)
  }

  function Shifted(dir: string, src: string, dst: string): string {
    if src <= dir then dst + dir[|src|..] else dir
  }

  lemma ReprefixIs(dir: string, src: string, dst: string)
    requires src != ""
    ensures Reprefix(dir, src, dst) == Shifted(dir, src, dst)
  {
  }

  /** Moving keeps what hangs on what, when both ends move or neither does. */
  lemma HangsStill(dir: string, above: string, src: string, dst: string)
    requires HangsOn(dir, above) && SlashAtEnd(dst) && (src <= above || !(src <= dir))
    ensures HangsOn(Shifted(dir, src, dst), Shifted(above, src, dst))
  {
    hide IsName;
    HungIsLonger(dir, above);
    if src <= above {
      var name := dir[|above|..|dir| - 1];
      HungParts(dir, above);
      ShiftedChild(above, name, src, dst);
      ChildHangs(Shifted(above, src, dst), name);
    }
  }

  lemma HungParts(dir: string, above: string)
    requires HangsOn(dir, above)
    ensures var name := dir[|above|..|dir| - 1]; IsName(name) && dir == ChildDir(above, name)
  {
  }

  lemma ShiftedIs(src: string, rest: string, dst: string)
    ensures Shifted(src + rest, src, dst) == dst + rest
  {
    assert (src + rest)[|src|..] == rest;
  }

  lemma StillSlash(src: string, rest: string, dst: string)
    requires SlashAtEnd(src + rest) && SlashAtEnd(dst)
    ensures SlashAtEnd(dst + rest)
  {
    if rest == [] {
      assert dst + rest == dst;
    } else {
      assert (src + rest)[|src + rest| - 1] == rest[|rest| - 1] == (dst + rest)[|dst + rest| - 1];
    }
  }

  lemma ShiftedChild(above: string, name: string, src: string, dst: string)
    requires src <= above && SlashAtEnd(above) && SlashAtEnd(dst)
    ensures Shifted(ChildDir(above, name), src, dst) == ChildDir(Shifted(above, src, dst), name)
    ensures SlashAtEnd(Shifted(above, src, dst))
  {
    hide SlashAtEnd, Shifted;
    var rest := above[|src|..];
    assert above == src + rest;
    ShiftedIs(src, rest, dst);
    ShiftedIs(src, rest + name + [Slash], dst);
    assert ChildDir(above, name) == src + (rest + name + [Slash]);
    assert ChildDir(dst + rest, name) == dst + (rest + name + [Slash]);
    StillSlash(src, rest, dst);
  }

  lemma MovedHung(t: map<int, Entry>, s: int, c: int, from: string, to: string, v: int)
    requires Moves(t, s, c, from, to) && v in t && t[v].watch.parent != null
    ensures v in Reprefixed(t, ChildDir(t[s].dir, from), ChildDir(t[c].dir, to))
    ensures Hung(Reprefixed(t, ChildDir(t[s].dir, from), ChildDir(t[c].dir, to)), v)
  {
    hide HangsOn, InTree, Neat, Shifted, Reprefix;
    var src, dst := ChildDir(t[s].dir, from), ChildDir(t[c].dir, to);
    var t' := Reprefixed(t, src, dst);
    ShapeParts(t, v);
    ShapeParts(t, s);
    ShapeParts(t, c);
    var u :| u in t && t[u].watch.id == t[v].watch.id && t[u].watch.recursive && HangsOn(t[v].dir, t[u].dir);
    ReprefixIs(t[v].dir, src, dst);
    ReprefixIs(t[u].dir, src, dst);
    ReprefixIs(t[c].dir, src, dst);
    if src <= t[v].dir && !(src <= t[u].dir) {
      HangsBelow(t[s].dir, from, t[v].dir, t[u].dir);
      SameWatch(t, s, u);
      OnlyOneChild(t[s].dir, from, t[v].dir);
      assert t'[v].dir == dst by {
        MovedItself(src, dst);
      }
      ChildHangs(t[c].dir, to);
      NotMoved(t[c].dir, to, src, dst);
      assert t'[c].dir == t[c].dir;
    } else {
      HungIsLonger(t[v].dir, t[u].dir);
      HangsStill(t[v].dir, t[u].dir, src, dst);
      assert t'[u].watch == t[u].watch && HangsOn(t'[v].dir, t'[u].dir);
    }
  }

  lemma SameWatch(t: map<int, Entry>, v: int, w: int)
    requires Neat(t) && v in t && w in t && t[v].dir == t[w].dir
    ensures v == w
  {
  }

  lemma MovedItself(src: string, dst: string)
    ensures Shifted(src, src, dst) == dst
  {
  }

  lemma NotMoved(dir: string, name: string, src: string, dst: string)
    requires !(src <= ChildDir(dir, name))
    ensures Shifted(dir, src, dst) == dir
  {
  }

  lemma MovedInShape(t: map<int, Entry>, s: int, c: int, from: string, to: string, v: int)
    requires Moves(t, s, c, from, to) && v in t
    ensures v in Reprefixed(t, ChildDir(t[s].dir, from), ChildDir(t[c].dir, to))
    ensures InShape(Reprefixed(t, ChildDir(t[s].dir, from), ChildDir(t[c].dir, to)), v)
  {
    hide HangsOn, InTree, Neat, Reprefix, Hung;
    var src, dst := ChildDir(t[s].dir, from), ChildDir(t[c].dir, to);
    var t' := Reprefixed(t, src, dst);
    ShapeParts(t, v);
    ShapeParts(t, c);
    PathOfChild(t[c].dir, to);
    ReprefixIs(t[v].dir, src, dst);
    if t[v].watch.parent != null {
      MovedHung(t, s, c, from, to, v);
      var r :| r in t && t[r].watch.parent == null && t[r].watch.recursive && t[r].watch.id == t[v].watch.id
               && InTree(t[v].watch, t[r].watch);
      assert t'[r].watch == t[r].watch;
    }
  }

  /** How two moved directories lie to each other. */
  lemma MovedPrefix(t: map<int, Entry>, s: int, c: int, from: string, to: string, v: int, w: int)
    requires Moves(t, s, c, from, to) && v in t && w in t && v != w
    ensures var src, dst := ChildDir(t[s].dir, from), ChildDir(t[c].dir, to);
            var a, b := Shifted(t[v].dir, src, dst), Shifted(t[w].dir, src, dst);
            && a != b
            && (t[v].watch.recursive && a <= b ==> t[w].watch.parent != null && t[w].watch.id == t[v].watch.id)
  {
    hide HangsOn, InTree, InShape;
    var src, dst := ChildDir(t[s].dir, from), ChildDir(t[c].dir, to);
    var a, b := Shifted(t[v].dir, src, dst), Shifted(t[w].dir, src, dst);
    if src <= t[v].dir && src <= t[w].dir {
      BothMoved(t[v].dir, t[w].dir, src, dst);
    } else if src <= t[w].dir {
      assert dst <= b && t[s].dir <= src && t[w].dir != t[s].dir;
      assert t[w].watch.parent != null && t[w].watch.id == t[s].watch.id;
      if a <= b {
        Comparable(a, dst, b);
        ShapeParts(t, v);
        ShapeParts(t, c);
        PathOfChild(t[c].dir, to);
        PrefixOfChild(a, dst, t[c].dir);
        assert v == c || (t[v].watch.recursive ==> t[c].watch.id == t[v].watch.id);
      }
    } else if src <= t[v].dir {
      assert dst <= a;
    }
  }

  lemma BothMoved(x: string, y: string, src: string, dst: string)
    requires src <= x && src <= y
    ensures Shifted(x, src, dst) == Shifted(y, src, dst) ==> x == y
    ensures Shifted(x, src, dst) <= Shifted(y, src, dst) ==> x <= y
  {
    var a, b := Shifted(x, src, dst), Shifted(y, src, dst);
    assert x == src + x[|src|..] && y == src + y[|src|..];
    assert a[|dst|..] == x[|src|..] && b[|dst|..] == y[|src|..];
    if a <= b {
      assert a[|dst|..] <= b[|dst|..];
    }
  }

  /** Following a moved directory keeps the table neat. */
  lemma RenamedNeat(t: map<int, Entry>, s: int, c: int, from: string, to: string)
    requires Moves(t, s, c, from, to)
    ensures Neat(Reprefixed(t, ChildDir(t[s].dir, from), ChildDir(t[c].dir, to)))
  {
    hide HangsOn, InTree, Shifted, InShape;
    var src, dst := ChildDir(t[s].dir, from), ChildDir(t[c].dir, to);
    var t' := Reprefixed(t, src, dst);
    forall v | v in t {
      ReprefixIs(t[v].dir, src, dst);
    }
    hide Reprefix;
    forall v, w | v in t && w in t && v != w {
      MovedPrefix(t, s, c, from, to, v, w);
    }
    forall v | v in t'
      ensures InShape(t', v)
    {
      MovedInShape(t, s, c, from, to, v);
    }
  }

  // ---------- the events of a batch ----------

  /** Where a source was, or still is: if it is in the table, then just so. */
  ghost predicate Current(t: map<int, Entry>, w: Entry) {
    IsDirPath(w.dir) && forall v | v in t && t[v].watch == w.watch :: t[v] == w
  }

  /** A moved directory can be followed: its watch is still there and of the same recursive registration,
      and nothing at the destination is watched. Or there is nothing to follow. */
  ghost predicate Followable(t: map<int, Entry>, source: Source, c: int, to: string)
    requires c in t
  {
    || (&& source.wd in t && t[source.wd] == source.entry && source.entry.watch.recursive
        && source.entry.watch.id == t[c].watch.id
        && !(ChildDir(source.entry.dir, source.file) <= ChildDir(t[c].dir, to))
        && forall v | v in t :: !(ChildDir(t[c].dir, to) <= t[v].dir))
    || forall v | v in t :: !(ChildDir(source.entry.dir, source.file) <= t[v].dir)
  }

  /** What the kernel's events are like while no descriptor is used twice: names are names; a followed
      directory can be followed; a directory that is registered is not watched yet, anywhere in it; and a
      deleted one is empty. */
  ghost predicate Orderly(e: BatchEvent, s: Step) {
    match s.outcome
    case Dropped => true
    case Deferred => true
    case MovedAway(source) => IsName(source.file)
    case Coalesced(source) =>
      e.wd in s.before && IsName(source.file) && IsName(e.filename) && Followable(s.before, source, e.wd, e.filename)
    case Handled(es) =>
      && e.wd in s.before
      && (e.kind.Create? || e.kind.MovedTo? ==>
            IsName(e.filename) && (es != [] ==> NewPlace(s.before, es, ChildDir(s.before[e.wd].dir, e.filename), e.at)))
      && (e.kind.Remove? ==>
            IsName(e.filename) && forall v | v in s.before ::
              !(ChildDir(s.before[e.wd].dir, e.filename) < s.before[v].dir))
  }

  ghost predicate NewPlace(t: map<int, Entry>, es: seq<Entry>, dir: string, at: Node) {
    WellNamed(at) && NamesDiffer(at) && FreshWds(t, es) && forall v | v in t :: !(dir <= t[v].dir)
  }

  lemma SourcePath(w: Entry, source: Source)
    requires IsDirPath(source.entry.dir) && IsName(source.file)
    requires source.entry.watch == w.watch ==> source.entry == w
    ensures MoveSource(w.dir, OldName(source, w)) == ChildDir(source.entry.dir, source.file)
  {
    PathOfChild(source.entry.dir, source.file);
    assert source.file[0] in source.file;
  }

  lemma CoalescedNeat(e: BatchEvent, s: Step)
    requires Neat(s.before) && StepFits(e, s) && s.outcome.Coalesced? && Orderly(e, s)
    requires Current(s.before, s.outcome.source.entry)
    ensures Neat(s.after) && RootsStay(s)
  {
    hide InShape, Apart, Unique, Keyed, MoveSource, AddSlash, Reprefix, HangsOn;
    var t, source, w := s.before, s.outcome.source, s.before[e.wd];
    var src, dst := ChildDir(source.entry.dir, source.file), ChildDir(w.dir, e.filename);
    if w.watch.recursive && e.at.Folder? {
      SourcePath(w, source);
      ShapeParts(t, e.wd);
      PathOfChild(w.dir, e.filename);
      forall v | v in t {
        ReprefixIs(t[v].dir, src, dst);
      }
      if forall v | v in t :: !(src <= t[v].dir) {
        assert s.after == t;
      } else {
        RenamedNeat(t, source.wd, e.wd, source.file, e.filename);
        forall v | v in t && t[v].watch.parent == null
          ensures s.after[v].dir == t[v].dir
        {
          NotInside(t, source.wd, source.file, v);
        }
      }
    }
  }

  /** No root lies in a directory of a recursive watch. */
  lemma NotInside(t: map<int, Entry>, s: int, name: string, v: int)
    requires Neat(t) && s in t && v in t && t[s].watch.recursive && t[v].watch.parent == null
    ensures !(ChildDir(t[s].dir, name) <= t[v].dir)
  {
    assert t[s].dir <= ChildDir(t[s].dir, name);
  }

  lemma AwayNeat(e: BatchEvent, s: Step)
    requires Neat(s.before) && StepFits(e, s) && s.outcome.MovedAway? && Orderly(e, s)
    requires Current(s.before, s.outcome.source.entry)
    ensures Neat(s.after)
  {
    hide Neat, LeavesTree;
    var src := s.outcome.source;
    var gone :| LeavesTree(s.before, gone, src.entry, src.file, s.calls) && s.after == s.before - gone;
    NeatLeaves(s.before, gone, src.entry, src.file, s.calls);
    LeavesNeat(s.before, ChildDir(src.entry.dir, src.file));
  }

  lemma HandledNeat(e: BatchEvent, s: Step)
    requires Neat(s.before) && StepFits(e, s) && s.outcome.Handled? && Orderly(e, s)
    ensures Neat(s.after)
  {
    hide Neat, Arrives, Deleted, Entered, WellNamed, NamesDiffer, FreshWds, AddSlash;
    var t, w := s.before, s.before[e.wd];
    ShapeParts(t, e.wd);
    if e.kind.Create? || e.kind.MovedTo? {
      PathOfChild(w.dir, e.filename);
      var es := s.outcome.entered;
      var reports :| Arrives(t, es, w.watch, AddSlash(w.dir + e.filename), e.at, reports);
      ArrivedNeat(t, es, e.wd, e.filename, e.at, reports);
    } else if e.kind.Remove? {
      var gone :| Deleted(t, gone, w, e.filename, s.calls) && s.after == t - gone;
      DeletedNeat(t, gone, e.wd, e.filename, s.calls);
    }
  }

  /** Every orderly event keeps the table neat and the explicit registrations where they are. */
  lemma StepNeat(e: BatchEvent, s: Step)
    requires Neat(s.before) && StepFits(e, s) && Orderly(e, s)
    requires s.outcome.MovedAway? || s.outcome.Coalesced? ==> Current(s.before, s.outcome.source.entry)
    ensures Neat(s.after) && (s.outcome.Coalesced? ==> RootsStay(s))
  {
    hide Neat, Current, RootsStay, Orderly;
    if s.outcome.MovedAway? {
      AwayNeat(e, s);
    } else if s.outcome.Coalesced? {
      CoalescedNeat(e, s);
    } else if s.outcome.Handled? {
      HandledNeat(e, s);
    }
  }

  /** A source that is followed is where the table has it. */
  lemma {:induction false} FollowedCurrent(t: map<int, Entry>, events: seq<BatchEvent>, steps: seq<Step>,
                                           t': map<int, Entry>,
                                           i: nat, n: nat)
    requires i < |steps| <= |events| && i <= n < |steps| && events[i].wd in steps[i].before
    requires Linked(t, steps, t') && forall k | 0 <= k <= n :: Neat(steps[k].before)
    ensures var w := WatchAt(events, steps, i, n); w.watch.wd == events[i].wd && Current(steps[n].before, w)
    decreases n
  {
    hide Neat;
    var wd := events[i].wd;
    if n == i {
      ShapeParts(steps[n].before, wd);
      KeyedAt(steps[n].before);
    } else {
      FollowedCurrent(t, events, steps, t', i, n - 1);
      var now := steps[n].before;
      assert now == steps[n - 1].after;
      KeyedAt(now);
      if wd in now {
        ShapeParts(now, wd);
      }
    }
  }

  lemma KeyedAt(t: map<int, Entry>)
    requires Neat(t)
    ensures forall v | v in t :: t[v].watch.wd == v
  {
  }

  /** The first n steps of an orderly batch. */
  lemma {:induction false} NeatUpTo(t: map<int, Entry>, events: seq<BatchEvent>, steps: seq<Step>, t': map<int,
                                    Entry>, n: nat)
    requires n <= |steps| == |events| && Neat(t) && Linked(t, steps, t') && AllSettled(events, steps)
    requires forall k | 0 <= k < |steps| :: StepFits(events[k], steps[k]) && Orderly(events[k], steps[k])
    ensures forall k | 0 <= k < n ::
              Neat(steps[k].before) && Neat(steps[k].after) && (steps[k].outcome.Coalesced? ==> RootsStay(steps[k]))
    decreases n
  {
    hide Neat, StepFits, Orderly, Current, RootsStay, Linked, AllSettled;
    if n > 0 {
      NeatUpTo(t, events, steps, t', n - 1);
      var j := n - 1;
      LinkedAt(t, steps, t', j);
      SourceCurrent(t, events, steps, t', j);
      StepNeat(events[j], steps[j]);
    }
  }

  lemma LinkedAt(t: map<int, Entry>, steps: seq<Step>, t': map<int, Entry>, j: nat)
    requires Linked(t, steps, t') && j < |steps|
    ensures steps[j].before == if j == 0 then t else steps[j - 1].after
  {
  }

  lemma SourceCurrent(t: map<int, Entry>, events: seq<BatchEvent>, steps: seq<Step>, t': map<int, Entry>, j: nat)
    requires j < |steps| == |events| && Linked(t, steps, t') && AllSettled(events, steps)
    requires StepFits(events[j], steps[j]) && forall k | 0 <= k <= j :: Neat(steps[k].before)
    ensures var s := steps[j];
            s.outcome.MovedAway? || s.outcome.Coalesced? ==> Current(s.before, s.outcome.source.entry)
  {
    hide Neat, Renames, LeavesTree, Acts, Linked;
    var e, s := events[j], steps[j];
    if s.outcome.MovedAway? || s.outcome.Coalesced? {
      if e.kind.MovedFrom? {
        ShapeParts(s.before, e.wd);
        KeyedAt(s.before);
      } else {
        var i :| Pairs(events, steps, i, j);
        FollowedCurrent(t, events, steps, t', i, j);
      }
    }
  }

  /** A whole batch of orderly events keeps the table neat. A source that a recursive watch reports as
      moved away takes with it exactly the watches at or below it, with one Delete for each of their
      directories, or for itself when it is not watched. */
  lemma BatchNeat(t: map<int, Entry>, events: seq<BatchEvent>, steps: seq<Step>, t': map<int, Entry>)
    requires |steps| == |events| && Neat(t) && Linked(t, steps, t') && AllSettled(events, steps)
    requires forall k | 0 <= k < |steps| :: StepFits(events[k], steps[k]) && Orderly(events[k], steps[k])
    ensures Neat(t')
    ensures forall s | s in steps && s.outcome.Coalesced? :: RootsStay(s)
    ensures forall k | 0 <= k < |steps| && events[k].kind.MovedFrom? && steps[k].outcome.MovedAway?
                       && events[k].wd in steps[k].before && steps[k].before[events[k].wd].watch.recursive ::
              AllLeave(steps[k].before, steps[k].after, events[k].wd, events[k].filename, steps[k].calls)
  {
    hide Neat, StepFits, Orderly, RootsStay, AllSettled;
    NeatUpTo(t, events, steps, t', |steps|);
    forall k | 0 <= k < |steps| && events[k].kind.MovedFrom? && steps[k].outcome.MovedAway?
               && events[k].wd in steps[k].before && steps[k].before[events[k].wd].watch.recursive
      ensures AllLeave(steps[k].before, steps[k].after, events[k].wd, events[k].filename, steps[k].calls)
    {
      StepLeaves(events[k], steps[k]);
    }
  }

  ghost predicate AllLeave(t: map<int, Entry>, t': map<int, Entry>, wd: int, name: string, calls: seq<Callback>)
    requires wd in t
  {
    && t' == t - Below(t, ChildDir(t[wd].dir, name))
    && exists dirs :: Reports(t, dirs, ChildDir(t[wd].dir, name)) && calls == Deletes(t[wd].watch.id, dirs)
  }

  lemma StepLeaves(e: BatchEvent, s: Step)
    requires Neat(s.before) && StepFits(e, s) && Orderly(e, s) && e.kind.MovedFrom? && s.outcome.MovedAway?
    requires s.before[e.wd].watch.recursive
    ensures AllLeave(s.before, s.after, e.wd, e.filename, s.calls)
  {
    hide LeavesTree, Reports, Deletes, Below, Tidy, InShape, Apart, Unique;
    var src := s.outcome.source;
    var gone :| LeavesTree(s.before, gone, src.entry, src.file, s.calls) && s.after == s.before - gone;
    NeatTidy(s.before, e.wd, e.filename);
    TidyLeaves(s.before, e.wd, e.filename, gone, s.calls);
  }
}
