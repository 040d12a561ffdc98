/** A directory moved out of a recursive tree: which watches go, and in which order they are reported. */
module MovedOut {
  import opened Paths
  import opened InotifyEvents
  import opened InotifyWatch

  // ---------- the order in which a moved-out tree is reported ----------

  /** A watch to be reported: its descriptor and its directory. */
  datatype Place = Place(wd: int, dir: string)

  /** stable_sort by directory, one element at a time. */
  function InsertSorted(sorted: seq<Place>, p: Place): seq<Place> {
    if sorted == [] then [p]
    else if Less(p.dir, sorted[0].dir) then [p] + sorted
    else [sorted[0]] + InsertSorted(sorted[1..], p)
  }

  ghost predicate SortedByDir(ps: seq<Place>) {
    forall i, j | 0 <= i < j < |ps| :: !Less(ps[j].dir, ps[i].dir)
  }

  ghost predicate Distinct(ps: seq<Place>) {
    forall i, j | 0 <= i < j < |ps| :: ps[i].wd != ps[j].wd
  }

  ghost predicate StrictlySorted(dirs: seq<string>) {
    forall i, j | 0 <= i < j < |dirs| :: Less(dirs[i], dirs[j])
  }

  lemma {:induction false} InsertSortedHas(sorted: seq<Place>, p: Place)
    ensures |InsertSorted(sorted, p)| == |sorted| + 1
    ensures forall x :: x in InsertSorted(sorted, p) <==> x == p || x in sorted
    decreases |sorted|
  {
    hide Less;
    if sorted != [] {
      assert sorted == [sorted[0]] + sorted[1..];
      InsertSortedHas(sorted[1..], p);
    }
  }

  /** An insertion at the front keeps the order. */
  lemma FrontKeeps(sorted: seq<Place>, p: Place)
    requires sorted != [] && SortedByDir(sorted) && Less(p.dir, sorted[0].dir)
    ensures SortedByDir([p] + sorted)
  {
    hide Less;
    forall x | x in sorted
      ensures !Less(x.dir, p.dir)
    {
      LessTotal(p.dir, sorted[0].dir);
      if Less(x.dir, p.dir) {
        LessTransitive(x.dir, p.dir, sorted[0].dir);
      }
    }
  }

  lemma {:induction false} InsertSortedOrders(sorted: seq<Place>, p: Place)
    requires SortedByDir(sorted)
    ensures SortedByDir(InsertSorted(sorted, p))
    decreases |sorted|
  {
    hide Less;
    if sorted != [] {
      if Less(p.dir, sorted[0].dir) {
        FrontKeeps(sorted, p);
      } else {
        var rest := InsertSorted(sorted[1..], p);
        InsertSortedHas(sorted[1..], p);
        InsertSortedOrders(sorted[1..], p);
        assert forall j | 0 <= j < |rest| :: rest[j] in rest;
      }
    }
  }

  lemma {:induction false} InsertSortedDistinct(sorted: seq<Place>, p: Place)
    requires Distinct(sorted) && forall x | x in sorted :: x.wd != p.wd
    ensures Distinct(InsertSorted(sorted, p))
    decreases |sorted|
  {
    hide Less;
    if sorted != [] {
      var rest := InsertSorted(sorted[1..], p);
      InsertSortedHas(sorted[1..], p);
      InsertSortedDistinct(sorted[1..], p);
      assert forall j | 0 <= j < |rest| :: rest[j] in rest;
    }
  }

  /** Sorting keeps the watches, each once, and their order. */
  lemma InsertSortedKeeps(sorted: seq<Place>, p: Place)
    ensures forall x :: x in InsertSorted(sorted, p) <==> x == p || x in sorted
    ensures SortedByDir(sorted) ==> SortedByDir(InsertSorted(sorted, p))
    ensures Distinct(sorted) && (forall x | x in sorted :: x.wd != p.wd) ==> Distinct(InsertSorted(sorted, p))
  {
    hide SortedByDir, Distinct, InsertSorted;
    InsertSortedHas(sorted, p);
    if SortedByDir(sorted) {
      InsertSortedOrders(sorted, p);
    }
    if Distinct(sorted) && forall x | x in sorted :: x.wd != p.wd {
      InsertSortedDistinct(sorted, p);
    }
  }

  /** Watches of different directories are sorted strictly. */
  lemma SortedStrictly(ps: seq<Place>)
    requires SortedByDir(ps) && forall i, j | 0 <= i < j < |ps| :: ps[i].dir != ps[j].dir
    ensures StrictlySorted(DirsOf(ps))
  {
    hide Less;
    forall i, j | 0 <= i < j < |ps|
      ensures Less(DirsOf(ps)[i], DirsOf(ps)[j])
    {
      LessTotal(ps[i].dir, ps[j].dir);
    }
  }

  function DirsOf(ps: seq<Place>): seq<string> {
    seq(|ps|, i requires 0 <= i < |ps| => ps[i].dir)
  }

  /** dir is a direct child of base. */
  predicate HangsOn(dir: string, base: string) {
    && SlashAtEnd(base) && |base| + 1 < |dir|
    && base <= dir && IsName(dir[|base|..|dir| - 1]) && dir[|dir| - 1] == Slash
  }

  function ParentDir(dir: string): string {
    AddSlash(RemoveFileName(RemoveSlash(dir)))
  }

  lemma HangsOnParts(dir: string, base: string)
    requires HangsOn(dir, base)
    ensures ParentDir(dir) == base
    ensures AddSlash(base + FileName(dir)) == dir
    ensures SlashAtEnd(dir) && Less(base, dir) && |base| < |dir|
  {
    var name := dir[|base|..|dir| - 1];
    assert dir == base + name + [Slash];
    ChildParts(base, name);
    assert RemoveSlash(dir) == base + name;
    assert base == dir[..|base|];
    LessProperPrefix(base, dir);
  }

  /** The parent directory's path starts the path of its child. */
  lemma ParentDirPrefix(dir: string)
    requires SlashAtEnd(dir)
    ensures ParentDir(dir) <= dir
  {
  }

  /** The Delete callbacks for these directories, last directory first. */
  function Deletes(id: int, dirs: seq<string>): seq<Callback> {
    if dirs == [] then []
    else Deletes(id, dirs[1..]) + [DeleteOf(id, dirs[0])]
  }

  function DeleteOf(id: int, dir: string): Callback {
    FileAction(id, ParentDir(dir), FileName(dir), Delete, "")
  }

  /** The reported order: one Delete for each directory, in descending order, so that every directory
      is reported after all the directories inside it. */
  lemma {:induction false} DeletesOrder(id: int, dirs: seq<string>, k: nat)
    requires k < |dirs|
    ensures |Deletes(id, dirs)| == |dirs|
    ensures Deletes(id, dirs)[k] == DeleteOf(id, dirs[|dirs| - 1 - k])
    decreases |dirs|
  {
    hide DeleteOf;
    if |dirs| > 1 {
      DeletesOrder(id, dirs[1..], if k == |dirs| - 1 then 0 else k);
    }
  }

  lemma ChildrenBeforeParents(dirs: seq<string>, i: nat, j: nat)
    requires StrictlySorted(dirs) && i < |dirs| && j < |dirs|
    requires dirs[i] <= dirs[j] && dirs[i] != dirs[j]
    ensures i < j
  {
    LessProperPrefix(dirs[i], dirs[j]);
    LessTotal(dirs[i], dirs[j]);
  }

  // ---------- what emitMovedOutside does to any table ----------

  /** One Delete is reported to this watch, and a recursive one stops watching the deleted directory. */
  ghost predicate Deleted(t: map<int, Entry>, gone: set<int>, w: Entry, file: string, calls: seq<Callback>) {
    && calls == [FileAction(w.watch.id, w.dir, file, Delete, "")]
    && if w.watch.recursive then RemovesAt(t, gone, AddSlash(w.dir + file)) else gone == {}
  }

  /** One round of the deletion loop: a watch of the directory above, if there is one, is told. */
  ghost predicate Round(t: map<int, Entry>, gone: set<int>, dir: string, calls: seq<Callback>) {
    || (calls == [] && gone == {} && forall v | v in t :: t[v].dir != ParentDir(dir))
    || exists v :: v in t && t[v].dir == ParentDir(dir) && Deleted(t, gone, t[v], FileName(dir), calls)
  }

  /** The deletion loop, last directory first. */
  ghost predicate Swept(t: map<int, Entry>, gone: set<int>, ps: seq<Place>, calls: seq<Callback>)
    decreases |ps|
  {
    if ps == [] then gone == {} && calls == []
    else exists g, h, sofar, last ::
      && gone == g + h && calls == sofar + last
      && Swept(t, g, ps[1..], sofar) && Round(t - g, h, ps[0].dir, last)
  }

  lemma SweptNone(t: map<int, Entry>, ps: seq<Place>)
    ensures Swept(t, {}, ps[|ps|..], [])
  {
  }

  lemma SweptStep(t: map<int, Entry>, ps: seq<Place>, n: nat, g: set<int>, sofar: seq<Callback>, h: set<int>,
                  last: seq<Callback>)
    requires n < |ps| && Swept(t, g, ps[n + 1..], sofar) && Round(t - g, h, ps[n].dir, last)
    ensures Swept(t, g + h, ps[n..], sofar + last)
  {
    hide Round;
    assert ps[n..][1..] == ps[n + 1..] && ps[n..][0] == ps[n];
  }

  /** The watches below a prefix, without one of them, sorted by directory. */
  ghost predicate Collected(t: map<int, Entry>, except: WatcherInotify, prefix: string, ps: seq<Place>) {
    && SortedByDir(ps) && Distinct(ps)
    && (forall p | p in ps :: p.wd in t && p.dir == t[p.wd].dir && StartsWith(prefix, p.dir) && t[p.wd].watch != except)
    && (forall v | v in t && t[v].watch != except && StartsWith(prefix, t[v].dir) :: Place(v, t[v].dir) in ps)
  }

  /** All that emitMovedOutside does for a source of this name in the directory of w: which watches go,
      and what is reported. */
  ghost predicate LeavesTree(t: map<int, Entry>, gone: set<int>, w: Entry, file: string, calls: seq<Callback>) {
    exists ps :: Collected(t, w.watch, w.dir + file + [Slash], ps) && ReportsLeft(t, gone, w, file, ps, calls)
  }

  ghost predicate ReportsLeft(t: map<int, Entry>, gone: set<int>, w: Entry, file: string, ps: seq<Place>,
                              calls: seq<Callback>)
  {
    if ps == [] then Deleted(t, gone, w, file, calls) else Swept(t, gone, ps, calls)
  }

  // ---------- what it comes to when the directories above are watched ----------

  /** An inner watch hangs on a recursive watch of the directory above; no recursive watch is above an
      explicit one. */
  ghost predicate Hangs(t: map<int, Entry>, v: int)
    requires v in t
  {
    if t[v].watch.parent != null then exists u :: u in t && t[u].watch.recursive && HangsOn(t[v].dir, t[u].dir)
    else SlashAtEnd(t[v].dir) && forall u | u in t && t[u].dir == ParentDir(t[v].dir) :: !t[u].watch.recursive
  }

  /** The inner watches among these. */
  ghost function InnerOf(t: map<int, Entry>, ps: seq<Place>): set<int> {
    set p | p in ps && p.wd in t && t[p.wd].watch.parent != null :: p.wd
  }

  /** The watches of the directory above. */
  ghost function Holders(t: map<int, Entry>, dir: string): set<int> {
    set v | v in t && t[v].dir == ParentDir(dir)
  }

  /** One Delete for each directory that lies in a watched one, the last one first. */
  ghost function SweepCalls(t: map<int, Entry>, ps: seq<Place>): seq<Callback> {
    if ps == [] then [] else SweepCalls(t, ps[1..]) + RoundCalls(t, ps[0].dir)
  }

  ghost function RoundCalls(t: map<int, Entry>, dir: string): seq<Callback> {
    if exists v :: v in Holders(t, dir) then
      var v :| v in Holders(t, dir);
      [DeleteOf(t[v].watch.id, dir)]
    else []
  }

  /** These are places in the table, sorted, and each of them hangs. */
  ghost predicate Sweepable(t: map<int, Entry>, ps: seq<Place>) {
    && Unique(t) && StrictlySorted(DirsOf(ps))
    && forall p | p in ps :: p.wd in t && p.dir == t[p.wd].dir && Hangs(t, p.wd)
  }

  /** On such a table the loop removes exactly the inner watches and reports every directory that lies in
      a watched one, in descending order. */
  lemma {:induction false} SweptExactly(t: map<int, Entry>, gone: set<int>, ps: seq<Place>, calls: seq<Callback>)
    requires Sweepable(t, ps)
    ensures Swept(t, gone, ps, calls) ==> gone == InnerOf(t, ps) && calls == SweepCalls(t, ps)
    decreases |ps|
  {
    hide Round, RoundCalls, Hangs, Less;
    if ps == [] {
      assert InnerOf(t, ps) == {};
    } else if Swept(t, gone, ps, calls) {
      var g, h, sofar, last :|
        gone == g + h && calls == sofar + last && Swept(t, g, ps[1..], sofar) && Round(t - g, h, ps[0].dir, last);
      assert DirsOf(ps)[1..] == DirsOf(ps[1..]);
      SweptExactly(t, g, ps[1..], sofar);
      RoundExactly(t, ps, h, last);
    }
  }

  lemma RoundExactly(t: map<int, Entry>, ps: seq<Place>, h: set<int>, last: seq<Callback>)
    requires Sweepable(t, ps) && ps != [] && Round(t - InnerOf(t, ps[1..]), h, ps[0].dir, last)
    ensures InnerOf(t, ps[1..]) + h == InnerOf(t, ps) && last == RoundCalls(t, ps[0].dir)
  {
    hide Less, HangsOn, ParentDir, FileName, InTree, Round, StrictlySorted, Unique, RoundCalls, Hangs;
    assert ps == [ps[0]] + ps[1..] && ps[0] in ps;
    var m, vd := t - InnerOf(t, ps[1..]), ps[0].wd;
    SweptLater(t, ps);
    if t[vd].watch.parent == null {
      RootRound(t, m, h, vd, last);
      assert InnerOf(t, ps) == InnerOf(t, ps[1..]);
    } else {
      InnerRound(t, m, h, vd, last);
      assert InnerOf(t, ps) == InnerOf(t, ps[1..]) + {vd};
    }
  }

  /** When a directory's turn comes, it is still watched, and so is the directory above it. */
  lemma SweptLater(t: map<int, Entry>, ps: seq<Place>)
    requires Sweepable(t, ps) && ps != []
    ensures var m := t - InnerOf(t, ps[1..]);
            ps[0].wd in m && Holders(m, ps[0].dir) == Holders(t, ps[0].dir)
  {
    hide FileName, InTree, Less, Unique, ParentDir, HangsOn;
    var dir := ps[0].dir;
    assert ps[0] in ps;
    if t[ps[0].wd].watch.parent != null {
      var u :| u in t && t[u].watch.recursive && HangsOn(dir, t[u].dir);
      HangsOnParts(dir, t[u].dir);
    }
    ParentDirPrefix(dir);
    forall v | v in InnerOf(t, ps[1..])
      ensures v in t && t[v].dir != ParentDir(dir) && t[v].dir != dir
    {
      var k :| 0 <= k < |ps[1..]| && ps[1..][k].wd == v;
      assert ps[k + 1] in ps;
      LaterApart(ps, k + 1);
    }
  }

  /** A directory that sorts later is neither the first one nor above it. */
  lemma LaterApart(ps: seq<Place>, k: nat)
    requires 0 < k < |ps| && StrictlySorted(DirsOf(ps)) && ParentDir(ps[0].dir) <= ps[0].dir
    ensures ps[k].dir != ps[0].dir && ps[k].dir != ParentDir(ps[0].dir)
  {
    hide Less, ParentDir;
    var dir := ps[0].dir;
    assert Less(DirsOf(ps)[0], DirsOf(ps)[k]);
    LessIrreflexive(dir);
    if ps[k].dir == ParentDir(dir) {
      LessProperPrefix(ParentDir(dir), dir);
      LessTotal(ParentDir(dir), dir);
    }
  }

  lemma RootRound(t: map<int, Entry>, m: map<int, Entry>, h: set<int>, vd: int, last: seq<Callback>)
    requires vd in t && t[vd].watch.parent == null && Hangs(t, vd) && Unique(t)
    requires (forall v | v in m :: v in t && m[v] == t[v]) && Holders(m, t[vd].dir) == Holders(t, t[vd].dir)
    requires Round(m, h, t[vd].dir, last)
    ensures h == {} && last == RoundCalls(t, t[vd].dir)
  {
    hide ParentDir, FileName, InTree, HangsOn, Round, RoundCalls;
    HolderReported(t, m, h, t[vd].dir, last);
    if v :| v in Holders(t, t[vd].dir) {
      assert Deleted(m, h, m[v], FileName(t[vd].dir), last);
    }
  }

  lemma InnerRound(t: map<int, Entry>, m: map<int, Entry>, h: set<int>, vd: int, last: seq<Callback>)
    requires vd in m && vd in t && t[vd].watch.parent != null && Hangs(t, vd) && Unique(t)
    requires (forall v | v in m :: v in t && m[v] == t[v]) && Holders(m, t[vd].dir) == Holders(t, t[vd].dir)
    requires Round(m, h, t[vd].dir, last)
    ensures h == {vd} && last == RoundCalls(t, t[vd].dir)
  {
    hide ParentDir, FileName, InTree, HangsOn, Round, RoundCalls;
    var dir := t[vd].dir;
    var u :| u in t && t[u].watch.recursive && HangsOn(dir, t[u].dir);
    HangsOnParts(dir, t[u].dir);
    assert u in Holders(m, dir);
    HolderReported(t, m, h, dir, last);
    assert RemovedFrom(m, vd) == {vd};
  }

  /** A round in which the watch of the directory above, if there is one, is told. */
  lemma HolderReported(t: map<int, Entry>, m: map<int, Entry>, h: set<int>, dir: string, last: seq<Callback>)
    requires Unique(t) && (forall v | v in m :: v in t && m[v] == t[v]) && Holders(m, dir) == Holders(t, dir)
    requires Round(m, h, dir, last)
    ensures last == RoundCalls(t, dir)
    ensures (forall v :: v !in Holders(t, dir)) ==> h == {}
    ensures forall v | v in Holders(t, dir) :: v in m && Deleted(m, h, m[v], FileName(dir), last)
  {
    hide ParentDir, FileName, InTree, RemovesAt, AddSlash;
    if forall v :: v !in Holders(t, dir) {
      forall v | v in m
        ensures m[v].dir != ParentDir(dir)
      {
        assert v !in Holders(m, dir);
      }
    } else {
      var u :| u in Holders(t, dir);
      assert forall v | v in Holders(t, dir) :: v == u;
      assert u in Holders(m, dir);
      var w :| w in m && m[w].dir == ParentDir(dir) && Deleted(m, h, m[w], FileName(dir), last);
      assert w in Holders(t, dir);
    }
  }

  // ---------- trees that are closed under parent directories ----------

  /** v is an inner watch of the same tree as watch, and the directory above it is watched too. */
  ghost predicate ClosedAt(t: map<int, Entry>, v: int, watch: Entry, prefix: string)
    requires v in t
  {
    && t[v].watch.recursive && t[v].watch.parent != null && t[v].watch.id == watch.watch.id
    && (HangsOn(t[v].dir, watch.dir)
        || exists u :: u in t && StartsWith(prefix, t[u].dir) && HangsOn(t[v].dir, t[u].dir))
  }

  /** What a recursive tree looks like from a watched directory one of whose entries is moved away. */
  ghost predicate Tidy(t: map<int, Entry>, wd: int, name: string) {
    && wd in t && t[wd].watch.recursive && SlashAtEnd(t[wd].dir) && IsName(name)
    && Unique(t)
    && forall v | v in Below(t, ChildDir(t[wd].dir, name)) :: ClosedAt(t, v, t[wd], ChildDir(t[wd].dir, name))
  }

  /** The sorted directories of a moved-out tree: the moved one first, then every watched one below it. */
  ghost predicate Reports(t: map<int, Entry>, dirs: seq<string>, prefix: string) {
    && StrictlySorted(dirs) && dirs != [] && dirs[0] == prefix
    && (forall v | v in Below(t, prefix) :: t[v].dir in dirs)
    && (forall d | d in dirs :: d == prefix || exists v :: v in Below(t, prefix) && t[v].dir == d)
  }

  lemma SameChild(base: string, n: string, m: string)
    requires Slash !in n && Slash !in m && base + n + [Slash] <= base + m + [Slash]
    ensures n == m
  {
    var s, t := base + n + [Slash], base + m + [Slash];
    assert n + [Slash] + "" == s[|base|..] && m + [Slash] + "" == t[|base|..];
    NameBoundary(n, m, "", "");
  }

  /** Below a moved directory everything hangs on a recursive watch of the same registration. */
  lemma TidyHangs(t: map<int, Entry>, wd: int, name: string, v: int)
    requires Tidy(t, wd, name) && v in Below(t, ChildDir(t[wd].dir, name))
    ensures t[v].watch.parent != null && Hangs(t, v)
    ensures exists u :: u in Holders(t, t[v].dir)
    ensures forall u | u in Holders(t, t[v].dir) :: t[u].watch.id == t[wd].watch.id
  {
    hide HangsOn, ParentDir, FileName, AddSlash;
    var prefix := ChildDir(t[wd].dir, name);
    assert ClosedAt(t, v, t[wd], prefix);
    var u := wd;
    if !HangsOn(t[v].dir, t[wd].dir) {
      u :| u in t && StartsWith(prefix, t[u].dir) && HangsOn(t[v].dir, t[u].dir);
      assert u in Below(t, prefix) && ClosedAt(t, u, t[wd], prefix);
    }
    HangsOnParts(t[v].dir, t[u].dir);
    assert u in Holders(t, t[v].dir);
  }

  lemma OnlyOneChild(base: string, name: string, dir: string)
    requires HangsOn(dir, base) && Slash !in name && ChildDir(base, name) <= dir
    ensures dir == ChildDir(base, name)
  {
    var last := dir[|base|..|dir| - 1];
    assert dir == base + last + [Slash];
    SameChild(base, name, last);
  }

  lemma Ascending(ps: seq<Place>, i: nat, j: nat)
    requires StrictlySorted(DirsOf(ps)) && i < |ps| && j < |ps|
    ensures i < j ==> Less(ps[i].dir, ps[j].dir)
  {
    assert i < j ==> Less(DirsOf(ps)[i], DirsOf(ps)[j]);
  }

  /** The moved directory itself, when anything below it is watched, is watched and sorts first. */
  lemma MovedDirectoryFirst(t: map<int, Entry>, ps: seq<Place>, wd: int, name: string, n: nat)
    requires Tidy(t, wd, name) && n < |ps| && StrictlySorted(DirsOf(ps))
    requires forall v | v in Below(t, ChildDir(t[wd].dir, name)) :: Place(v, t[v].dir) in ps
    requires forall p | p in ps :: p.wd in Below(t, ChildDir(t[wd].dir, name)) && p.dir == t[p.wd].dir
    ensures ps[0].dir == ChildDir(t[wd].dir, name)
    decreases n
  {
    hide Less, ParentDir, FileName, AddSlash, Unique, HangsOn;
    var base, prefix := t[wd].dir, ChildDir(t[wd].dir, name);
    var dir, v := ps[n].dir, ps[n].wd;
    assert ps[n] in ps && ps[0] in ps;
    assert ClosedAt(t, v, t[wd], prefix);
    if HangsOn(dir, base) {
      OnlyOneChild(base, name, dir);
      if n > 0 {
        assert Less(DirsOf(ps)[0], DirsOf(ps)[n]);
        assert prefix <= ps[0].dir;
        if ps[0].dir != prefix {
          LessProperPrefix(prefix, ps[0].dir);
          LessTotal(prefix, ps[0].dir);
        }
      }
    } else {
      var u :| u in t && StartsWith(prefix, t[u].dir) && HangsOn(dir, t[u].dir);
      HangsOnParts(dir, t[u].dir);
      assert u in Below(t, prefix);
      var i :| 0 <= i < |ps| && ps[i] == Place(u, t[u].dir);
      LessTotal(t[u].dir, dir);
      LessIrreflexive(dir);
      Ascending(ps, n, i);
      MovedDirectoryFirst(t, ps, wd, name, i);
    }
  }

  /** The collected directories are the ones to report, and the deletion loop removes all of them. */
  lemma TidyReports(t: map<int, Entry>, wd: int, name: string, ps: seq<Place>)
    requires Keyed(t) && Tidy(t, wd, name) && ps != []
    requires Collected(t, t[wd].watch, ChildDir(t[wd].dir, name), ps)
    ensures Sweepable(t, ps) && InnerOf(t, ps) == Below(t, ChildDir(t[wd].dir, name))
    ensures Reports(t, DirsOf(ps), ChildDir(t[wd].dir, name))
    ensures forall p | p in ps :: p.wd in Below(t, ChildDir(t[wd].dir, name))
  {
    hide Less, ParentDir, FileName, AddSlash, Hangs, HangsOn, ClosedAt;
    var prefix, dirs := ChildDir(t[wd].dir, name), DirsOf(ps);
    NotItself(t, wd, name);
    forall p | p in ps
      ensures p.wd in Below(t, prefix) && Hangs(t, p.wd) && t[p.wd].watch.parent != null
    {
      TidyHangs(t, wd, name, p.wd);
    }
    SortedStrictly(ps);
    MovedDirectoryFirst(t, ps, wd, name, 0);
    forall v | v in Below(t, prefix)
      ensures t[v].dir in dirs && v in InnerOf(t, ps)
    {
      var i :| 0 <= i < |ps| && ps[i] == Place(v, t[v].dir);
      assert dirs[i] == t[v].dir;
      TidyHangs(t, wd, name, v);
    }
  }

  /** The watch of the directory that is left is not among those below the moved one. */
  lemma NotItself(t: map<int, Entry>, wd: int, name: string)
    requires wd in t && Keyed(t)
    ensures forall v | v in Below(t, ChildDir(t[wd].dir, name)) :: t[v].watch != t[wd].watch
  {
  }

  /** In a tidy tree exactly the watches at or below the moved entry go, with one Delete for each of their
      directories, or for the entry itself when it is not watched. */
  lemma TidyLeaves(t: map<int, Entry>, wd: int, name: string, gone: set<int>, calls: seq<Callback>)
    requires Keyed(t) && Tidy(t, wd, name) && LeavesTree(t, gone, t[wd], name, calls)
    ensures gone == Below(t, ChildDir(t[wd].dir, name))
    ensures exists dirs :: Reports(t, dirs, ChildDir(t[wd].dir, name)) && calls == Deletes(t[wd].watch.id, dirs)
  {
    hide Less, ParentDir, FileName, Hangs, HangsOn, ClosedAt, Swept, Deletes, Reports;
    var prefix, w := ChildDir(t[wd].dir, name), t[wd];
    var ps: seq<Place> :| Collected(t, w.watch, prefix, ps) && ReportsLeft(t, gone, w, name, ps, calls);
    if ps == [] {
      NothingBelow(t, wd, name, gone, calls);
      assert Reports(t, [prefix], prefix);
    } else {
      TidyReports(t, wd, name, ps);
      SweptExactly(t, gone, ps, calls);
      SweepDeletes(t, wd, name, ps);
    }
  }

  lemma NothingBelow(t: map<int, Entry>, wd: int, name: string, gone: set<int>, calls: seq<Callback>)
    requires wd in t && Keyed(t) && SlashAtEnd(t[wd].dir) && IsName(name)
    requires Collected(t, t[wd].watch, ChildDir(t[wd].dir, name), []) && Deleted(t, gone, t[wd], name, calls)
    ensures Below(t, ChildDir(t[wd].dir, name)) == {} && gone == {}
    ensures calls == Deletes(t[wd].watch.id, [ChildDir(t[wd].dir, name)])
    ensures Reports(t, [ChildDir(t[wd].dir, name)], ChildDir(t[wd].dir, name))
  {
    hide FileName, RemoveFileName, DeleteOf, InTree;
    var prefix := ChildDir(t[wd].dir, name);
    ChildParts(t[wd].dir, name);
    DeleteOfChild(t[wd].watch.id, t[wd].dir, name);
    assert Deletes(t[wd].watch.id, [prefix]) == [DeleteOf(t[wd].watch.id, prefix)];
    NotItself(t, wd, name);
    CollectedAll(t, t[wd].watch, prefix, []);
  }

  lemma CollectedAll(t: map<int, Entry>, except: WatcherInotify, prefix: string, ps: seq<Place>)
    requires Collected(t, except, prefix, ps) && forall v | v in Below(t, prefix) :: t[v].watch != except
    ensures ps == [] <==> Below(t, prefix) == {}
  {
    forall v | v in Below(t, prefix)
      ensures Place(v, t[v].dir) in ps
    {
    }
    if ps != [] {
      assert ps[0] in ps && ps[0].wd in Below(t, prefix);
    }
  }

  lemma {:induction false} SweepDeletes(t: map<int, Entry>, wd: int, name: string, ps: seq<Place>)
    requires Tidy(t, wd, name)
    requires forall p | p in ps :: p.wd in Below(t, ChildDir(t[wd].dir, name)) && p.dir == t[p.wd].dir
    ensures SweepCalls(t, ps) == Deletes(t[wd].watch.id, DirsOf(ps))
    decreases |ps|
  {
    hide Tidy, Below, Holders, DeleteOf;
    if ps != [] {
      assert ps[0] in ps;
      assert DirsOf(ps)[1..] == DirsOf(ps[1..]) && DirsOf(ps)[0] == ps[0].dir;
      TidyHangs(t, wd, name, ps[0].wd);
      SweepDeletes(t, wd, name, ps[1..]);
    }
  }

  lemma DeleteOfChild(id: int, dir: string, name: string)
    requires SlashAtEnd(dir) && IsName(name)
    ensures DeleteOf(id, ChildDir(dir, name)) == FileAction(id, dir, name, Delete, "")
  {
    hide FileName, RemoveFileName;
    ChildParts(dir, name);
    assert RemoveSlash(ChildDir(dir, name)) == dir + name;
  }

  /** The call reports this directory as deleted. */
  predicate ReportsDelete(c: Callback, id: int, dir: string) {
    && c.FileAction? && c.id == id && c.action == Delete && c.oldFile == ""
    && SlashAtEnd(c.dir) && IsName(c.file) && c.dir + c.file + [Slash] == dir
  }

  lemma DeleteOfReports(id: int, dir: string, base: string)
    requires HangsOn(dir, base)
    ensures ReportsDelete(DeleteOf(id, dir), id, dir)
    ensures DeleteOf(id, dir) == FileAction(id, base, dir[|base|..|dir| - 1], Delete, "")
  {
    var name := dir[|base|..|dir| - 1];
    assert dir == ChildDir(base, name);
    DeleteOfChild(id, base, name);
  }

  /** The directories at or below the moved entry, in descending order, are each reported once as a Delete of
      their name in the directory above. */
  lemma TidyTold(t: map<int, Entry>, wd: int, name: string, gone: set<int>, calls: seq<Callback>)
    requires Keyed(t) && Tidy(t, wd, name) && LeavesTree(t, gone, t[wd], name, calls)
    ensures exists dirs ::
              && Reports(t, dirs, ChildDir(t[wd].dir, name)) && |calls| == |dirs|
              && forall k | 0 <= k < |dirs| :: ReportsDelete(calls[|dirs| - 1 - k], t[wd].watch.id, dirs[k])
  {
    hide Less, DeleteOf, Deletes, LeavesTree, StrictlySorted, Unique, HangsOn;
    var id, prefix := t[wd].watch.id, ChildDir(t[wd].dir, name);
    TidyLeaves(t, wd, name, gone, calls);
    var dirs :| Reports(t, dirs, prefix) && calls == Deletes(id, dirs);
    DeletesOrder(id, dirs, 0);
    forall k | 0 <= k < |dirs|
      ensures ReportsDelete(calls[|dirs| - 1 - k], id, dirs[k])
    {
      DeletesOrder(id, dirs, |dirs| - 1 - k);
      assert dirs[k] in dirs;
      DirHangs(t, wd, name, dirs[k]);
    }
  }

  lemma DirHangs(t: map<int, Entry>, wd: int, name: string, dir: string)
    requires Tidy(t, wd, name)
    requires dir == ChildDir(t[wd].dir, name) || exists v :: v in Below(t, ChildDir(t[wd].dir, name)) && t[v].dir == dir
    ensures forall id :: ReportsDelete(DeleteOf(id, dir), id, dir)
  {
    hide DeleteOf, ReportsDelete, Unique;
    var prefix, base := ChildDir(t[wd].dir, name), t[wd].dir;
    if dir == prefix {
      assert prefix[|base|..|prefix| - 1] == name;
    } else {
      var v :| v in Below(t, prefix) && t[v].dir == dir;
      assert ClosedAt(t, v, t[wd], prefix);
      if !HangsOn(dir, base) {
        var u :| u in t && StartsWith(prefix, t[u].dir) && HangsOn(dir, t[u].dir);
        base := t[u].dir;
      }
    }
    forall id {
      DeleteOfReports(id, dir, base);
    }
  }

  /** On any table on which the loop is exact, a collected directory is reported to the watch of the directory
      above it, if there is one, and nothing else is reported. */
  lemma {:induction false} SweptTold(t: map<int, Entry>, ps: seq<Place>, c: Callback)
    requires Sweepable(t, ps)
    ensures c in SweepCalls(t, ps) <==>
            exists p, v :: && p in ps && v in t && t[v].dir == ParentDir(p.dir)
                           && c == FileAction(t[v].watch.id, t[v].dir, FileName(p.dir), Delete, "")
    decreases |ps|
  {
    hide Hangs, Less, ParentDir, FileName, Holders;
    if ps != [] {
      assert ps == [ps[0]] + ps[1..] && DirsOf(ps)[1..] == DirsOf(ps[1..]);
      SweptTold(t, ps[1..], c);
      RoundTold(t, ps[0].dir, c);
    }
  }

  /** A moved-out entry below which something is watched, on any such table: exactly the inner watches at or
      below it go, and every watch of a directory that holds a watched one of these is told of that one. */
  lemma LeavesTold(t: map<int, Entry>, wd: int, name: string, gone: set<int>, calls: seq<Callback>)
    requires Keyed(t) && Unique(t) && wd in t && SlashAtEnd(t[wd].dir) && IsName(name)
    requires forall v | v in Below(t, ChildDir(t[wd].dir, name)) :: Hangs(t, v)
    requires LeavesTree(t, gone, t[wd], name, calls)
    ensures Below(t, ChildDir(t[wd].dir, name)) == {} ==>
              calls == [FileAction(t[wd].watch.id, t[wd].dir, name, Delete, "")]
    ensures Below(t, ChildDir(t[wd].dir, name)) != {} ==>
              gone == set v | v in t && ChildDir(t[wd].dir, name) <= t[v].dir && t[v].watch.parent != null
    ensures forall c | Below(t, ChildDir(t[wd].dir, name)) != {} ::
              c in calls <==>
              exists u, v :: && u in t && v in t && ChildDir(t[wd].dir, name) <= t[u].dir
                             && t[v].dir == ParentDir(t[u].dir)
                             && c == FileAction(t[v].watch.id, t[v].dir, FileName(t[u].dir), Delete, "")
  {
    hide Less, ParentDir, FileName, Hangs, Swept, Unique, SweepCalls, RemovesAt;
    var prefix, w := ChildDir(t[wd].dir, name), t[wd];
    var ps: seq<Place> :| Collected(t, w.watch, prefix, ps) && ReportsLeft(t, gone, w, name, ps, calls);
    NotItself(t, wd, name);
    CollectedAll(t, w.watch, prefix, ps);
    if ps != [] {
      PlacesDiffer(t, w.watch, prefix, ps);
      SortedStrictly(ps);
      SweptExactly(t, gone, ps, calls);
      CollectedInner(t, w.watch, prefix, ps);
      forall c
        ensures c in calls <==>
                exists u, v :: && u in t && v in t && prefix <= t[u].dir && t[v].dir == ParentDir(t[u].dir)
                               && c == FileAction(t[v].watch.id, t[v].dir, FileName(t[u].dir), Delete, "")
      {
        SweptTold(t, ps, c);
        ToldOfCollected(t, w.watch, prefix, ps, c);
      }
    }
  }

  lemma PlacesDiffer(t: map<int, Entry>, except: WatcherInotify, prefix: string, ps: seq<Place>)
    requires Unique(t) && Collected(t, except, prefix, ps)
    ensures forall i, j | 0 <= i < j < |ps| :: ps[i].dir != ps[j].dir
  {
    forall i, j | 0 <= i < j < |ps|
      ensures ps[i].dir != ps[j].dir
    {
      assert ps[i] in ps && ps[j] in ps && ps[i].wd != ps[j].wd;
    }
  }

  lemma CollectedInner(t: map<int, Entry>, except: WatcherInotify, prefix: string, ps: seq<Place>)
    requires Collected(t, except, prefix, ps) && prefix != ""
    requires forall v | v in Below(t, prefix) :: t[v].watch != except
    ensures InnerOf(t, ps) == set v | v in t && prefix <= t[v].dir && t[v].watch.parent != null
  {
    forall v | v in t && prefix <= t[v].dir && t[v].watch.parent != null
      ensures v in InnerOf(t, ps)
    {
      assert v in Below(t, prefix) && Place(v, t[v].dir) in ps;
    }
  }

  lemma ToldOfCollected(t: map<int, Entry>, except: WatcherInotify, prefix: string, ps: seq<Place>, c: Callback)
    requires Collected(t, except, prefix, ps) && prefix != ""
    requires forall v | v in Below(t, prefix) :: t[v].watch != except
    ensures (exists p, v :: && p in ps && v in t && t[v].dir == ParentDir(p.dir)
                            && c == FileAction(t[v].watch.id, t[v].dir, FileName(p.dir), Delete, "")) <==>
            exists u, v :: && u in t && v in t && prefix <= t[u].dir && t[v].dir == ParentDir(t[u].dir)
                           && c == FileAction(t[v].watch.id, t[v].dir, FileName(t[u].dir), Delete, "")
  {
    hide ParentDir, FileName;
    if u, v :| && u in t && v in t && prefix <= t[u].dir && t[v].dir == ParentDir(t[u].dir)
               && c == FileAction(t[v].watch.id, t[v].dir, FileName(t[u].dir), Delete, "") {
      assert u in Below(t, prefix) && Place(u, t[u].dir) in ps;
    }
  }

  lemma RoundTold(t: map<int, Entry>, dir: string, c: Callback)
    requires Unique(t)
    ensures c in RoundCalls(t, dir) <==>
            exists v :: v in t && t[v].dir == ParentDir(dir)
                        && c == FileAction(t[v].watch.id, t[v].dir, FileName(dir), Delete, "")
  {
    hide ParentDir, FileName;
    assert forall v :: v in Holders(t, dir) <==> v in t && t[v].dir == ParentDir(dir);
  }

  // ---------- whether the moved entry itself is reported ----------

  /** The moved entry is reported as deleted. */
  predicate Tells(calls: seq<Callback>, dir: string, file: string) {
    exists i :: 0 <= i < |calls| && calls[i].FileAction? && calls[i].dir == dir && calls[i].file == file
  }

  /** A directory whose path is that of its parent, its name and a final separator. */
  predicate Proper(dir: string) {
    AddSlash(ParentDir(dir) + FileName(dir)) == dir
  }

  /** The watch does not belong to a recursive registration whose root lies below the moved entry. */
  ghost predicate NotInRootBelow(t: map<int, Entry>, wd: int, name: string)
    requires wd in t
  {
    forall v | v in Below(t, ChildDir(t[wd].dir, name)) && t[v].watch.parent == null && t[v].watch.recursive ::
      !InTree(t[wd].watch, t[v].watch)
  }

  /** Only the moved entry's own path has this parent and this name. */
  lemma OnlyOwnPath(dir: string, name: string, path: string)
    requires SlashAtEnd(dir) && IsName(name) && ChildDir(dir, name) <= path
    ensures ParentDir(path) == dir && FileName(path) == name <==> path == ChildDir(dir, name)
  {
    var prefix := ChildDir(dir, name);
    if path == prefix {
      ChildParts(dir, name);
      assert RemoveSlash(prefix) == dir + name;
    } else {
      var p := RemoveSlash(path);
      assert |prefix| <= |p| && p[|prefix| - 1] == path[|prefix| - 1] == prefix[|prefix| - 1] == Slash;
      assert LastSlash(p) >= |prefix| - 1;
      if FileName(path) == name {
        assert |p| > |prefix|;
        assert RemoveSlash(p) == p;
        assert |RemoveFileName(p)| >= |prefix|;
      }
    }
  }

  /** What the deletion loop tells about one directory entry whose own watch it does not remove. */
  lemma {:induction false} SweptTells(t: map<int, Entry>, gone: set<int>, ps: seq<Place>, calls: seq<Callback>,
                                      wd: int, name: string)
    requires wd in t && SlashAtEnd(t[wd].dir) && IsName(name) && Swept(t, gone, ps, calls)
    requires forall p | p in ps :: StartsWith(ChildDir(t[wd].dir, name), p.dir) && Proper(p.dir)
    requires NotInRootBelow(t, wd, name)
    ensures wd !in gone
    ensures Tells(calls, t[wd].dir, name) <==> exists p :: p in ps && p.dir == ChildDir(t[wd].dir, name)
    decreases |ps|
  {
    hide ParentDir, FileName, InTree, Round, Tells, Proper;
    if ps == [] {
      NobodyTold(t[wd].dir, name);
    } else {
      var g, h, sofar, last :|
        gone == g + h && calls == sofar + last && Swept(t, g, ps[1..], sofar) && Round(t - g, h, ps[0].dir, last);
      assert ps[0] in ps && ps == [ps[0]] + ps[1..];
      SweptTells(t, g, ps[1..], sofar, wd, name);
      RoundTells(t, t - g, h, ps[0].dir, last, wd, name);
      TellsAppend(sofar, last, t[wd].dir, name);
    }
  }

  lemma NobodyTold(dir: string, file: string)
    ensures !Tells([], dir, file)
  {
  }

  lemma TellsAppend(a: seq<Callback>, b: seq<Callback>, dir: string, file: string)
    ensures Tells(a + b, dir, file) <==> Tells(a, dir, file) || Tells(b, dir, file)
  {
    if i :| 0 <= i < |a| && a[i].FileAction? && a[i].dir == dir && a[i].file == file {
      assert (a + b)[i] == a[i];
    }
    if i :| 0 <= i < |b| && b[i].FileAction? && b[i].dir == dir && b[i].file == file {
      assert (a + b)[|a| + i] == b[i];
    }
  }

  lemma RoundTells(t: map<int, Entry>, m: map<int, Entry>, h: set<int>, dir: string, last: seq<Callback>,
                   wd: int, name: string)
    requires wd in m && (forall v | v in m :: v in t && m[v] == t[v]) && SlashAtEnd(t[wd].dir) && IsName(name)
    requires Round(m, h, dir, last) && StartsWith(ChildDir(t[wd].dir, name), dir) && Proper(dir)
    requires NotInRootBelow(t, wd, name)
    ensures wd !in h
    ensures Tells(last, t[wd].dir, name) <==> dir == ChildDir(t[wd].dir, name)
  {
    hide ParentDir, FileName, InTree, AddSlash;
    OnlyOwnPath(t[wd].dir, name, dir);
    if u :| u in m && m[u].dir == ParentDir(dir) && Deleted(m, h, m[u], FileName(dir), last) {
      assert last[0] == FileAction(m[u].watch.id, ParentDir(dir), FileName(dir), Delete, "");
      RemovedElsewhere(t, m, h, m[u], dir, wd, name);
    }
  }

  lemma RemovedElsewhere(t: map<int, Entry>, m: map<int, Entry>, h: set<int>, w: Entry, dir: string, wd: int,
                         name: string)
    requires wd in m && (forall v | v in m :: v in t && m[v] == t[v]) && StartsWith(ChildDir(t[wd].dir, name), dir)
    requires NotInRootBelow(t, wd, name)
    requires w.watch.recursive ==> RemovesAt(m, h, AddSlash(w.dir + FileName(dir)))
    requires !w.watch.recursive ==> h == {}
    requires w.dir == ParentDir(dir) && Proper(dir)
    ensures wd !in h
  {
    hide ParentDir, FileName;
  }

  /** A source on a live watch is reported as deleted exactly when nothing below it is watched or it is
      watched itself. */
  lemma SourceReported(t: map<int, Entry>, wd: int, name: string, gone: set<int>, calls: seq<Callback>)
    requires Keyed(t) && wd in t && SlashAtEnd(t[wd].dir) && IsName(name) && LeavesTree(t, gone, t[wd], name, calls)
    requires NotInRootBelow(t, wd, name) && forall v | v in Below(t, ChildDir(t[wd].dir, name)) :: Proper(t[v].dir)
    ensures Tells(calls, t[wd].dir, name) <==>
            || Below(t, ChildDir(t[wd].dir, name)) == {}
            || exists v :: v in t && t[v].dir == ChildDir(t[wd].dir, name)
  {
    hide ParentDir, FileName, InTree, Swept, Proper;
    var prefix, w := ChildDir(t[wd].dir, name), t[wd];
    var ps: seq<Place> :| Collected(t, w.watch, prefix, ps) && ReportsLeft(t, gone, w, name, ps, calls);
    NotItself(t, wd, name);
    if ps == [] {
      assert calls[0].dir == w.dir;
      CollectedAll(t, w.watch, prefix, ps);
    } else {
      assert ps[0] in ps && ps[0].wd in Below(t, prefix);
      SweptTells(t, gone, ps, calls, wd, name);
      if v :| v in t && t[v].dir == prefix {
        assert v in Below(t, prefix) && Place(v, t[v].dir) in ps;
      }
    }
  }

  /** Watches of /r/ and /r/a/b/ that are not recursive: when /r/a is moved out nothing is told. */
  lemma UnreportedExample(r: WatcherInotify, b: WatcherInotify, gone: set<int>, calls: seq<Callback>)
    requires r.wd == 1 && b.wd == 2 && !r.recursive && !b.recursive && r.parent == null && b.parent == null
    requires LeavesTree(map[1 := Entry(r, "/r/"), 2 := Entry(b, "/r/a/b/")], gone, Entry(r, "/r/"), "a", calls)
    ensures !Tells(calls, "/r/", "a")
  {
    hide ParentDir, FileName, AddSlash, LeavesTree, StartsWith, Proper, Tells;
    var t := map[1 := Entry(r, "/r/"), 2 := Entry(b, "/r/a/b/")];
    ExamplePaths();
    assert 2 in Below(t, "/r/a/") && !InTree(r, b);
    SourceReported(t, 1, "a", gone, calls);
  }

  lemma ExamplePaths()
    ensures ChildDir("/r/", "a") == "/r/a/" && Proper("/r/a/b/")
    ensures StartsWith("/r/a/", "/r/a/b/") && !StartsWith("/r/a/", "/r/")
  {
    hide ParentDir, FileName, RemoveFileName;
    OwnPath("/r/a/", "b");
    assert ChildDir("/r/a/", "b") == "/r/a/b/";
  }

  lemma OwnPath(dir: string, name: string)
    requires SlashAtEnd(dir) && IsName(name)
    ensures Proper(ChildDir(dir, name))
  {
    OnlyOwnPath(dir, name, ChildDir(dir, name));
    ChildParts(dir, name);
  }
}
