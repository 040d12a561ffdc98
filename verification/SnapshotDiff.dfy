/** The difference between two listings of a directory, as DirectorySnapshot::scan computes it, and
    what that difference accounts for. */
module SnapshotDiff {
  import opened Paths
  import opened Files

  /** DirectorySnapshotDiff. A moved entry is the old file name with the new entry. */
  datatype Diff = Diff(filesDeleted: seq<FileInfo>, filesCreated: seq<FileInfo>, filesModified: seq<FileInfo>,
                       filesMoved: seq<(string, FileInfo)>,
                       dirsDeleted: seq<FileInfo>, dirsCreated: seq<FileInfo>, dirsModified: seq<FileInfo>,
                       dirsMoved: seq<(string, FileInfo)>)
  {
    function AddCreated(f: FileInfo): Diff {
      if f.IsDirectory() then this.(dirsCreated := dirsCreated + [f]) else this.(filesCreated := filesCreated + [f])
    }

    function AddModified(f: FileInfo): Diff {
      if f.IsDirectory() then this.(dirsModified := dirsModified + [f]) else this.(filesModified := filesModified + [f])
    }

    function AddDeleted(f: FileInfo): Diff {
      if f.IsDirectory() then this.(dirsDeleted := dirsDeleted + [f]) else this.(filesDeleted := filesDeleted + [f])
    }

    function AddMoved(name: string, f: FileInfo): Diff {
      if f.IsDirectory() then this.(dirsMoved := dirsMoved + [(name, f)])
      else this.(filesMoved := filesMoved + [(name, f)])
    }

    // What the diff says, with multiplicities.

    function Created(): multiset<FileInfo> {
      multiset(filesCreated) + multiset(dirsCreated)
    }

    function Modified(): multiset<FileInfo> {
      multiset(filesModified) + multiset(dirsModified)
    }

    function Deleted(): multiset<FileInfo> {
      multiset(filesDeleted) + multiset(dirsDeleted)
    }

    function DeletedPaths(): multiset<string> {
      multiset(FilePaths(filesDeleted)) + multiset(FilePaths(dirsDeleted))
    }

    function Moves(): multiset<(string, FileInfo)> {
      multiset(filesMoved) + multiset(dirsMoved)
    }

    function Destinations(): multiset<FileInfo> {
      multiset(Seconds(filesMoved)) + multiset(Seconds(dirsMoved))
    }

    function Sources(dir: string): multiset<string> {
      multiset(Firsts(dir, filesMoved)) + multiset(Firsts(dir, dirsMoved))
    }
  }

  const EmptyDiff := Diff([], [], [], [], [], [], [], [])

  function Seconds(moved: seq<(string, FileInfo)>): seq<FileInfo> {
    seq(|moved|, i requires 0 <= i < |moved| => moved[i].1)
  }

  function Firsts(dir: string, moved: seq<(string, FileInfo)>): seq<string> {
    seq(|moved|, i requires 0 <= i < |moved| => dir + moved[i].0)
  }

  /** What nodeInFiles looks for: an entry that is gone under its old path and is the same file. */
  predicate Matches(was: FileInfo, f: FileInfo, current: seq<FileInfo>) {
    !Holds(current, was.path) && was.SameInode(f) && was.Same(f) && was.path != f.path
  }

  /** nodeInFiles: the first such entry; |files| when there is none. */
  function NodeInFiles(files: seq<FileInfo>, f: FileInfo, current: seq<FileInfo>): (i: nat)
    ensures i <= |files|
    ensures i < |files| ==> Matches(files[i], f, current)
    ensures forall j | 0 <= j < i :: !Matches(files[j], f, current)
  {
    if files == [] then 0
    else if Matches(files[0], f, current) then 0
    else
      assert forall j | 1 <= j < |files| :: files[j] == files[1..][j - 1];
      1 + NodeInFiles(files[1..], f, current)
  }

  function Without(files: seq<FileInfo>, i: nat): seq<FileInfo>
    requires i < |files|
  {
    files[..i] + files[i + 1..]
  }

  /** The old entries not yet consumed by a move, and the diff so far. */
  datatype Scan = Scan(rest: seq<FileInfo>, diff: Diff)

  function ScanStep(s: Scan, f: FileInfo, current: seq<FileInfo>): Scan {
    var i := Find(s.rest, f.path);
    if i < |s.rest| then
      if s.rest[i].Same(f) then s else s.(diff := s.diff.AddModified(f))
    else
      var c := NodeInFiles(s.rest, f, current);
      if c < |s.rest| then Scan(Without(s.rest, c), s.diff.AddMoved(FileName(s.rest[c].path), f))
      else s.(diff := s.diff.AddCreated(f))
  }

  /** After the first k current entries. */
  function ScanFirst(was: seq<FileInfo>, current: seq<FileInfo>, k: nat): Scan
    requires k <= |current|
  {
    if k == 0 then Scan(was, EmptyDiff)
    else ScanStep(ScanFirst(was, current, k - 1), current[k - 1], current)
  }

  /** Deletions among the first k entries left over. */
  function DeleteFirst(diff: Diff, rest: seq<FileInfo>, current: seq<FileInfo>, k: nat): Diff
    requires k <= |rest|
  {
    if k == 0 then diff
    else
      var d := DeleteFirst(diff, rest, current, k - 1);
      if Holds(current, rest[k - 1].path) then d else d.AddDeleted(rest[k - 1])
  }

  function ScanDiff(was: seq<FileInfo>, current: seq<FileInfo>): Diff {
    var s := ScanFirst(was, current, |current|);
    DeleteFirst(s.diff, s.rest, current, |s.rest|)
  }

  // ---------- what should be reported, independently of the scan ----------

  /** The paths that are gone. */
  function Vanished(files: seq<FileInfo>, current: seq<FileInfo>): multiset<string> {
    if files == [] then multiset{}
    else Vanished(files[..|files| - 1], current) +
         (var p := files[|files| - 1].path; if Holds(current, p) then multiset{} else multiset{p})
  }

  predicate IsNew(was: seq<FileInfo>, f: FileInfo) {
    !Holds(was, f.path)
  }

  predicate IsChanged(was: seq<FileInfo>, f: FileInfo) {
    Find(was, f.path) < |was| && !was[Find(was, f.path)].Same(f)
  }

  function NewEntries(was: seq<FileInfo>, files: seq<FileInfo>): multiset<FileInfo> {
    if files == [] then multiset{}
    else NewEntries(was, files[..|files| - 1]) +
         (var f := files[|files| - 1]; if IsNew(was, f) then multiset{f} else multiset{})
  }

  function ChangedEntries(was: seq<FileInfo>, files: seq<FileInfo>): multiset<FileInfo> {
    if files == [] then multiset{}
    else ChangedEntries(was, files[..|files| - 1]) +
         (var f := files[|files| - 1]; if IsChanged(was, f) then multiset{f} else multiset{})
  }

  /** Every entry's path is its directory and its name. */
  predicate DirectChildren(dir: string, files: seq<FileInfo>) {
    forall f | f in files :: f.path == dir + FileName(f.path)
  }

  // ---------- the scan keeps account ----------

  lemma {:induction false} VanishedAppend(a: seq<FileInfo>, b: seq<FileInfo>, current: seq<FileInfo>)
    ensures Vanished(a + b, current) == Vanished(a, current) + Vanished(b, current)
    decreases |b|
  {
    if b == [] {
      assert a + b == a;
    } else {
      assert (a + b)[..|a + b| - 1] == a + b[..|b| - 1];
      VanishedAppend(a, b[..|b| - 1], current);
    }
  }

  lemma VanishedWithout(files: seq<FileInfo>, i: nat, current: seq<FileInfo>)
    requires i < |files| && !Holds(current, files[i].path)
    ensures OneMore(Vanished(files, current), Vanished(Without(files, i), current), files[i].path)
  {
    var x := [files[i]];
    assert files == files[..i] + (x + files[i + 1..]);
    VanishedAppend(files[..i], x + files[i + 1..], current);
    VanishedAppend(x, files[i + 1..], current);
    VanishedAppend(files[..i], files[i + 1..], current);
    assert x[..0] == [];
    assert Vanished(x, current) == multiset{files[i].path};
  }

  lemma FirstsAppend(dir: string, moved: seq<(string, FileInfo)>, m: (string, FileInfo))
    ensures Firsts(dir, moved + [m]) == Firsts(dir, moved) + [dir + m.0]
    ensures Seconds(moved + [m]) == Seconds(moved) + [m.1]
  {
  }

  lemma FilePathsAppend(files: seq<FileInfo>, f: FileInfo)
    ensures FilePaths(files + [f]) == FilePaths(files) + [f.path]
  {
  }

  /** The left-over entries are old ones, and none that is still there has been consumed. */
  ghost predicate RestFits(was: seq<FileInfo>, current: seq<FileInfo>, rest: seq<FileInfo>) {
    && Sorted(rest)
    && (forall f | f in rest :: f in was)
    && (forall f | f in was && Holds(current, f.path) :: f in rest)
  }

  /** The books of a scan: what of the old listing is gone and not accounted for, and what the diff
      says so far. */
  datatype Tally = Tally(left: multiset<string>, moved: multiset<string>, created: multiset<FileInfo>,
                         arrived: multiset<FileInfo>, modified: multiset<FileInfo>)

  function TallyOf(dir: string, current: seq<FileInfo>, s: Scan): Tally {
    Tally(Vanished(s.rest, current), s.diff.Sources(dir), s.diff.Created(), s.diff.Destinations(), s.diff.Modified())
  }

  ghost predicate Balanced(t: Tally, gone: multiset<string>, added: multiset<FileInfo>, changed: multiset<FileInfo>) {
    && (forall p :: t.left[p] + t.moved[p] == gone[p])
    && (forall f :: t.created[f] + t.arrived[f] == added[f])
    && t.modified == changed
  }

  lemma SameFind(was: seq<FileInfo>, current: seq<FileInfo>, k: nat, rest: seq<FileInfo>)
    requires k < |current| && Sorted(was) && RestFits(was, current, rest)
    ensures var i, j := Find(rest, current[k].path), Find(was, current[k].path);
            (i < |rest| <==> j < |was|) && (i < |rest| ==> rest[i] == was[j])
  {
    var p := current[k].path;
    var i, j := Find(rest, p), Find(was, p);
    assert Holds(current, p);
    if j < |was| {
      assert was[j] in rest;
      var x :| 0 <= x < |rest| && rest[x] == was[j];
      SortedDistinct(rest, x, i);
    }
    if i < |rest| {
      assert rest[i] in was;
      var y :| 0 <= y < |was| && was[y] == rest[i];
    }
  }

  lemma WithoutKeeps(files: seq<FileInfo>, i: nat)
    requires i < |files| && Sorted(files)
    ensures Sorted(Without(files, i))
    ensures forall f | f in Without(files, i) :: f in files
    ensures forall f | f in files && f != files[i] :: f in Without(files, i)
  {
    var r := Without(files, i);
    assert forall j | 0 <= j < |r| :: r[j] == files[if j < i then j else j + 1];
    forall f | f in files && f != files[i]
      ensures f in r
    {
      var j :| 0 <= j < |files| && files[j] == f;
      assert r[if j < i then j else j - 1] == f;
    }
  }

  /** One more occurrence of x. */
  ghost predicate OneMore<T(!new)>(more: multiset<T>, less: multiset<T>, x: T) {
    forall y :: more[y] == less[y] + (if y == x then 1 else 0)
  }

  lemma CreatedStep(dir: string, current: seq<FileInfo>, s: Scan, f: FileInfo)
    ensures var t, t' := TallyOf(dir, current, s), TallyOf(dir, current, s.(diff := s.diff.AddCreated(f)));
            OneMore(t'.created, t.created, f) && t' == t.(created := t'.created)
  {
  }

  lemma ModifiedStep(dir: string, current: seq<FileInfo>, s: Scan, f: FileInfo)
    ensures var t, t' := TallyOf(dir, current, s), TallyOf(dir, current, s.(diff := s.diff.AddModified(f)));
            OneMore(t'.modified, t.modified, f) && t' == t.(modified := t'.modified)
  {
  }

  lemma MovedStep(dir: string, current: seq<FileInfo>, s: Scan, f: FileInfo, c: nat)
    requires c < |s.rest| && !Holds(current, s.rest[c].path) && s.rest[c].path == dir + FileName(s.rest[c].path)
    ensures var t := TallyOf(dir, current, s);
            var t' := TallyOf(dir, current, Scan(Without(s.rest, c), s.diff.AddMoved(FileName(s.rest[c].path), f)));
            && OneMore(t.left, t'.left, s.rest[c].path) && OneMore(t'.moved, t.moved, s.rest[c].path)
            && OneMore(t'.arrived, t.arrived, f)
            && t' == t.(left := t'.left, moved := t'.moved, arrived := t'.arrived)
  {
    FirstsAppend(dir, if f.IsDirectory() then s.diff.dirsMoved else s.diff.filesMoved, (FileName(s.rest[c].path), f));
    VanishedWithout(s.rest, c, current);
  }

  lemma EntriesStep(was: seq<FileInfo>, current: seq<FileInfo>, k: nat)
    requires k < |current|
    ensures if IsNew(was, current[k]) then
            OneMore(NewEntries(was, current[..k + 1]), NewEntries(was, current[..k]), current[k])
            else NewEntries(was, current[..k + 1]) == NewEntries(was, current[..k])
    ensures if IsChanged(was, current[k]) then
            OneMore(ChangedEntries(was, current[..k + 1]), ChangedEntries(was, current[..k]), current[k])
            else ChangedEntries(was, current[..k + 1]) == ChangedEntries(was, current[..k])
  {
    assert current[..k + 1][..k] == current[..k];
  }

  lemma WithoutFits(was: seq<FileInfo>, current: seq<FileInfo>, rest: seq<FileInfo>, c: nat)
    requires RestFits(was, current, rest) && c < |rest| && !Holds(current, rest[c].path)
    ensures RestFits(was, current, Without(rest, c))
  {
    WithoutKeeps(rest, c);
  }

  /** How the books change over one current entry. */
  ghost predicate Booked(t: Tally, t': Tally, f: FileInfo, isNew: bool, isChanged: bool) {
    if isChanged then OneMore(t'.modified, t.modified, f) && t' == t.(modified := t'.modified)
    else if !isNew then t' == t
    else
      || (OneMore(t'.created, t.created, f) && t' == t.(created := t'.created))
      || (OneMore(t'.arrived, t.arrived, f) && t' == t.(left := t'.left, moved := t'.moved, arrived := t'.arrived)
          && exists p :: OneMore(t.left, t'.left, p) && OneMore(t'.moved, t.moved, p))
  }

  lemma StepBooked(dir: string, was: seq<FileInfo>, current: seq<FileInfo>, k: nat, s: Scan)
    requires k < |current| && Sorted(was) && DirectChildren(dir, was) && RestFits(was, current, s.rest)
    ensures var s' := ScanStep(s, current[k], current);
            && RestFits(was, current, s'.rest)
            && s'.diff.filesDeleted == s.diff.filesDeleted && s'.diff.dirsDeleted == s.diff.dirsDeleted
            && Booked(TallyOf(dir, current, s), TallyOf(dir, current, s'), current[k],
                      IsNew(was, current[k]), IsChanged(was, current[k]))
  {
    hide TallyOf, FileName, FileInfo.IsDirectory, FileInfo.Same, OneMore;
    var f := current[k];
    SameFind(was, current, k, s.rest);
    var i, c := Find(s.rest, f.path), NodeInFiles(s.rest, f, current);
    if i < |s.rest| {
      ModifiedStep(dir, current, s, f);
    } else if c < |s.rest| {
      assert s.rest[c] in s.rest;
      MovedStep(dir, current, s, f, c);
      WithoutFits(was, current, s.rest, c);
    } else {
      CreatedStep(dir, current, s, f);
    }
  }

  lemma BookedBalanced(t: Tally, t': Tally, f: FileInfo, isNew: bool, isChanged: bool, gone: multiset<string>,
                       added: multiset<FileInfo>, added': multiset<FileInfo>,
                       changed: multiset<FileInfo>, changed': multiset<FileInfo>)
    requires Balanced(t, gone, added, changed) && Booked(t, t', f, isNew, isChanged) && !(isNew && isChanged)
    requires if isNew then OneMore(added', added, f) else added' == added
    requires if isChanged then OneMore(changed', changed, f) else changed' == changed
    ensures Balanced(t', gone, added', changed')
  {
    if isChanged {
      assert t'.modified == changed';
    }
  }

  lemma {:induction false} ScanBalanced(dir: string, was: seq<FileInfo>, current: seq<FileInfo>, k: nat)
    requires k <= |current| && Sorted(was) && DirectChildren(dir, was)
    ensures var s := ScanFirst(was, current, k);
            && RestFits(was, current, s.rest)
            && s.diff.filesDeleted == [] && s.diff.dirsDeleted == []
            && Balanced(TallyOf(dir, current, s), Vanished(was, current),
                        NewEntries(was, current[..k]), ChangedEntries(was, current[..k]))
    decreases k
  {
    hide TallyOf, FileName, FileInfo.IsDirectory, Balanced, Booked, ScanStep, RestFits;
    if k == 0 {
      StartBalanced(dir, was, current);
    } else {
      ScanBalanced(dir, was, current, k - 1);
      var s, f := ScanFirst(was, current, k - 1), current[k - 1];
      EntriesStep(was, current, k - 1);
      StepBooked(dir, was, current, k - 1, s);
      BookedBalanced(TallyOf(dir, current, s), TallyOf(dir, current, ScanStep(s, f, current)), f,
                     IsNew(was, f), IsChanged(was, f), Vanished(was, current),
                     NewEntries(was, current[..k - 1]), NewEntries(was, current[..k]),
                     ChangedEntries(was, current[..k - 1]), ChangedEntries(was, current[..k]));
    }
  }

  lemma StartBalanced(dir: string, was: seq<FileInfo>, current: seq<FileInfo>)
    requires Sorted(was)
    ensures RestFits(was, current, was)
    ensures Balanced(TallyOf(dir, current, Scan(was, EmptyDiff)), Vanished(was, current),
                     NewEntries(was, current[..0]), ChangedEntries(was, current[..0]))
  {
    assert current[..0] == [];
    assert Firsts(dir, []) == [] && Seconds([]) == [];
  }

  /** The deletions of the diff are those of the entries that are gone, by kind. */
  ghost predicate DeletesAre(d: Diff, diff: Diff, rest: seq<FileInfo>, current: seq<FileInfo>) {
    && d.DeletedPaths() == Vanished(rest, current)
    && d.(filesDeleted := [], dirsDeleted := []) == diff
    && (forall f :: f in d.filesDeleted <==> f in rest && !Holds(current, f.path) && !f.IsDirectory())
    && (forall f :: f in d.dirsDeleted <==> f in rest && !Holds(current, f.path) && f.IsDirectory())
  }

  lemma NoDeletes(diff: Diff, current: seq<FileInfo>)
    requires diff.filesDeleted == [] && diff.dirsDeleted == []
    ensures DeletesAre(diff, diff, [], current)
  {
  }

  lemma DeletedPathsStep(d: Diff, rest: seq<FileInfo>, current: seq<FileInfo>, f: FileInfo)
    requires d.DeletedPaths() == Vanished(rest, current)
    ensures (if Holds(current, f.path) then d else d.AddDeleted(f)).DeletedPaths() == Vanished(rest + [f], current)
  {
    hide FileInfo.IsDirectory, Holds;
    FilePathsAppend(d.filesDeleted, f);
    FilePathsAppend(d.dirsDeleted, f);
    assert (rest + [f])[..|rest|] == rest;
  }

  lemma DeletesStep(d: Diff, diff: Diff, rest: seq<FileInfo>, current: seq<FileInfo>, f: FileInfo)
    requires DeletesAre(d, diff, rest, current)
    ensures DeletesAre(if Holds(current, f.path) then d else d.AddDeleted(f), diff, rest + [f], current)
  {
    hide FileInfo.IsDirectory, Holds, Diff.DeletedPaths, Vanished;
    DeletedPathsStep(d, rest, current, f);
  }

  lemma {:induction false} DeletesBalanced(diff: Diff, rest: seq<FileInfo>, current: seq<FileInfo>, k: nat)
    requires k <= |rest| && diff.filesDeleted == [] && diff.dirsDeleted == []
    ensures DeletesAre(DeleteFirst(diff, rest, current, k), diff, rest[..k], current)
    decreases k
  {
    hide FileInfo.IsDirectory, Holds, DeletesAre, Diff.AddDeleted;
    if k == 0 {
      NoDeletes(diff, current);
    } else {
      DeletesBalanced(diff, rest, current, k - 1);
      DeletesStep(DeleteFirst(diff, rest, current, k - 1), diff, rest[..k - 1], current, rest[k - 1]);
      assert rest[..k] == rest[..k - 1] + [rest[k - 1]];
    }
  }

  // ---------- what the diff accounts for ----------

  lemma LastIsNotBefore(files: seq<FileInfo>)
    requires Sorted(files) && files != []
    ensures Sorted(files[..|files| - 1])
    ensures !Holds(files[..|files| - 1], files[|files| - 1].path)
    ensures forall p :: Holds(files, p) <==> Holds(files[..|files| - 1], p) || p == files[|files| - 1].path
    ensures forall f :: f in files <==> f in files[..|files| - 1] || f == files[|files| - 1]
    ensures files[|files| - 1] !in files[..|files| - 1]
  {
    var front, last := files[..|files| - 1], files[|files| - 1];
    assert files == front + [last];
    LessIrreflexive(last.path);
    assert forall i | 0 <= i < |front| :: Less(files[i].path, last.path);
    forall p
      ensures Holds(files, p) <==> Holds(front, p) || p == last.path
    {
      if Holds(front, p) {
        var i :| 0 <= i < |front| && front[i].path == p;
        assert files[i].path == p;
      }
      assert files[|files| - 1].path == last.path;
    }
  }

  lemma {:induction false} VanishedOnce(files: seq<FileInfo>, current: seq<FileInfo>, p: string)
    requires Sorted(files)
    ensures Vanished(files, current)[p] == if Holds(files, p) && !Holds(current, p) then 1 else 0
    decreases |files|
  {
    if files != [] {
      LastIsNotBefore(files);
      VanishedOnce(files[..|files| - 1], current, p);
    }
  }

  lemma {:induction false} EntriesOnce(was: seq<FileInfo>, files: seq<FileInfo>, f: FileInfo)
    requires Sorted(files)
    ensures NewEntries(was, files)[f] == if f in files && IsNew(was, f) then 1 else 0
    ensures ChangedEntries(was, files)[f] == if f in files && IsChanged(was, f) then 1 else 0
    decreases |files|
  {
    if files != [] {
      LastIsNotBefore(files);
      EntriesOnce(was, files[..|files| - 1], f);
    }
  }

  /** An entry has changed when the old one of its path differs in anything but the link count. */
  lemma ChangedMeans(was: seq<FileInfo>, f: FileInfo)
    requires Sorted(was)
    ensures IsChanged(was, f) <==> exists o :: o in was && o.path == f.path && o.(links := f.links) != f
  {
    var k := Find(was, f.path);
    forall o | o in was && o.path == f.path
      ensures k < |was| && o == was[k]
    {
      var j :| 0 <= j < |was| && was[j] == o;
      SortedDistinct(was, j, k);
    }
    if k < |was| {
      assert was[k] in was;
    }
  }

  lemma ScanTallies(dir: string, was: seq<FileInfo>, current: seq<FileInfo>)
    requires Sorted(was) && Sorted(current) && DirectChildren(dir, was)
    ensures var d := ScanDiff(was, current);
            && (forall p :: d.DeletedPaths()[p] + d.Sources(dir)[p] ==
                 if Holds(was, p) && !Holds(current, p) then 1 else 0)
            && (forall f :: d.Created()[f] + d.Destinations()[f] == if f in current && IsNew(was, f) then 1 else 0)
            && (forall f :: d.Modified()[f] == if f in current && IsChanged(was, f) then 1 else 0)
  {
    var n, s := |current|, ScanFirst(was, current, |current|);
    ScanBalanced(dir, was, current, n);
    DeletesBalanced(s.diff, s.rest, current, |s.rest|);
    assert current[..n] == current && s.rest[..|s.rest|] == s.rest;
    forall p {
      VanishedOnce(was, current, p);
    }
    forall f {
      EntriesOnce(was, current, f);
    }
  }

  /** Each vanished path is exactly one Deleted or one Moved source, each new entry exactly one Created
      or one Moved destination, and each kept entry is Modified exactly when anything but its link count
      has become different. */
  lemma DiffAccounts(dir: string, was: seq<FileInfo>, current: seq<FileInfo>)
    requires Sorted(was) && Sorted(current) && DirectChildren(dir, was)
    ensures var d := ScanDiff(was, current);
            && (forall p :: d.DeletedPaths()[p] + d.Sources(dir)[p] ==
                 if Holds(was, p) && !Holds(current, p) then 1 else 0)
            && (forall f :: d.Created()[f] + d.Destinations()[f] ==
                 if f in current && !Holds(was, f.path) then 1 else 0)
            && (forall f :: d.Modified()[f] ==
                 if f in current && exists o :: o in was && o.path == f.path && o.(links := f.links) != f
                 then 1 else 0)
  {
    hide ScanDiff, IsChanged, DirectChildren, Holds;
    ScanTallies(dir, was, current);
    forall f {
      ChangedMeans(was, f);
    }
  }

  /** The entries of each list are of its kind. */
  ghost predicate KindsSplit(d: Diff) {
    && (forall f | f in d.filesDeleted || f in d.filesCreated || f in d.filesModified :: !f.IsDirectory())
    && (forall f | f in d.dirsDeleted || f in d.dirsCreated || f in d.dirsModified :: f.IsDirectory())
    && (forall m | m in d.filesMoved :: !m.1.IsDirectory())
    && (forall m | m in d.dirsMoved :: m.1.IsDirectory())
  }

  /** A moved entry is an old one with an inode that is gone under its old path, and nothing but the path
      and the link count has become different. */
  ghost predicate MoveMatches(dir: string, was: seq<FileInfo>, current: seq<FileInfo>, m: (string, FileInfo)) {
    exists o :: && o in was && o.path == dir + m.0 && o.path != m.1.path && !Holds(current, o.path)
                && o.inode != 0 && o.(path := m.1.path, links := m.1.links) == m.1
  }

  /** What is Created had no old entry left to be moved from. */
  ghost predicate NoneMissed(d: Diff, rest: seq<FileInfo>, current: seq<FileInfo>) {
    forall f, o | (f in d.filesCreated || f in d.dirsCreated) && o in rest :: !Matches(o, f, current)
  }

  ghost predicate AllMatch(dir: string, was: seq<FileInfo>, current: seq<FileInfo>, moved: seq<(string, FileInfo)>) {
    forall m | m in moved :: MoveMatches(dir, was, current, m)
  }

  ghost predicate Matched(dir: string, was: seq<FileInfo>, current: seq<FileInfo>, s: Scan) {
    && (forall o | o in s.rest :: o in was)
    && AllMatch(dir, was, current, s.diff.filesMoved) && AllMatch(dir, was, current, s.diff.dirsMoved)
  }

  lemma MatchedMove(dir: string, was: seq<FileInfo>, current: seq<FileInfo>, s: Scan, f: FileInfo, c: nat, name: string)
    requires Matched(dir, was, current, s)
    requires c < |s.rest| && Matches(s.rest[c], f, current) && s.rest[c].path == dir + name
    ensures Matched(dir, was, current, Scan(Without(s.rest, c), s.diff.AddMoved(name, f)))
  {
    var o := s.rest[c];
    assert o in s.rest && o in was;
    assert MoveMatches(dir, was, current, (name, f));
    assert forall x | x in Without(s.rest, c) :: x in s.rest;
  }

  lemma MatchedStep(dir: string, was: seq<FileInfo>, current: seq<FileInfo>, s: Scan, f: FileInfo)
    requires DirectChildren(dir, was) && Matched(dir, was, current, s)
    ensures Matched(dir, was, current, ScanStep(s, f, current))
  {
    hide FileName, Matches, MoveMatches;
    var i, c := Find(s.rest, f.path), NodeInFiles(s.rest, f, current);
    if i == |s.rest| && c < |s.rest| {
      assert s.rest[c] in s.rest && s.rest[c] in was;
      MatchedMove(dir, was, current, s, f, c, FileName(s.rest[c].path));
    }
  }

  lemma KindsStep(s: Scan, f: FileInfo, current: seq<FileInfo>)
    requires KindsSplit(s.diff)
    ensures KindsSplit(ScanStep(s, f, current).diff)
  {
    hide FileInfo.IsDirectory, FileName, Matches, Without;
  }

  lemma NoneMissedStep(s: Scan, f: FileInfo, current: seq<FileInfo>)
    requires NoneMissed(s.diff, s.rest, current)
    ensures NoneMissed(ScanStep(s, f, current).diff, ScanStep(s, f, current).rest, current)
  {
    var i, c := Find(s.rest, f.path), NodeInFiles(s.rest, f, current);
    if i == |s.rest| && c < |s.rest| {
      assert forall x | x in Without(s.rest, c) :: x in s.rest;
    }
  }

  lemma {:induction false} ScanMatched(dir: string, was: seq<FileInfo>, current: seq<FileInfo>, k: nat, s: Scan)
    requires k <= |current| && DirectChildren(dir, was) && s == ScanFirst(was, current, k)
    ensures Matched(dir, was, current, s)
    decreases k
  {
    hide MoveMatches, ScanStep, DirectChildren;
    if k > 0 {
      var s0 := ScanFirst(was, current, k - 1);
      ScanMatched(dir, was, current, k - 1, s0);
      MatchedStep(dir, was, current, s0, current[k - 1]);
    }
  }

  lemma {:induction false} ScanKinds(was: seq<FileInfo>, current: seq<FileInfo>, k: nat)
    requires k <= |current|
    ensures KindsSplit(ScanFirst(was, current, k).diff)
    decreases k
  {
    if k > 0 {
      ScanKinds(was, current, k - 1);
      KindsStep(ScanFirst(was, current, k - 1), current[k - 1], current);
    }
  }

  lemma {:induction false} ScanMissesNone(was: seq<FileInfo>, current: seq<FileInfo>, k: nat)
    requires k <= |current|
    ensures NoneMissed(ScanFirst(was, current, k).diff, ScanFirst(was, current, k).rest, current)
    decreases k
  {
    if k > 0 {
      ScanMissesNone(was, current, k - 1);
      NoneMissedStep(ScanFirst(was, current, k - 1), current[k - 1], current);
    }
  }

  lemma NoDeletesStep(s: Scan, f: FileInfo, current: seq<FileInfo>)
    ensures ScanStep(s, f, current).diff.filesDeleted == s.diff.filesDeleted
    ensures ScanStep(s, f, current).diff.dirsDeleted == s.diff.dirsDeleted
  {
    hide FileInfo.Same, FileInfo.IsDirectory, FileName, Matches, Find, NodeInFiles, Without;
  }

  lemma {:induction false} NoDeletesYet(was: seq<FileInfo>, current: seq<FileInfo>, k: nat)
    requires k <= |current|
    ensures ScanFirst(was, current, k).diff.filesDeleted == [] && ScanFirst(was, current, k).diff.dirsDeleted == []
    decreases k
  {
    hide ScanStep;
    if k > 0 {
      NoDeletesYet(was, current, k - 1);
      NoDeletesStep(ScanFirst(was, current, k - 1), current[k - 1], current);
    }
  }

  /** Entries of the current listing, in its order. */
  ghost predicate Picked(files: seq<FileInfo>, current: seq<FileInfo>) {
    && (forall f | f in files :: f in current)
    && (Sorted(current) ==> Sorted(files))
  }

  ghost predicate AllPicked(d: Diff, current: seq<FileInfo>) {
    && Picked(d.filesCreated, current) && Picked(d.dirsCreated, current)
    && Picked(d.filesModified, current) && Picked(d.dirsModified, current)
    && Picked(Seconds(d.filesMoved), current) && Picked(Seconds(d.dirsMoved), current)
  }

  lemma PickedStep(files: seq<FileInfo>, current: seq<FileInfo>, k: nat)
    requires k < |current| && Picked(files, current[..k])
    ensures Picked(files, current[..k + 1]) && Picked(files + [current[k]], current[..k + 1])
  {
    var now := current[..k + 1];
    assert forall i | 0 <= i < k :: current[..k][i] == now[i];
    if Sorted(now) {
      assert Sorted(current[..k]);
      forall i | 0 <= i < |files|
        ensures Less(files[i].path, current[k].path)
      {
        assert files[i] in current[..k];
        var j :| 0 <= j < k && current[..k][j] == files[i];
        assert Less(now[j].path, now[k].path);
      }
    }
    assert now[k] == current[k] && forall f | f in current[..k] :: f in now;
  }

  lemma AllPickedStep(d: Diff, current: seq<FileInfo>, k: nat, name: string)
    requires k < |current| && AllPicked(d, current[..k])
    ensures var f, now := current[k], current[..k + 1];
            && AllPicked(d, now) && AllPicked(d.AddCreated(f), now)
            && AllPicked(d.AddModified(f), now) && AllPicked(d.AddMoved(name, f), now)
  {
    hide Picked, FileInfo.IsDirectory;
    var f := current[k];
    PickedStep(d.filesCreated, current, k);
    PickedStep(d.dirsCreated, current, k);
    PickedStep(d.filesModified, current, k);
    PickedStep(d.dirsModified, current, k);
    PickedStep(Seconds(d.filesMoved), current, k);
    PickedStep(Seconds(d.dirsMoved), current, k);
    FirstsAppend("", d.filesMoved, (name, f));
    FirstsAppend("", d.dirsMoved, (name, f));
  }

  lemma {:induction false} ScanInOrder(was: seq<FileInfo>, current: seq<FileInfo>, k: nat)
    requires k <= |current|
    ensures AllPicked(ScanFirst(was, current, k).diff, current[..k])
    decreases k
  {
    hide AllPicked, Find, NodeInFiles, Without, FileName, FileInfo.Same, Diff.AddCreated, Diff.AddModified,
         Diff.AddMoved;
    if k == 0 {
      PickedNone(current[..0]);
    } else {
      ScanInOrder(was, current, k - 1);
      var s, f := ScanFirst(was, current, k - 1), current[k - 1];
      var c := NodeInFiles(s.rest, f, current);
      AllPickedStep(s.diff, current, k - 1, if c < |s.rest| then FileName(s.rest[c].path) else "");
    }
  }

  lemma PickedNone(current: seq<FileInfo>)
    ensures Picked([], current) && AllPicked(EmptyDiff, current)
  {
  }

  /** Moves pair the same file under two paths, no pair is left unpaired, and directories and files are
      reported in their own lists. */
  lemma MovesComplete(dir: string, was: seq<FileInfo>, current: seq<FileInfo>)
    requires DirectChildren(dir, was)
    ensures var d := ScanDiff(was, current);
            && (forall m | m in d.filesMoved || m in d.dirsMoved :: MoveMatches(dir, was, current, m))
            && KindsSplit(d)
            && (forall f, o | (f in d.filesCreated || f in d.dirsCreated)
                && (o in d.filesDeleted || o in d.dirsDeleted) ::
                  o in was && !Holds(current, o.path)
                  && (o.inode == 0 || o.(path := f.path, links := f.links) != f))
  {
    hide FileInfo.IsDirectory, Matches, MoveMatches, DirectChildren;
    var s := ScanFirst(was, current, |current|);
    ScanMatched(dir, was, current, |current|, s);
    ScanKinds(was, current, |current|);
    ScanMissesNone(was, current, |current|);
    NoDeletesYet(was, current, |current|);
    DeletesBalanced(s.diff, s.rest, current, |s.rest|);
    DeletedIn(s, current, ScanDiff(was, current));
    PickedAtEnd(was, current);
    forall f, o | (f in s.diff.filesCreated || f in s.diff.dirsCreated) && o in s.rest && !Holds(current, o.path)
      ensures o.inode == 0 || o.(path := f.path, links := f.links) != f
    {
      NotPaired(current, o, f);
    }
  }

  lemma PickedAtEnd(was: seq<FileInfo>, current: seq<FileInfo>)
    ensures AllPicked(ScanFirst(was, current, |current|).diff, current)
  {
    ScanInOrder(was, current, |current|);
    assert current[..|current|] == current;
  }

  lemma NotPaired(current: seq<FileInfo>, o: FileInfo, f: FileInfo)
    requires !Holds(current, o.path) && f in current && !Matches(o, f, current)
    ensures o.inode == 0 || o.(path := f.path, links := f.links) != f
  {
    var i :| 0 <= i < |current| && current[i] == f;
    assert Holds(current, f.path);
  }

  lemma DeletedIn(s: Scan, current: seq<FileInfo>, d: Diff)
    requires DeletesAre(d, s.diff, s.rest[..|s.rest|], current)
    requires KindsSplit(s.diff)
    ensures KindsSplit(d)
    ensures forall f | f in d.filesDeleted || f in d.dirsDeleted :: f in s.rest && !Holds(current, f.path)
    ensures d.filesCreated == s.diff.filesCreated && d.dirsCreated == s.diff.dirsCreated
    ensures d.filesMoved == s.diff.filesMoved && d.dirsMoved == s.diff.dirsMoved
  {
    hide FileInfo.IsDirectory, Holds;
    assert s.rest[..|s.rest|] == s.rest;
  }

  lemma {:induction false} DeletesInOrder(diff: Diff, rest: seq<FileInfo>, current: seq<FileInfo>, k: nat)
    requires k <= |rest| && diff.filesDeleted == [] && diff.dirsDeleted == []
    ensures var d := DeleteFirst(diff, rest, current, k);
            Picked(d.filesDeleted, rest[..k]) && Picked(d.dirsDeleted, rest[..k])
    decreases k
  {
    hide Picked, Holds, FileInfo.IsDirectory;
    if k == 0 {
      PickedNone(rest[..0]);
    } else {
      DeletesInOrder(diff, rest, current, k - 1);
      var d := DeleteFirst(diff, rest, current, k - 1);
      PickedStep(d.filesDeleted, rest, k - 1);
      PickedStep(d.dirsDeleted, rest, k - 1);
    }
  }

  /** Every list of the diff is in path order, a moved entry by its new path. */
  lemma DiffInOrder(dir: string, was: seq<FileInfo>, current: seq<FileInfo>)
    requires Sorted(was) && Sorted(current) && DirectChildren(dir, was)
    ensures var d := ScanDiff(was, current);
            && Sorted(d.filesDeleted) && Sorted(d.filesCreated) && Sorted(d.filesModified)
            && Sorted(d.dirsDeleted) && Sorted(d.dirsCreated) && Sorted(d.dirsModified)
            && Sorted(Seconds(d.filesMoved)) && Sorted(Seconds(d.dirsMoved))
  {
    hide Sorted, Holds, FileInfo.IsDirectory, ScanStep;
    var s := ScanFirst(was, current, |current|);
    PickedAtEnd(was, current);
    ScanBalanced(dir, was, current, |current|);
    DeletesBalanced(s.diff, s.rest, current, |s.rest|);
    DeletesInOrder(s.diff, s.rest, current, |s.rest|);
    assert s.rest[..|s.rest|] == s.rest;
  }

  // ---------- replaying a diff ----------

  function PutAll(m: map<string, FileInfo>, files: seq<FileInfo>): map<string, FileInfo> {
    if files == [] then m else PutAll(m, files[..|files| - 1])[files[|files| - 1].path := files[|files| - 1]]
  }

  function DropAll(m: map<string, FileInfo>, paths: seq<string>): map<string, FileInfo> {
    if paths == [] then m else DropAll(m, paths[..|paths| - 1]) - {paths[|paths| - 1]}
  }

  function PathMap(files: seq<FileInfo>): map<string, FileInfo> {
    PutAll(map[], files)
  }

  function Drops(d: Diff, dir: string): seq<string> {
    FilePaths(d.filesDeleted) + FilePaths(d.dirsDeleted) + Firsts(dir, d.filesMoved) + Firsts(dir, d.dirsMoved)
  }

  function Puts(d: Diff): seq<FileInfo> {
    d.filesCreated + d.dirsCreated + d.filesModified + d.dirsModified + Seconds(d.filesMoved) + Seconds(d.dirsMoved)
  }

  /** What a reader of the diff does with it. */
  function Replay(d: Diff, dir: string, m: map<string, FileInfo>): map<string, FileInfo> {
    PutAll(DropAll(m, Drops(d, dir)), Puts(d))
  }

  lemma {:induction false} PutAllAt(m: map<string, FileInfo>, files: seq<FileInfo>, p: string)
    ensures p in PutAll(m, files) <==> p in m || Holds(files, p)
    ensures Holds(files, p) ==> PutAll(m, files)[p] in files && PutAll(m, files)[p].path == p
    ensures p in m && !Holds(files, p) ==> PutAll(m, files)[p] == m[p]
    decreases |files|
  {
    if files != [] {
      var front, last := files[..|files| - 1], files[|files| - 1];
      PutAllAt(m, front, p);
      assert files == front + [last];
      if Holds(front, p) {
        var i :| 0 <= i < |front| && front[i].path == p;
        assert files[i].path == p;
      }
      if last.path == p {
        assert files[|files| - 1].path == p;
      }
    }
  }

  lemma {:induction false} DropAllAt(m: map<string, FileInfo>, paths: seq<string>, p: string)
    ensures p in DropAll(m, paths) <==> p in m && p !in paths
    ensures p in DropAll(m, paths) ==> DropAll(m, paths)[p] == m[p]
    decreases |paths|
  {
    if paths != [] {
      DropAllAt(m, paths[..|paths| - 1], p);
      assert paths == paths[..|paths| - 1] + [paths[|paths| - 1]];
    }
  }

  lemma ListsCount(d: Diff, dir: string)
    ensures multiset(Drops(d, dir)) == d.DeletedPaths() + d.Sources(dir)
    ensures multiset(Puts(d)) == d.Created() + d.Modified() + d.Destinations()
  {
  }

  lemma DropsAndPuts(dir: string, was: seq<FileInfo>, current: seq<FileInfo>, d: Diff)
    requires Sorted(was) && Sorted(current) && DirectChildren(dir, was) && d == ScanDiff(was, current)
    ensures forall p :: p in Drops(d, dir) <==> Holds(was, p) && !Holds(current, p)
    ensures forall f :: f in Puts(d) <==> f in current && (IsNew(was, f) || IsChanged(was, f))
  {
    ScanTallies(dir, was, current);
    ListsCount(d, dir);
    forall p
      ensures p in Drops(d, dir) <==> Holds(was, p) && !Holds(current, p)
    {
      assert p in Drops(d, dir) <==> multiset(Drops(d, dir))[p] > 0;
    }
    forall f
      ensures f in Puts(d) <==> f in current && (IsNew(was, f) || IsChanged(was, f))
    {
      assert f in Puts(d) <==> multiset(Puts(d))[f] > 0;
    }
  }

  /** Applying the diff to the old listing gives the new one: the same paths, each with an entry equal
      to the new one, and the new entry itself wherever anything was reported. */
  lemma DiffReplays(dir: string, was: seq<FileInfo>, current: seq<FileInfo>)
    requires Sorted(was) && Sorted(current) && DirectChildren(dir, was)
    ensures var r := Replay(ScanDiff(was, current), dir, PathMap(was));
            && (forall p :: p in r <==> Holds(current, p))
            && (forall f | f in current :: f.path in r && r[f.path].(links := f.links) == f)
  {
    var d := ScanDiff(was, current);
    var m, puts := PathMap(was), Puts(d);
    var kept := DropAll(m, Drops(d, dir));
    DropsAndPuts(dir, was, current, d);
    forall p
      ensures p in PutAll(kept, puts) <==> Holds(current, p)
    {
      ReplayedPath(was, current, puts, p);
      PutAllAt(kept, puts, p);
      DropAllAt(m, Drops(d, dir), p);
      PutAllAt(map[], was, p);
    }
    forall f | f in current
      ensures f.path in PutAll(kept, puts) && PutAll(kept, puts)[f.path].(links := f.links) == f
    {
      PutAllAt(kept, puts, f.path);
      DropAllAt(m, Drops(d, dir), f.path);
      PutAllAt(map[], was, f.path);
      ReplayedPath(was, current, puts, f.path);
      ReplayedEntry(was, current, puts, f);
    }
  }

  lemma ReplayedPath(was: seq<FileInfo>, current: seq<FileInfo>, puts: seq<FileInfo>, p: string)
    requires forall f :: f in puts <==> f in current && (IsNew(was, f) || IsChanged(was, f))
    ensures Holds(puts, p) ==> Holds(current, p)
    ensures Holds(current, p) && !Holds(was, p) ==> Holds(puts, p)
  {
    if Holds(puts, p) {
      var i :| 0 <= i < |puts| && puts[i].path == p;
      assert puts[i] in current;
    }
    if Holds(current, p) && !Holds(was, p) {
      var i :| 0 <= i < |current| && current[i].path == p;
      assert current[i] in puts;
    }
  }

  lemma ReplayedEntry(was: seq<FileInfo>, current: seq<FileInfo>, puts: seq<FileInfo>, f: FileInfo)
    requires Sorted(was) && Sorted(current) && f in current
    requires forall g :: g in puts <==> g in current && (IsNew(was, g) || IsChanged(was, g))
    ensures forall g | g in puts && g.path == f.path :: g == f
    ensures !Holds(puts, f.path) ==> Holds(was, f.path)
    ensures !Holds(puts, f.path) ==> forall o | o in was && o.path == f.path :: o.(links := f.links) == f
  {
    var i :| 0 <= i < |current| && current[i] == f;
    forall g | g in puts && g.path == f.path
      ensures g == f
    {
      var j :| 0 <= j < |current| && current[j] == g;
      SortedDistinct(current, i, j);
    }
    if !Holds(puts, f.path) {
      assert f !in puts;
      var k := Find(was, f.path);
      forall o | o in was && o.path == f.path
        ensures o.(links := f.links) == f
      {
        var j :| 0 <= j < |was| && was[j] == o;
        SortedDistinct(was, j, k);
      }
    }
  }
}
