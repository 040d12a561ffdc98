/** One directory's diff, read by names: what happens to the subdirectories of a polled directory. */
module PollLevel {
  import opened Collections
  import opened Paths
  import opened Files
  import opened SnapshotDiff
  import opened Snapshot
  import opened MirrorTree

  // ---------- the directory part of a diff ----------

  lemma NoRepeats<T>(s: seq<T>, i: nat, j: nat)
    requires i < j < |s| && multiset(s)[s[i]] <= 1
    ensures s[i] != s[j]
  {
    assert s == s[..j] + s[j..];
    assert s[i] in s[..j] && s[j] in s[j..];
    assert multiset(s) == multiset(s[..j]) + multiset(s[j..]);
  }

  ghost predicate MovesApart(moved: seq<(string, FileInfo)>) {
    && (forall i, j | 0 <= i < j < |moved| :: moved[i].0 != moved[j].0 && moved[i].1.path != moved[j].1.path)
  }

  /** Deleted directories are old ones that are gone, and every other one that is gone was moved. */
  ghost predicate DeletedDirs(dir: string, was: seq<FileInfo>, files: seq<FileInfo>, d: Diff) {
    && (forall f | f in d.dirsDeleted :: f in was && f.IsDirectory() && !Holds(files, f.path))
    && (forall o | o in was && o.IsDirectory() && !Holds(files, o.path) ::
          o in d.dirsDeleted || exists m :: m in d.dirsMoved && dir + m.0 == o.path)
    && (forall o, m | o in d.dirsDeleted && m in d.dirsMoved :: dir + m.0 != o.path)
  }

  /** Created directories are new ones, and every other new one was moved here. */
  ghost predicate CreatedDirs(was: seq<FileInfo>, files: seq<FileInfo>, d: Diff) {
    && (forall f | f in d.dirsCreated :: f in files && f.IsDirectory() && !Holds(was, f.path))
    && (forall f | f in files && f.IsDirectory() && !Holds(was, f.path) ::
          f in d.dirsCreated || exists m :: m in d.dirsMoved && m.1 == f)
    && (forall f, m | f in d.dirsCreated && m in d.dirsMoved :: m.1 != f)
  }

  ghost predicate MovedDirs(dir: string, was: seq<FileInfo>, files: seq<FileInfo>, d: Diff) {
    && (forall m | m in d.dirsMoved :: m.1 in files && m.1.IsDirectory() && !Holds(was, m.1.path)
                                       && HasDir(was, dir, m.0) && !Holds(files, dir + m.0))
    && MovesApart(d.dirsMoved)
  }

  /** What the directory lists of a diff hold. */
  ghost predicate DirsAccounted(dir: string, was: seq<FileInfo>, files: seq<FileInfo>, d: Diff) {
    CreatedDirs(was, files, d) && DeletedDirs(dir, was, files, d) && MovedDirs(dir, was, files, d)
  }

  lemma DirEntry(files: seq<FileInfo>, dir: string, name: string) returns (f: FileInfo)
    requires HasDir(files, dir, name)
    ensures f in files && f.path == dir + name && f.IsDirectory() && Holds(files, dir + name)
  {
    f :| f in files && f.path == dir + name && f.IsDirectory();
    HeldEntry(files, f);
  }

  lemma SameEntry(files: seq<FileInfo>, f: FileInfo, g: FileInfo)
    requires Sorted(files) && f in files && g in files && f.path == g.path
    ensures f == g
  {
    var i :| 0 <= i < |files| && files[i] == f;
    var j :| 0 <= j < |files| && files[j] == g;
    SortedDistinct(files, i, j);
  }

  lemma InSeconds(moved: seq<(string, FileInfo)>, x: FileInfo)
    ensures x in Seconds(moved) <==> exists n :: n in moved && n.1 == x
  {
    if x in Seconds(moved) {
      var i :| 0 <= i < |moved| && Seconds(moved)[i] == x;
      assert moved[i] in moved;
    }
    if n :| n in moved && n.1 == x {
      var i :| 0 <= i < |moved| && moved[i] == n;
      assert Seconds(moved)[i] == x;
    }
  }

  lemma InFirsts(dir: string, moved: seq<(string, FileInfo)>, m: (string, FileInfo))
    ensures m in moved ==> dir + m.0 in Firsts(dir, moved)
  {
    if m in moved {
      var i :| 0 <= i < |moved| && moved[i] == m;
      assert Firsts(dir, moved)[i] == dir + m.0;
    }
  }

  lemma InLists(dir: string, d: Diff, x: FileInfo, m: (string, FileInfo))
    ensures x in d.filesCreated || x in d.dirsCreated <==> d.Created()[x] > 0
    ensures (exists n :: (n in d.filesMoved || n in d.dirsMoved) && n.1 == x) <==> d.Destinations()[x] > 0
    ensures m in d.filesMoved || m in d.dirsMoved ==> d.Destinations()[m.1] > 0 && d.Sources(dir)[dir + m.0] > 0
    ensures x in d.filesDeleted || x in d.dirsDeleted ==> d.DeletedPaths()[x.path] > 0
  {
    hide Seconds, Firsts, FilePaths;
    InSeconds(d.filesMoved, x);
    InSeconds(d.dirsMoved, x);
    InSeconds(d.filesMoved, m.1);
    InSeconds(d.dirsMoved, m.1);
    InFirsts(dir, d.filesMoved, m);
    InFirsts(dir, d.dirsMoved, m);
    InFilePaths(d.filesDeleted, x);
    InFilePaths(d.dirsDeleted, x);
  }

  lemma InFilePaths(files: seq<FileInfo>, x: FileInfo)
    ensures x in files ==> x.path in FilePaths(files)
  {
    if x in files {
      var i :| 0 <= i < |files| && files[i] == x;
      assert FilePaths(files)[i] == x.path;
    }
  }

  lemma GonePath(dir: string, d: Diff, p: string)
    requires d.DeletedPaths()[p] + d.Sources(dir)[p] > 0
    ensures (exists o :: (o in d.filesDeleted || o in d.dirsDeleted) && o.path == p)
            || (exists m :: (m in d.filesMoved || m in d.dirsMoved) && dir + m.0 == p)
  {
    if p in FilePaths(d.filesDeleted) {
      var i :| 0 <= i < |d.filesDeleted| && FilePaths(d.filesDeleted)[i] == p;
      assert d.filesDeleted[i] in d.filesDeleted;
    } else if p in FilePaths(d.dirsDeleted) {
      var i :| 0 <= i < |d.dirsDeleted| && FilePaths(d.dirsDeleted)[i] == p;
      assert d.dirsDeleted[i] in d.dirsDeleted;
    } else if p in Firsts(dir, d.filesMoved) {
      var i :| 0 <= i < |d.filesMoved| && Firsts(dir, d.filesMoved)[i] == p;
      assert d.filesMoved[i] in d.filesMoved;
    } else {
      assert p in Firsts(dir, d.dirsMoved);
      var i :| 0 <= i < |d.dirsMoved| && Firsts(dir, d.dirsMoved)[i] == p;
      assert d.dirsMoved[i] in d.dirsMoved;
    }
  }

  /** Everything the scan's account says, per item. */
  ghost predicate Counted(dir: string, was: seq<FileInfo>, files: seq<FileInfo>, d: Diff) {
    && (forall p :: d.DeletedPaths()[p] + d.Sources(dir)[p] == if Holds(was, p) && !Holds(files, p) then 1 else 0)
    && (forall f :: d.Created()[f] + d.Destinations()[f] == if f in files && !Holds(was, f.path) then 1 else 0)
    && (forall m | m in d.filesMoved || m in d.dirsMoved :: MoveMatches(dir, was, files, m))
    && KindsSplit(d)
    && (forall o | o in d.filesDeleted || o in d.dirsDeleted :: o in was && !Holds(files, o.path))
  }

  lemma SameKind(o: FileInfo, f: FileInfo)
    requires o.(path := f.path, links := f.links) == f
    ensures o.IsDirectory() == f.IsDirectory()
  {
  }

  lemma MoveKinds(dir: string, was: seq<FileInfo>, files: seq<FileInfo>, d: Diff, m: (string, FileInfo))
    requires Sorted(was) && Counted(dir, was, files, d) && (m in d.filesMoved || m in d.dirsMoved)
    ensures m.1 in files && !Holds(was, m.1.path) && Holds(was, dir + m.0) && !Holds(files, dir + m.0)
    ensures m in d.dirsMoved <==> m.1.IsDirectory()
    ensures exists o :: o in was && o.path == dir + m.0 && o.IsDirectory() == m.1.IsDirectory()
    ensures forall o | o in was && o.path == dir + m.0 :: o.IsDirectory() == m.1.IsDirectory()
  {
    hide FileInfo.IsDirectory, Diff.DeletedPaths, Diff.Sources, Diff.Created, Diff.Destinations;
    InLists(dir, d, m.1, m);
    var o :| o in was && o.path == dir + m.0 && o.(path := m.1.path, links := m.1.links) == m.1;
    SameKind(o, m.1);
    forall x | x in was && x.path == dir + m.0
      ensures x == o
    {
      SameEntry(was, x, o);
    }
  }

  lemma DestinationsApart(dir: string, was: seq<FileInfo>, files: seq<FileInfo>, d: Diff)
    requires Sorted(was) && Sorted(files) && Counted(dir, was, files, d)
    ensures MovesApart(d.dirsMoved)
  {
    var moved := d.dirsMoved;
    forall i, j | 0 <= i < j < |moved|
      ensures moved[i].0 != moved[j].0 && moved[i].1.path != moved[j].1.path
    {
      var firsts, seconds := Firsts(dir, moved), Seconds(moved);
      assert firsts[i] == dir + moved[i].0 && firsts[j] == dir + moved[j].0;
      assert multiset(firsts)[firsts[i]] <= d.Sources(dir)[firsts[i]] <= 1;
      NoRepeats(firsts, i, j);
      assert seconds[i] == moved[i].1 && seconds[j] == moved[j].1;
      assert multiset(seconds)[seconds[i]] <= d.Destinations()[seconds[i]] <= 1;
      NoRepeats(seconds, i, j);
      assert moved[i] in moved && moved[j] in moved;
      MoveKinds(dir, was, files, d, moved[i]);
      MoveKinds(dir, was, files, d, moved[j]);
      if moved[i].1.path == moved[j].1.path {
        SameEntry(files, moved[i].1, moved[j].1);
      }
    }
  }

  lemma HasDirMeans(files: seq<FileInfo>, dir: string, name: string, o: FileInfo)
    requires Sorted(files) && o in files && o.path == dir + name
    ensures HasDir(files, dir, name) <==> o.IsDirectory()
  {
    forall f | f in files && f.path == dir + name {
      SameEntry(files, f, o);
    }
  }

  lemma HeldEntry(files: seq<FileInfo>, f: FileInfo)
    requires f in files
    ensures Holds(files, f.path)
  {
    var i :| 0 <= i < |files| && files[i] == f;
  }

  lemma DirsAreAccounted(dir: string, was: seq<FileInfo>, files: seq<FileInfo>)
    requires IsSnapshotOf(dir, was) && IsSnapshotOf(dir, files)
    ensures DirsAccounted(dir, was, files, ScanDiff(was, files))
  {
    hide Counted, ScanDiff, DirsAccounted, NamedChildren, Sorted;
    NamedAreDirect(dir, was);
    ScanCounted(dir, was, files);
    CountedDirs(dir, was, files, ScanDiff(was, files));
  }

  lemma ScanCounted(dir: string, was: seq<FileInfo>, files: seq<FileInfo>)
    requires Sorted(was) && Sorted(files) && DirectChildren(dir, was)
    ensures Counted(dir, was, files, ScanDiff(was, files))
  {
    hide Sorted, DirectChildren, ScanDiff, FileInfo.IsDirectory, MoveMatches, KindsSplit, Holds, Diff.DeletedPaths,
         Diff.Sources, Diff.Created, Diff.Destinations, Diff.Modified;
    DiffAccounts(dir, was, files);
    MovesComplete(dir, was, files);
    DeletedAreOld(was, files);
  }

  lemma DeletedAreOld(was: seq<FileInfo>, files: seq<FileInfo>)
    requires Sorted(was)
    ensures var d := ScanDiff(was, files);
            forall o | o in d.filesDeleted || o in d.dirsDeleted :: o in was && !Holds(files, o.path)
  {
    var s := ScanFirst(was, files, |files|);
    NoDeletesYet(was, files, |files|);
    DeletesBalanced(s.diff, s.rest, files, |s.rest|);
    RestIsOld(was, files, |files|, s);
    assert s.rest[..|s.rest|] == s.rest;
  }

  lemma {:induction false} RestIsOld(was: seq<FileInfo>, files: seq<FileInfo>, k: nat, s: SnapshotDiff.Scan)
    requires k <= |files| && s == ScanFirst(was, files, k)
    ensures forall o | o in s.rest :: o in was
    decreases k
  {
    hide FileInfo.IsDirectory, Matches, FileName, FileInfo.Same, Find, Holds;
    if k > 0 {
      var s0 := ScanFirst(was, files, k - 1);
      RestIsOld(was, files, k - 1, s0);
      var c := NodeInFiles(s0.rest, files[k - 1], files);
      assert c < |s0.rest| ==> forall x | x in Without(s0.rest, c) :: x in s0.rest;
    }
  }

  lemma CountedDirs(dir: string, was: seq<FileInfo>, files: seq<FileInfo>, d: Diff)
    requires Sorted(was) && Sorted(files) && Counted(dir, was, files, d)
    ensures DirsAccounted(dir, was, files, d)
  {
    hide Counted, Sorted, FileInfo.IsDirectory, MovesApart, HasDir, Holds;
    DestinationsApart(dir, was, files, d);
    CountedCreated(dir, was, files, d);
    CountedDeleted(dir, was, files, d);
    DeletedWere(dir, was, files, d);
    forall m | m in d.dirsMoved
      ensures m.1 in files && m.1.IsDirectory() && !Holds(was, m.1.path) && HasDir(was, dir, m.0)
              && !Holds(files, dir + m.0)
    {
      MovedDir(dir, was, files, d, m);
    }
  }

  lemma DeletedWere(dir: string, was: seq<FileInfo>, files: seq<FileInfo>, d: Diff)
    requires Counted(dir, was, files, d)
    ensures forall f | f in d.dirsDeleted :: f in was && f.IsDirectory() && !Holds(files, f.path)
  {
    hide FileInfo.IsDirectory;
  }

  lemma MovedDir(dir: string, was: seq<FileInfo>, files: seq<FileInfo>, d: Diff, m: (string, FileInfo))
    requires Sorted(was) && Counted(dir, was, files, d) && m in d.dirsMoved
    ensures m.1 in files && m.1.IsDirectory() && !Holds(was, m.1.path) && HasDir(was, dir, m.0)
    ensures !Holds(files, dir + m.0)
  {
    hide Counted, Sorted, FileInfo.IsDirectory;
    MoveKinds(dir, was, files, d, m);
  }

  lemma CountedCreated(dir: string, was: seq<FileInfo>, files: seq<FileInfo>, d: Diff)
    requires Sorted(was) && Sorted(files) && Counted(dir, was, files, d)
    ensures forall f | f in d.dirsCreated :: f in files && f.IsDirectory() && !Holds(was, f.path)
    ensures forall f | f in files && f.IsDirectory() && !Holds(was, f.path) ::
              f in d.dirsCreated || exists m :: m in d.dirsMoved && m.1 == f
    ensures forall f, m | f in d.dirsCreated && m in d.dirsMoved :: m.1 != f
  {
    forall f | f in d.dirsCreated
      ensures f in files && !Holds(was, f.path) && forall m | m in d.dirsMoved :: m.1 != f
    {
      InLists(dir, d, f, ("", f));
    }
    forall f | f in files && f.IsDirectory() && !Holds(was, f.path)
      ensures f in d.dirsCreated || exists m :: m in d.dirsMoved && m.1 == f
    {
      InLists(dir, d, f, ("", f));
      if f !in d.dirsCreated {
        assert d.Created()[f] + d.Destinations()[f] == 1;
        assert f !in d.filesCreated;
        var m :| (m in d.filesMoved || m in d.dirsMoved) && m.1 == f;
        MoveKinds(dir, was, files, d, m);
      }
    }
  }

  lemma CountedDeleted(dir: string, was: seq<FileInfo>, files: seq<FileInfo>, d: Diff)
    requires Sorted(was) && Counted(dir, was, files, d)
    ensures forall o | o in was && o.IsDirectory() && !Holds(files, o.path) ::
              o in d.dirsDeleted || exists m :: m in d.dirsMoved && dir + m.0 == o.path
    ensures forall o, m | o in d.dirsDeleted && m in d.dirsMoved :: dir + m.0 != o.path
  {
    hide FileInfo.IsDirectory, Diff.DeletedPaths, Diff.Sources, Diff.Created, Diff.Destinations, FilePaths, Sorted;
    forall o | o in was && o.IsDirectory() && !Holds(files, o.path)
      ensures o in d.dirsDeleted || exists m :: m in d.dirsMoved && dir + m.0 == o.path
    {
      HeldEntry(was, o);
      assert d.DeletedPaths()[o.path] + d.Sources(dir)[o.path] == 1;
      GonePath(dir, d, o.path);
      if m :| (m in d.filesMoved || m in d.dirsMoved) && dir + m.0 == o.path {
        MoveKinds(dir, was, files, d, m);
      } else {
        var x :| (x in d.filesDeleted || x in d.dirsDeleted) && x.path == o.path;
        SameEntry(was, x, o);
      }
    }
    forall o, m | o in d.dirsDeleted && m in d.dirsMoved
      ensures dir + m.0 != o.path
    {
      InLists(dir, d, o, m);
    }
  }

  // ---------- the children after the diff has been acted on ----------

  lemma {:induction false} CreateAllAt(kids: map<string, Tree>, names: seq<string>, made: map<string, Tree>,
                                       name: string)
    ensures var r := CreateAll(kids, names, made);
            if name in names && name in made then name in r && r[name] == made[name]
            else (name in r <==> name in kids) && (name in r ==> r[name] == kids[name])
    decreases |names|
  {
    if names != [] {
      var front, last := names[..|names| - 1], names[|names| - 1];
      assert names == front + [last];
      CreateAllAt(kids, front, made, name);
    }
  }

  lemma {:induction false} RemoveAllAt(kids: map<string, Tree>, names: seq<string>, name: string)
    ensures var r := RemoveAll(kids, names);
            (name in r <==> name in kids && name !in names) && (name in r ==> r[name] == kids[name])
    decreases |names|
  {
    if names != [] {
      var front, last := names[..|names| - 1], names[|names| - 1];
      assert names == front + [last];
      RemoveAllAt(kids, front, name);
    }
  }

  predicate IsSource(moves: seq<(string, string)>, name: string) {
    exists i :: 0 <= i < |moves| && moves[i].0 == name
  }

  predicate IsTarget(moves: seq<(string, string)>, name: string) {
    exists i :: 0 <= i < |moves| && moves[i].1 == name
  }

  /** Sources and targets of a list of moves are all different names. */
  predicate NamesApart(moves: seq<(string, string)>) {
    && (forall i, j | 0 <= i < j < |moves| :: moves[i].0 != moves[j].0 && moves[i].1 != moves[j].1)
    && (forall i, j | 0 <= i < |moves| && 0 <= j < |moves| :: moves[i].0 != moves[j].1)
  }

  lemma {:induction false} MoveAllUntouched(kids: map<string, Tree>, moves: seq<(string, string)>, dir: string,
                                            name: string)
    requires !IsTarget(moves, name) && !IsSource(moves, name)
    ensures var r := MoveAll(kids, moves, dir);
            (name in r <==> name in kids) && (name in r ==> r[name] == kids[name])
    decreases |moves|
  {
    if moves != [] {
      var front := moves[..|moves| - 1];
      assert forall i | 0 <= i < |front| :: front[i] == moves[i];
      assert moves[|moves| - 1].0 != name && moves[|moves| - 1].1 != name;
      MoveAllUntouched(kids, front, dir, name);
    }
  }

  lemma {:induction false} MoveAllAt(kids: map<string, Tree>, moves: seq<(string, string)>, dir: string, i: nat)
    requires NamesApart(moves) && i < |moves|
    ensures var r := MoveAll(kids, moves, dir);
            && (moves[i].0 in kids ==>
                  && moves[i].0 !in r
                  && moves[i].1 in r && r[moves[i].1] == Rebase(kids[moves[i].0], ChildDir(dir, moves[i].1)))
            && (moves[i].0 !in kids ==> moves[i].0 !in r && (moves[i].1 in r <==> moves[i].1 in kids))
    decreases |moves|
  {
    var n := |moves| - 1;
    var front, last := moves[..n], moves[n];
    assert forall k | 0 <= k < n :: front[k] == moves[k];
    if i == n {
      MoveAllUntouched(kids, front, dir, last.0);
      MoveAllUntouched(kids, front, dir, last.1);
    } else {
      MoveAllAt(kids, front, dir, i);
    }
  }

  // ---------- listings ----------

  lemma ListingSorted(node: Node, dir: string)
    requires WellFormed(node)
    ensures Sorted(Listing(node, dir))
  {
    var l := Listing(node, dir);
    forall i, j | 0 <= i < j < |l|
      ensures Less(l[i].path, l[j].path)
    {
      LessSamePrefix(dir, node.entries[i].0, node.entries[j].0);
    }
  }

  lemma ListingIsSnapshot(node: Node, dir: string)
    requires WellFormed(node) && SlashAtEnd(dir)
    ensures IsSnapshotOf(dir, Supported(Listing(node, dir)))
  {
    var l := Listing(node, dir);
    ListingSorted(node, dir);
    SupportedSorted(l);
    forall f | f in Supported(l)
      ensures |dir| < |f.path| && f.path[..|dir|] == dir && IsName(f.path[|dir|..])
    {
      var i :| 0 <= i < |l| && l[i] == f;
      assert node.entries[i] in node.entries;
      assert f.path[|dir|..] == node.entries[i].0;
    }
  }

  lemma EntryAt(node: Node, i: nat)
    requires WellFormed(node) && node.meta.IsDirectory() && i < |node.entries|
    ensures Entry(node, node.entries[i].0) == Some(node.entries[i].1)
  {
    var name := node.entries[i].0;
    var k :| 0 <= k < |node.entries| && node.entries[k] == (name, EntryFrom(node, name, 0).value);
    LessIrreflexive(name);
  }

  lemma SameTail(dir: string, a: string, b: string)
    requires dir + a == dir + b
    ensures a == b
  {
    assert a == (dir + a)[|dir|..] == (dir + b)[|dir|..] == b;
  }

  /** A listed path is that of an entry. */
  lemma ListedAt(node: Node, dir: string, name: string, f: FileInfo) returns (i: nat)
    requires f in Listing(node, dir) && f.path == dir + name
    ensures i < |node.entries| && node.entries[i].0 == name && node.meta.IsDirectory()
    ensures i < |Listing(node, dir)| && Listing(node, dir)[i] == f
  {
    i :| 0 <= i < |Listing(node, dir)| && Listing(node, dir)[i] == f;
    SameTail(dir, node.entries[i].0, name);
  }

  lemma DirListed(node: Node, dir: string, name: string)
    requires WellFormed(node) && name in DirNames(node)
    ensures HasDir(Supported(Listing(node, dir)), dir, name)
    ensures Entry(node, name).Some? && Entry(node, name).value.meta.IsDirectory()
  {
    hide WellFormed, FileInfo.IsRegularFile;
    var i :| 0 <= i < |node.entries| && node.entries[i].1.meta.IsDirectory() && node.entries[i].0 == name;
    EntryAt(node, i);
    var l := Listing(node, dir);
    assert l[i] in l && l[i].path == dir + name && l[i].IsDirectory();
  }

  /** A listed directory is the node's entry of that name, and a directory. */
  lemma ListedDirs(node: Node, dir: string, name: string)
    requires WellFormed(node) && IsName(name)
    ensures HasDir(Supported(Listing(node, dir)), dir, name) <==> name in DirNames(node)
    ensures name in DirNames(node) ==> Entry(node, name).Some? && Entry(node, name).value.meta.IsDirectory()
    ensures Holds(Supported(Listing(node, dir)), dir + name) ==> Entry(node, name).Some?
  {
    hide WellFormed, FileInfo.IsRegularFile, Listing, EntryFrom, Less;
    var s := Supported(Listing(node, dir));
    if name in DirNames(node) {
      DirListed(node, dir, name);
    }
    if HasDir(s, dir, name) {
      var f := DirEntry(s, dir, name);
      var i := ListedAt(node, dir, name, f);
      ListedKind(node, dir, i);
    }
    if Holds(s, dir + name) {
      var k :| 0 <= k < |s| && s[k].path == dir + name;
      assert s[k] in s;
      var i := ListedAt(node, dir, name, s[k]);
      EntryAt(node, i);
    }
  }

  lemma ListedKind(node: Node, dir: string, i: nat)
    requires i < |Listing(node, dir)|
    ensures i < |node.entries| && Listing(node, dir)[i].IsDirectory() == node.entries[i].1.meta.IsDirectory()
  {
  }

  // ---------- the names in a diff ----------

  lemma NamesAt(dir: string, all: seq<FileInfo>, files: seq<FileInfo>, name: string)
    requires IsSnapshotOf(dir, all) && IsName(name) && forall f | f in files :: f in all
    ensures name in Names(files) <==> exists f :: f in files && f.path == dir + name
  {
    forall i | 0 <= i < |files|
      ensures Names(files)[i] == name <==> files[i].path == dir + name
    {
      assert files[i] in all;
      NameOfChild(dir, files[i]);
    }
    if f :| f in files && f.path == dir + name {
      var i :| 0 <= i < |files| && files[i] == f;
      assert Names(files)[i] == name;
    }
  }

  lemma MoveNameAt(dir: string, was: seq<FileInfo>, files: seq<FileInfo>, d: Diff, i: nat)
    requires IsSnapshotOf(dir, was) && IsSnapshotOf(dir, files) && DirsAccounted(dir, was, files, d)
             && i < |d.dirsMoved|
    ensures var n, m := MoveNames(d.dirsMoved)[i], d.dirsMoved[i];
            && n.0 == m.0 && IsName(n.0) && IsName(n.1) && m.1.path == dir + n.1
            && HasDir(was, dir, n.0) && !Holds(files, dir + n.0)
            && HasDir(files, dir, n.1) && !Holds(was, dir + n.1)
  {
    var m := d.dirsMoved[i];
    assert m in d.dirsMoved;
    var o :| o in was && o.path == dir + m.0 && o.IsDirectory();
    NameOfChild(dir, o);
    assert o.path[|dir|..] == m.0;
    FileNameOfName(m.0);
    NameOfChild(dir, m.1);
  }

  /** The moves by name: from a directory that is gone to one that is new. */
  ghost predicate MoveFacts(dir: string, was: seq<FileInfo>, files: seq<FileInfo>, moved: seq<(string, FileInfo)>,
                            moves: seq<(string, string)>)
  {
    && |moves| == |moved|
    && (forall i | 0 <= i < |moves| ::
          && moved[i].0 == moves[i].0 && moved[i].1.path == dir + moves[i].1
          && IsName(moves[i].0) && IsName(moves[i].1)
          && HasDir(was, dir, moves[i].0) && !Holds(files, dir + moves[i].0)
          && HasDir(files, dir, moves[i].1) && !Holds(was, dir + moves[i].1))
  }

  lemma MoveFactsHold(dir: string, was: seq<FileInfo>, files: seq<FileInfo>, d: Diff)
    requires IsSnapshotOf(dir, was) && IsSnapshotOf(dir, files) && DirsAccounted(dir, was, files, d)
    ensures MoveFacts(dir, was, files, d.dirsMoved, MoveNames(d.dirsMoved))
    ensures NamesApart(MoveNames(d.dirsMoved))
  {
    forall i | 0 <= i < |d.dirsMoved| {
      MoveNameAt(dir, was, files, d, i);
    }
    FactsApart(dir, was, files, d.dirsMoved, MoveNames(d.dirsMoved));
  }

  lemma FactsApart(dir: string, was: seq<FileInfo>, files: seq<FileInfo>, moved: seq<(string, FileInfo)>,
                   moves: seq<(string, string)>)
    requires MoveFacts(dir, was, files, moved, moves) && MovesApart(moved)
    ensures NamesApart(moves)
  {
    forall i | 0 <= i < |moves|
      ensures Holds(files, dir + moves[i].1)
    {
      var _ := DirEntry(files, dir, moves[i].1);
    }
    forall i, j | 0 <= i < j < |moves|
      ensures moves[i].1 != moves[j].1
    {
      assert moved[i].1.path != moved[j].1.path;
    }
  }

  lemma MoveIndex(moved: seq<(string, FileInfo)>, m: (string, FileInfo)) returns (i: nat)
    requires m in moved
    ensures i < |moved| && moved[i] == m
  {
    i :| 0 <= i < |moved| && moved[i] == m;
  }

  /** A vanished directory is deleted or the source of a move, by name, and not both. */
  lemma GoneNames(dir: string, was: seq<FileInfo>, files: seq<FileInfo>, d: Diff, moves: seq<(string, string)>,
                  name: string)
    requires IsSnapshotOf(dir, was) && DeletedDirs(dir, was, files, d) && IsName(name)
    requires MoveFacts(dir, was, files, d.dirsMoved, moves)
    ensures HasDir(was, dir, name) && !Holds(files, dir + name) ==>
              name in Names(d.dirsDeleted) || IsSource(moves, name)
    ensures name in Names(d.dirsDeleted) || IsSource(moves, name) ==>
              HasDir(was, dir, name) && !Holds(files, dir + name)
    ensures !(name in Names(d.dirsDeleted) && IsSource(moves, name))
  {
    NamesAt(dir, was, d.dirsDeleted, name);
    if HasDir(was, dir, name) && !Holds(files, dir + name) {
      var o := DirEntry(was, dir, name);
      if o !in d.dirsDeleted {
        var m :| m in d.dirsMoved && dir + m.0 == o.path;
        var i := MoveIndex(d.dirsMoved, m);
        SameTail(dir, moves[i].0, name);
      }
    }
    if IsSource(moves, name) {
      var i :| 0 <= i < |moves| && moves[i].0 == name;
      assert d.dirsMoved[i] in d.dirsMoved;
    }
  }

  /** A new directory is created or the target of a move, by name. */
  lemma NewNames(dir: string, was: seq<FileInfo>, files: seq<FileInfo>, d: Diff, moves: seq<(string, string)>,
                 name: string)
    requires IsSnapshotOf(dir, files) && CreatedDirs(was, files, d) && IsName(name)
    requires MoveFacts(dir, was, files, d.dirsMoved, moves)
    ensures !Holds(was, dir + name) && HasDir(files, dir, name) ==>
              name in Names(d.dirsCreated) || IsTarget(moves, name)
    ensures name in Names(d.dirsCreated) || IsTarget(moves, name) ==>
              !Holds(was, dir + name) && HasDir(files, dir, name)
  {
    NamesAt(dir, files, d.dirsCreated, name);
    if !Holds(was, dir + name) && HasDir(files, dir, name) {
      var f := DirEntry(files, dir, name);
      if f !in d.dirsCreated {
        var m :| m in d.dirsMoved && m.1 == f;
        var i := MoveIndex(d.dirsMoved, m);
        SameTail(dir, moves[i].1, name);
      }
    }
  }

  // ---------- the children of a polled directory ----------

  ghost predicate KeyedByDirs(kids: map<string, Tree>, files: seq<FileInfo>, dir: string) {
    forall n :: n in kids <==> IsName(n) && HasDir(files, dir, n)
  }

  /** The children before the moves. */
  lemma KidsBeforeMoves(dir: string, was: seq<FileInfo>, files: seq<FileInfo>, d: Diff, moves: seq<(string, string)>,
                        kids: map<string, Tree>, made: map<string, Tree>, name: string)
    requires IsSnapshotOf(dir, was) && IsSnapshotOf(dir, files) && DirsAccounted(dir, was, files, d)
    requires MoveFacts(dir, was, files, d.dirsMoved, moves)
    requires KeyedByDirs(kids, was, dir) && KeyedByDirs(made, files, dir) && IsName(name)
    ensures var r := RemoveAll(CreateAll(kids, Names(d.dirsCreated), made), Names(d.dirsDeleted));
            && (name in r <==>
                if Holds(was, dir + name) then
                  HasDir(was, dir, name) && (Holds(files, dir + name) || IsSource(moves, name))
                else name in Names(d.dirsCreated))
            && (name in r && Holds(was, dir + name) ==> r[name] == kids[name])
            && (name in r && !Holds(was, dir + name) ==> name in made && r[name] == made[name])
  {
    var created := CreateAll(kids, Names(d.dirsCreated), made);
    CreateAllAt(kids, Names(d.dirsCreated), made, name);
    RemoveAllAt(created, Names(d.dirsDeleted), name);
    GoneNames(dir, was, files, d, moves, name);
    NewNames(dir, was, files, d, moves, name);
    NamesAt(dir, was, d.dirsDeleted, name);
    NamesAt(dir, files, d.dirsCreated, name);
    if name in kids {
      var _ := DirEntry(was, dir, name);
    }
    if name in Names(d.dirsDeleted) {
      var o :| o in d.dirsDeleted && o.path == dir + name;
      HeldEntry(was, o);
    }
  }

  lemma KidsByName(dir: string, was: seq<FileInfo>, files: seq<FileInfo>, d: Diff, moves: seq<(string, string)>,
                   kids: map<string, Tree>, made: map<string, Tree>, name: string)
    requires IsSnapshotOf(dir, was) && IsSnapshotOf(dir, files) && DirsAccounted(dir, was, files, d)
    requires MoveFacts(dir, was, files, d.dirsMoved, moves) && NamesApart(moves)
    requires KeyedByDirs(kids, was, dir) && KeyedByDirs(made, files, dir) && IsName(name)
    ensures var r := RemoveAll(CreateAll(kids, Names(d.dirsCreated), made), Names(d.dirsDeleted));
            var k, p := MoveAll(r, moves, dir), dir + name;
            && (name in k <==>
                if Holds(was, p) then HasDir(was, dir, name) && Holds(files, p) else HasDir(files, dir, name))
            && (name in k && Holds(was, p) ==> k[name] == kids[name])
            && (name in k && !Holds(was, p) ==>
                  || (name in made && k[name] == made[name])
                  || exists src ::
                       src in kids && !Holds(files, dir + src) && k[name] == Rebase(kids[src], ChildDir(dir, name)))
  {
    hide FileInfo.IsDirectory, Rebase, IsSnapshotOf, DeletedDirs, CreatedDirs, CreateAll, RemoveAll, MoveAll, Names;
    var r := RemoveAll(CreateAll(kids, Names(d.dirsCreated), made), Names(d.dirsDeleted));
    KidsBeforeMoves(dir, was, files, d, moves, kids, made, name);
    GoneNames(dir, was, files, d, moves, name);
    NewNames(dir, was, files, d, moves, name);
    if IsTarget(moves, name) {
      var i :| 0 <= i < |moves| && moves[i].1 == name;
      MoveAllAt(r, moves, dir, i);
      KidsBeforeMoves(dir, was, files, d, moves, kids, made, moves[i].0);
      SourceHeld(dir, was, files, d.dirsMoved, moves, i);
    } else if IsSource(moves, name) {
      var i :| 0 <= i < |moves| && moves[i].0 == name;
      MoveAllAt(r, moves, dir, i);
      SourceHeld(dir, was, files, d.dirsMoved, moves, i);
    } else {
      MoveAllUntouched(r, moves, dir, name);
    }
  }

  lemma SourceHeld(dir: string, was: seq<FileInfo>, files: seq<FileInfo>, moved: seq<(string, FileInfo)>,
                   moves: seq<(string, string)>, i: nat)
    requires MoveFacts(dir, was, files, moved, moves) && i < |moves|
    ensures Holds(was, dir + moves[i].0) && IsSource(moves, moves[i].0)
  {
    var _ := DirEntry(was, dir, moves[i].0);
  }

  lemma NoOtherKids(dir: string, was: seq<FileInfo>, files: seq<FileInfo>, d: Diff, moves: seq<(string, string)>,
                    kids: map<string, Tree>, made: map<string, Tree>, name: string)
    requires MoveFacts(dir, was, files, d.dirsMoved, moves)
    requires KeyedByDirs(kids, was, dir) && KeyedByDirs(made, files, dir) && !IsName(name)
    ensures name !in MoveAll(RemoveAll(CreateAll(kids, Names(d.dirsCreated), made), Names(d.dirsDeleted)), moves, dir)
  {
    var created := CreateAll(kids, Names(d.dirsCreated), made);
    CreateAllAt(kids, Names(d.dirsCreated), made, name);
    RemoveAllAt(created, Names(d.dirsDeleted), name);
    MoveAllUntouched(RemoveAll(created, Names(d.dirsDeleted)), moves, dir, name);
  }

  /** After the diff: a subdirectory that stayed keeps its tree, a new one has been created or moved
      here, and there are no others. */
  lemma KidsAfterAt(t: Tree, node: Node, name: string)
    requires Consistent(t) && WellFormed(node)
    ensures var files, k, p := Supported(Listing(node, t.dir)), KidsAfter(t, node), t.dir + name;
            && (name in k <==> IsName(name) && if Holds(t.files, p) then HasDir(t.files, t.dir, name) && Holds(files, p)
                                               else HasDir(files, t.dir, name))
            && (name in k && Holds(t.files, p) ==> name in t.kids && k[name] == t.kids[name])
            && (name in k && !Holds(t.files, p) ==>
                  || (name in Mirror(node, t.dir).kids && k[name] == Mirror(node, t.dir).kids[name])
                  || exists src ::
                       src in t.kids && !Holds(files, t.dir + src)
                       && k[name] == Rebase(t.kids[src], ChildDir(t.dir, name)))
  {
    hide FileInfo.IsDirectory, Rebase, MoveAll, RemoveAll, CreateAll;
    var files, made := Supported(Listing(node, t.dir)), Mirror(node, t.dir).kids;
    var d := ScanDiff(t.files, files);
    ListingIsSnapshot(node, t.dir);
    DirsAreAccounted(t.dir, t.files, files);
    MoveFactsHold(t.dir, t.files, files, d);
    MirrorKeys(node, t.dir);
    if IsName(name) {
      KidsByName(t.dir, t.files, files, d, MoveNames(d.dirsMoved), t.kids, made, name);
    } else {
      NoOtherKids(t.dir, t.files, files, d, MoveNames(d.dirsMoved), t.kids, made, name);
    }
  }

  lemma MirrorKeys(node: Node, dir: string)
    requires WellFormed(node)
    ensures KeyedByDirs(Mirror(node, dir).kids, Supported(Listing(node, dir)), dir)
  {
    forall n
      ensures n in Mirror(node, dir).kids <==> IsName(n) && HasDir(Supported(Listing(node, dir)), dir, n)
    {
      if IsName(n) {
        ListedDirs(node, dir, n);
      } else {
        assert forall i | 0 <= i < |node.entries| :: node.entries[i] in node.entries;
      }
    }
  }
}
