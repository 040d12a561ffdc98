/** DirWatcherGeneric: the heap of directory watchers that is polled. Every watcher has its own
    snapshot and its children by name; tree is what the heap holds, as a value. The file system is
    the tree under root, held still during an operation. */
module DirWatcher {
  import opened Collections
  import opened Paths
  import opened Files
  import opened SnapshotDiff
  import opened Snapshot
  import opened MirrorTree
  import opened PollLevel
  import opened PollMirror

  /** What stat shows where there is nothing. */
  const Nothing := Node(FileInfo("", 0, 0, 0, 0, 0, 0, 0, 0), [])

  function Shown(root: Node, path: string): Node {
    match Resolve(root, path) case None => Nothing case Some(n) => n
  }

  lemma ShownWellFormed(root: Node, path: string)
    requires WellFormed(root)
    ensures WellFormed(Shown(root, path))
  {
    WalkWellFormed(root, Split(path));
  }

  lemma ShownChild(root: Node, dir: string, name: string)
    requires SlashAtEnd(dir) && IsName(name)
    ensures Shown(root, ChildDir(dir, name)) ==
            match Entry(Shown(root, dir), name) case None => Nothing case Some(e) => e
  {
    hide Resolve;
    ResolveChild(root, dir, name);
  }

  /** Every child satisfies the path invariant. */
  ghost predicate KidsSound(kids: map<string, Tree>) {
    forall name | name in kids :: IsName(name) && Consistent(kids[name])
  }

  class DirWatcherGeneric {
    const parent: DirWatcherGeneric?
    const snap: DirectorySnapshot
    /** The directory of the whole watch. */
    const watchDirectory: string
    var directories: map<string, DirWatcherGeneric>
    ghost var repr: set<object>
    ghost var tree: Tree

    /** The watchers below hang together: they are the parts of a tree that nothing shares. */
    ghost predicate Shape()
      reads `directories, `repr, repr - {this, snap}
      decreases repr, 0
    {
      && this in repr && snap in repr && SlashAtEnd(watchDirectory)
      && (forall name | name in directories ::
            directories[name] in repr - {this, snap} && Owns(directories[name]) && directories[name].Valid())
      && (forall m, n | m in directories && n in directories && m != n :: directories[m].repr !! directories[n].repr)
    }

    ghost predicate Owns(c: DirWatcherGeneric)
      reads `repr, c`repr
    {
      && c in repr && c.repr <= repr && this !in c.repr && snap !in c.repr
      && c.parent == this && c.watchDirectory == watchDirectory
    }

    ghost predicate Valid()
      reads this, repr
      ensures Valid() ==> this in repr && snap in repr
      decreases repr, 1
    {
      && Shape()
      && snap.info.path == tree.dir && snap.files == tree.files && Sorted(snap.files)
      && tree.kids == KidTrees()
    }

    ghost function KidTrees(): map<string, Tree>
      reads `directories, directories.Values`tree
    {
      map name | name in directories :: directories[name].tree
    }

    /** The directory resetDirectory works out: names are relative to the parent, paths stay. */
    function PathFor(directory: string): string
      reads if parent == null then {} else {parent.snap}
    {
      if directory == watchDirectory
         || (directory != "" && (directory[0] == Slash || directory[|directory| - 1] == Slash))
         || parent == null
      then directory
      else AddSlash(parent.snap.info.path) + AddSlash(directory)
    }

    /** A watcher for one directory, with its first scan. */
    constructor (parent: DirWatcherGeneric?, watchDirectory: string, directory: string, root: Node)
      requires SlashAtEnd(watchDirectory) && WellFormed(root)
      requires parent != null && directory != watchDirectory && IsName(directory) ==> SlashAtEnd(parent.snap.info.path)
      requires IsName(directory) ==> parent != null && directory != watchDirectory
      requires IsName(directory) || SlashAtEnd(directory)
      ensures Valid() && fresh(repr) && this.parent == parent && this.watchDirectory == watchDirectory
      ensures directories == map[]
      ensures tree.dir == if IsName(directory) then ChildDir(parent.snap.info.path, directory) else directory
      ensures tree == Tree(tree.dir, Supported(Listing(Shown(root, tree.dir), tree.dir)), map[])
    {
      hide Listing, Supported, Shown, Consistent, FileName, WellFormed, RemoveFileName, Valid, Shape, Sorted, ScanDiff;
      this.parent, this.watchDirectory := parent, watchDirectory;
      snap := new DirectorySnapshot();
      directories, repr, tree := map[], {}, Tree("", [], map[]);
      new;
      repr := {this, snap};
      if IsName(directory) {
        PathForName(directory);
      }
      var dir := PathFor(directory);
      snap.SetDirectoryInfo(dir, Shown(root, dir).meta.(path := dir));
      assert snap.files == [];
      SortedNone();
      var _ := ScanDirectory(root);
      tree := Tree(dir, snap.files, map[]);
      Shaped();
      assert KidTrees() == map[];
      Whole();
    }

    /** One scan of the watcher's own directory. */
    method ScanDirectory(root: Node) returns (diff: Diff)
      requires WellFormed(root) && Sorted(snap.files) && SlashAtEnd(snap.info.path)
      modifies snap
      ensures snap.info.path == old(snap.info.path)
      ensures snap.files == Supported(Listing(Shown(root, snap.info.path), snap.info.path)) && Sorted(snap.files)
      ensures diff == ScanDiff(old(snap.files), snap.files)
    {
      var dir := snap.info.path;
      var node := Shown(root, dir);
      ShownWellFormed(root, dir);
      ListingSorted(node, dir);
      var _, d := snap.Scan(node.meta.(path := dir), Resolve(root, dir).Some?, Listing(node, dir));
      diff := d;
    }

    lemma PathForName(name: string)
      requires parent != null && IsName(name) && name != watchDirectory && SlashAtEnd(parent.snap.info.path)
      ensures PathFor(name) == ChildDir(parent.snap.info.path, name) && SlashAtEnd(PathFor(name))
    {
      assert name[0] in name && name[|name| - 1] in name;
    }

    /** resetDirectory: the watcher and everything below it gets a new path. */
    method ResetDirectory(directory: string, root: Node)
      requires Valid() && Consistent(tree) && SlashAtEnd(PathFor(directory))
      requires parent != null ==> parent.snap !in repr
      modifies repr
      ensures Valid() && repr == old(repr)
      ensures tree == Rebase(old(tree), old(PathFor(directory)))
      decreases repr
    {
      hide Consistent, Shown, PathFor, Rebase, Rebased, Valid, Shape, Sorted, NamedChildren, KidsSound;
      Parts();
      var dir := PathFor(directory);
      ConsistentFiles(tree);
      RebasedKeeps(tree.files, tree.dir, dir);
      SetPath(dir, root);
      ResetKids(root);
      RebaseParts(tree, dir);
      NotItsOwnChild();
      tree := Rebase(tree, dir);
      Whole();
    }

    /** The part of resetDirectory that is about the watcher's own snapshot. */
    method SetPath(dir: string, root: Node)
      requires Shape() && SlashAtEnd(dir)
      modifies snap
      ensures Shape() && KidTrees() == old(KidTrees())
      ensures snap.info.path == dir && snap.files == Rebased(old(snap.files), dir)
    {
      hide Valid, Shown, Rebased;
      snap.SetDirectoryInfo(dir, Shown(root, dir).meta.(path := dir));
    }

    method ResetKids(root: Node)
      requires Shape() && SlashAtEnd(snap.info.path) && KidsSound(KidTrees())
      modifies repr - {this, snap}
      ensures Shape() && KidTrees() == RebaseKids(old(KidTrees()), snap.info.path)
      decreases repr, 1
    {
      hide Valid, Consistent, Rebase, KidTrees, Shape, PartRebased;
      var todo := directories.Keys;
      ghost var kids, dir := KidTrees(), snap.info.path;
      KidKeys();
      RebasedNone(kids, dir);
      while todo != {}
        invariant todo <= directories.Keys && Shape() && snap.info.path == dir
        invariant PartRebased(KidTrees(), kids, todo, dir)
      {
        var name := Pick(todo);
        KidPart(name);
        RebasedNext(KidTrees(), kids, todo, dir, name);
        ResetChild(name, root);
        todo := todo - {name};
      }
      RebasedAll(KidTrees(), kids, dir);
    }

    lemma KidKeys()
      ensures KidTrees().Keys == directories.Keys
    {
    }

    /** A child's watchers are among those below. */
    lemma KidPart(name: string)
      requires Shape() && name in directories
      ensures directories[name].repr <= repr - {this, snap} && this in repr && snap in repr
      ensures directories[name] in directories[name].repr && directories[name].repr < repr
    {
      hide Valid;
      assert directories[name].Valid();
    }

    method ResetChild(name: string, root: Node)
      requires Shape() && name in directories && IsName(name)
      requires Consistent(KidTrees()[name]) && SlashAtEnd(snap.info.path)
      modifies directories[name].repr
      ensures Shape()
      ensures KidTrees() == old(KidTrees())[name := Rebase(old(KidTrees()[name]), ChildDir(snap.info.path, name))]
      decreases repr, 0
    {
      hide Consistent, Rebase, Valid, PathFor, ChildDir, Shape;
      ShapeParts();
      var child := directories[name];
      child.PathForName(name);
      ghost var others := directories - {name};
      assert forall m | m in others :: others[m] in others[m].repr && others[m].repr !! child.repr;
      child.ResetDirectory(name, root);
      assert forall m | m in others :: unchanged(others[m].repr) && others[m].Valid();
      Reshaped(name);
      Retreed(old(KidTrees()), name);
    }

    // ---------- children ----------

    /** Enters a watcher nothing else refers to as a child. */
    method Put(name: string, child: DirWatcherGeneric)
      requires Shape() && child.Valid() && child.repr !! repr
      requires child.parent == this && child.watchDirectory == watchDirectory
      modifies `directories, `repr
      ensures Shape() && directories == old(directories)[name := child] && repr == old(repr) + child.repr
      ensures KidTrees() == old(KidTrees())[name := child.tree]
    {
      hide Valid, Shape, KidTrees;
      ShapeParts();
      KidKeys();
      EachTree();
      PutApart(directories, name, child);
      directories := directories[name := child];
      repr := repr + child.repr;
      Renewed(old(KidTrees()), name);
      Shaped();
    }

    lemma PutApart(dirs: map<string, DirWatcherGeneric>, name: string, child: DirWatcherGeneric)
      requires forall m | m in dirs :: dirs[m].repr !! child.repr
      requires forall m, n | m in dirs && n in dirs && m != n :: dirs[m].repr !! dirs[n].repr
      ensures var after := dirs[name := child];
              forall m, n | m in after && n in after && m != n :: after[m].repr !! after[n].repr
    {
    }

    lemma Renewed(kids: map<string, Tree>, name: string)
      requires name in directories && directories.Keys == kids.Keys + {name}
      requires forall m | m in directories && m != name :: directories[m].tree == kids[m]
      ensures KidTrees() == kids[name := directories[name].tree]
    {
    }

    /** addChildren for one entry. */
    method AddChild(name: string, root: Node)
      requires Shape() && SlashAtEnd(snap.info.path) && WellFormed(root) && IsName(name)
      requires Entry(Shown(root, snap.info.path), name).Some?
      modifies `directories, `repr
      ensures Shape() && fresh(repr - old(repr)) && old(repr) <= repr
      ensures KidTrees() == old(KidTrees())[name := Mirror(Entry(Shown(root, snap.info.path), name).value,
                                                           ChildDir(snap.info.path, name))]
      decreases Shown(root, snap.info.path), 0
    {
      hide Valid, Shown, Mirror, Listing, Supported, WellFormed, KidTrees;
      ShownChild(root, snap.info.path, name);
      ghost var kids := KidTrees();
      var child := new DirWatcherGeneric(this, watchDirectory, name, root);
      child.AddChildren(root);
      assert KidTrees() == kids;
      Put(name, child);
    }

    /** addChildren: watchers for all the subdirectories of a freshly scanned one. */
    method AddChildren(root: Node)
      requires Valid() && directories == map[] && SlashAtEnd(tree.dir) && WellFormed(root)
      requires tree.files == Supported(Listing(Shown(root, tree.dir), tree.dir))
      modifies `directories, `repr, `tree
      ensures Valid() && fresh(repr - old(repr)) && old(repr) <= repr
      ensures tree == Mirror(Shown(root, old(tree.dir)), old(tree.dir)) && tree.dir == old(tree.dir)
      decreases Shown(root, tree.dir), 1
    {
      hide Shown, Listing, Supported, Mirror, WellFormed, FileInfo.IsDirectory, AddedBelow, FileName, Valid, Shape,
           KidTrees, Sorted;
      Parts();
      KidKeys();
      var dir, files := snap.info.path, snap.files;
      ghost var node := Shown(root, dir);
      ShownWellFormed(root, dir);
      AddedNone(node, dir);
      assert files[..0] == [] && KidTrees() == map[];
      for i := 0 to |files|
        invariant Shape() && fresh(repr - old(repr)) && old(repr) <= repr
        invariant AddedBelow(KidTrees(), node, dir, files[..i])
      {
        AddedNext(KidTrees(), node, dir, files, i);
        if files[i].IsDirectory() {
          var name := FileName(files[i].path);
          AddChild(name, root);
        }
      }
      assert files[..|files|] == files;
      AddedAll(KidTrees(), node, dir);
      ghost var kids := KidTrees();
      NotItsOwnChild();
      tree := Tree(dir, files, kids);
      assert KidTrees() == kids;
      Whole();
    }

    // ---------- acting on a diff ----------

    /** createDirectory */
    method CreateDirectory(newdir: string, root: Node)
      requires Shape() && SlashAtEnd(snap.info.path) && WellFormed(root) && IsChildPath(snap.info.path, newdir)
      modifies `directories, `repr
      ensures Shape() && fresh(repr - old(repr)) && old(repr) <= repr
      ensures KidTrees() == CreateAll(old(KidTrees()), [FileName(newdir)], MadeOf(root, snap.info.path))
      decreases Shown(root, snap.info.path), 0
    {
      hide Valid, Shown, Mirror, Listing, Supported, WellFormed, CreateAll, FileName, RemoveSlash, FileInfo.IsDirectory;
      PlainName(snap.info.path, newdir);
      var name := FileName(RemoveSlash(newdir));
      var dir := AddSlash(AddSlash(snap.info.path) + name);
      ChildParts(snap.info.path, name);
      ghost var node := Shown(root, snap.info.path);
      ShownWellFormed(root, snap.info.path);
      ShownChild(root, snap.info.path, name);
      MadeEntry(node, snap.info.path, name);
      CreateOne(KidTrees(), name, Mirror(node, snap.info.path).kids);
      NothingIsNoDirectory();
      if !Shown(root, dir).meta.IsDirectory() {
        return;
      }
      var dw := NewSubtree(dir, root);
      Put(name, dw);
    }

    /** The watchers for a new directory and everything in it. */
    method NewSubtree(dir: string, root: Node) returns (dw: DirWatcherGeneric)
      requires SlashAtEnd(watchDirectory) && SlashAtEnd(dir) && WellFormed(root)
      ensures dw.Valid() && fresh(dw.repr) && dw.parent == this && dw.watchDirectory == watchDirectory
      ensures dw.tree == Mirror(Shown(root, dir), dir)
      decreases Shown(root, dir), 3
    {
      hide Valid, Shown, Mirror, Listing, Supported, WellFormed, Consistent, Poll;
      dw := new DirWatcherGeneric(this, watchDirectory, dir, root);
      dw.AddChildren(root);
      ShownWellFormed(root, dir);
      MirrorConsistent(Shown(root, dir), dir);
      MirrorStays(Shown(root, dir), dir);
      dw.Watch(root);
    }

    /** removeDirectory */
    method RemoveDirectory(dir: string)
      requires Shape() && IsChildPath(snap.info.path, dir) && SlashAtEnd(snap.info.path)
      modifies `directories
      ensures Shape() && KidTrees() == RemoveAll(old(KidTrees()), [FileName(dir)])
    {
      hide Valid, RemoveAll, FileName, Shape;
      PlainName(snap.info.path, dir);
      var name := FileName(RemoveSlash(dir));
      RemoveOne(KidTrees(), name);
      ShapeParts();
      directories := directories - {name};
      Shaped();
    }

    /** moveDirectory */
    method MoveDirectory(oldDir: string, newDir: string, root: Node)
      requires Shape() && SlashAtEnd(snap.info.path) && IsName(oldDir) && IsChildPath(snap.info.path, newDir)
      requires KidsSound(KidTrees())
      modifies `directories, repr - {this, snap}
      ensures Shape() && repr == old(repr) && KidsSound(KidTrees())
      ensures KidTrees() == MoveAll(old(KidTrees()), [(oldDir, FileName(newDir))], snap.info.path)
    {
      hide Valid, Consistent, Rebase, MoveAll, MoveOne, FileName, RemoveSlash, KidTrees, Shape, KidsSound;
      PlainName(snap.info.path, newDir);
      NameAlone(oldDir);
      var oldName, newName := FileName(RemoveSlash(oldDir)), FileName(RemoveSlash(newDir));
      ghost var kids := KidTrees();
      KidKeys();
      MoveOneSound(kids, oldName, newName, snap.info.path);
      MoveOneIs(kids, oldName, newName, snap.info.path);
      if oldName in directories {
        KidPart(oldName);
        Rename(oldName, newName);
        ResetChild(newName, root);
      }
    }

    method Rename(from: string, to: string)
      requires Shape() && from in directories
      modifies `directories
      ensures Shape() && KidTrees() == (old(KidTrees()) - {from})[to := old(KidTrees())[from]]
      ensures to in directories && directories[to] == old(directories)[from]
    {
      hide Valid, Shape, KidTrees;
      ShapeParts();
      KidKeys();
      EachTree();
      RenamedApart(directories, from, to);
      directories := (directories - {from})[to := directories[from]];
      Renamed(old(KidTrees()), from, to);
      Shaped();
    }

    lemma EachTree()
      ensures forall name | name in directories :: name in KidTrees() && KidTrees()[name] == directories[name].tree
    {
    }

    lemma ShapeParts()
      requires Shape()
      ensures this in repr && snap in repr && SlashAtEnd(watchDirectory)
      ensures forall name | name in directories ::
                directories[name] in repr - {this, snap} && Owns(directories[name]) && directories[name].Valid()
      ensures forall m, n | m in directories && n in directories && m != n :: directories[m].repr !! directories[n].repr
    {
      hide Valid, Owns;
    }

    lemma Shaped()
      requires this in repr && snap in repr && SlashAtEnd(watchDirectory)
      requires forall name | name in directories ::
                 directories[name] in repr - {this, snap} && Owns(directories[name]) && directories[name].Valid()
      requires forall m, n | m in directories && n in directories && m != n ::
                 directories[m].repr !! directories[n].repr
      ensures Shape()
    {
      hide Valid, Owns;
    }

    lemma Renamed(kids: map<string, Tree>, from: string, to: string)
      requires from in kids && directories.Keys == kids.Keys - {from} + {to} && directories[to].tree == kids[from]
      requires forall m | m in directories && m != to :: directories[m].tree == kids[m]
      ensures KidTrees() == (kids - {from})[to := kids[from]]
    {
    }

    lemma RenamedApart(dirs: map<string, DirWatcherGeneric>, from: string, to: string)
      requires from in dirs
      requires forall m, n | m in dirs && n in dirs && m != n :: dirs[m].repr !! dirs[n].repr
      ensures var after := (dirs - {from})[to := dirs[from]];
              forall m, n | m in after && n in after && m != n :: after[m].repr !! after[n].repr
    {
      var after := (dirs - {from})[to := dirs[from]];
      forall m, n | m in after && n in after && m != n
        ensures after[m].repr !! after[n].repr
      {
        var x, y := if m == to then from else m, if n == to then from else n;
        assert x in dirs && y in dirs && x != y;
      }
    }

    /** The three loops of watch over the directory lists of a diff. */
    method ApplyDirs(d: Diff, root: Node, ghost kids: map<string, Tree>)
      requires Shape() && SlashAtEnd(snap.info.path) && WellFormed(root) && DirsNamed(snap.info.path, d)
      requires KidTrees() == kids && KidsSound(kids)
      modifies `directories, `repr, repr - {this, snap}
      ensures Shape() && fresh(repr - old(repr)) && old(repr) <= repr
      ensures KidTrees() == MoveAll(RemoveAll(CreateAll(kids, Names(d.dirsCreated), MadeOf(root, snap.info.path)),
                                              Names(d.dirsDeleted)),
                                    MoveNames(d.dirsMoved), snap.info.path)
      decreases Shown(root, snap.info.path), 1
    {
      hide Valid, Shown, Consistent, MoveAll, RemoveAll, CreateAll, WellFormed;
      CreateListed(d.dirsCreated, root, kids);
      ghost var created := KidTrees();
      RemoveListed(d.dirsDeleted, created);
      MoveListed(d.dirsMoved, root, KidTrees());
    }

    method CreateListed(files: seq<FileInfo>, root: Node, ghost kids: map<string, Tree>)
      requires Shape() && SlashAtEnd(snap.info.path) && WellFormed(root)
      requires forall f | f in files :: IsChildPath(snap.info.path, f.path)
      requires KidTrees() == kids && KidsSound(kids)
      modifies `directories, `repr
      ensures Shape() && fresh(repr - old(repr)) && old(repr) <= repr
      ensures KidTrees() == CreateAll(kids, Names(files), MadeOf(root, snap.info.path)) && KidsSound(KidTrees())
      decreases Shown(root, snap.info.path), 1, 0
    {
      hide Valid, Shown, KidsSound, CreateAll, WellFormed, FileName, Names, MadeOf;
      ghost var made := MadeOf(root, snap.info.path);
      MadeSound(root, snap.info.path);
      CreateNone(kids, made);
      assert files[..0] == [];
      for i := 0 to |files|
        invariant Shape() && fresh(repr - old(repr)) && old(repr) <= repr
        invariant KidTrees() == CreateAll(kids, Names(files[..i]), made) && KidsSound(KidTrees())
      {
        CreateNext(kids, files, i, made);
        CreateSound(KidTrees(), FileName(files[i].path), made);
        CreateDirectory(files[i].path, root);
      }
      assert files[..|files|] == files;
    }

    method RemoveListed(files: seq<FileInfo>, ghost kids: map<string, Tree>)
      requires Shape() && SlashAtEnd(snap.info.path)
      requires forall f | f in files :: IsChildPath(snap.info.path, f.path)
      requires KidTrees() == kids && KidsSound(kids)
      modifies `directories
      ensures Shape() && KidTrees() == RemoveAll(kids, Names(files)) && KidsSound(KidTrees())
    {
      hide Valid, RemoveAll, FileName, Names;
      RemoveNone(kids);
      assert files[..0] == [];
      for i := 0 to |files|
        invariant Shape() && KidTrees() == RemoveAll(kids, Names(files[..i])) && KidsSound(KidTrees())
      {
        RemoveNext(kids, files, i);
        RemoveOne(KidTrees(), FileName(files[i].path));
        RemoveDirectory(files[i].path);
      }
      assert files[..|files|] == files;
    }

    method MoveListed(moved: seq<(string, FileInfo)>, root: Node, ghost kids: map<string, Tree>)
      requires Shape() && SlashAtEnd(snap.info.path)
      requires forall m | m in moved :: IsName(m.0) && IsChildPath(snap.info.path, m.1.path)
      requires KidTrees() == kids && KidsSound(kids)
      modifies `directories, repr - {this, snap}
      ensures Shape() && repr == old(repr)
      ensures KidTrees() == MoveAll(kids, MoveNames(moved), snap.info.path)
    {
      hide Valid, KidsSound, MoveAll, FileName, MoveNames;
      ghost var dir := snap.info.path;
      MoveNone(kids, dir);
      assert moved[..0] == [];
      for i := 0 to |moved|
        invariant Shape() && repr == old(repr) && snap.info.path == dir
        invariant KidTrees() == MoveAll(kids, MoveNames(moved[..i]), dir) && KidsSound(KidTrees())
      {
        MoveNext(kids, moved, i, dir);
        MoveDirectory(moved[i].0, moved[i].1.path, root);
      }
      assert moved[..|moved|] == moved;
    }

    lemma Reshaped(name: string)
      requires name in directories && this in repr && snap in repr && SlashAtEnd(watchDirectory)
      requires forall m | m in directories ::
                 directories[m] in repr - {this, snap} && Owns(directories[m]) && directories[m].Valid()
      requires forall m | m in directories && m != name :: directories[m].repr !! directories[name].repr
      requires forall m, n | m in directories && n in directories && m != name && n != name && m != n ::
                 directories[m].repr !! directories[n].repr
      ensures Shape()
    {
      hide Valid, Owns;
    }

    lemma Retreed(kids: map<string, Tree>, name: string)
      requires name in directories && kids.Keys == directories.Keys
      requires forall m | m in directories && m != name :: directories[m].tree == kids[m]
      ensures KidTrees() == kids[name := directories[name].tree]
    {
    }

    lemma Parts()
      requires Valid()
      ensures Shape() && snap.info.path == tree.dir && snap.files == tree.files && Sorted(snap.files)
      ensures KidTrees() == tree.kids
    {
      hide Shape;
    }

    lemma NotItsOwnChild()
      requires Shape()
      ensures this !in directories.Values
    {
      hide Valid;
    }

    lemma Whole()
      requires Shape() && snap.info.path == tree.dir && snap.files == tree.files && Sorted(snap.files)
      requires KidTrees() == tree.kids
      ensures Valid()
    {
      hide Shape;
    }

    /** The last loop of watch for one child. */
    method WatchChild(name: string, root: Node)
      requires Shape() && name in directories && SlashAtEnd(snap.info.path) && WellFormed(root)
      requires PollsNext(KidTrees(), name, Shown(root, snap.info.path), snap.info.path)
      modifies `repr, directories[name].repr
      ensures Shape() && fresh(repr - old(repr)) && old(repr) <= repr
      ensures KidTrees()
              == old(KidTrees())[name := Poll(old(KidTrees()[name]), Entry(Shown(root, snap.info.path), name).value)]
      decreases Shown(root, snap.info.path), 0, 1
    {
      hide Consistent, Poll, Valid, Shown, WellFormed, Entry, ChildDir, IsName, PollsNext, SlashAtEnd, Shape, KidTrees;
      KidKeys();
      EachTree();
      NextShown(KidTrees(), name, root, snap.info.path);
      PollChild(name, root);
      Retreed(old(KidTrees()), name);
    }

    /** The poll of one child, which may come to own new watchers. */
    method PollChild(name: string, root: Node)
      requires Shape() && name in directories && WellFormed(root) && Consistent(directories[name].tree)
      requires Shown(root, directories[name].tree.dir) < Shown(root, snap.info.path)
      modifies `repr, directories[name].repr
      ensures Shape() && fresh(repr - old(repr)) && old(repr) <= repr
      ensures directories[name].tree == Poll(old(directories[name].tree), Shown(root, old(directories[name].tree.dir)))
      ensures forall m | m in directories && m != name :: directories[m].tree == old(directories[m].tree)
      ensures directories == old(directories) && snap.info.path == old(snap.info.path)
      decreases Shown(root, snap.info.path), 0, 0
    {
      hide Consistent, Poll, Valid, Shown, WellFormed, Shape;
      ShapeParts();
      var child := directories[name];
      ghost var others := directories - {name};
      assert forall m | m in others :: others[m] in others[m].repr && others[m].repr !! child.repr;
      child.Watch(root);
      assert forall m | m in others :: unchanged(others[m].repr) && others[m].Valid();
      repr := repr + child.repr;
      Reshaped(name);
    }

    method WatchChildren(root: Node, ghost kids: map<string, Tree>)
      requires Shape() && SlashAtEnd(snap.info.path) && WellFormed(root) && KidTrees() == kids
      requires forall name | name in kids :: PollsNext(kids, name, Shown(root, snap.info.path), snap.info.path)
      modifies `repr, repr - {this, snap}
      ensures Shape() && fresh(repr - old(repr)) && old(repr) <= repr
      ensures KidTrees() == PolledKidsOf(kids, Shown(root, snap.info.path))
      decreases Shown(root, snap.info.path), 1
    {
      hide Consistent, Poll, Valid, Shown, WellFormed, PollsNext, KidTrees, Shape, PartPolled, Entry, PolledKidsOf;
      ghost var dir, node := snap.info.path, Shown(root, snap.info.path);
      var todo := directories.Keys;
      KidKeys();
      PolledNone(kids, node);
      while todo != {}
        invariant todo <= directories.Keys && directories == old(directories) && snap.info.path == dir
        invariant Shape() && fresh(repr - old(repr)) && old(repr) <= repr
        invariant PartPolled(KidTrees(), kids, todo, node)
      {
        var name := Pick(todo);
        KidPart(name);
        PolledNext(KidTrees(), kids, todo, node, dir, name);
        WatchChild(name, root);
        todo := todo - {name};
      }
      PolledAll(KidTrees(), kids, node);
    }

    /** watch: one poll of the directory and everything below it. */
    method Watch(root: Node)
      requires Valid() && Consistent(tree) && WellFormed(root)
      modifies repr
      ensures Valid() && fresh(repr - old(repr)) && old(repr) <= repr
      ensures tree == Poll(old(tree), Shown(root, old(tree.dir)))
      decreases Shown(root, tree.dir), 2
    {
      hide Valid, Shape, Sorted, Consistent, Poll, Shown, WellFormed, KidsAfter, Listing, Supported, PollsNext,
           DirsNamed, KidsSound, MoveAll, RemoveAll, CreateAll, Names, MoveNames, ScanDiff;
      ghost var t, node := tree, Shown(root, tree.dir);
      Parts();
      ConsistentFiles(t);
      ShownWellFormed(root, t.dir);
      var diff := ScanDirectory(root);
      ghost var files := snap.files;
      DiffNamed(t, node);
      ApplyDirs(diff, root, t.kids);
      ghost var kids := KidTrees();
      AppliedIs(t, root, kids);
      forall name | name in kids
        ensures PollsNext(kids, name, node, t.dir)
      {
        NextPolls(t, node, name);
      }
      WatchChildren(root, kids);
      PollIs(t, node);
      ghost var polled := KidTrees();
      NotItsOwnChild();
      tree := Tree(t.dir, files, polled);
      assert KidTrees() == polled;
      Whole();
    }

    /** WatcherGeneric::watch, a poll of the whole watch: afterwards the heap mirrors the file system
        exactly when no path that stayed changed between file and directory. */
    method PollAll(root: Node)
      requires Valid() && Consistent(tree) && WellFormed(root)
      modifies repr
      ensures Valid() && fresh(repr - old(repr))
      ensures tree.dir == old(tree.dir)
      ensures tree == Mirror(Shown(root, tree.dir), tree.dir) <==> KindsKept(old(tree), Shown(root, tree.dir))
      ensures KindsKept(old(tree), Shown(root, tree.dir)) ==> Consistent(tree)
    {
      hide Valid, WellFormed, Shown;
      ghost var t, node := tree, Shown(root, tree.dir);
      ConsistentFiles(t);
      ShownWellFormed(root, t.dir);
      PollMirrors(t, node);
      MirrorConsistent(node, t.dir);
      Watch(root);
    }

    // ---------- lookup ----------

    lemma ChildValid(name: string)
      requires Valid() && name in directories
      ensures var c := directories[name];
              c in repr && c.repr < repr && c.Valid() && c.tree == tree.kids[name]
    {
      Parts();
      assert directories[name].Valid();
    }

    /** The watcher these names lead to. */
    ghost function NodeAt(names: seq<string>): (w: DirWatcherGeneric?)
      requires Valid()
      reads this, repr
      ensures w != null ==> w in repr && w.Valid()
      decreases |names|
    {
      if names == [] then this
      else if names[0] in directories then
        ChildValid(names[0]);
        directories[names[0]].NodeAt(names[1..])
      else null
    }

    /** A watcher in the heap is the one of the tree, with its path and its snapshot. */
    lemma NodeShows(names: seq<string>)
      requires Valid()
      ensures match TreeAt(tree, names)
              case None => NodeAt(names) == null
              case Some(t) =>
                var w := NodeAt(names);
                w != null && w.tree == t && w.snap.info.path == t.dir && w.snap.files == t.files
      decreases |names|
    {
      hide Valid;
      Parts();
      KidKeys();
      if names != [] && names[0] in directories {
        ChildValid(names[0]);
        directories[names[0]].NodeShows(names[1..]);
      }
    }

    /** When the heap mirrors a directory, there is a watcher by exactly the names that lead to a directory
        in it, and its snapshot holds what is there. */
    lemma HeapShows(node: Node, names: seq<string>)
      requires Valid() && WellFormed(node) && tree == Mirror(node, tree.dir)
      ensures NodeAt(names) != null <==>
              exists at :: LeadsTo(node, names, at) && (names == [] || at.meta.IsDirectory())
      ensures forall at | LeadsTo(node, names, at) && (names == [] || at.meta.IsDirectory()) ::
                var w := NodeAt(names);
                && w != null && w.snap.info.path == tree.dir + Join(names)
                && Shows(w.snap.files, at, tree.dir + Join(names))
    {
      hide Valid, Mirror, WellFormed, Shows;
      MirrorShows(node, tree.dir, names);
      NodeShows(names);
    }

    /** findDirWatcherFast, for a path with this watcher's own path in front. */
    method FindDirWatcherFast(dir: string) returns (w: DirWatcherGeneric?)
      requires Valid() && SlashAtEnd(tree.dir) && tree.dir <= dir
      ensures w == if |dir| == |tree.dir| then this else NodeAt(Split(dir[|tree.dir| - 1..]))
      ensures forall names | AreNames(names) && dir == tree.dir + Join(names) :: w == NodeAt(names)
    {
      hide Split, Valid;
      Parts();
      forall names | AreNames(names) && dir == tree.dir + Join(names)
        ensures if |dir| == |tree.dir| then names == [] else names == Split(dir[|tree.dir| - 1..])
      {
        SplitBelow(tree.dir, names);
      }
      var rest := dir[|snap.info.path| - 1..];
      if |rest| == 1 {
        return this;
      }
      var level, dirv := 0, Split(rest);
      var watcher: DirWatcherGeneric := this;
      assert dirv[0..] == dirv;
      while level < |dirv|
        invariant level <= |dirv| && watcher in repr && watcher.repr <= repr && watcher.Valid()
        invariant NodeAt(dirv) == watcher.NodeAt(dirv[level..])
      {
        assert dirv[level..][1..] == dirv[level + 1..];
        if dirv[level] in watcher.directories {
          watcher.ChildValid(dirv[level]);
          watcher := watcher.directories[dirv[level]];
          level := level + 1;
        } else {
          return null;
        }
      }
      return watcher;
    }

    /** findDirWatcher: the search of the whole tree. */
    method FindDirWatcher(dir: string) returns (w: DirWatcherGeneric?)
      requires Valid() && Consistent(tree)
      ensures forall names | AreNames(names) && dir == tree.dir + Join(names) :: w == NodeAt(names)
      ensures !IsBelow(tree.dir, dir) ==> w == null
      decreases repr
    {
      hide Consistent, Valid, IsBelow;
      Parts();
      if snap.info.path == dir {
        RootOnly(tree.dir);
        return this;
      }
      w := null;
      var todo := directories.Keys;
      while todo != {}
        invariant todo <= directories.Keys && w == null
        invariant forall names | AreNames(names) && names != [] && dir == tree.dir + Join(names) && names[0] !in todo ::
                    NodeAt(names) == null
      {
        var name := Pick(todo);
        ChildValid(name);
        ConsistentKid(tree, name);
        w := directories[name].FindDirWatcher(dir);
        FoundInChild(name, dir, w);
        if w != null {
          return;
        }
        todo := todo - {name};
      }
    }

    /** What the search of one child says about the whole tree. */
    lemma FoundInChild(name: string, dir: string, w: DirWatcherGeneric?)
      requires Valid() && name in directories && IsName(name) && SlashAtEnd(tree.dir) && dir != tree.dir
      requires directories[name].Valid() && directories[name].tree.dir == ChildDir(tree.dir, name)
      requires forall names | AreNames(names) && dir == ChildDir(tree.dir, name) + Join(names) ::
                 w == directories[name].NodeAt(names)
      requires !IsBelow(ChildDir(tree.dir, name), dir) ==> w == null
      ensures w != null ==> IsBelow(tree.dir, dir)
      ensures w != null ==> forall names | AreNames(names) && dir == tree.dir + Join(names) :: w == NodeAt(names)
      ensures w == null ==> forall names | AreNames(names) && names != [] && dir == tree.dir + Join(names)
              && names[0] == name ::
                NodeAt(names) == null
    {
      hide Valid;
      if w != null {
        BelowChild(tree.dir, name, dir);
      }
      forall names | AreNames(names) && names != [] && dir == tree.dir + Join(names) && names[0] == name
        ensures NodeAt(names) == w
      {
        JoinFirst(tree.dir, names);
        assert names[1..] == names[1..] && AreNames(names[1..]);
      }
    }
  }

  function RebaseKids(kids: map<string, Tree>, dir: string): map<string, Tree> {
    map name | name in kids :: Rebase(kids[name], ChildDir(dir, name))
  }

  /** All children but these have got their new paths. */
  ghost predicate PartRebased(now: map<string, Tree>, kids: map<string, Tree>, todo: set<string>, dir: string) {
    && now.Keys == kids.Keys && todo <= kids.Keys
    && forall name | name in kids ::
         now[name] == if name in todo then kids[name] else Rebase(kids[name], ChildDir(dir, name))
  }

  lemma RebasedNone(kids: map<string, Tree>, dir: string)
    ensures PartRebased(kids, kids, kids.Keys, dir)
  {
  }

  lemma RebasedNext(now: map<string, Tree>, kids: map<string, Tree>, todo: set<string>, dir: string, name: string)
    requires PartRebased(now, kids, todo, dir) && name in todo
    ensures name in now && now[name] == kids[name]
    ensures PartRebased(now[name := Rebase(now[name], ChildDir(dir, name))], kids, todo - {name}, dir)
  {
    hide Rebase, ChildDir;
  }

  lemma RebasedAll(now: map<string, Tree>, kids: map<string, Tree>, dir: string)
    ensures PartRebased(now, kids, {}, dir) ==> now == RebaseKids(kids, dir)
  {
    hide Rebase, ChildDir;
  }

  lemma RebaseParts(t: Tree, dir: string)
    ensures Rebase(t, dir) == Tree(dir, Rebased(t.files, dir), RebaseKids(t.kids, dir))
  {
  }

  lemma ConsistentFiles(t: Tree)
    requires Consistent(t)
    ensures SlashAtEnd(t.dir) && NamedChildren(t.dir, t.files) && Sorted(t.files) && KidsSound(t.kids)
  {
  }

  /** The children added after the first entries have been looked at. */
  ghost predicate AddedBelow(kids: map<string, Tree>, node: Node, dir: string, files: seq<FileInfo>) {
    && (forall name :: name in kids <==> IsName(name) && HasDir(files, dir, name))
    && (forall name | name in kids ::
          Entry(node, name).Some? && kids[name] == Mirror(Entry(node, name).value, ChildDir(dir, name)))
  }

  lemma AddedNone(node: Node, dir: string)
    ensures AddedBelow(map[], node, dir, [])
  {
  }

  lemma HasDirNext(dir: string, files: seq<FileInfo>, i: nat, name: string, n: string)
    requires i < |files| && files[i].path == dir + name
    ensures HasDir(files[..i + 1], dir, n) <==> HasDir(files[..i], dir, n) || (files[i].IsDirectory() && n == name)
  {
    hide FileInfo.IsDirectory;
    assert files[..i + 1] == files[..i] + [files[i]];
    if files[i].path == dir + n {
      SameTail(dir, n, name);
    }
  }

  lemma AddedNext(kids: map<string, Tree>, node: Node, dir: string, files: seq<FileInfo>, i: nat)
    requires WellFormed(node) && SlashAtEnd(dir) && files == Supported(Listing(node, dir)) && i < |files|
    requires AddedBelow(kids, node, dir, files[..i])
    ensures !files[i].IsDirectory() ==> AddedBelow(kids, node, dir, files[..i + 1])
    ensures files[i].IsDirectory() ==>
              var name := FileName(files[i].path);
              && IsName(name) && Entry(node, name).Some?
              && AddedBelow(kids[name := Mirror(Entry(node, name).value, ChildDir(dir, name))], node, dir,
                            files[..i + 1])
  {
    hide WellFormed, Listing, Supported, Mirror, FileName, FileInfo.IsDirectory, HasDir;
    ListingIsSnapshot(node, dir);
    assert files[i] in files;
    NameOfChild(dir, files[i]);
    var name := FileName(files[i].path);
    forall n {
      HasDirNext(dir, files, i, name, n);
    }
    if files[i].IsDirectory() {
      DirHeld(dir, files, i, name);
      ListedDirs(node, dir, name);
    }
  }

  lemma DirHeld(dir: string, files: seq<FileInfo>, i: nat, name: string)
    requires i < |files| && files[i].path == dir + name && files[i].IsDirectory()
    ensures HasDir(files, dir, name)
  {
    assert files[i] in files;
  }

  lemma AddedAll(kids: map<string, Tree>, node: Node, dir: string)
    requires WellFormed(node) && AddedBelow(kids, node, dir, Supported(Listing(node, dir)))
    ensures Mirror(node, dir) == Tree(dir, Supported(Listing(node, dir)), kids)
  {
    hide WellFormed, Listing, Supported, HasDir;
    var made := Mirror(node, dir).kids;
    MirrorKeys(node, dir);
    forall name
      ensures name in kids <==> name in made
      ensures name in kids ==> kids[name] == made[name]
    {
      MirrorKids(node, dir, name);
    }
    assert kids == made;
  }

  ghost predicate IsChildPath(dir: string, path: string) {
    |dir| < |path| && path[..|dir|] == dir && IsName(path[|dir|..])
  }

  /** The name a path is looked up under, with or without the slash taken off first. */
  lemma PlainName(dir: string, path: string)
    requires SlashAtEnd(dir) && IsChildPath(dir, path)
    ensures var name := FileName(path);
            IsName(name) && path == dir + name && name == path[|dir|..] && FileName(RemoveSlash(path)) == name
  {
    hide LastSlash;
    var name := path[|dir|..];
    assert path == dir + name;
    ChildParts(dir, name);
    assert path[|path| - 1] == name[|name| - 1] && name[|name| - 1] in name;
  }

  lemma NameAlone(name: string)
    requires IsName(name)
    ensures FileName(RemoveSlash(name)) == name
  {
    assert name[|name| - 1] in name;
    FileNameOfName(name);
  }

  lemma SortedNone()
    ensures Sorted([])
  {
  }

  lemma NothingIsNoDirectory()
    ensures !Nothing.meta.IsDirectory()
  {
  }

  /** The children of a mirror are its directories. */
  lemma MadeEntry(node: Node, dir: string, name: string)
    requires WellFormed(node) && IsName(name)
    ensures var made := Mirror(node, dir).kids;
            && (name in made <==> Entry(node, name).Some? && Entry(node, name).value.meta.IsDirectory())
            && (name in made ==> made[name] == Mirror(Entry(node, name).value, ChildDir(dir, name)))
  {
    ListedDirs(node, dir, name);
    if Entry(node, name).Some? {
      var k :| 0 <= k < |node.entries| && node.entries[k] == (name, Entry(node, name).value);
    }
  }

  lemma CreateOne(kids: map<string, Tree>, name: string, made: map<string, Tree>)
    ensures CreateAll(kids, [name], made) == if name in made then kids[name := made[name]] else kids
  {
    assert [name][..0] == [];
  }

  lemma RemoveOne(kids: map<string, Tree>, name: string)
    ensures RemoveAll(kids, [name]) == kids - {name}
  {
    assert [name][..0] == [];
  }

  /** A move as an entry under the new name that gets its path there. */
  lemma MoveOneIs(kids: map<string, Tree>, from: string, to: string, dir: string)
    requires KidsSound(kids)
    ensures from !in kids ==> MoveOne(kids, from, to, dir) == kids
    ensures from in kids ==>
              var named := (kids - {from})[to := kids[from]];
              && to in named && named[to] == kids[from] && Consistent(kids[from])
              && MoveOne(kids, from, to, dir) == named[to := Rebase(named[to], ChildDir(dir, to))]
  {
    hide Consistent, Rebase, ChildDir;
  }

  lemma MoveOneSound(kids: map<string, Tree>, from: string, to: string, dir: string)
    requires KidsSound(kids) && SlashAtEnd(dir) && IsName(to)
    ensures MoveAll(kids, [(from, to)], dir) == MoveOne(kids, from, to, dir)
    ensures KidsSound(MoveOne(kids, from, to, dir))
  {
    hide Consistent, Rebase;
    assert [(from, to)][..0] == [];
    if from in kids {
      ChildParts(dir, to);
      RebaseConsistent(kids[from], ChildDir(dir, to));
    }
  }

  /** The subtrees for the directories below a path. */
  ghost function MadeOf(root: Node, dir: string): map<string, Tree> {
    Mirror(Shown(root, dir), dir).kids
  }

  ghost predicate DirsNamed(dir: string, d: Diff) {
    && (forall f | f in d.dirsCreated || f in d.dirsDeleted :: IsChildPath(dir, f.path))
    && (forall m | m in d.dirsMoved :: IsName(m.0) && IsChildPath(dir, m.1.path))
  }

  lemma MadeSound(root: Node, dir: string)
    requires WellFormed(root) && SlashAtEnd(dir)
    ensures KidsSound(MadeOf(root, dir))
  {
    hide WellFormed, Shown, Mirror, Consistent, KidsSound;
    ShownWellFormed(root, dir);
    MirrorConsistent(Shown(root, dir), dir);
    ConsistentFiles(Mirror(Shown(root, dir), dir));
  }

  // One list element at a time.

  lemma CreateNone(kids: map<string, Tree>, made: map<string, Tree>)
    ensures CreateAll(kids, Names([]), made) == kids
  {
  }

  lemma CreateNext(kids: map<string, Tree>, files: seq<FileInfo>, i: nat, made: map<string, Tree>)
    requires i < |files|
    ensures CreateAll(kids, Names(files[..i + 1]), made) ==
            CreateAll(CreateAll(kids, Names(files[..i]), made), [FileName(files[i].path)], made)
  {
    hide FileName, Rebase;
    var names := Names(files[..i + 1]);
    assert names[..i] == Names(files[..i]) && names[i] == FileName(files[i].path);
    CreateOne(CreateAll(kids, Names(files[..i]), made), names[i], made);
  }

  lemma CreateSound(kids: map<string, Tree>, name: string, made: map<string, Tree>)
    requires KidsSound(kids) && KidsSound(made)
    ensures KidsSound(CreateAll(kids, [name], made))
  {
    hide Consistent;
    CreateOne(kids, name, made);
  }

  lemma RemoveNone(kids: map<string, Tree>)
    ensures RemoveAll(kids, Names([])) == kids
  {
  }

  lemma RemoveNext(kids: map<string, Tree>, files: seq<FileInfo>, i: nat)
    requires i < |files|
    ensures RemoveAll(kids, Names(files[..i + 1]))
            == RemoveAll(RemoveAll(kids, Names(files[..i])), [FileName(files[i].path)])
  {
    hide FileName, Rebase;
    var names := Names(files[..i + 1]);
    assert names[..i] == Names(files[..i]) && names[i] == FileName(files[i].path);
    RemoveOne(RemoveAll(kids, Names(files[..i])), names[i]);
  }

  lemma MoveNone(kids: map<string, Tree>, dir: string)
    ensures MoveAll(kids, MoveNames([]), dir) == kids
  {
  }

  lemma MoveNext(kids: map<string, Tree>, moved: seq<(string, FileInfo)>, i: nat, dir: string)
    requires i < |moved| && IsName(moved[i].0)
    ensures MoveAll(kids, MoveNames(moved[..i + 1]), dir) ==
            MoveAll(MoveAll(kids, MoveNames(moved[..i]), dir), [(moved[i].0, FileName(moved[i].1.path))], dir)
  {
    hide Rebase, FileName;
    FileNameOfName(moved[i].0);
    var moves, m := MoveNames(moved[..i + 1]), (moved[i].0, FileName(moved[i].1.path));
    assert moves[..i] == MoveNames(moved[..i]) && moves[i] == m;
    assert [m][..0] == [];
  }

  /** This child is there to be polled. */
  ghost predicate PollsNext(kids: map<string, Tree>, name: string, node: Node, dir: string) {
    name in kids && IsName(name) && Consistent(kids[name]) && kids[name].dir == ChildDir(dir, name)
    && Entry(node, name).Some?
  }

  lemma NextShown(kids: map<string, Tree>, name: string, root: Node, dir: string)
    requires SlashAtEnd(dir) && PollsNext(kids, name, Shown(root, dir), dir)
    ensures name in kids && Consistent(kids[name]) && Entry(Shown(root, dir), name).Some?
    ensures Shown(root, kids[name].dir) == Entry(Shown(root, dir), name).value
    ensures Entry(Shown(root, dir), name).value < Shown(root, dir)
  {
    hide Consistent, Shown;
    ShownChild(root, dir, name);
  }

  /** The children after each has been polled. */
  ghost function PolledKidsOf(kids: map<string, Tree>, node: Node): map<string, Tree> {
    map name | name in kids ::
      match Entry(node, name) case None => PollGone(kids[name]) case Some(e) => Poll(kids[name], e)
  }

  /** All children but these have been polled. */
  ghost predicate PartPolled(now: map<string, Tree>, kids: map<string, Tree>, todo: set<string>, node: Node) {
    && now.Keys == kids.Keys && todo <= kids.Keys
    && forall name | name in kids :: now[name] == if name in todo then kids[name] else PolledKidsOf(kids, node)[name]
  }

  lemma PolledNone(kids: map<string, Tree>, node: Node)
    ensures PartPolled(kids, kids, kids.Keys, node)
  {
  }

  lemma PolledNext(now: map<string, Tree>, kids: map<string, Tree>, todo: set<string>, node: Node, dir: string,
                   name: string)
    requires PartPolled(now, kids, todo, node) && name in todo && PollsNext(kids, name, node, dir)
    ensures PollsNext(now, name, node, dir) && Entry(node, name).Some?
    ensures PartPolled(now[name := Poll(now[name], Entry(node, name).value)], kids, todo - {name}, node)
  {
    hide Poll, Consistent, ChildDir;
  }

  lemma PolledAll(now: map<string, Tree>, kids: map<string, Tree>, node: Node)
    ensures PartPolled(now, kids, {}, node) ==> now == PolledKidsOf(kids, node)
  {
    hide Poll;
  }

  lemma PollIs(t: Tree, node: Node)
    ensures Poll(t, node) == Tree(t.dir, Supported(Listing(node, t.dir)), PolledKidsOf(KidsAfter(t, node), node))
  {
    hide KidsAfter, Listing, Supported;
  }

  lemma NextPolls(t: Tree, node: Node, name: string)
    requires Consistent(t) && WellFormed(node)
    ensures name in KidsAfter(t, node) ==> PollsNext(KidsAfter(t, node), name, node, t.dir)
  {
    hide Consistent, WellFormed, KidsAfter;
    if name in KidsAfter(t, node) {
      KidsConsistent(t, node, name);
      KidsAfterAt(t, node, name);
    }
  }

  lemma AppliedIs(t: Tree, root: Node, kids: map<string, Tree>)
    requires var d := ScanDiff(t.files, Supported(Listing(Shown(root, t.dir), t.dir)));
             kids == MoveAll(RemoveAll(CreateAll(t.kids, Names(d.dirsCreated), MadeOf(root, t.dir)),
                                       Names(d.dirsDeleted)),
                             MoveNames(d.dirsMoved), t.dir)
    ensures kids == KidsAfter(t, Shown(root, t.dir))
  {
  }

  lemma DiffNamed(t: Tree, node: Node)
    requires Consistent(t) && WellFormed(node)
    ensures DirsNamed(t.dir, ScanDiff(t.files, Supported(Listing(node, t.dir))))
  {
    hide WellFormed, Listing, Supported, ScanDiff, DirsAccounted, IsSnapshotOf, DirsNamed;
    var files := Supported(Listing(node, t.dir));
    ConsistentFiles(t);
    ListingIsSnapshot(node, t.dir);
    DirsAreAccounted(t.dir, t.files, files);
    AccountedNamed(t.dir, t.files, files, ScanDiff(t.files, files));
  }

  /** The directories of a diff have proper paths. */
  lemma AccountedNamed(dir: string, was: seq<FileInfo>, files: seq<FileInfo>, d: Diff)
    requires IsSnapshotOf(dir, was) && IsSnapshotOf(dir, files) && DirsAccounted(dir, was, files, d)
    ensures DirsNamed(dir, d)
  {
    hide FileInfo.IsDirectory, IsName;
    forall m | m in d.dirsMoved
      ensures IsName(m.0)
    {
      var f := DirEntry(was, dir, m.0);
      assert f.path[|dir|..] == m.0;
    }
  }

  /** The path is the directory's own or that of something inside it, slash-terminated. */
  ghost predicate IsBelow(dir: string, path: string) {
    exists names :: AreNames(names) && path == dir + Join(names)
  }

  lemma RootOnly(dir: string)
    ensures forall names | AreNames(names) && dir == dir + Join(names) :: names == []
    ensures IsBelow(dir, dir)
  {
    assert dir == dir + Join([]);
  }

  lemma JoinFirst(dir: string, names: seq<string>)
    requires names != []
    ensures dir + Join(names) == ChildDir(dir, names[0]) + Join(names[1..])
  {
  }

  /** Something inside a child is inside the directory, by names that start with the child's. */
  lemma BelowChild(dir: string, name: string, path: string)
    requires IsName(name) && IsBelow(ChildDir(dir, name), path)
    ensures IsBelow(dir, path)
    ensures forall names | AreNames(names) && path == dir + Join(names) :: names != [] && names[0] == name
  {
    var rest :| AreNames(rest) && path == ChildDir(dir, name) + Join(rest);
    var all := [name] + rest;
    JoinFirst(dir, all);
    assert all[1..] == rest;
    forall names | AreNames(names) && path == dir + Join(names)
      ensures names == all
    {
      SameTail(dir, Join(names), Join(all));
      JoinInjective(names, all);
    }
  }

  /** The part of a path below a directory splits into its names. */
  lemma SplitBelow(dir: string, names: seq<string>)
    requires SlashAtEnd(dir) && AreNames(names)
    ensures |dir + Join(names)| == |dir| <==> names == []
    ensures Split((dir + Join(names))[|dir| - 1..]) == names
  {
    assert (dir + Join(names))[|dir| - 1..] == [Slash] + Join(names);
    SplitJoin([Slash], names);
    SlashSplits();
  }

  lemma SlashSplits()
    ensures Split([Slash]) == []
  {
    assert [Slash][1..] == "" && SplitFrom("", "") == [];
    assert SplitFrom([Slash], "") == [] + SplitFrom([Slash][1..], "");
  }
}
