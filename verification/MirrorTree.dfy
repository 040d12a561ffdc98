/** The tree of polled directories as a value: what one poll makes of it, and what it should be. */
module MirrorTree {
  import opened Collections
  import opened Paths
  import opened Files
  import opened SnapshotDiff
  import opened Snapshot

  // ---------- the file system, held still ----------

  /** A file or directory: its metadata (the path in it is not used) and its entries by name. */
  datatype Node = Node(meta: FileInfo, entries: seq<(string, Node)>)

  /** Entries are sorted by name, and only supported entries are directories with content. */
  ghost predicate WellFormed(node: Node) {
    && (forall i, j | 0 <= i < j < |node.entries| :: Less(node.entries[i].0, node.entries[j].0))
    && (forall e | e in node.entries :: IsName(e.0) && WellFormed(e.1))
  }

  /** The entry with this name, from the i-th on. */
  function EntryFrom(node: Node, name: string, i: nat): (r: Option<Node>)
    requires i <= |node.entries|
    ensures r.Some? ==> r.value < node
    ensures r.Some? <==> exists k :: i <= k < |node.entries| && node.entries[k].0 == name
    ensures r.Some? ==> exists k :: i <= k < |node.entries| && node.entries[k] == (name, r.value)
    decreases |node.entries| - i
  {
    if i == |node.entries| then None
    else if node.entries[i].0 == name then Some(node.entries[i].1)
    else EntryFrom(node, name, i + 1)
  }

  function Entry(node: Node, name: string): (r: Option<Node>)
    ensures r.Some? ==> r.value < node
  {
    if node.meta.IsDirectory() then EntryFrom(node, name, 0) else None
  }

  /** filesInfoFromPath: the sorted entries of a directory, none for anything else. */
  function Listing(node: Node, dir: string): seq<FileInfo> {
    if node.meta.IsDirectory() then
      seq(|node.entries|, i requires 0 <= i < |node.entries| =>
            node.entries[i].1.meta.(path := dir + node.entries[i].0))
    else []
  }

  function Walk(node: Node, names: seq<string>): Option<Node>
    decreases |names|
  {
    if names == [] then Some(node)
    else match Entry(node, names[0])
      case None => None
      case Some(e) => Walk(e, names[1..])
  }

  /** What is at an absolute path. */
  function Resolve(root: Node, path: string): Option<Node> {
    Walk(root, Split(path))
  }

  lemma {:induction false} WalkAppend(node: Node, names: seq<string>, name: string)
    ensures Walk(node, names + [name]) ==
            match Walk(node, names) case None => None case Some(n) => Entry(n, name)
    decreases |names|
  {
    if names == [] {
      assert names + [name] == [name];
    } else {
      assert (names + [name])[1..] == names[1..] + [name];
      match Entry(node, names[0])
      case None =>
      case Some(e) => WalkAppend(e, names[1..], name);
    }
  }

  /** A child's path leads to the child. */
  lemma ResolveChild(root: Node, dir: string, name: string)
    requires SlashAtEnd(dir) && IsName(name)
    ensures Resolve(root, ChildDir(dir, name)) == Resolve(root, dir + name)
    ensures Resolve(root, dir + name) ==
            match Resolve(root, dir) case None => None case Some(n) => Entry(n, name)
  {
    SplitChild(dir, name);
    WalkAppend(root, Split(dir), name);
  }

  lemma EntryWellFormed(node: Node, name: string)
    requires WellFormed(node)
    ensures Entry(node, name).Some? ==> IsName(name) && WellFormed(Entry(node, name).value)
  {
    if Entry(node, name).Some? {
      var k :| 0 <= k < |node.entries| && node.entries[k] == (name, Entry(node, name).value);
      assert node.entries[k] in node.entries;
    }
  }

  lemma {:induction false} WalkWellFormed(node: Node, names: seq<string>)
    requires WellFormed(node)
    ensures Walk(node, names).Some? ==> WellFormed(Walk(node, names).value)
    decreases |names|
  {
    if names != [] && Entry(node, names[0]).Some? {
      EntryWellFormed(node, names[0]);
      WalkWellFormed(Entry(node, names[0]).value, names[1..]);
    }
  }

  // ---------- the watcher tree ----------

  /** A directory watcher: its path, its snapshot, and its children by name. */
  datatype Tree = Tree(dir: string, files: seq<FileInfo>, kids: map<string, Tree>)

  /** The name is that of a directory in the list. */
  predicate HasDir(files: seq<FileInfo>, dir: string, name: string) {
    exists f :: f in files && f.path == dir + name && f.IsDirectory()
  }

  ghost predicate IsSnapshotOf(dir: string, files: seq<FileInfo>) {
    SlashAtEnd(dir) && Sorted(files) && NamedChildren(dir, files)
  }

  /** The path invariant: every child's path is its parent's path, its key and a slash, the keys are
      the directory names of the snapshot, and the snapshot lists children in order. */
  ghost predicate Consistent(t: Tree) {
    && IsSnapshotOf(t.dir, t.files)
    && (forall name :: name in t.kids <==> IsName(name) && HasDir(t.files, t.dir, name))
    && (forall name | name in t.kids :: t.kids[name].dir == ChildDir(t.dir, name) && Consistent(t.kids[name]))
  }

  lemma ConsistentKid(t: Tree, name: string)
    requires Consistent(t) && name in t.kids
    ensures IsName(name) && SlashAtEnd(t.dir)
    ensures t.kids[name].dir == ChildDir(t.dir, name) && Consistent(t.kids[name])
  {
  }

  /** The names of the subdirectories. */
  function DirNames(node: Node): set<string> {
    if node.meta.IsDirectory() then
      set i | 0 <= i < |node.entries| && node.entries[i].1.meta.IsDirectory() :: node.entries[i].0
    else {}
  }

  /** The tree that mirrors a directory. */
  function Mirror(node: Node, dir: string): Tree
    decreases node
  {
    Tree(dir, Supported(Listing(node, dir)),
         map name | name in DirNames(node) && Entry(node, name).Some? ::
               Mirror(Entry(node, name).value, ChildDir(dir, name)))
  }

  /** resetDirectory on a subtree: the same tree under another path. */
  function Rebase(t: Tree, dir: string): Tree {
    Tree(dir, Rebased(t.files, dir), map name | name in t.kids :: Rebase(t.kids[name], ChildDir(dir, name)))
  }

  // ---------- one poll ----------

  /** createDirectory for each name; made holds the tree each of them gets. */
  function CreateAll(kids: map<string, Tree>, names: seq<string>, made: map<string, Tree>): map<string, Tree> {
    if names == [] then kids
    else
      var name := names[|names| - 1];
      var before := CreateAll(kids, names[..|names| - 1], made);
      if name in made then before[name := made[name]] else before
  }

  function RemoveAll(kids: map<string, Tree>, names: seq<string>): map<string, Tree> {
    if names == [] then kids
    else RemoveAll(kids, names[..|names| - 1]) - {names[|names| - 1]}
  }

  function MoveOne(kids: map<string, Tree>, from: string, to: string, dir: string): map<string, Tree> {
    if from in kids then (kids - {from})[to := Rebase(kids[from], ChildDir(dir, to))] else kids
  }

  function MoveAll(kids: map<string, Tree>, moves: seq<(string, string)>, dir: string): map<string, Tree> {
    if moves == [] then kids
    else
      var m := moves[|moves| - 1];
      MoveOne(MoveAll(kids, moves[..|moves| - 1], dir), m.0, m.1, dir)
  }

  function Names(files: seq<FileInfo>): seq<string> {
    seq(|files|, i requires 0 <= i < |files| => FileName(files[i].path))
  }

  function MoveNames(moved: seq<(string, FileInfo)>): seq<(string, string)> {
    seq(|moved|, i requires 0 <= i < |moved| => (FileName(moved[i].0), FileName(moved[i].1.path)))
  }

  /** The children after the node's own diff has been acted on, before they are polled themselves. */
  function KidsAfter(t: Tree, node: Node): map<string, Tree> {
    var d := ScanDiff(t.files, Supported(Listing(node, t.dir)));
    var created := CreateAll(t.kids, Names(d.dirsCreated), Mirror(node, t.dir).kids);
    MoveAll(RemoveAll(created, Names(d.dirsDeleted)), MoveNames(d.dirsMoved), t.dir)
  }

  /** DirWatcherGeneric::watch on the directory at the tree's path. */
  function Poll(t: Tree, node: Node): Tree
    decreases node
  {
    var kids := KidsAfter(t, node);
    Tree(t.dir, Supported(Listing(node, t.dir)),
         map name | name in kids ::
           match Entry(node, name) case None => PollGone(kids[name]) case Some(e) => Poll(kids[name], e))
  }

  /** watch on a directory that is not there any more. */
  function PollGone(t: Tree): Tree {
    Tree(t.dir, [], map[])
  }
}
