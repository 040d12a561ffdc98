/** The polled tree mirrors the file system: after a poll it is the tree of the directory as it is,
    exactly when no path that stayed changed between file and directory. */
module PollMirror {
  import opened Collections
  import opened Paths
  import opened Files
  import opened Snapshot
  import opened MirrorTree
  import opened PollLevel

  lemma {:induction false} MirrorConsistent(node: Node, dir: string)
    requires WellFormed(node) && SlashAtEnd(dir)
    ensures Consistent(Mirror(node, dir))
    decreases node
  {
    hide WellFormed, Listing, Supported, HasDir, Mirror, IsSnapshotOf;
    var t := Mirror(node, dir);
    ListingIsSnapshot(node, dir);
    MirrorKeys(node, dir);
    MirrorTop(node, dir);
    forall name | name in t.kids
      ensures t.kids[name].dir == ChildDir(dir, name) && Consistent(t.kids[name])
    {
      MirrorKids(node, dir, name);
      EntryWellFormed(node, name);
      MirrorTop(Entry(node, name).value, ChildDir(dir, name));
      MirrorConsistent(Entry(node, name).value, ChildDir(dir, name));
    }
  }

  lemma MirrorTop(node: Node, dir: string)
    ensures Mirror(node, dir).dir == dir && Mirror(node, dir).files == Supported(Listing(node, dir))
  {
  }

  // ---------- what a mirror shows ----------

  /** The names lead from a directory through directories to an entry. */
  ghost predicate LeadsTo(node: Node, names: seq<string>, at: Node)
    decreases |names|
  {
    if names == [] then at == node
    else
      node.meta.IsDirectory()
      && exists i | 0 <= i < |node.entries| ::
           node.entries[i].0 == names[0] && LeadsTo(node.entries[i].1, names[1..], at)
  }

  /** The watcher these names lead to. */
  function TreeAt(t: Tree, names: seq<string>): Option<Tree>
    decreases |names|
  {
    if names == [] then Some(t)
    else if names[0] in t.kids then TreeAt(t.kids[names[0]], names[1..])
    else None
  }

  /** The list has exactly the files and directories that are in a directory, by their paths. */
  ghost predicate Shows(files: seq<FileInfo>, at: Node, dir: string) {
    forall f :: f in files <==>
                && at.meta.IsDirectory() && (f.IsRegularFile() || f.IsDirectory())
                && exists i :: 0 <= i < |at.entries| && f == at.entries[i].1.meta.(path := dir + at.entries[i].0)
  }

  lemma ListingShows(node: Node, dir: string)
    ensures Shows(Supported(Listing(node, dir)), node, dir)
  {
    hide FileInfo.IsRegularFile, FileInfo.IsDirectory;
    var l := Listing(node, dir);
    forall f
      ensures f in l <==>
              && node.meta.IsDirectory()
              && exists i :: 0 <= i < |node.entries| && f == node.entries[i].1.meta.(path := dir + node.entries[i].0)
    {
      if i :| 0 <= i < |node.entries| && f == node.entries[i].1.meta.(path := dir + node.entries[i].0)
              && node.meta.IsDirectory() {
        assert l[i] == f;
      }
    }
  }

  /** One step of a chain, and the entry that is found by the name. */
  lemma LeadsByEntry(node: Node, names: seq<string>, at: Node)
    requires WellFormed(node) && names != []
    ensures LeadsTo(node, names, at) <==>
            Entry(node, names[0]).Some? && LeadsTo(Entry(node, names[0]).value, names[1..], at)
  {
    hide Less;
    if node.meta.IsDirectory() && exists i :: 0 <= i < |node.entries| && node.entries[i].0 == names[0] {
      var k :| 0 <= k < |node.entries| && node.entries[k] == (names[0], Entry(node, names[0]).value);
      forall i | 0 <= i < |node.entries| && node.entries[i].0 == names[0]
        ensures i == k
      {
        LessIrreflexive(names[0]);
      }
    }
  }

  lemma MirrorKid(node: Node, dir: string, name: string)
    requires WellFormed(node)
    ensures name in Mirror(node, dir).kids <==> Entry(node, name).Some? && Entry(node, name).value.meta.IsDirectory()
  {
    hide Less, Listing, Supported;
    EntryWellFormed(node, name);
    if Entry(node, name).Some? {
      ListedDirs(node, dir, name);
      var k :| 0 <= k < |node.entries| && node.entries[k] == (name, Entry(node, name).value);
    }
    if name in DirNames(node) {
      var i :| 0 <= i < |node.entries| && node.entries[i].0 == name;
      assert node.entries[i] in node.entries;
      ListedDirs(node, dir, name);
    }
  }

  /** A mirror has a watcher by exactly the names that lead through directories to a directory, and it shows
      what is there, under its path. */
  lemma {:induction false} MirrorShows(node: Node, dir: string, names: seq<string>)
    requires WellFormed(node)
    ensures TreeAt(Mirror(node, dir), names).Some? <==>
            exists at :: LeadsTo(node, names, at) && (names == [] || at.meta.IsDirectory())
    ensures forall at | LeadsTo(node, names, at) && (names == [] || at.meta.IsDirectory()) ::
              var t := TreeAt(Mirror(node, dir), names);
              t.Some? && t.value.dir == dir + Join(names) && Shows(t.value.files, at, dir + Join(names))
    decreases |names|
  {
    hide WellFormed, Listing, Supported, Mirror, Shows, FileInfo.IsDirectory;
    if names == [] {
      MirrorTop(node, dir);
      ListingShows(node, dir);
      assert dir + Join(names) == dir;
      assert LeadsTo(node, names, node);
    } else {
      var name := names[0];
      MirrorKid(node, dir, name);
      forall at {
        LeadsByEntry(node, names, at);
      }
      if Entry(node, name).Some? {
        var e := Entry(node, name).value;
        EntryWellFormed(node, name);
        MirrorKids(node, dir, name);
        MirrorShows(e, ChildDir(dir, name), names[1..]);
        assert ChildDir(dir, name) + Join(names[1..]) == dir + Join(names);
      }
    }
  }

  lemma RebasedHas(files: seq<FileInfo>, from: string, to: string, name: string)
    requires SlashAtEnd(from) && SlashAtEnd(to) && NamedChildren(from, files) && HasDir(files, from, name)
    ensures HasDir(Rebased(files, to), to, name)
  {
    var f := DirEntry(files, from, name);
    var i :| 0 <= i < |files| && files[i] == f;
    RebasedEntry(files, from, to, i);
    SameTail(from, f.path[|from|..], name);
    assert Rebased(files, to)[i] in Rebased(files, to);
  }

  lemma RebasedDirs(files: seq<FileInfo>, from: string, to: string, name: string)
    requires SlashAtEnd(from) && SlashAtEnd(to) && NamedChildren(from, files)
    ensures HasDir(Rebased(files, to), to, name) <==> HasDir(files, from, name)
  {
    RebasedKeeps(files, from, to);
    if HasDir(files, from, name) {
      RebasedHas(files, from, to, name);
    }
    if HasDir(Rebased(files, to), to, name) {
      RebasedHas(Rebased(files, to), to, from, name);
    }
  }

  lemma {:induction false} RebaseConsistent(t: Tree, dir: string)
    requires Consistent(t) && SlashAtEnd(dir)
    ensures Consistent(Rebase(t, dir))
    decreases t
  {
    RebasedKeeps(t.files, t.dir, dir);
    forall name
      ensures name in Rebase(t, dir).kids <==> IsName(name) && HasDir(Rebased(t.files, dir), dir, name)
    {
      RebasedDirs(t.files, t.dir, dir, name);
    }
    forall name | name in t.kids
      ensures Consistent(Rebase(t.kids[name], ChildDir(dir, name)))
    {
      RebaseConsistent(t.kids[name], ChildDir(dir, name));
    }
  }

  /** No entry that is listed under the same path before and after changed its kind. */
  ghost predicate SameKinds(was: seq<FileInfo>, files: seq<FileInfo>) {
    forall o, f | o in was && f in files && o.path == f.path :: o.IsDirectory() == f.IsDirectory()
  }

  /** The same in every directory the poll reaches. */
  ghost predicate KindsKept(t: Tree, node: Node)
    decreases node
  {
    && SameKinds(t.files, Supported(Listing(node, t.dir)))
    && forall name | name in KidsAfter(t, node) && Entry(node, name).Some? ::
         KindsKept(KidsAfter(t, node)[name], Entry(node, name).value)
  }

  /** The children that are polled next satisfy the path invariant. */
  lemma KidsConsistent(t: Tree, node: Node, name: string)
    requires Consistent(t) && WellFormed(node) && name in KidsAfter(t, node)
    ensures var k := KidsAfter(t, node)[name]; Consistent(k) && k.dir == ChildDir(t.dir, name)
    ensures Entry(node, name).Some? && WellFormed(Entry(node, name).value)
  {
    hide Consistent, WellFormed, KidsAfter, Listing, Supported;
    var p, k := t.dir + name, KidsAfter(t, node)[name];
    KidsAfterAt(t, node, name);
    ListedDirs(node, t.dir, name);
    EntryWellFormed(node, name);
    assert SlashAtEnd(t.dir) by {
      ConsistentDir(t);
    }
    if Holds(t.files, p) {
      ConsistentKid(t, name);
    } else if name in Mirror(node, t.dir).kids && k == Mirror(node, t.dir).kids[name] {
      MirrorConsistent(Entry(node, name).value, ChildDir(t.dir, name));
    } else {
      var src :| src in t.kids && k == Rebase(t.kids[src], ChildDir(t.dir, name));
      ConsistentKid(t, src);
      RebaseConsistent(t.kids[src], ChildDir(t.dir, name));
    }
  }

  lemma ConsistentDir(t: Tree)
    requires Consistent(t)
    ensures SlashAtEnd(t.dir)
  {
  }

  lemma KindsDecideKey(was: seq<FileInfo>, files: seq<FileInfo>, dir: string, name: string)
    requires Sorted(was) && Sorted(files) && Holds(was, dir + name) && Holds(files, dir + name)
    ensures (HasDir(was, dir, name) <==> HasDir(files, dir, name)) <==>
            forall o, f | o in was && f in files && o.path == f.path == dir + name :: o.IsDirectory() == f.IsDirectory()
  {
    var i :| 0 <= i < |was| && was[i].path == dir + name;
    var j :| 0 <= j < |files| && files[j].path == dir + name;
    HasDirMeans(was, dir, name, was[i]);
    HasDirMeans(files, dir, name, files[j]);
    forall o | o in was && o.path == dir + name {
      SameEntry(was, o, was[i]);
    }
    forall f | f in files && f.path == dir + name {
      SameEntry(files, f, files[j]);
    }
  }

  /** The rule by which a name is that of a child after the node's own diff. */
  predicate KeptKey(was: seq<FileInfo>, files: seq<FileInfo>, dir: string, name: string) {
    if Holds(was, dir + name) then HasDir(was, dir, name) && Holds(files, dir + name) else HasDir(files, dir, name)
  }

  /** Where a kind has changed, the rule and the listing disagree about the name. */
  lemma ChangedKey(was: seq<FileInfo>, files: seq<FileInfo>, dir: string) returns (name: string)
    requires IsSnapshotOf(dir, was) && IsSnapshotOf(dir, files) && !SameKinds(was, files)
    ensures IsName(name) && (KeptKey(was, files, dir, name) <==> !HasDir(files, dir, name))
  {
    var o, f :| o in was && f in files && o.path == f.path && o.IsDirectory() != f.IsDirectory();
    name := o.path[|dir|..];
    assert o.path == dir + name;
    HeldEntry(was, o);
    HeldEntry(files, f);
    HasDirMeans(was, dir, name, o);
    HasDirMeans(files, dir, name, f);
  }

  lemma KeysDecided(was: seq<FileInfo>, files: seq<FileInfo>, dir: string, k: set<string>, made: set<string>)
    requires IsSnapshotOf(dir, was) && IsSnapshotOf(dir, files)
    requires forall name :: name in k <==> IsName(name) && KeptKey(was, files, dir, name)
    requires forall name :: name in made <==> IsName(name) && HasDir(files, dir, name)
    ensures k == made <==> SameKinds(was, files)
  {
    if SameKinds(was, files) {
      forall name
        ensures name in k <==> name in made
      {
        SameKey(was, files, dir, name);
      }
    } else {
      var name := ChangedKey(was, files, dir);
      assert name in k <==> name !in made;
    }
  }

  /** The children have the right names exactly when no kind changed here. */
  lemma KeysRight(t: Tree, node: Node)
    requires Consistent(t) && WellFormed(node)
    ensures KidsAfter(t, node).Keys == Mirror(node, t.dir).kids.Keys <==>
            SameKinds(t.files, Supported(Listing(node, t.dir)))
  {
    var files, k, made := Supported(Listing(node, t.dir)), KidsAfter(t, node), Mirror(node, t.dir).kids;
    ListingIsSnapshot(node, t.dir);
    MirrorKeys(node, t.dir);
    forall name
      ensures name in k.Keys <==> IsName(name) && KeptKey(t.files, files, t.dir, name)
    {
      KidsAfterAt(t, node, name);
    }
    KeysDecided(t.files, files, t.dir, k.Keys, made.Keys);
  }

  lemma SameKey(was: seq<FileInfo>, files: seq<FileInfo>, dir: string, name: string)
    requires Sorted(was) && Sorted(files) && SameKinds(was, files)
    ensures KeptKey(was, files, dir, name) <==> HasDir(files, dir, name)
  {
    if Holds(was, dir + name) && Holds(files, dir + name) {
      KindsDecideKey(was, files, dir, name);
    }
    if HasDir(files, dir, name) {
      var _ := DirEntry(files, dir, name);
    }
  }

  /** Two maps are equal when they have the same keys, and the same values for them. */
  lemma SameMaps<T>(a: map<string, T>, b: map<string, T>, agree: set<string>)
    requires forall n | n in a && n in b :: a[n] == b[n] <==> n in agree
    ensures a == b <==> a.Keys == b.Keys && a.Keys <= agree
  {
    if a.Keys == b.Keys && a.Keys <= agree {
      assert forall n | n in a :: a[n] == b[n];
    }
  }

  /** The names of the children below which no kind changed. */
  ghost function KeptBelow(t: Tree, node: Node): set<string> {
    set name | name in KidsAfter(t, node) && Entry(node, name).Some?
               && KindsKept(KidsAfter(t, node)[name], Entry(node, name).value)
  }

  /** The children as the poll of each leaves them. */
  lemma PolledKids(t: Tree, node: Node, name: string)
    ensures var k, polled := KidsAfter(t, node), Poll(t, node).kids;
            && (name in polled <==> name in k)
            && (name in k && Entry(node, name).Some? ==> polled[name] == Poll(k[name], Entry(node, name).value))
  {
  }

  lemma MirrorKids(node: Node, dir: string, name: string)
    ensures var made := Mirror(node, dir).kids;
            name in made ==>
              Entry(node, name).Some? && made[name] == Mirror(Entry(node, name).value, ChildDir(dir, name))
  {
  }

  lemma KindsKeptMeans(t: Tree, node: Node)
    ensures KindsKept(t, node) <==>
            && SameKinds(t.files, Supported(Listing(node, t.dir)))
            && forall name | name in KidsAfter(t, node) && Entry(node, name).Some? :: name in KeptBelow(t, node)
  {
  }

  /** After a poll with the file system held still, the tree mirrors the directory exactly when no
      path that stayed has changed its kind. */
  lemma {:induction false} PollMirrors(t: Tree, node: Node)
    requires Consistent(t) && WellFormed(node)
    ensures Poll(t, node) == Mirror(node, t.dir) <==> KindsKept(t, node)
    decreases node, 1
  {
    hide Consistent;
    hide WellFormed;
    var k, made, polled, agree := KidsAfter(t, node), Mirror(node, t.dir).kids, Poll(t, node).kids, KeptBelow(t, node);
    forall name
      ensures name in k ==> Entry(node, name).Some?
      ensures name in polled <==> name in k
      ensures name in k && name in made ==> (polled[name] == made[name] <==> name in agree)
    {
      PolledKids(t, node, name);
      if name in k {
        PolledKid(t, node, name);
      }
    }
    assert polled.Keys == k.Keys;
    KeysRight(t, node);
    SameMaps(polled, made, agree);
    KindsKeptMeans(t, node);
  }

  lemma {:induction false} PolledKid(t: Tree, node: Node, name: string)
    requires Consistent(t) && WellFormed(node) && name in KidsAfter(t, node)
    ensures Entry(node, name).Some? && name in Poll(t, node).kids
    ensures name in Mirror(node, t.dir).kids ==>
              (Poll(t, node).kids[name] == Mirror(node, t.dir).kids[name] <==> name in KeptBelow(t, node))
    decreases node, 0
  {
    KidsConsistent(t, node, name);
    PolledKids(t, node, name);
    MirrorKids(node, t.dir, name);
    PollMirrors(KidsAfter(t, node)[name], Entry(node, name).value);
  }

  /** A mirror's children stay where they are in a poll of the same directory. */
  lemma StayingKid(node: Node, dir: string, name: string)
    requires WellFormed(node) && SlashAtEnd(dir)
    ensures name in KidsAfter(Mirror(node, dir), node) ==>
              && Entry(node, name).Some?
              && KidsAfter(Mirror(node, dir), node)[name] == Mirror(Entry(node, name).value, ChildDir(dir, name))
  {
    var t, files := Mirror(node, dir), Supported(Listing(node, dir));
    MirrorConsistent(node, dir);
    if name in KidsAfter(t, node) {
      KidsConsistent(t, node, name);
      KidsAfterAt(t, node, name);
      if !Holds(files, dir + name) {
        var _ := DirEntry(files, dir, name);
      }
      MirrorKids(node, dir, name);
    }
  }

  lemma SameFilesSameKinds(files: seq<FileInfo>)
    requires Sorted(files)
    ensures SameKinds(files, files)
  {
    forall o, f | o in files && f in files && o.path == f.path {
      SameEntry(files, o, f);
    }
  }

  /** A mirror polled again stays as it is. */
  lemma {:induction false} MirrorStays(node: Node, dir: string)
    requires WellFormed(node) && SlashAtEnd(dir)
    ensures KindsKept(Mirror(node, dir), node) && Poll(Mirror(node, dir), node) == Mirror(node, dir)
    decreases node, 1
  {
    hide Consistent, WellFormed, Poll, KidsAfter, KindsKept, Listing, Supported, SameKinds;
    var t := Mirror(node, dir);
    MirrorConsistent(node, dir);
    ListingIsSnapshot(node, dir);
    SameFilesSameKinds(t.files);
    forall name | name in KidsAfter(t, node) && Entry(node, name).Some?
      ensures name in KeptBelow(t, node)
    {
      KidStays(node, dir, name);
    }
    KindsKeptMeans(t, node);
    PollMirrors(t, node);
  }

  lemma {:induction false} KidStays(node: Node, dir: string, name: string)
    requires WellFormed(node) && SlashAtEnd(dir)
    ensures name in KidsAfter(Mirror(node, dir), node) ==> name in KeptBelow(Mirror(node, dir), node)
    decreases node, 0
  {
    hide Consistent, Poll, KidsAfter, KindsKept, Mirror;
    StayingKid(node, dir, name);
    if name in KidsAfter(Mirror(node, dir), node) {
      EntryWellFormed(node, name);
      ChildParts(dir, name);
      MirrorStays(Entry(node, name).value, ChildDir(dir, name));
    }
  }

  // ---------- runs of polls ----------

  /** The tree is the mirror of each state of the directory after the poll that saw it. */
  ghost predicate MirrorsThroughout(t: Tree, states: seq<Node>)
    decreases |states|
  {
    states != [] ==>
      Poll(t, states[0]) == Mirror(states[0], t.dir) && MirrorsThroughout(Poll(t, states[0]), states[1..])
  }

  /** From each state to the next no path that stays changes its kind. */
  ghost predicate KindsKeptThroughout(t: Tree, states: seq<Node>)
    decreases |states|
  {
    states != [] ==> KindsKept(t, states[0]) && KindsKeptThroughout(Mirror(states[0], t.dir), states[1..])
  }

  lemma {:induction false} PollRun(t: Tree, states: seq<Node>)
    requires Consistent(t) && forall n | n in states :: WellFormed(n)
    ensures MirrorsThroughout(t, states) <==> KindsKeptThroughout(t, states)
    decreases |states|
  {
    if states != [] {
      PollMirrors(t, states[0]);
      MirrorConsistent(states[0], t.dir);
      PollRun(Mirror(states[0], t.dir), states[1..]);
    }
  }
}
