/** When a poll is sure to mirror the file system, told from the old and the new directory alone, and a
    directory for which it does not. */
module PollSteady {
  import opened Paths
  import opened Files
  import opened Snapshot
  import opened MirrorTree
  import opened PollLevel
  import opened PollMirror

  /** No name stays and changes its kind, neither in this directory nor in a subdirectory that stays, nor in
      one that may have been moved: gone under one name, new under another. */
  ghost predicate Steady(was: Node, now: Node)
    decreases now
  {
    && (forall name | Entry(was, name).Some? && Entry(now, name).Some? ::
          && Entry(was, name).value.meta.IsDirectory() == Entry(now, name).value.meta.IsDirectory()
          && (Entry(now, name).value.meta.IsDirectory() ==> Steady(Entry(was, name).value, Entry(now, name).value)))
    && (forall src, name | MayMove(was, now, src, name) :: Steady(Entry(was, src).value, Entry(now, name).value))
  }

  predicate MayMove(was: Node, now: Node, src: string, name: string) {
    && Entry(was, src).Some? && Entry(was, src).value.meta.IsDirectory() && Entry(now, src).None?
    && Entry(now, name).Some? && Entry(now, name).value.meta.IsDirectory() && Entry(was, name).None?
  }

  lemma {:induction false} SupportedRebased(files: seq<FileInfo>, dir: string)
    ensures Supported(Rebased(files, dir)) == Rebased(Supported(files), dir)
    decreases |files|
  {
    hide FileName, Supported, Rebased;
    if files == [] {
      NoneRebased(dir);
    } else {
      var front, last := files[..|files| - 1], files[|files| - 1];
      assert files == front + [last];
      RebasedNext(front, last, dir);
      SupportedNext(front, last);
      var moved := last.(path := dir + FileName(last.path));
      SupportedNext(Rebased(front, dir), moved);
      RebasedNext(Supported(front), last, dir);
      assert Supported(front) + [] == Supported(front);
      assert Rebased(Supported(front), dir) + [] == Rebased(Supported(front), dir);
      SupportedRebased(front, dir);
    }
  }

  lemma NoneRebased(dir: string)
    ensures Rebased([], dir) == [] && Supported([]) == []
  {
  }

  lemma RebasedNext(front: seq<FileInfo>, last: FileInfo, dir: string)
    ensures Rebased(front + [last], dir) == Rebased(front, dir) + Rebased([last], dir)
    ensures Rebased([last], dir) == [last.(path := dir + FileName(last.path))]
  {
    hide FileName;
  }

  lemma SupportedNext(front: seq<FileInfo>, last: FileInfo)
    ensures Supported(front + [last])
            == Supported(front) + (if last.IsRegularFile() || last.IsDirectory() then [last] else [])
  {
    assert (front + [last])[..|front|] == front;
  }

  lemma ListingRebased(node: Node, from: string, to: string)
    requires WellFormed(node) && SlashAtEnd(from)
    ensures Listing(node, to) == Rebased(Listing(node, from), to)
  {
    forall i | 0 <= i < |Listing(node, from)|
      ensures FileName(from + node.entries[i].0) == node.entries[i].0
    {
      assert node.entries[i] in node.entries;
      ChildParts(from, node.entries[i].0);
    }
  }

  /** A mirror under another path is the mirror made there. */
  lemma {:induction false} MirrorRebased(node: Node, from: string, to: string)
    requires WellFormed(node) && SlashAtEnd(from) && SlashAtEnd(to)
    ensures Rebase(Mirror(node, from), to) == Mirror(node, to)
    decreases node
  {
    hide WellFormed, Listing, Supported, Rebased, Mirror, EntryFrom;
    ListingRebased(node, from, to);
    SupportedRebased(Listing(node, from), to);
    MirrorParts(node, from);
    MirrorParts(node, to);
    SameKeys(node, from, to);
    forall name | name in Mirror(node, from).kids
      ensures Rebase(Mirror(node, from).kids[name], ChildDir(to, name)) == Mirror(node, to).kids[name]
    {
      EntryWellFormed(node, name);
      MirrorRebased(Entry(node, name).value, ChildDir(from, name), ChildDir(to, name));
    }
  }

  lemma SameKeys(node: Node, from: string, to: string)
    ensures Mirror(node, from).kids.Keys == Mirror(node, to).kids.Keys
  {
  }

  /** What is listed under a name is the entry of that name. */
  lemma ListedEntry(node: Node, dir: string, f: FileInfo) returns (name: string)
    requires WellFormed(node) && f in Supported(Listing(node, dir))
    ensures IsName(name) && f.path == dir + name && Entry(node, name).Some?
    ensures f.IsDirectory() == Entry(node, name).value.meta.IsDirectory()
  {
    var i :| 0 <= i < |Listing(node, dir)| && Listing(node, dir)[i] == f;
    name := node.entries[i].0;
    assert node.entries[i] in node.entries;
    assert Entry(node, name).Some?;
    var k :| 0 <= k < |node.entries| && node.entries[k] == (name, Entry(node, name).value);
    assert k == i by {
      LessIrreflexive(name);
    }
  }

  /** A directory that is an entry is listed. */
  lemma EntryListed(node: Node, dir: string, name: string)
    requires WellFormed(node) && Entry(node, name).Some? && Entry(node, name).value.meta.IsDirectory()
    ensures Holds(Supported(Listing(node, dir)), dir + name) && name in DirNames(node)
  {
    EntryWellFormed(node, name);
    var k :| 0 <= k < |node.entries| && node.entries[k] == (name, Entry(node, name).value);
    assert name in DirNames(node);
    ListedDirs(node, dir, name);
    var _ := DirEntry(Supported(Listing(node, dir)), dir, name);
  }

  lemma SteadyKinds(was: Node, dir: string, now: Node)
    requires WellFormed(was) && WellFormed(now) && Steady(was, now)
    ensures SameKinds(Supported(Listing(was, dir)), Supported(Listing(now, dir)))
  {
    hide WellFormed, Entry, Listing, Supported, FileInfo.IsDirectory;
    forall o, f | o in Supported(Listing(was, dir)) && f in Supported(Listing(now, dir)) && o.path == f.path
      ensures o.IsDirectory() == f.IsDirectory()
    {
      var a := ListedEntry(was, dir, o);
      var b := ListedEntry(now, dir, f);
      assert a == o.path[|dir|..] == b;
    }
  }

  /** In steady directories no kind changes anywhere the poll comes. */
  lemma {:induction false} SteadyKept(was: Node, dir: string, now: Node)
    requires WellFormed(was) && WellFormed(now) && SlashAtEnd(dir) && Steady(was, now)
    ensures KindsKept(Mirror(was, dir), now)
    decreases now, 1
  {
    hide WellFormed, Steady, KidsAfter, Mirror;
    SteadyKinds(was, dir, now);
    MirrorParts(was, dir);
    forall name | name in KidsAfter(Mirror(was, dir), now) && Entry(now, name).Some?
      ensures KindsKept(KidsAfter(Mirror(was, dir), now)[name], Entry(now, name).value)
    {
      SteadyKid(was, dir, now, name);
    }
  }

  lemma MirrorParts(node: Node, dir: string)
    ensures Mirror(node, dir).dir == dir && Mirror(node, dir).files == Supported(Listing(node, dir))
    ensures forall name | name in Mirror(node, dir).kids ::
              && Entry(node, name).Some? && name in DirNames(node)
              && Mirror(node, dir).kids[name] == Mirror(Entry(node, name).value, ChildDir(dir, name))
  {
  }

  lemma {:induction false} SteadyKid(was: Node, dir: string, now: Node, name: string)
    requires WellFormed(was) && WellFormed(now) && SlashAtEnd(dir) && Steady(was, now)
    requires name in KidsAfter(Mirror(was, dir), now) && Entry(now, name).Some?
    ensures KindsKept(KidsAfter(Mirror(was, dir), now)[name], Entry(now, name).value)
    decreases now, 0
  {
    hide WellFormed, KidsAfter, Mirror, Rebase, KindsKept, Consistent, Listing, Supported;
    var t, child, top := Mirror(was, dir), Entry(now, name).value, ChildDir(dir, name);
    MirrorConsistent(was, dir);
    MirrorParts(was, dir);
    MirrorParts(now, dir);
    KidsAfterAt(t, now, name);
    EntryWellFormed(now, name);
    ListedDirs(was, dir, name);
    ListedDirs(now, dir, name);
    ChildParts(dir, name);
    if Holds(t.files, dir + name) {
      EntryWellFormed(was, name);
      SteadyKept(Entry(was, name).value, top, child);
    } else if name in Mirror(now, dir).kids && KidsAfter(t, now)[name] == Mirror(now, dir).kids[name] {
      MirrorStays(child, top);
    } else {
      var src :| src in t.kids && !Holds(Supported(Listing(now, dir)), dir + src)
                 && KidsAfter(t, now)[name] == Rebase(t.kids[src], top);
      MovedKid(was, dir, now, src, name);
      EntryWellFormed(was, src);
      ChildParts(dir, src);
      MirrorRebased(Entry(was, src).value, ChildDir(dir, src), top);
      SteadyKept(Entry(was, src).value, top, child);
    }
  }

  lemma MovedKid(was: Node, dir: string, now: Node, src: string, name: string)
    requires WellFormed(was) && WellFormed(now) && Steady(was, now) && IsName(name)
    requires Entry(was, src).Some? && src in DirNames(was) && !Holds(Supported(Listing(now, dir)), dir + src)
    requires name in DirNames(now) && !Holds(Supported(Listing(was, dir)), dir + name)
    ensures MayMove(was, now, src, name)
  {
    hide WellFormed, Listing, Supported, Holds;
    EntryWellFormed(was, src);
    ListedDirs(was, dir, src);
    ListedDirs(now, dir, name);
    if Entry(now, src).Some? {
      EntryListed(now, dir, src);
    }
    if Entry(was, name).Some? {
      EntryListed(was, dir, name);
    }
  }

  /** A poll of the mirror of a steady directory gives the mirror of the directory as it is now. */
  lemma SteadyPoll(was: Node, dir: string, now: Node)
    requires WellFormed(was) && WellFormed(now) && SlashAtEnd(dir) && Steady(was, now)
    ensures Poll(Mirror(was, dir), now) == Mirror(now, dir)
  {
    hide WellFormed, Steady, Poll, Consistent, KindsKept;
    SteadyKept(was, dir, now);
    MirrorConsistent(was, dir);
    MirrorParts(was, dir);
    PollMirrors(Mirror(was, dir), now);
  }

  const Directory := FileInfo("", 0, 0, 0, 0, 0x41ED, 1, 2, 1)
  const RegularFile := FileInfo("", 0, 0, 0, 0, 0x81A4, 1, 3, 1)

  /** The directory a becomes a file a: after the poll the tree still has a watcher for it. */
  lemma KindChangedExample()
    ensures var was := Node(Directory, [("a", Node(Directory, []))]);
            var now := Node(Directory, [("a", Node(RegularFile, []))]);
            && WellFormed(was) && WellFormed(now) && !KindsKept(Mirror(was, "/r/"), now)
            && Poll(Mirror(was, "/r/"), now) != Mirror(now, "/r/")
            && "a" in Poll(Mirror(was, "/r/"), now).kids && "a" !in Mirror(now, "/r/").kids
  {
    hide KindsKept, KidsAfter, Poll, WellFormed, Consistent, Listing, Supported, Mirror, HasDir, Holds;
    var was, now := Node(Directory, [("a", Node(Directory, []))]), Node(Directory, [("a", Node(RegularFile, []))]);
    SingleEntry(Directory);
    SingleEntry(RegularFile);
    var t := Mirror(was, "/r/");
    MirrorConsistent(was, "/r/");
    KidsAfterAt(t, now, "a");
    MirrorParts(was, "/r/");
    PolledKids(t, now, "a");
    ExampleListed(t.files, Supported(Listing(now, "/r/")));
    assert "a" !in DirNames(now);
    MirrorParts(now, "/r/");
    PollMirrors(t, now);
  }

  lemma ExampleListed(was: seq<FileInfo>, now: seq<FileInfo>)
    requires was == [Directory.(path := "/r/a")] && now == [RegularFile.(path := "/r/a")]
    ensures HasDir(was, "/r/", "a") && Holds(was, "/r/" + "a") && Holds(now, "/r/" + "a")
  {
    assert was[0].path == now[0].path == "/r/" + "a";
    assert was[0] in was;
  }

  lemma SingleEntry(meta: FileInfo)
    requires meta.IsDirectory() || meta.IsRegularFile()
    ensures var node := Node(Directory, [("a", Node(meta, []))]);
            WellFormed(node) && Supported(Listing(node, "/r/")) == [meta.(path := "/r/a")]
  {
    var node := Node(Directory, [("a", Node(meta, []))]);
    var f := meta.(path := "/r/a");
    assert "/r/" + "a" == "/r/a";
    assert Listing(node, "/r/") == [f];
    assert [f][..0] == [] && Supported([]) == [];
  }
}
