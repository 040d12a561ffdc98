/** What a directory rename does to the directory tree the kernel keeps, and what the rewriting
    loop of FileWatcherInotify::handleAction does to the paths stored in the watch table. */
module PathTracking {
  import opened Collections
  import opened Paths

  /** A directory of the file system: its inode and its subdirectories by name. */
  datatype Dir = Dir(ino: nat, kids: map<string, Dir>)

  function Lookup(tree: Dir, names: seq<string>): Option<Dir>
    decreases |names|
  {
    if names == [] then Some(tree)
    else if names[0] in tree.kids then Lookup(tree.kids[names[0]], names[1..])
    else None
  }

  function Detach(tree: Dir, names: seq<string>): Dir
    requires names != [] && Lookup(tree, names).Some?
    decreases |names|
  {
    if |names| == 1 then tree.(kids := tree.kids - {names[0]})
    else tree.(kids := tree.kids[names[0] := Detach(tree.kids[names[0]], names[1..])])
  }

  function Parent(names: seq<string>): seq<string>
    requires names != []
  {
    names[..|names| - 1]
  }

  function Attach(tree: Dir, names: seq<string>, sub: Dir): Dir
    requires names != [] && Lookup(tree, Parent(names)).Some?
    decreases |names|
  {
    if |names| == 1 then tree.(kids := tree.kids[names[0] := sub])
    else
      assert Parent(names)[1..] == Parent(names[1..]);
      tree.(kids := tree.kids[names[0] := Attach(tree.kids[names[0]], names[1..], sub)])
  }

  /** What rename(2) asks of a directory rename: the source exists, the destination's parent exists,
      the destination is not inside the source, and an existing destination is an empty directory. */
  predicate CanRename(tree: Dir, src: seq<string>, dst: seq<string>) {
    && src != [] && dst != [] && AreNames(src) && AreNames(dst)
    && Lookup(tree, src).Some?
    && Lookup(tree, Parent(dst)).Some?
    && !(src <= dst)
    && (Lookup(tree, dst).Some? ==> Lookup(tree, dst).value.kids == map[])
  }

  function Rename(tree: Dir, src: seq<string>, dst: seq<string>): Dir
    requires CanRename(tree, src, dst)
  {
    DetachKeeps(tree, src, Parent(dst));
    Attach(Detach(tree, src), dst, Lookup(tree, src).value)
  }

  // ---------- the tree after a rename ----------

  /** Detaching a directory leaves the inode of every path outside it, and nothing below it. */
  lemma {:induction false} DetachKeeps(tree: Dir, src: seq<string>, names: seq<string>)
    requires src != [] && Lookup(tree, src).Some?
    ensures src <= names ==> Lookup(Detach(tree, src), names).None?
    ensures !(src <= names) ==>
              var was, now := Lookup(tree, names), Lookup(Detach(tree, src), names);
              was.Some? == now.Some? && (was.Some? ==> was.value.ino == now.value.ino)
    decreases |names|
  {
    if names != [] && names[0] == src[0] && |src| > 1 {
      DetachKeeps(tree.kids[src[0]], src[1..], names[1..]);
      assert src == [src[0]] + src[1..] && names == [names[0]] + names[1..];
    }
  }

  /** Attaching a directory makes exactly its own content visible below the new path and leaves the
      inode of every other path. */
  lemma {:induction false} AttachShows(tree: Dir, dst: seq<string>, sub: Dir, names: seq<string>)
    requires dst != [] && Lookup(tree, Parent(dst)).Some?
    ensures dst <= names ==> Lookup(Attach(tree, dst, sub), names) == Lookup(sub, names[|dst|..])
    ensures !(dst <= names) ==>
              var was, now := Lookup(tree, names), Lookup(Attach(tree, dst, sub), names);
              was.Some? == now.Some? && (was.Some? ==> was.value.ino == now.value.ino)
    decreases |names|
  {
    if names != [] && names[0] == dst[0] {
      assert dst == [dst[0]] + dst[1..] && names == [names[0]] + names[1..];
      if |dst| > 1 {
        assert Parent(dst)[1..] == Parent(dst[1..]);
        AttachShows(tree.kids[dst[0]], dst[1..], sub, names[1..]);
        if dst <= names {
          assert names[|dst|..] == names[1..][|dst[1..]|..];
        }
      } else {
        assert names[|dst|..] == names[1..];
      }
    }
  }

  lemma {:induction false} LookupAppend(tree: Dir, a: seq<string>, b: seq<string>)
    requires Lookup(tree, a).Some?
    ensures Lookup(tree, a + b) == Lookup(Lookup(tree, a).value, b)
    decreases |a|
  {
    if a == [] {
      assert a + b == b;
    } else {
      assert (a + b)[1..] == a[1..] + b;
      LookupAppend(tree.kids[a[0]], a[1..], b);
    }
  }

  lemma {:induction false} LookupPrefix(tree: Dir, a: seq<string>, names: seq<string>)
    requires a <= names && Lookup(tree, names).Some?
    ensures Lookup(tree, a).Some?
    decreases |a|
  {
    if a != [] {
      LookupPrefix(tree.kids[a[0]], a[1..], names[1..]);
    }
  }

  /** An existing destination is empty, so it does not contain the source. */
  lemma DestinationOutsideSource(tree: Dir, src: seq<string>, dst: seq<string>)
    requires CanRename(tree, src, dst)
    ensures !(dst <= src)
  {
    if dst <= src {
      LookupPrefix(tree, dst, src);
      assert src == dst + src[|dst|..];
      assert src[|dst|..] != [];
      LookupAppend(tree, dst, src[|dst|..]);
      assert false;
    }
  }

  /** What every path leads to after the rename: below the destination to what was below the source, below
      the source to nothing, and elsewhere to what it led to before. */
  lemma RenameLookup(tree: Dir, src: seq<string>, dst: seq<string>, names: seq<string>)
    requires CanRename(tree, src, dst)
    ensures var after := Rename(tree, src, dst);
            if dst <= names then Lookup(after, names) == Lookup(tree, src + names[|dst|..])
            else if src <= names then Lookup(after, names).None?
            else
              && Lookup(after, names).Some? == Lookup(tree, names).Some?
              && (Lookup(tree, names).Some? ==> Lookup(after, names).value.ino == Lookup(tree, names).value.ino)
  {
    var cut, sub := Detach(tree, src), Lookup(tree, src).value;
    DetachKeeps(tree, src, Parent(dst));
    DetachKeeps(tree, src, names);
    AttachShows(cut, dst, sub, names);
    if dst <= names {
      LookupAppend(tree, src, names[|dst|..]);
    }
  }

  /** Where a surviving inode is after the rename. */
  lemma InodeMoves(tree: Dir, src: seq<string>, dst: seq<string>, names: seq<string>)
    requires CanRename(tree, src, dst) && Lookup(tree, names).Some? && !(dst <= names)
    ensures var to := if src <= names then dst + names[|src|..] else names;
            Lookup(Rename(tree, src, dst), to).Some?
            && Lookup(Rename(tree, src, dst), to).value.ino == Lookup(tree, names).value.ino
    ensures src <= names ==> Lookup(Rename(tree, src, dst), names).None?
  {
    RenameLookup(tree, src, dst, names);
    if src <= names {
      var rest := names[|src|..];
      assert names == src + rest && (dst + rest)[|dst|..] == rest;
      RenameLookup(tree, src, dst, dst + rest);
    }
  }

  // ---------- the watch table's paths ----------

  function PathOf(names: seq<string>): string {
    [Slash] + Join(names)
  }

  /** One table entry in the rewriting loop of handleAction. */
  function Reprefix(dir: string, opath: string, npath: string): string {
    if dir == opath then npath
    else if StartsWith(opath, dir) then npath + dir[|opath|..]
    else dir
  }

  function ReprefixAll(dirs: map<int, string>, opath: string, npath: string): map<int, string> {
    map wd | wd in dirs :: Reprefix(dirs[wd], opath, npath)
  }

  /** dir is the path of the directory with this inode. */
  ghost predicate IsPathOf(tree: Dir, dir: string, ino: nat) {
    exists names ::
      AreNames(names) && dir == PathOf(names) && Lookup(tree, names).Some? && Lookup(tree, names).value.ino == ino
  }

  /** Every watch's path is the path of the inode its descriptor stands for. */
  ghost predicate Tracks(tree: Dir, dirs: map<int, string>, inos: map<int, nat>) {
    forall wd | wd in dirs :: wd in inos && IsPathOf(tree, dirs[wd], inos[wd])
  }

  predicate DistinctDirs(dirs: map<int, string>) {
    forall v, w | v in dirs && w in dirs && v != w :: dirs[v] != dirs[w]
  }

  predicate NoneBelow(dirs: map<int, string>, names: seq<string>) {
    forall wd | wd in dirs :: !(PathOf(names) <= dirs[wd])
  }

  lemma PathPrefix(a: seq<string>, b: seq<string>)
    requires AreNames(a) && AreNames(b)
    ensures PathOf(a) <= PathOf(b) <==> a <= b
    ensures PathOf(a) == PathOf(b) <==> a == b
  {
    JoinPrefix(a, b);
    JoinPrefix(b, a);
    assert Join(a) == PathOf(a)[1..] && Join(b) == PathOf(b)[1..];
    assert PathOf(a) <= PathOf(b) <==> Join(a) <= Join(b);
  }

  lemma PathAppend(a: seq<string>, b: seq<string>)
    ensures PathOf(a + b) == PathOf(a) + Join(b)
  {
    JoinAppend(a, b);
  }

  /** A rewritten path is the path of the moved names; every other path is left alone. */
  lemma ReprefixMeans(names: seq<string>, src: seq<string>, dst: seq<string>)
    requires AreNames(names) && AreNames(src) && AreNames(dst)
    ensures Reprefix(PathOf(names), PathOf(src), PathOf(dst)) ==
            if src <= names then PathOf(dst + names[|src|..]) else PathOf(names)
  {
    PathPrefix(src, names);
    if src <= names {
      var rest := names[|src|..];
      assert names == src + rest;
      PathAppend(src, rest);
      PathAppend(dst, rest);
      if rest == [] {
        assert dst + rest == dst && src == names;
      }
    }
  }

  /** One coalesced directory rename: every path stays the true path of its inode, and distinct
      directories stay distinct. */
  lemma RenameTracked(tree: Dir, src: seq<string>, dst: seq<string>, dirs: map<int, string>, inos: map<int, nat>)
    requires CanRename(tree, src, dst)
    requires Tracks(tree, dirs, inos) && NoneBelow(dirs, dst)
    ensures Tracks(Rename(tree, src, dst), ReprefixAll(dirs, PathOf(src), PathOf(dst)), inos)
    ensures DistinctDirs(dirs) ==> DistinctDirs(ReprefixAll(dirs, PathOf(src), PathOf(dst)))
  {
    var after, dirs' := Rename(tree, src, dst), ReprefixAll(dirs, PathOf(src), PathOf(dst));
    forall wd | wd in dirs'
      ensures wd in inos && IsPathOf(after, dirs'[wd], inos[wd])
    {
      var names := NamesOf(tree, dirs[wd], inos[wd]);
      PathPrefix(dst, names);
      InodeMoves(tree, src, dst, names);
      ReprefixMeans(names, src, dst);
      if src <= names {
        assert dirs'[wd] == PathOf(dst + names[|src|..]);
      }
    }
    if DistinctDirs(dirs) {
      forall v, w | v in dirs && w in dirs && v != w
        ensures dirs'[v] != dirs'[w]
      {
        var a, b := NamesOf(tree, dirs[v], inos[v]), NamesOf(tree, dirs[w], inos[w]);
        PathPrefix(a, b);
        PathPrefix(dst, a);
        PathPrefix(dst, b);
        RewrittenDistinct(a, b, src, dst);
      }
    }
  }

  ghost function NamesOf(tree: Dir, dir: string, ino: nat): (names: seq<string>)
    requires IsPathOf(tree, dir, ino)
    ensures AreNames(names) && dir == PathOf(names) && Lookup(tree, names).Some?
    ensures Lookup(tree, names).value.ino == ino
  {
    var names :|
      AreNames(names) && dir == PathOf(names) && Lookup(tree, names).Some? && Lookup(tree, names).value.ino == ino;
    names
  }

  lemma RewrittenDistinct(a: seq<string>, b: seq<string>, src: seq<string>, dst: seq<string>)
    requires AreNames(a) && AreNames(b) && AreNames(src) && AreNames(dst)
    requires a != b && !(dst <= a) && !(dst <= b)
    ensures Reprefix(PathOf(a), PathOf(src), PathOf(dst)) != Reprefix(PathOf(b), PathOf(src), PathOf(dst))
  {
    ReprefixMeans(a, src, dst);
    ReprefixMeans(b, src, dst);
    var a' := if src <= a then dst + a[|src|..] else a;
    var b' := if src <= b then dst + b[|src|..] else b;
    PathPrefix(a', b');
    assert src <= a ==> a == src + a[|src|..] && a'[|dst|..] == a[|src|..];
    assert src <= b ==> b == src + b[|src|..] && b'[|dst|..] == b[|src|..];
    assert a' != b';
  }

  /** When the moved path is not found to be a directory any more, the table is left as it was, and
      then it is right exactly when nothing at or below the moved directory is watched. */
  lemma UnrewrittenTracks(tree: Dir, src: seq<string>, dst: seq<string>, dirs: map<int, string>, inos: map<int, nat>)
    requires CanRename(tree, src, dst)
    requires Tracks(tree, dirs, inos) && NoneBelow(dirs, dst)
    ensures Tracks(Rename(tree, src, dst), dirs, inos) <==> NoneBelow(dirs, src)
  {
    var after := Rename(tree, src, dst);
    forall wd | wd in dirs
      ensures IsPathOf(after, dirs[wd], inos[wd]) <==> !(PathOf(src) <= dirs[wd])
    {
      var names := NamesOf(tree, dirs[wd], inos[wd]);
      PathPrefix(src, names);
      PathPrefix(dst, names);
      InodeMoves(tree, src, dst, names);
      if IsPathOf(after, dirs[wd], inos[wd]) {
        var now := NamesOf(after, dirs[wd], inos[wd]);
        PathPrefix(names, now);
      }
    }
  }

  // ---------- runs ----------

  /** One coalesced directory rename: whether the watch that handles its event is recursive, and whether
      the destination was still found to be a directory then. */
  datatype Move = Move(src: seq<string>, dst: seq<string>, recursive: bool, found: bool)
  {
    /** The rename is followed through the table. */
    predicate Seen() {
      recursive && found
    }
  }

  function Rewritten(dirs: map<int, string>, m: Move): map<int, string> {
    if m.Seen() then ReprefixAll(dirs, PathOf(m.src), PathOf(m.dst)) else dirs
  }

  /** The renames are ones the tree allows, onto destinations that are not watched. */
  predicate Possible(tree: Dir, dirs: map<int, string>, moves: seq<Move>)
    decreases |moves|
  {
    moves != [] ==>
      && CanRename(tree, moves[0].src, moves[0].dst)
      && NoneBelow(dirs, moves[0].dst)
      && Possible(Rename(tree, moves[0].src, moves[0].dst), Rewritten(dirs, moves[0]), moves[1..])
  }

  /** Every renamed directory with a watch at or below it was still found at its new path, by a recursive
      watch. */
  predicate AllSeen(dirs: map<int, string>, moves: seq<Move>)
    decreases |moves|
  {
    moves != [] ==>
      && (moves[0].Seen() || NoneBelow(dirs, moves[0].src))
      && AllSeen(Rewritten(dirs, moves[0]), moves[1..])
  }

  /** The table is right, with distinct directories, at the start and after each rename. */
  ghost predicate TracksThroughout(tree: Dir, dirs: map<int, string>, inos: map<int, nat>, moves: seq<Move>)
    requires Possible(tree, dirs, moves)
    decreases |moves|
  {
    && Tracks(tree, dirs, inos)
    && DistinctDirs(dirs)
    && (moves != [] ==>
          TracksThroughout(Rename(tree, moves[0].src, moves[0].dst), Rewritten(dirs, moves[0]), inos, moves[1..]))
  }

  /** Path tracking over any sequence of coalesced directory renames: the table is right after every
      one of them exactly when each rename that moved a watch was handled by a recursive watch and the
      directory still found in place. */
  lemma {:induction false} RunTracked(tree: Dir, dirs: map<int, string>, inos: map<int, nat>, moves: seq<Move>)
    requires Possible(tree, dirs, moves)
    requires Tracks(tree, dirs, inos) && DistinctDirs(dirs)
    ensures TracksThroughout(tree, dirs, inos, moves) <==> AllSeen(dirs, moves)
    decreases |moves|
  {
    if moves != [] {
      var m := moves[0];
      RenameTracked(tree, m.src, m.dst, dirs, inos);
      UnrewrittenTracks(tree, m.src, m.dst, dirs, inos);
      var after, dirs' := Rename(tree, m.src, m.dst), Rewritten(dirs, m);
      if m.Seen() || NoneBelow(dirs, m.src) {
        RunTracked(after, dirs', inos, moves[1..]);
      } else {
        assert !Tracks(after, dirs', inos);
      }
    }
  }

  /** A batch is replayed after all of it has happened. A directory renamed twice in one batch is not
      found at its first new path any more, so a watch in it is left with a path that is not its own. */
  lemma RenamedTwiceIsNotSeen(tree: Dir, src: seq<string>, mid: seq<string>, dst: seq<string>,
                              recursive: bool, dirs: map<int, string>, inos: map<int, nat>)
    requires CanRename(tree, src, mid) && CanRename(Rename(tree, src, mid), mid, dst)
    requires Tracks(tree, dirs, inos) && NoneBelow(dirs, mid) && !NoneBelow(dirs, src)
    ensures var end := Rename(Rename(tree, src, mid), mid, dst);
            var first := Move(src, mid, recursive, Lookup(end, mid).Some?);
            && !first.Seen()
            && !Tracks(Rename(tree, src, mid), Rewritten(dirs, first), inos)
  {
    DestinationOutsideSource(Rename(tree, src, mid), mid, dst);
    RenameLookup(Rename(tree, src, mid), mid, dst, mid);
    UnrewrittenTracks(tree, src, mid, dirs, inos);
  }

  /** a becomes b becomes c: the watch keeps the path /a/ and the tree has only /c/. */
  lemma RenamedTwiceExample()
    ensures var start, end := Dir(0, map["a" := Dir(1, map[])]), Dir(0, map["c" := Dir(1, map[])]);
            && CanRename(start, ["a"], ["b"]) && CanRename(Rename(start, ["a"], ["b"]), ["b"], ["c"])
            && end == Rename(Rename(start, ["a"], ["b"]), ["b"], ["c"])
            && Rewritten(Rewritten(map[7 := "/a/"], Move(["a"], ["b"], true, Lookup(end, ["b"]).Some?)),
                         Move(["b"], ["c"], true, Lookup(end, ["c"]).Some?)) == map[7 := "/a/"]
            && Lookup(end, ["a"]).None?
  {
    RenameOnlyChild("a", "b", 1);
    RenameOnlyChild("b", "c", 1);
    assert PathOf(["b"]) == "/b/" && PathOf(["c"]) == "/c/";
    assert "/a/"[1] != "/b/"[1];
  }

  lemma RenameOnlyChild(a: string, b: string, ino: nat)
    requires IsName(a) && IsName(b) && a != b
    ensures var tree, to := Dir(0, map[a := Dir(ino, map[])]), Dir(0, map[b := Dir(ino, map[])]);
            CanRename(tree, [a], [b]) && Rename(tree, [a], [b]) == to
    ensures Lookup(Dir(0, map[b := Dir(ino, map[])]), [a]).None?
    ensures Lookup(Dir(0, map[b := Dir(ino, map[])]), [b]).Some?
  {
    var tree := Dir(0, map[a := Dir(ino, map[])]);
    assert Parent([b]) == [];
    assert Detach(tree, [a]) == Dir(0, map[]);
  }

  /** A directory handled by a watch that is not recursive is not followed, found or not: of two watches
      that are not recursive, on / and on /a/, the second keeps the path /a/ when a becomes b. */
  lemma NotRecursiveExample()
    ensures var start, end := Dir(0, map["a" := Dir(1, map[])]), Dir(0, map["b" := Dir(1, map[])]);
            var m := Move(["a"], ["b"], false, Lookup(end, ["b"]).Some?);
            && CanRename(start, ["a"], ["b"]) && Rename(start, ["a"], ["b"]) == end && m.found
            && Rewritten(map[3 := "/", 7 := "/a/"], m)[7] == "/a/" && Lookup(end, ["a"]).None?
  {
    RenameOnlyChild("a", "b", 1);
  }
}
