/** FileWatcherInotify: the watch table and what registering, removing and handling one event do to
    it. The kernel is an oracle: every operation is given what the file system shows it. */
module InotifyTable {
  import opened Collections
  import opened InotifyEvents
  import opened InotifyReplay
  import opened InotifyWalk
  import opened InotifyWatch
  import opened MovedOut
  import opened Paths
  import opened Ownership
  import opened PathTracking
  import opened WatchTrees
  import opened WatchTreeSteps

  datatype PendingMove = PendingMove(watcher: WatcherInotify, filename: string)

  class FileWatcherInotify {
    var watches: map<int, WatcherInotify>
    var realWatches: map<int, WatcherInotify>
    var watchesRef: map<string, int>
    var deletedWatches: seq<WatcherInotify>
    var log: seq<Callback>
    /** What was handed to inotify_add_watch, with its answers. */
    var nativeAdds: seq<Request>
    /** realpath's answers, empty where it has none. */
    const realPath: map<string, string>
    ghost var repr: set<WatcherInotify>

    ghost predicate Valid()
      reads `watches, `realWatches, `repr
    {
      && (forall wd | wd in watches :: watches[wd] in repr && watches[wd].wd == wd)
      && (forall wd | wd in realWatches :: wd in watches && realWatches[wd] == watches[wd])
      && (forall wd | wd in watches && watches[wd].parent == null :: wd in realWatches)
      && (forall wd | wd in realWatches :: realWatches[wd].parent == null)
      && (forall w | w in repr && w.parent != null :: w.parent in repr && w.parent.depth < w.depth)
    }

    ghost function Dirs(): map<int, string>
      reads `watches, watches.Values`directory
    {
      map wd | wd in watches :: watches[wd].directory
    }

    function EntryOf(w: WatcherInotify): Entry
      reads w`directory
    {
      Entry(w, w.directory)
    }

    ghost function Table(): map<int, Entry>
      reads `watches, watches.Values`directory
    {
      map wd | wd in watches :: EntryOf(watches[wd])
    }

    ghost predicate UniqueDirectories()
      reads `watches, watches.Values`directory
    {
      forall v, w | v in watches && w in watches && v != w :: watches[v].directory != watches[w].directory
    }

    /** watchesRef finds every watch by its directory, and nothing else. */
    ghost predicate Refers()
      reads `watches, `watchesRef, watches.Values`directory
    {
      && (forall wd | wd in watches :: watches[wd].directory in watchesRef && watchesRef[watches[wd].directory] == wd)
      && (forall d | d in watchesRef :: watchesRef[d] in watches && watches[watchesRef[d]].directory == d)
    }

    /** Nothing is watched at this path, nor below it when below is set. */
    ghost predicate Unwatched(dir: string, below: bool)
      reads `watches, watches.Values`directory
    {
      forall v | v in watches :: watches[v].directory != dir && (below ==> !(dir <= watches[v].directory))
    }

    /** A directory with proper entries that is registered where nothing is watched yet. */
    ghost predicate FirstTime(dir: string, node: Node, recursive: bool)
      reads `watches, `watchesRef, watches.Values`directory
    {
      SlashAtEnd(dir) && WellNamed(node) && NamesDiffer(node) && Refers() && Unwatched(dir, recursive)
    }

    lemma TableEntries()
      ensures Table().Keys == watches.Keys
      ensures forall v | v in watches :: Table()[v] == EntryOf(watches[v])
      ensures UniqueDirectories() <==> Unique(Table())
      ensures Valid() ==> Keyed(Table())
    {
      assert forall v | v in watches :: Table()[v].dir == watches[v].directory;
    }

    /** directoryComparisonPath */
    function ComparisonPath(directory: string): string {
      AddSlash(if directory in realPath && realPath[directory] != "" then realPath[directory] else directory)
    }

    function RootOf(watch: WatcherInotify): Root
      reads watch`directory
    {
      Root(ComparisonPath(watch.directory), watch.recursive)
    }

    ghost function Roots(): map<int, Root>
      reads `realWatches, realWatches.Values`directory
    {
      map wd | wd in realWatches :: RootOf(realWatches[wd])
    }

    /** SingleOwner(Roots()), without building the map. */
    ghost predicate Owned()
      reads `realWatches, realWatches.Values`directory
    {
      forall v, w | v in realWatches && w in realWatches && v != w ::
        Check(RootOf(realWatches[v]), RootOf(realWatches[w])) == NoConflict
    }

    /** The invariant of registration: no directory belongs to two explicit registrations. */
    lemma OwnedMeansDisjoint()
      requires forall wd | wd in realWatches :: realWatches[wd].directory != ""
      ensures Owned() <==> SingleOwner(Roots())
      ensures Owned() <==>
              forall v, w, dir | v in realWatches && w in realWatches
                                 && Covers(RootOf(realWatches[v]), dir) && Covers(RootOf(realWatches[w]), dir) :: v == w
    {
      hide Check, Covers;
      SingleOwnerIffDisjoint(Roots());
      assert forall wd | wd in realWatches :: Roots()[wd] == RootOf(realWatches[wd]);
    }

    constructor (realPath: map<string, string>)
      ensures Valid() && watches == map[] && realWatches == map[] && repr == {} && log == []
      ensures this.realPath == realPath
    {
      this.realPath := realPath;
      watches, realWatches, watchesRef, deletedWatches := map[], map[], map[], [];
      log, nativeAdds := [], [];
      repr := {};
    }

    /** No explicit registration is stored strictly below this path. */
    ghost predicate NoRootBelow(dir: string)
      reads `realWatches, realWatches.Values`directory
    {
      forall wd | wd in realWatches :: !(dir < realWatches[wd].directory)
    }

    ghost predicate NoRootAt(dir: string)
      reads `realWatches, realWatches.Values`directory
    {
      forall wd | wd in realWatches :: realWatches[wd].directory != dir
    }

    // ---------- registration ----------

    method PathInWatches(path: string) returns (found: bool)
      ensures found <==> !NoRootAt(path)
    {
      var todo := realWatches.Keys;
      while todo != {}
        invariant todo <= realWatches.Keys
        invariant forall wd | wd in realWatches && wd !in todo :: realWatches[wd].directory != path
      {
        var wd := Pick(todo);
        if realWatches[wd].directory == path {
          return true;
        }
        todo := todo - {wd};
      }
      return false;
    }

    method GetWatchConflict(directory: string, recursive: bool) returns (v: Verdict)
      ensures v == NoConflict <==> Admissible(directory, recursive)
      ensures v != NoConflict ==>
                exists wd | wd in realWatches ::
                  Check(RootOf(realWatches[wd]), Root(ComparisonPath(directory), recursive)) == v
    {
      var comparisonDirectory := ComparisonPath(directory);
      ghost var added := Root(comparisonDirectory, recursive);
      var todo := realWatches.Keys;
      while todo != {}
        invariant todo <= realWatches.Keys
        invariant forall wd | wd in realWatches && wd !in todo :: Check(RootOf(realWatches[wd]), added) == NoConflict
      {
        var wd := Pick(todo);
        var watch := realWatches[wd];
        var existingDirectory := ComparisonPath(watch.directory);
        if existingDirectory == comparisonDirectory {
          return Repeated;
        }
        if watch.recursive && Inside(comparisonDirectory, existingDirectory) {
          return Overlapping;
        }
        if recursive && Inside(existingDirectory, comparisonDirectory) {
          return Overlapping;
        }
        todo := todo - {wd};
      }
      return NoConflict;
    }

    method InParentTree(w: WatcherInotify, p: WatcherInotify) returns (r: bool)
      requires Valid() && w in repr
      ensures r == InTree(w, p)
    {
      var next := w.parent;
      if next == null {
        return false;
      }
      var at: WatcherInotify := w;
      while true
        invariant at in repr && next == at.parent && next != null
        invariant InTree(w, p) == InTree(at, p)
        decreases at.depth
      {
        if next == p {
          return true;
        }
        at := next;
        next := at.parent;
        if next == null {
          return false;
        }
      }
    }

    // ---------- removal ----------

    /** The part of removeWatchLocked after its cascade. */
    method Erase(wd: int)
      requires Valid() && wd in watches
      modifies this
      ensures watches == old(watches) - {wd} && realWatches == old(realWatches) - {wd}
      ensures nativeAdds == old(nativeAdds)
      ensures Valid() && repr == old(repr) && log == old(log)
      ensures deletedWatches == old(deletedWatches) + [old(watches[wd])]
      ensures old(Refers()) ==> Refers()
    {
      var watch := watches[wd];
      watchesRef := watchesRef - {watch.directory};
      watches := watches - {wd};
      if watch.parent == null && wd in realWatches {
        realWatches := realWatches - {wd};
      }
      deletedWatches := deletedWatches + [watch];
    }

    /** What a removal takes out: the watch itself and, for a recursive root, its whole tree. */
    ghost function Removed(wd: int): set<int>
      reads `watches
    {
      if wd !in watches then {}
      else set v | v in watches && (v == wd || (watches[wd].recursive && watches[wd].parent == null
                                                && InTree(watches[v], watches[wd])))
    }

    lemma RemovedIs(wd: int)
      ensures Removed(wd) == RemovedFrom(Table(), wd)
    {
      hide InTree;
    }

    /** Taking watches out of the table changes nothing about the others. */
    twostate lemma TableWithout(gone: set<int>)
      requires watches == old(watches) - gone
      requires forall v | v in watches :: watches[v].directory == old(watches[v].directory)
      ensures Table() == old(Table()) - gone
    {
      forall v | v in watches
        ensures Table()[v] == old(Table())[v]
      {
        assert old(watches)[v] == watches[v];
      }
    }

    method RemoveWatchLocked(wd: int)
      requires Valid()
      modifies this
      ensures watches == old(watches) - old(Removed(wd))
      ensures realWatches == old(realWatches) - {wd}
      ensures nativeAdds == old(nativeAdds)
      ensures Valid() && repr == old(repr) && log == old(log)
      ensures old(deletedWatches) <= deletedWatches
      ensures wd !in old(watches) ==> deletedWatches == old(deletedWatches)
      ensures old(Refers()) ==> Refers()
    {
      hide Refers, Valid, Removed;
      RootsWatched();
      if wd !in watches {
        NoneRemoved(wd);
        return;
      }
      var watch := watches[wd];
      ghost var removed := Removed(wd);
      if watch.recursive && watch.parent == null {
        var eraseWatches := TreeOf(watch);
        TreeRemoved(wd, eraseWatches);
        EraseTree(eraseWatches);
        MapMinus(old(watches), eraseWatches, {wd});
      } else {
        OneRemoved(wd);
      }
      Erase(wd);
    }

    lemma RootsWatched()
      requires Valid()
      ensures forall wd | wd in realWatches :: wd in watches
    {
    }

    lemma NoneRemoved(wd: int)
      ensures wd !in watches ==> Removed(wd) == {}
    {
    }

    lemma OneRemoved(wd: int)
      requires wd in watches && !(watches[wd].recursive && watches[wd].parent == null)
      ensures Removed(wd) == {wd}
    {
    }

    lemma TreeRemoved(wd: int, tree: set<int>)
      requires Valid() && wd in watches && watches[wd].recursive && watches[wd].parent == null
      requires tree == set v | v in watches && watches[v] != watches[wd] && InTree(watches[v], watches[wd])
      ensures Removed(wd) == tree + {wd} && tree <= watches.Keys && wd !in tree
      ensures forall v | v in tree :: watches[v].parent != null
    {
      WatchOf(wd);
      forall v | v in watches
        ensures v in Removed(wd) <==> v in tree + {wd}
      {
      }
    }

    /** The descriptors of the other watches below this one. */
    method TreeOf(watch: WatcherInotify) returns (tree: set<int>)
      requires Valid()
      ensures tree == set v | v in watches && watches[v] != watch && InTree(watches[v], watch)
    {
      hide InTree;
      tree := {};
      var todo := watches.Keys;
      while todo != {}
        invariant todo <= watches.Keys
        invariant tree == set v | v in watches && v !in todo && watches[v] != watch && InTree(watches[v], watch)
      {
        var v := Pick(todo);
        var inside := InParentTree(watches[v], watch);
        if watches[v] != watch && inside {
          tree := tree + {v};
        }
        todo := todo - {v};
      }
    }

    /** Removes inner watches, which have no cascade of their own. */
    method EraseTree(tree: set<int>)
      requires Valid() && tree <= watches.Keys && forall v | v in tree :: watches[v].parent != null
      modifies this
      ensures watches == old(watches) - tree && realWatches == old(realWatches) && nativeAdds == old(nativeAdds)
      ensures Valid() && repr == old(repr) && log == old(log)
      ensures old(deletedWatches) <= deletedWatches
      ensures old(Refers()) ==> Refers()
    {
      hide Refers, Valid;
      var todo := tree;
      while todo != {}
        invariant Valid() && repr == old(repr) && log == old(log)
        invariant old(deletedWatches) <= deletedWatches
        invariant todo <= tree && watches == old(watches) - (tree - todo)
        invariant realWatches == old(realWatches) && nativeAdds == old(nativeAdds)
        invariant old(Refers()) ==> Refers()
      {
        var v := Pick(todo);
        InnerNoRoot(v);
        Erase(v);
        todo := todo - {v};
      }
    }

    lemma InnerNoRoot(v: int)
      requires Valid() && v in watches && watches[v].parent != null
      ensures v !in realWatches
    {
    }

    method RemoveDirectory(directory: string)
      requires Valid()
      modifies this
      ensures Valid() && repr == old(repr) && log == old(log)
      ensures old(Owned()) ==> Owned()
      ensures AddSlash(directory) in old(watchesRef) ==>
                watches == old(watches) - old(Removed(watchesRef[AddSlash(directory)]))
      ensures AddSlash(directory) !in old(watchesRef) ==> unchanged(this)
      ensures old(Refers()) ==>
                && Refers()
                && (old(Unwatched(AddSlash(directory), false)) ==> unchanged(this))
                && (forall wd | wd in old(watches) && old(watches[wd].directory) == AddSlash(directory) ::
                      watches == old(watches) - old(Removed(wd)))
    {
      hide Removed, Valid, Owned;
      var dir := AddSlash(directory);
      if dir in watchesRef {
        RemoveWatchLocked(watchesRef[dir]);
        OwnedStill();
      }
    }

    method RemoveWatch(wd: int)
      requires Valid()
      modifies this
      ensures Valid() && repr == old(repr) && log == old(log)
      ensures watches == old(watches) - old(Removed(wd))
      ensures old(Owned()) ==> Owned()
      ensures wd in old(watches) ==>
                forall v | v in old(watches) ::
                  v in watches <==>
                  v != wd && !(old(watches)[wd].recursive && old(watches)[wd].parent == null
                               && InTree(old(watches)[v], old(watches)[wd]))
      ensures wd in old(realWatches) && Neat(old(Table())) ==> Neat(Table())
      ensures old(Refers()) ==> Refers()
    {
      hide Neat, InTree, Refers;
      ghost var t := Table();
      RemovedIs(wd);
      ghost var gone := Removed(wd);
      RemoveWatchLocked(wd);
      TableWithout(gone);
      if wd in old(realWatches) && Neat(t) {
        RemovalNeat(t, wd);
      }
    }

    // ---------- addWatch ----------

    /** Enters a new watch under a descriptor that is free. */
    method Enter(dir: string, wd: int, recursive: bool, syntheticEvents: bool,
                 reportCrossDirectoryMoves: bool, parent: WatcherInotify?) returns (watch: WatcherInotify)
      requires Valid() && (parent != null ==> parent in repr) && wd !in watches
      modifies this
      ensures Valid() && fresh(watch) && repr == old(repr) + {watch} && log == old(log)
      ensures watches == old(watches)[wd := watch]
      ensures Table() == old(Table())[wd := Entry(watch, dir)]
      ensures realWatches == if parent == null then old(realWatches)[wd := watch] else old(realWatches)
      ensures nativeAdds == old(nativeAdds)
      ensures watch.directory == dir && watch.oldFileName == "" && watch.wd == wd && watch.recursive == recursive
      ensures watch.parent == parent && watch.syntheticEvents == syntheticEvents
      ensures watch.reportCrossDirectoryMoves == reportCrossDirectoryMoves
      ensures watch.id == if parent == null then wd else parent.id
      ensures old(Refers()) && old(Unwatched(dir, false)) ==> Refers()
    {
      hide Refers, Unwatched, Valid;
      ghost var first := Refers() && Unwatched(dir, false);
      watch := new WatcherInotify(dir, wd, recursive, parent, syntheticEvents, reportCrossDirectoryMoves);
      repr := repr + {watch};
      watches := watches[wd := watch];
      watchesRef := watchesRef[dir := wd];
      if parent == null {
        realWatches := realWatches[wd := watch];
      }
      TableWith(watch, dir);
      ValidWith(watch);
      if first {
        RefersToNew(watch, dir);
      }
    }

    twostate lemma ValidWith(new watch: WatcherInotify)
      requires old(Valid()) && watch.wd !in old(watches) && repr == old(repr) + {watch}
      requires watches == old(watches)[watch.wd := watch]
      requires realWatches == if watch.parent == null then old(realWatches)[watch.wd := watch] else old(realWatches)
      requires watch.parent != null ==> watch.parent in repr && watch.parent.depth < watch.depth
      ensures Valid()
    {
    }

    twostate lemma TableWith(new watch: WatcherInotify, dir: string)
      requires watches == old(watches)[watch.wd := watch] && watch.directory == dir
      requires forall v | v in old(watches) :: old(watches[v]).directory == old(watches[v].directory)
      ensures Table() == old(Table())[watch.wd := Entry(watch, dir)]
    {
      forall v | v in watches && v != watch.wd
        ensures Table()[v] == old(Table())[v]
      {
        assert old(watches)[v] == watches[v];
      }
    }

    twostate lemma RefersToNew(new watch: WatcherInotify, dir: string)
      requires watch.wd !in old(watches) && watches == old(watches)[watch.wd := watch]
      requires watchesRef == old(watchesRef)[dir := watch.wd] && watch.directory == dir
      requires forall v | v in old(watches) :: old(watches[v]).directory == old(watches[v].directory)
      requires old(Refers()) && old(Unwatched(dir, false))
      ensures Refers()
    {
    }

    /** One more root that conflicts with none of the others. */
    lemma OwnedWith(wd: int)
      requires wd in realWatches
      requires forall v, w | v in realWatches && w in realWatches && v != w && v != wd && w != wd ::
                 Check(RootOf(realWatches[v]), RootOf(realWatches[w])) == NoConflict
      requires forall v | v in realWatches && v != wd ::
                 Check(RootOf(realWatches[v]), RootOf(realWatches[wd])) == NoConflict
      ensures Owned()
    {
      hide Check;
      forall v | v in realWatches {
        CheckSymmetric(RootOf(realWatches[v]), RootOf(realWatches[wd]));
      }
    }

    /** No explicit registration conflicts with this one. */
    ghost predicate Admissible(dir: string, recursive: bool)
      reads `realWatches, realWatches.Values`directory
    {
      forall wd | wd in realWatches ::
        Check(RootOf(realWatches[wd]), Root(ComparisonPath(dir), recursive)) == NoConflict
    }

    /** The error code of a conflict. */
    function ErrorOf(v: Verdict): int {
      match v
      case NoConflict => 0
      case Repeated => FileRepeated
      case Overlapping => FileOverlapping
    }

    /** The checks addWatch makes before it asks the kernel for a descriptor; 0 when all pass. */
    method Admit(dir: string, node: Node, recursive: bool, internalWatch: bool) returns (r: int)
      ensures r <= 0 && r != Unspecified
      ensures !node.Folder? ==> r == FileNotFound
      ensures node.Folder? && !node.readable ==> r == FileNotReadable
      ensures node.Folder? && node.readable && internalWatch ==>
                r == if !NoRootAt(dir) then FileRepeated else if node.remote then FileRemote else 0
      ensures node.Folder? && node.readable && !internalWatch ==>
                && r in {0, FileRepeated, FileOverlapping}
                && (r == FileRepeated ==>
                      exists wd :: && wd in realWatches
                                   && ComparisonPath(realWatches[wd].directory) == ComparisonPath(dir))
                && (r == FileOverlapping ==>
                      exists wd :: wd in realWatches && Overlapping == Check(RootOf(realWatches[wd]),
                                                                            Root(ComparisonPath(dir), recursive)))
                && (r == 0 <==> Admissible(dir, recursive))
                && (r != 0 ==> exists wd :: wd in realWatches && r == ErrorOf(
                       Check(RootOf(realWatches[wd]), Root(ComparisonPath(dir), recursive))))
    {
      hide Check, ComparisonPath;
      if !node.Folder? {
        return FileNotFound;
      } else if !node.readable {
        return FileNotReadable;
      }
      if internalWatch {
        var repeated := PathInWatches(dir);
        if repeated {
          return FileRepeated;
        }
        if node.remote {
          return FileRemote;
        }
      } else {
        var conflict := GetWatchConflict(dir, recursive);
        if conflict != NoConflict {
          forall wd | wd in realWatches {
            RepeatedIs(RootOf(realWatches[wd]), Root(ComparisonPath(dir), recursive));
          }
          return ErrorOf(conflict);
        }
      }
      return 0;
    }

    /** Enters a new watch under its descriptor, over whatever was there. */
    method Register(dir: string, wd: int, recursive: bool, syntheticEvents: bool,
                    reportCrossDirectoryMoves: bool, parent: WatcherInotify?) returns (watch: WatcherInotify)
      requires Valid() && (parent != null ==> parent in repr)
      requires parent == null ==> Admissible(dir, recursive)
      modifies this
      ensures Valid() && fresh(watch) && repr == old(repr) + {watch} && log == old(log)
      ensures watches == (old(watches) - old(Removed(wd)))[wd := watch]
      ensures Table() == PutIn(old(Table()), Entry(watch, dir))
      ensures old(Owned()) ==> Owned()
      ensures parent != null ==> SubMap(realWatches, old(realWatches))
      ensures parent == null ==> SubMap(realWatches - {wd}, old(realWatches))
      ensures old(NoRootBelow(dir)) ==> NoRootBelow(dir)
      ensures nativeAdds == old(nativeAdds)
      ensures watch.directory == dir && watch.oldFileName == "" && watch.recursive == recursive && watch.wd == wd
      ensures watch.parent == parent && watch.syntheticEvents == syntheticEvents
      ensures watch.reportCrossDirectoryMoves == reportCrossDirectoryMoves
      ensures watch.id == if parent == null then wd else parent.id
      ensures old(Refers()) && old(Unwatched(dir, false)) ==> Refers()
    {
      hide Refers;
      hide Valid, Check, ComparisonPath, InTree;
      RemovedIs(wd);
      ghost var gone := Removed(wd);
      RemoveWatchLocked(wd);
      TableWithout(gone);
      ghost var owned := Owned();
      watch := Enter(dir, wd, recursive, syntheticEvents, reportCrossDirectoryMoves, parent);
      if owned && parent == null {
        OwnedWith(wd);
      }
    }

    /** addWatch: a positive result is the new descriptor, a negative one an error that leaves the
        table as it was. es are the watches that are entered, in order. */
    method AddWatch(directory: string, node: Node, recursive: bool, syntheticEvents: bool,
                    reportCrossDirectoryMoves: bool, parent: WatcherInotify?, fromInternalEvent: bool)
      returns (r: int, ghost es: seq<Entry>)
      requires Valid() && (parent != null ==> parent in repr)
      modifies this
      ensures Valid() && old(repr) <= repr && fresh(repr - old(repr))
      ensures forall w | w in repr - old(repr) :: w.oldFileName == ""
      ensures Added(old(log), log, Add)
      ensures !syntheticEvents || !fromInternalEvent ==> log == old(log)
      ensures old(Owned()) ==> Owned()
      ensures parent != null ==> SubMap(realWatches, old(realWatches))
      ensures SubMap(realWatches - {r}, old(realWatches))
      ensures r < 0 ==> watches == old(watches) && realWatches == old(realWatches) && repr == old(repr)
      ensures r >= 0 ==> node.Folder? && r == node.wd
      ensures !node.Folder? ==> r == FileNotFound
      ensures node.Folder? && !node.readable ==> r == FileNotReadable
      ensures parent != null ==>
                (r >= 0 || r == Unspecified <==>
                   node.Folder? && node.readable && !node.remote && old(NoRootAt(AddSlash(directory))))
      ensures parent == null && node.Folder? && node.readable ==>
                (r >= 0 || r == Unspecified <==> old(Admissible(AddSlash(directory), recursive)))
      ensures node.Folder? && node.readable
              && (if parent == null then old(Admissible(AddSlash(directory), recursive))
                  else !node.remote && old(NoRootAt(AddSlash(directory)))) ==>
                r == if node.wd >= 0 then node.wd else Unspecified
      ensures r < 0 && r != Unspecified ==> nativeAdds == old(nativeAdds)
      ensures r == Unspecified ==> node.Folder? && node.wd < 0
      ensures Table() == Entered(old(Table()), es) && NewIn(es, old(repr))
      ensures r < 0 ==> es == [] && log == old(log)
      ensures r >= 0 ==> Headed(es, AddSlash(directory), r, parent)
      ensures r >= 0 ==> HasOptions(es[0].watch, recursive, syntheticEvents, reportCrossDirectoryMoves)
      ensures (r >= 0 || r == Unspecified) && SlashAtEnd(AddSlash(directory)) && WellNamed(node)
              && (recursive ==> old(NoRootBelow(AddSlash(directory)))) && node.Folder? ==>
                && nativeAdds == old(nativeAdds) + Walk(AddSlash(directory), node, recursive)
                && RequestsOf(es) == Answered(Walk(AddSlash(directory), node, recursive))
                && (recursive && parent != null && syntheticEvents && fromInternalEvent ==>
                      log == old(log) + WalkReports(parent.id, AddSlash(directory), node))
      ensures old(FirstTime(AddSlash(directory), node, recursive)) ==> Refers()
      decreases node, 1
    {
      hide Refers, NamesDiffer, Unwatched, FirstTime, AddSlash, SlashAtEnd, Valid, Owned, Admissible, NoRootBelow,
           WellNamed, Walk, WalkBelow, WalkReports, Headed, Answered, Added, SubMap;
      var dir := AddSlash(directory);
      r := Admit(dir, node, recursive, parent != null);
      es := [];
      NothingAdded(log, realWatches);
      NoneEntered(Table(), null);
      FirstTimeRefers(dir, node, recursive);
      FewerRoots(realWatches, realWatches, realWatches, if r < 0 then r else Unspecified);
      if r < 0 {
        return;
      }
      nativeAdds := nativeAdds + [Request(dir, node.wd)];
      FirstRequest(old(nativeAdds), dir, node, recursive);
      if node.wd < 0 {
        RefusedWalk(dir, node, recursive, if parent == null then 0 else parent.id);
        r := Unspecified;
        return;
      }
      es := Install(dir, node, recursive, syntheticEvents, reportCrossDirectoryMoves, parent, fromInternalEvent);
      r := node.wd;
    }

    /** The paths of the registrations are their own comparison paths. */
    ghost predicate Canonical()
      reads `realWatches, realWatches.Values`directory
    {
      forall wd | wd in realWatches :: ComparisonPath(realWatches[wd].directory) == realWatches[wd].directory
    }

    lemma NoConflictsInTable(dir: string, recursive: bool)
      requires Valid() && Canonical() && ComparisonPath(dir) == dir && Admissible(dir, recursive)
      ensures NoConflicts(Table(), dir, recursive)
      ensures IsDirPath(dir) && recursive && (forall wd | wd in realWatches :: IsDirPath(realWatches[wd].directory)) ==>
                NoRootBelow(dir)
    {
      hide ComparisonPath;
      forall v | v in watches && watches[v].parent == null
        ensures Check(Root(Table()[v].dir, Table()[v].watch.recursive), Root(dir, recursive)) == NoConflict
      {
        assert v in realWatches && Table()[v] == EntryOf(watches[v]);
        assert Check(RootOf(realWatches[v]), Root(ComparisonPath(dir), recursive)) == NoConflict;
      }
      forall wd | wd in realWatches && IsDirPath(dir) && recursive && dir < realWatches[wd].directory
        ensures false
      {
        InsideIs(dir, realWatches[wd].directory);
      }
    }

    /** The public addWatch: an explicit registration. One that is admitted keeps the roots apart, and in a
        neat table it adds a tree of watches that is closed under parent directories. */
    method AddRootWatch(directory: string, node: Node, recursive: bool, syntheticEvents: bool,
                        reportCrossDirectoryMoves: bool)
      returns (r: int, ghost es: seq<Entry>)
      requires Valid()
      modifies this
      ensures Valid() && old(repr) <= repr && fresh(repr - old(repr)) && log == old(log)
      ensures forall w | w in repr - old(repr) :: w.oldFileName == ""
      ensures old(Owned()) ==> Owned()
      ensures Table() == Entered(old(Table()), es) && NewIn(es, old(repr))
      ensures r < 0 ==> watches == old(watches) && realWatches == old(realWatches)
      ensures !node.Folder? ==> r == FileNotFound
      ensures node.Folder? && !node.readable ==> r == FileNotReadable
      ensures node.Folder? && node.readable && old(Admissible(AddSlash(directory), recursive)) ==>
                r == if node.wd >= 0 then node.wd else Unspecified
      ensures node.Folder? && node.readable && !old(Admissible(AddSlash(directory), recursive)) ==>
                r < 0 && r != Unspecified && nativeAdds == old(nativeAdds)
      ensures r >= 0 ==> node.Folder? && r == node.wd && Headed(es, AddSlash(directory), r, null)
      ensures r >= 0 ==> HasOptions(es[0].watch, recursive, syntheticEvents, reportCrossDirectoryMoves)
      ensures r >= 0 && Neat(old(Table())) && old(Canonical()) && Orthodox(AddSlash(directory), node)
              && FreshWds(old(Table()), es) ==>
                && Gained(old(Table()), Table(), es)
                && RequestsOf(es) == Answered(Walk(AddSlash(directory), node, recursive))
                && (if recursive then CoversTree(es, AddSlash(directory), node) else |es| == 1)
                && Neat(Table())
      ensures old(FirstTime(AddSlash(directory), node, recursive)) ==> Refers()
    {
      hide Refers, Unwatched;
      hide Valid, Owned, Admissible, NoRootBelow, Walk, Headed, Answered, Neat, Entered, WellNamed, NamesDiffer,
           Canonical, ComparisonPath, NoConflicts, Gained, FreshWds, AddSlash, CoversTree;
      ghost var t := Table();
      var dir := AddSlash(directory);
      ghost var orthodox := Neat(t) && Canonical() && Orthodox(dir, node);
      if orthodox && Admissible(dir, recursive) {
        RootPaths();
        NoConflictsInTable(dir, recursive);
      }
      r, es := AddWatch(directory, node, recursive, syntheticEvents, reportCrossDirectoryMoves, null, false);
      if r >= 0 && orthodox && FreshWds(t, es) {
        EnteredFresh(t, es);
        ExplicitNeat(t, es, dir, node);
        FirstAnswer(dir, node, recursive);
        if recursive {
          EnteredComplete(es, dir, node);
        }
      }
    }

    /** A directory by its real path, with the entries a file system gives it. */
    ghost predicate Orthodox(dir: string, node: Node) {
      IsDirPath(dir) && ComparisonPath(dir) == dir && WellNamed(node) && NamesDiffer(node)
    }

    lemma RootPaths()
      requires Valid() && Neat(Table())
      ensures forall wd | wd in realWatches :: IsDirPath(realWatches[wd].directory)
    {
      forall wd | wd in realWatches
        ensures IsDirPath(realWatches[wd].directory)
      {
        ShapeParts(Table(), wd);
      }
    }

    /** Watches that were not there before. */
    ghost predicate NewIn(es: seq<Entry>, was: set<WatcherInotify>)
      reads `repr
    {
      forall e | e in es :: e.watch in repr && e.watch !in was
    }

    predicate HasOptions(w: WatcherInotify, recursive: bool, syntheticEvents: bool, reportCrossDirectoryMoves: bool) {
      && w.recursive == recursive && w.syntheticEvents == syntheticEvents
      && w.reportCrossDirectoryMoves == reportCrossDirectoryMoves
    }

    lemma FirstAnswer(dir: string, node: Node, recursive: bool)
      requires node.Folder?
      ensures node.wd < 0 ==> Answered(Walk(dir, node, recursive)) == []
      ensures node.wd >= 0 && !recursive ==> Answered(Walk(dir, node, recursive)) == [Request(dir, node.wd)]
      ensures node.wd >= 0 && recursive ==>
                Answered(Walk(dir, node, recursive))
                == [Request(dir, node.wd)] + Answered(WalkBelow(dir, node, |node.entries|))
    {
      hide WalkBelow;
      assert [Request(dir, node.wd)][..0] == [];
      AnsweredAppend([Request(dir, node.wd)], WalkBelow(dir, node, |node.entries|));
      assert [Request(dir, node.wd)] + [] == [Request(dir, node.wd)];
    }

    /** addWatch once the kernel has given a descriptor. */
    method Install(dir: string, node: Node, recursive: bool, syntheticEvents: bool,
                   reportCrossDirectoryMoves: bool, parent: WatcherInotify?, fromInternalEvent: bool)
      returns (ghost es: seq<Entry>)
      requires Valid() && (parent != null ==> parent in repr) && node.Folder? && node.wd >= 0
      requires parent == null ==> Admissible(dir, recursive)
      modifies this
      ensures Valid() && old(repr) <= repr && fresh(repr - old(repr))
      ensures forall w | w in repr - old(repr) :: w.oldFileName == ""
      ensures Added(old(log), log, Add)
      ensures !syntheticEvents || !fromInternalEvent ==> log == old(log)
      ensures old(Owned()) ==> Owned()
      ensures parent != null ==> SubMap(realWatches, old(realWatches))
      ensures SubMap(realWatches - {node.wd}, old(realWatches))
      ensures Table() == Entered(old(Table()), es) && NewIn(es, old(repr))
      ensures Headed(es, dir, node.wd, parent)
      ensures HasOptions(es[0].watch, recursive, syntheticEvents, reportCrossDirectoryMoves)
      ensures SlashAtEnd(dir) && WellNamed(node) && (recursive ==> old(NoRootBelow(dir))) ==>
                && nativeAdds == old(nativeAdds) + (if recursive then WalkBelow(dir, node, |node.entries|) else [])
                && RequestsOf(es) == Answered(Walk(dir, node, recursive))
                && (recursive && parent != null && syntheticEvents && fromInternalEvent ==>
                      log == old(log) + WalkReports(parent.id, dir, node))
      ensures old(FirstTime(dir, node, recursive)) ==> Refers()
      decreases node, 0, 3
    {
      hide Refers, NamesDiffer, Added, SubMap;
      hide Valid, Walk, WalkBelow, Owned, Admissible, NoRootBelow, WellNamed, SlashAtEnd, EntryReports, ReportsBelow,
           Answered, PutIn, Entered, Kin, Headed, WalkReports, AddSlash, FirstTime, NoneWithin, Unwatched, Removed;
      FirstTimeParts(dir, node, recursive);
      FirstTimeTable(dir, node);
      ghost var t := Table();
      var watch := Register(dir, node.wd, recursive, syntheticEvents, reportCrossDirectoryMoves, parent);
      NoneWithinYet(t, watch, dir);
      ghost var first := Entry(watch, dir);
      es := [first];
      EnteredOne(t, first);
      FirstAnswer(dir, node, recursive);
      HeadedBy(watch, dir, []);
      assert [first] + [] == [first];
      ghost var roots := realWatches;
      NothingAdded(log, roots);
      if recursive {
        ghost var more := FillIn(watch, dir, node, fromInternalEvent);
        es := [first] + more;
        HeadedBy(watch, dir, more);
        EnteredAppend(t, [first], more);
        RequestsAppend([first], more);
      }
      FewerRoots(realWatches, roots, old(realWatches), node.wd);
    }

    /** What addWatch does below a new recursive watch: it reports what the directory holds and walks on. */
    method FillIn(watch: WatcherInotify, dir: string, node: Node, fromInternalEvent: bool)
      returns (ghost es: seq<Entry>)
      requires Valid() && watch in repr && node.Folder? && node.wd >= 0 && watch.recursive
      modifies this
      ensures Valid() && old(repr) <= repr && fresh(repr - old(repr))
      ensures forall w | w in repr - old(repr) :: w.oldFileName == ""
      ensures Added(old(log), log, Add)
      ensures !watch.syntheticEvents || !fromInternalEvent ==> log == old(log)
      ensures old(Owned()) ==> Owned()
      ensures SubMap(realWatches, old(realWatches))
      ensures Table() == Entered(old(Table()), es) && NewIn(es, old(repr)) && Kin(es, watch)
      ensures SlashAtEnd(dir) && WellNamed(node) && old(NoRootBelow(dir)) ==>
                && nativeAdds == old(nativeAdds) + WalkBelow(dir, node, |node.entries|)
                && RequestsOf(es) == Answered(WalkBelow(dir, node, |node.entries|))
                && (watch.parent != null && watch.syntheticEvents && fromInternalEvent ==>
                      log == old(log) + WalkReports(watch.id, dir, node))
      ensures SlashAtEnd(dir) && WellNamed(node) && NamesDiffer(node) && old(Refers()) && old(NoneWithin(dir)) ==>
                Refers()
      decreases node, 0, 2
    {
      hide Refers, NamesDiffer, NoneWithin, Added, SubMap, Valid, WalkBelow, Owned, NoRootBelow, WellNamed, SlashAtEnd,
           EntryReports, ReportsBelow, Answered, Entered, Kin, WalkReports, RequestsOf;
      ReportsOf(watch.id, dir, node, log);
      NothingAdded(log, realWatches);
      if fromInternalEvent && watch.parent != null && watch.syntheticEvents {
        ReportEntries(watch, dir, node);
      }
      ghost var reported := log;
      es := AddChildren(watch, dir, node, fromInternalEvent);
      AddedOn(old(log), reported, log, Add);
    }

    lemma FewerRoots(now: map<int, WatcherInotify>, mid: map<int, WatcherInotify>, was: map<int, WatcherInotify>,
                     wd: int)
      requires SubMap(now, mid)
      ensures SubMap(mid, was) ==> SubMap(now, was) && SubMap(now - {wd}, was)
      ensures SubMap(mid - {wd}, was) ==> SubMap(now - {wd}, was)
    {
    }

    lemma ReportsOf(id: int, dir: string, node: Node, before: seq<Callback>)
      requires node.Folder? && node.wd >= 0
      ensures before + EntryReports(id, dir, node, |node.entries|) + ReportsBelow(id, dir, node, |node.entries|)
              == before + WalkReports(id, dir, node)
    {
      hide EntryReports, ReportsBelow;
    }

    lemma HeadedBy(watch: WatcherInotify, dir: string, more: seq<Entry>)
      requires Valid() && watch in repr && (more == [] || Kin(more, watch))
      requires watch.id == if watch.parent == null then watch.wd else watch.parent.id
      ensures Headed([Entry(watch, dir)] + more, dir, watch.wd, watch.parent)
    {
      assert ([Entry(watch, dir)] + more)[1..] == more;
    }

    /** Reports what a new directory already holds. */
    method ReportEntries(watch: WatcherInotify, dir: string, node: Node)
      requires Valid() && node.Folder?
      modifies this`log
      ensures Added(old(log), log, Add)
      ensures log == old(log) + EntryReports(watch.id, dir, node, |node.entries|)
    {
      for i := 0 to |node.entries|
        invariant Added(old(log), log, Add)
        invariant log == old(log) + EntryReports(watch.id, dir, node, i)
      {
        var (name, child) := node.entries[i];
        if child.Regular? || child.Folder? {
          log := log + [FileAction(watch.id, dir, name, Add, "")];
        }
      }
    }

    /** The last loop of addWatch, over the new directory's entries. */
    method AddChildren(watch: WatcherInotify, dir: string, node: Node, fromInternalEvent: bool)
      returns (ghost es: seq<Entry>)
      requires Valid() && watch in repr && node.Folder? && watch.recursive
      modifies this
      ensures Valid() && old(repr) <= repr && fresh(repr - old(repr))
      ensures forall w | w in repr - old(repr) :: w.oldFileName == ""
      ensures Added(old(log), log, Add)
      ensures !watch.syntheticEvents || !fromInternalEvent ==> log == old(log)
      ensures old(Owned()) ==> Owned()
      ensures SubMap(realWatches, old(realWatches))
      ensures Table() == Entered(old(Table()), es) && NewIn(es, old(repr)) && Kin(es, watch)
      ensures SlashAtEnd(dir) && WellNamed(node) && old(NoRootBelow(dir)) ==>
                && nativeAdds == old(nativeAdds) + WalkBelow(dir, node, |node.entries|)
                && RequestsOf(es) == Answered(WalkBelow(dir, node, |node.entries|))
                && (watch.syntheticEvents && fromInternalEvent ==>
                      log == old(log) + ReportsBelow(watch.id, dir, node, |node.entries|))
      ensures SlashAtEnd(dir) && WellNamed(node) && NamesDiffer(node) && old(Refers()) && old(NoneWithin(dir)) ==>
                Refers()
      decreases node, 0, 1
    {
      hide Refers, NamesDiffer, NoneWithin, NoRootBelow, FirstTime, WalkBelow, WalkStep, ReportsBelow, ReportsStep,
           RequestsOf,
           Added, SubMap, Valid, Walk, WalkReports, Owned, WellNamed, SlashAtEnd, PutIn, Kin, Answered, Entered, Walked;
      ghost var t := Table();
      ghost var apart := SlashAtEnd(dir) && WellNamed(node) && NamesDiffer(node) && Refers() && NoneWithin(dir);
      if apart {
        NoneWithinTable(dir);
      }
      ghost var alone := SlashAtEnd(dir) && WellNamed(node) && NoRootBelow(dir);
      ghost var reported := watch.syntheticEvents && fromInternalEvent;
      es := [];
      NoneEntered(Table(), watch);
      WalkedNone(nativeAdds, log, watch.id, dir, node, reported);
      NothingAdded(log, realWatches);
      for i := 0 to |node.entries|
        invariant Valid() && old(repr) <= repr && fresh(repr - old(repr))
        invariant forall w | w in repr - old(repr) :: w.oldFileName == ""
        invariant Added(old(log), log, Add) && (!reported ==> log == old(log))
        invariant old(Owned()) ==> Owned()
        invariant SubMap(realWatches, old(realWatches))
        invariant Table() == Entered(t, es) && NewIn(es, old(repr)) && Kin(es, watch)
        invariant alone ==> NoRootBelow(dir)
        invariant alone ==> Walked(old(nativeAdds), nativeAdds, old(log), log, es, watch.id, dir, node, i, reported)
        invariant apart ==> alone && Refers()
      {
        if apart {
          NextUnwatched(t, es, dir, node, i, old(nativeAdds), nativeAdds, old(log), log, watch.id, reported);
        }
        ghost var adds, sofar, roots := nativeAdds, log, realWatches;
        ghost var more := AddChild(watch, dir, node, i, fromInternalEvent);
        AddedOn(old(log), sofar, log, Add);
        SubMapOf(realWatches, roots, old(realWatches));
        if alone {
          WalkedNext(old(nativeAdds), adds, nativeAdds, old(log), sofar, log, es, more, watch.id, dir, node, i,
                     reported);
        }
        EnteredAppend(t, es, more);
        KinAppend(es, more, watch);
        es := es + more;
      }
      WalkedAll(old(nativeAdds), old(log), es, watch.id, dir, node, reported, alone);
    }

    lemma WalkedAll(adds: seq<Request>, calls: seq<Callback>, es: seq<Entry>, id: int, dir: string, node: Node,
                    reported: bool, alone: bool)
      requires node.Folder?
      requires alone ==> Walked(adds, nativeAdds, calls, log, es, id, dir, node, |node.entries|, reported)
      ensures alone ==>
                && nativeAdds == adds + WalkBelow(dir, node, |node.entries|)
                && RequestsOf(es) == Answered(WalkBelow(dir, node, |node.entries|))
                && (reported ==> log == calls + ReportsBelow(id, dir, node, |node.entries|))
    {
      hide WalkBelow, ReportsBelow, Answered, RequestsOf;
    }

    lemma FirstTimeParts(dir: string, node: Node, recursive: bool)
      ensures FirstTime(dir, node, recursive) ==>
                SlashAtEnd(dir) && WellNamed(node) && NamesDiffer(node) && Refers() && Unwatched(dir, false)
    {
    }

    lemma FirstTimeTable(dir: string, node: Node)
      ensures FirstTime(dir, node, true) ==> forall v | v in Table() :: !(dir <= Table()[v].dir)
    {
    }

    /** After its own watch has been entered nothing is watched inside the directory yet. */
    lemma NoneWithinYet(t: map<int, Entry>, watch: WatcherInotify, dir: string)
      requires Table() == PutIn(t, Entry(watch, dir))
      ensures (forall v | v in t :: !(dir <= t[v].dir)) ==> NoneWithin(dir)
    {
      hide RemovedFrom;
      assert forall v | v in watches :: Table()[v].dir == watches[v].directory;
    }

    lemma FirstTimeRefers(dir: string, node: Node, recursive: bool)
      ensures FirstTime(dir, node, recursive) ==> Refers()
    {
    }

    /** The first request of a walk, and those below. */
    lemma FirstRequest(adds: seq<Request>, dir: string, node: Node, recursive: bool)
      requires node.Folder?
      ensures adds + Walk(dir, node, recursive)
              == adds + [Request(dir, node.wd)]
                 + (if recursive && node.wd >= 0 then WalkBelow(dir, node, |node.entries|) else [])
    {
      hide WalkBelow;
    }

    /** When the kernel refuses the directory the walk ends with it. */
    lemma RefusedWalk(dir: string, node: Node, recursive: bool, id: int)
      requires node.Folder? && node.wd < 0
      ensures RequestsOf([]) == Answered(Walk(dir, node, recursive)) && WalkReports(id, dir, node) == []
    {
      FirstAnswer(dir, node, recursive);
    }

    lemma NothingAdded(calls: seq<Callback>, roots: map<int, WatcherInotify>)
      ensures Added(calls, calls, Add) && SubMap(roots, roots)
    {
    }

    /** Nothing is watched strictly below this path. */
    ghost predicate NoneWithin(dir: string)
      reads `watches, watches.Values`directory
    {
      forall v | v in watches :: !(dir < watches[v].directory)
    }

    lemma NoneWithinTable(dir: string)
      requires Valid() && NoneWithin(dir)
      ensures NoRootBelow(dir)
      ensures forall v | v in Table() :: !(dir < Table()[v].dir)
    {
    }

    /** The next entry of a directory is not watched yet. */
    lemma NextUnwatched(t: map<int, Entry>, es: seq<Entry>, dir: string, node: Node, i: nat,
                        adds: seq<Request>, adds': seq<Request>, calls: seq<Callback>, calls': seq<Callback>, id: int,
                        reported: bool)
      requires Table() == Entered(t, es) && node.Folder? && i < |node.entries|
      requires SlashAtEnd(dir) && WellNamed(node) && NamesDiffer(node)
      requires Walked(adds, adds', calls, calls', es, id, dir, node, i, reported)
      requires forall v | v in t :: !(dir < t[v].dir)
      ensures Refers() ==> FirstTime(ChildDir(dir, node.entries[i].0), node.entries[i].1, true)
      ensures IsName(node.entries[i].0)
    {
      hide Entered, Answered, HangTogether, PathsDiffer, WellNamed, NamesDiffer, WalkBelow;
      var child := ChildDir(dir, node.entries[i].0);
      BelowShape(dir, node, i);
      EntryNamed(node, i);
      assert dir < child && SlashAtEnd(child);
      forall v | v in watches
        ensures !(child <= watches[v].directory)
      {
        assert Table()[v].dir == watches[v].directory;
        EnteredFrom(t, es, v);
        if k :| 0 <= k < |es| && Table()[v] == es[k] {
          assert RequestsOf(es)[k].path == es[k].dir;
          assert RequestsOf(es)[k] in Answered(WalkBelow(dir, node, i));
          var j :| 0 <= j < i && ChildDir(dir, node.entries[j].0) <= es[k].dir;
          EntryNamed(node, j);
          EntriesApart(node, j, i);
          if child <= es[k].dir {
            OneEntry(dir, node.entries[j].0, node.entries[i].0, es[k].dir);
          }
        }
      }
    }

    lemma EntriesApart(node: Node, j: nat, i: nat)
      requires node.Folder? && NamesDiffer(node) && j < i < |node.entries|
      ensures node.entries[j].0 != node.entries[i].0
    {
    }

    lemma NoneEntered(t: map<int, Entry>, watch: WatcherInotify?)
      ensures Entered(t, []) == t && (watch != null ==> Kin([], watch)) && Answered([]) == [] && RequestsOf([]) == []
    {
    }

    /** One entry of the second loop. */
    method AddChild(watch: WatcherInotify, dir: string, node: Node, i: nat, fromInternalEvent: bool)
      returns (ghost es: seq<Entry>)
      requires Valid() && watch in repr && node.Folder? && watch.recursive && i < |node.entries|
      modifies this
      ensures Valid() && old(repr) <= repr && fresh(repr - old(repr))
      ensures forall w | w in repr - old(repr) :: w.oldFileName == ""
      ensures Added(old(log), log, Add)
      ensures !watch.syntheticEvents || !fromInternalEvent ==> log == old(log)
      ensures old(Owned()) ==> Owned()
      ensures SubMap(realWatches, old(realWatches))
      ensures Table() == Entered(old(Table()), es) && NewIn(es, old(repr)) && Kin(es, watch)
      ensures SlashAtEnd(dir) && WellNamed(node) && old(NoRootBelow(dir)) ==>
                && nativeAdds == old(nativeAdds) + WalkStep(dir, node, i)
                && RequestsOf(es) == Answered(WalkStep(dir, node, i))
                && (watch.syntheticEvents && fromInternalEvent ==>
                      log == old(log) + ReportsStep(watch.id, dir, node, i))
      ensures old(NoRootBelow(dir)) ==> NoRootBelow(dir)
      ensures IsName(node.entries[i].0) && old(FirstTime(ChildDir(dir, node.entries[i].0), node.entries[i].1, true)) ==>
                Refers()
      decreases node, 0, 0
    {
      hide Refers, Unwatched, NamesDiffer;
      hide Valid, Owned, Admissible, FileName, RemoveFileName, WalkBelow, Walk, WalkReports, Headed, Kin, Answered,
           Entered, Alike;
      var (name, child) := node.entries[i];
      if SlashAtEnd(dir) && WellNamed(node) {
        assert node.entries[i] in node.entries;
        ChildParts(dir, name);
        assert dir == ChildDir(dir, name)[..|dir|];
      }
      es := [];
      NoneEntered(Table(), watch);
      if child.Folder? && child.readable {
        var r;
        r, es := AddWatch(dir + name, child, watch.recursive, watch.syntheticEvents,
                          watch.reportCrossDirectoryMoves, watch, fromInternalEvent);
        if r >= 0 {
          ChildKin(watch, es, AddSlash(dir + name), r);
        }
      }
    }

    lemma ChildKin(watch: WatcherInotify, es: seq<Entry>, dir: string, r: int)
      requires Valid() && Headed(es, dir, r, watch) && forall e | e in es :: e.watch in repr
      requires HasOptions(es[0].watch, watch.recursive, watch.syntheticEvents, watch.reportCrossDirectoryMoves)
      ensures Kin(es, watch)
    {
      assert es[0] in es;
      KinAbove(es, dir, r, watch);
    }

    // ---------- handleAction ----------

    /** The first watch with this directory, in the table's order. */
    method FindDirectory(dir: string) returns (found: bool, wd: int)
      ensures found ==> wd in watches && watches[wd].directory == dir
      ensures !found ==> forall v | v in watches :: watches[v].directory != dir
    {
      wd := -1;
      var todo := watches.Keys;
      while todo != {}
        invariant todo <= watches.Keys
        invariant forall v | v in watches && v !in todo :: watches[v].directory != dir
      {
        var v := Pick(todo);
        if watches[v].directory == dir {
          return true, v;
        }
        todo := todo - {v};
      }
      return false, wd;
    }

    /** The explicit registrations are the entries without a parent. */
    lemma RootsInTable(dir: string)
      requires Valid()
      ensures NoRootBelow(dir) <==> RootFree(Table(), dir)
      ensures (forall v | v in watches :: watches[v].directory != dir) ==> NoRootAt(dir)
      ensures (forall v | v in watches :: watches[v].directory != dir)
              <==> forall v | v in Table() :: Table()[v].dir != dir
    {
      assert forall v | v in watches :: Table()[v] == EntryOf(watches[v]);
    }

    method CheckForNewWatcher(watch: WatcherInotify, fpath: string, at: Node) returns (ghost es: seq<Entry>)
      requires Valid() && watch in repr
      modifies this
      ensures Valid() && old(repr) <= repr && fresh(repr - old(repr))
      ensures forall w | w in repr - old(repr) :: w.oldFileName == ""
      ensures Added(old(log), log, Add)
      ensures Table() == Entered(old(Table()), es) && NewIn(es, old(repr))
      ensures Arrives(old(Table()), es, watch, AddSlash(fpath), at, log[|old(log)|..])
      ensures watch.recursive && at.Folder? && at.readable && !at.remote && old(Unwatched(AddSlash(fpath), false))
              && SlashAtEnd(AddSlash(fpath)) && WellNamed(at) && old(NoRootBelow(AddSlash(fpath))) ==>
                CoversTree(es, AddSlash(fpath), at)
      ensures old(Owned()) ==> Owned()
    {
      hide Valid, Owned, Entered, Walk, WalkReports, Answered, Headed, NoRootBelow, RootFree, NoRootAt, Admissible,
           AddSlash;
      var dir := AddSlash(fpath);
      assert AddSlash(dir) == dir by {
        AddSlashTwice(fpath);
      }
      es := [];
      NoneEntered(Table(), watch);
      RootsInTable(dir);
      if watch.recursive && at.Folder? {
        var found, _ := FindDirectory(dir);
        if !found {
          var r;
          r, es := AddWatch(dir, at, watch.recursive, watch.syntheticEvents,
                            watch.reportCrossDirectoryMoves, watch, true);
          AddedReports(old(log), log);
          if r >= 0 {
            HeadAlike(watch, es, dir, r);
          }
        }
      }
      ArrivalMeans(old(Table()), es, watch, dir, at, log[|old(log)|..]);
    }

    lemma AddSlashTwice(dir: string)
      ensures AddSlash(AddSlash(dir)) == AddSlash(dir)
    {
    }

    lemma AddedReports(before: seq<Callback>, after: seq<Callback>)
      requires Added(before, after, Add)
      ensures AllAdds(after[|before|..]) && after == before + after[|before|..]
    {
    }

    lemma HeadAlike(watch: WatcherInotify, es: seq<Entry>, dir: string, r: int)
      requires Headed(es, dir, r, watch)
      requires HasOptions(es[0].watch, watch.recursive, watch.syntheticEvents, watch.reportCrossDirectoryMoves)
      ensures Alike(es[0].watch, watch)
    {
    }

    /** w is the entry under its own descriptor. */
    predicate InTable(w: WatcherInotify)
      reads `watches
    {
      w.wd in watches && watches[w.wd] == w
    }

    /** The loop that follows a moved directory through the table. */
    method RewritePaths(opath: string, npath: string)
      requires Valid()
      modifies repr
      ensures forall w | w in repr ::
                w.directory == if InTable(w) then Reprefix(old(w.directory), opath, npath) else old(w.directory)
      ensures forall w | w in repr :: w.oldFileName == old(w.oldFileName)
    {
      var todo := watches.Keys;
      while todo != {}
        invariant todo <= watches.Keys
        invariant forall w | w in repr :: w.oldFileName == old(w.oldFileName)
        invariant forall w | w in repr ::
                    w.directory == if InTable(w) && w.wd !in todo then Reprefix(old(w.directory), opath, npath)
                                   else old(w.directory)
      {
        var wd := Pick(todo);
        var watch := watches[wd];
        if watch.directory == opath {
          watch.directory := npath;
        } else if StartsWith(opath, watch.directory) {
          watch.directory := npath + watch.directory[|opath|..];
        }
        todo := todo - {wd};
      }
    }

    method HandleRemove(watch: WatcherInotify, filename: string)
      returns (ghost gone: set<int>, ghost calls: seq<Callback>)
      requires Valid() && watch in repr
      modifies this
      ensures Valid() && repr == old(repr) && log == old(log) + calls
      ensures Deleted(old(Table()), gone, old(EntryOf(watch)), filename, calls)
      ensures watches == old(watches) - gone && Table() == old(Table()) - gone
      ensures SubMap(realWatches, old(realWatches))
    {
      hide AddSlash, Valid, Removed, Deleted, Refers, Table;
      ghost var t, w := Table(), EntryOf(watch);
      calls := [FileAction(watch.id, watch.directory, filename, Delete, "")];
      log := log + [FileAction(watch.id, watch.directory, filename, Delete, "")];
      gone := {};
      NothingAdded(log, realWatches);
      if watch.recursive {
        var found, wd := FindDirectory(AddSlash(watch.directory + filename));
        FoundDeleted(w, filename, found, wd, calls);
        if found {
          gone := Removed(wd);
          RemoveWatchLocked(wd);
          TableWithout(gone);
        }
      } else {
        NoneDeleted(t, w, filename, calls);
      }
    }

    /** What goes with a deleted directory: the watch that has been found, with its tree, or nothing. */
    lemma FoundDeleted(w: Entry, filename: string, found: bool, wd: int, calls: seq<Callback>)
      requires w.watch.recursive && calls == [FileAction(w.watch.id, w.dir, filename, Delete, "")]
      requires found ==> wd in watches && watches[wd].directory == AddSlash(w.dir + filename)
      requires !found ==> forall v | v in watches :: watches[v].directory != AddSlash(w.dir + filename)
      ensures Deleted(Table(), if found then Removed(wd) else {}, w, filename, calls)
    {
      hide AddSlash, RemovedFrom, Removed;
      TableEntries();
      RemovedIs(wd);
    }

    lemma NoneDeleted(t: map<int, Entry>, w: Entry, filename: string, calls: seq<Callback>)
      requires !w.watch.recursive && calls == [FileAction(w.watch.id, w.dir, filename, Delete, "")]
      ensures Deleted(t, {}, w, filename, calls)
    {
    }

    /** A MOVED_TO without a known source: the entry has arrived from outside. */
    method HandleArrival(watch: WatcherInotify, filename: string, at: Node)
      returns (ghost es: seq<Entry>, ghost calls: seq<Callback>)
      requires Valid() && watch in repr
      modifies this
      ensures Valid() && old(repr) <= repr && fresh(repr - old(repr)) && NewIn(es, old(repr))
      ensures forall w | w in repr - old(repr) :: w.oldFileName == ""
      ensures log == old(log) + calls
      ensures Acts(old(Table()), Table(), es, old(EntryOf(watch)), filename, MovedTo, at, "", calls)
      ensures old(Owned()) ==> Owned()
    {
      hide Valid, Owned, Arrives, Entered, AddSlash;
      es := CheckForNewWatcher(watch, watch.directory + filename, at);
      ghost var reports := log[|old(log)|..];
      log := log + [FileAction(watch.id, watch.directory, filename, Add, "")];
      log := log + [FileAction(watch.id, watch.directory, filename, Modified, "")];
      calls := reports + [FileAction(watch.id, watch.directory, filename, Add, ""),
                          FileAction(watch.id, watch.directory, filename, Modified, "")];
    }

    /** A MOVED_TO with its source: one Moved, and a moved directory is followed through the table. */
    method HandleRename(watch: WatcherInotify, filename: string, at: Node) returns (ghost calls: seq<Callback>)
      requires Valid() && watch in repr && watch.oldFileName != ""
      modifies this`log, repr
      ensures Valid()
      ensures forall w | w in repr :: w.oldFileName == old(w.oldFileName)
      ensures log == old(log) + calls
      ensures Acts(old(Table()), Table(), [], old(EntryOf(watch)), filename, MovedTo, at, old(watch.oldFileName), calls)
      ensures forall w | w in repr ::
                w.directory ==
                if watch.recursive && at.Folder? && InTable(w) then
                  Reprefix(old(w.directory), MoveSource(old(watch.directory), old(watch.oldFileName)),
                           AddSlash(old(watch.directory) + filename))
                else old(w.directory)
    {
      hide Valid, Reprefix, MoveSource, AddSlash;
      ghost var t := Table();
      ghost var opath, npath := MoveSource(watch.directory, watch.oldFileName), AddSlash(watch.directory + filename);
      TableEntries();
      calls := [FileAction(watch.id, watch.directory, filename, Moved, watch.oldFileName)];
      log := log + [FileAction(watch.id, watch.directory, filename, Moved, watch.oldFileName)];
      if watch.recursive && at.Folder? {
        RewritePaths(MoveSource(watch.directory, watch.oldFileName), AddSlash(watch.directory + filename));
        AllInTable();
        RenamesTable(t, true, opath, npath);
      }
    }

    method HandleMovedTo(watch: WatcherInotify, filename: string, at: Node)
      returns (ghost es: seq<Entry>, ghost calls: seq<Callback>)
      requires Valid() && watch in repr
      modifies this, repr
      ensures Valid() && old(repr) <= repr && fresh(repr - old(repr)) && NewIn(es, old(repr))
      ensures forall w | w in repr :: w.oldFileName == if w == watch || w !in old(repr) then "" else old(w.oldFileName)
      ensures log == old(log) + calls
      ensures Acts(old(Table()), Table(), es, old(EntryOf(watch)), filename, MovedTo, at, old(watch.oldFileName), calls)
      ensures old(watch.oldFileName) == "" ==>
                (forall w | w in old(repr) :: w.directory == old(w.directory)) && (old(Owned()) ==> Owned())
      ensures old(watch.oldFileName) != "" ==>
                && watches == old(watches) && realWatches == old(realWatches) && repr == old(repr)
                && forall w | w in repr ::
                     w.directory ==
                     if watch.recursive && at.Folder? && old(InTable(w)) then
                       Reprefix(old(w.directory), MoveSource(old(watch.directory), old(watch.oldFileName)),
                                AddSlash(old(watch.directory) + filename))
                     else old(w.directory)
    {
      hide Valid, Reprefix, MoveSource, Acts, AddSlash, Owned;
      es := [];
      if watch.oldFileName == "" {
        es, calls := HandleArrival(watch, filename, at);
      } else {
        calls := HandleRename(watch, filename, at);
      }
      ghost var now := Table();
      watch.oldFileName := "";
      assert Table() == now;
    }

    /** The rewriting loop, seen on the table. */
    lemma RenamesTable(t: map<int, Entry>, rewritten: bool, opath: string, npath: string)
      requires t.Keys == watches.Keys && forall v | v in t :: t[v].watch == watches[v]
      requires forall v | v in watches ::
                 watches[v].directory == if rewritten then Reprefix(t[v].dir, opath, npath) else t[v].dir
      ensures Table() == if rewritten then Reprefixed(t, opath, npath) else t
    {
      hide Reprefix;
      forall v | v in watches
        ensures Table()[v] == if rewritten then Reprefixed(t, opath, npath)[v] else t[v]
      {
        assert Table()[v] == Entry(watches[v], watches[v].directory);
        assert t[v] == Entry(watches[v], t[v].dir);
      }
    }

    lemma AllInTable()
      requires Valid()
      ensures forall v | v in watches :: InTable(watches[v]) && watches[v] in repr
    {
    }

    method HandleCreate(watch: WatcherInotify, filename: string, at: Node)
      returns (ghost es: seq<Entry>, ghost calls: seq<Callback>)
      requires Valid() && watch in repr
      modifies this
      ensures Valid() && old(repr) <= repr && fresh(repr - old(repr)) && NewIn(es, old(repr))
      ensures forall w | w in repr - old(repr) :: w.oldFileName == ""
      ensures log == old(log) + calls
      ensures Acts(old(Table()), Table(), es, old(EntryOf(watch)), filename, Create, at, "", calls)
      ensures old(Owned()) ==> Owned()
    {
      hide Valid, Owned, Arrives, Entered, AddSlash;
      es := CheckForNewWatcher(watch, watch.directory + filename, at);
      ghost var reports := log[|old(log)|..];
      log := log + [FileAction(watch.id, watch.directory, filename, Add, "")];
      calls := reports + [FileAction(watch.id, watch.directory, filename, Add, "")];
    }

    method HandleAction(watch: WatcherInotify, filename: string, kind: Kind, at: Node)
      returns (ghost es: seq<Entry>, ghost calls: seq<Callback>)
      requires Valid() && watch in repr
      modifies this, repr
      ensures Valid() && old(repr) <= repr && fresh(repr - old(repr)) && NewIn(es, old(repr))
      ensures forall w | w in repr ::
                w.oldFileName == if w !in old(repr) || (w == watch && kind == MovedTo) then ""
                                 else if w == watch && kind == MovedFrom then filename else old(w.oldFileName)
      ensures log == old(log) + calls
      ensures Acts(old(Table()), Table(), es, old(EntryOf(watch)), filename, kind, at, old(watch.oldFileName), calls)
      ensures kind != MovedTo || old(watch.oldFileName) == "" ==>
                (forall w | w in old(repr) :: w.directory == old(w.directory)) && (old(Owned()) ==> Owned())
      ensures kind.MovedFrom? || kind.OtherKind? || kind.QueueOverflow? || kind.CloseWrite? || kind.Modify? ==>
                watches == old(watches) && realWatches == old(realWatches) && repr == old(repr)
    {
      hide Valid, Appears, Renames, Deleted, Owned;
      calls, es := [], [];
      if kind.QueueOverflow? {
        calls := [Missed(watch.id, watch.directory)];
        log := log + [Missed(watch.id, watch.directory)];
      } else if kind.CloseWrite? || kind.Modify? {
        calls := [FileAction(watch.id, watch.directory, filename, Modified, "")];
        log := log + [FileAction(watch.id, watch.directory, filename, Modified, "")];
      } else if kind.MovedTo? {
        es, calls := HandleMovedTo(watch, filename, at);
      } else if kind.Create? {
        es, calls := HandleCreate(watch, filename, at);
      } else if kind.MovedFrom? {
        watch.oldFileName := filename;
      } else if kind.Remove? {
        ghost var gone;
        gone, calls := HandleRemove(watch, filename);
        OwnedStill();
      }
    }

    /** Fewer roots, in the same places, conflict no more. */
    twostate lemma OwnedStill()
      requires SubMap(realWatches, old(realWatches))
      requires forall v | v in realWatches :: realWatches[v].directory == old(realWatches[v].directory)
      ensures old(Owned()) ==> Owned()
    {
    }

    method EmitCrossDirectoryMove(src: WatcherInotify, srcFile: string, dst: WatcherInotify, dstFile: string, at: Node)
      requires Valid() && src in repr && dst in repr && src.directory + srcFile != ""
      modifies this, repr
      ensures Valid() && repr == old(repr) && watches == old(watches) && realWatches == old(realWatches)
      ensures forall w | w in repr :: w.oldFileName == old(w.oldFileName)
      ensures log == old(log) + [FileAction(dst.id, old(dst.directory), dstFile, Moved, old(src.directory) + srcFile)]
      ensures forall w | w in repr ::
                w.directory ==
                if dst.recursive && at.Folder? && old(InTable(w)) then
                  Reprefix(old(w.directory), MoveSource(old(dst.directory), old(src.directory) + srcFile),
                           AddSlash(old(dst.directory) + dstFile))
                else old(w.directory)
    {
      var oldDstFilename := dst.oldFileName;
      dst.oldFileName := src.directory + srcFile;
      ghost var es, calls := HandleMovedTo(dst, dstFile, at);
      dst.oldFileName := oldDstFilename;
    }

    // ---------- emitMovedOutside ----------

    method WatcherContainsDirectory(dir: string) returns (w: WatcherInotify?)
      requires Valid()
      ensures w != null ==> w in repr && InTable(w) && w.directory == ParentDir(dir)
      ensures w == null ==> forall v | v in watches :: watches[v].directory != ParentDir(dir)
    {
      var found, wd := FindDirectory(AddSlash(RemoveFileName(RemoveSlash(dir))));
      w := if found then watches[wd] else null;
    }

    /** The watches below a prefix, in the order of their directories. */
    method CollectBelow(watch: WatcherInotify, prefix: string) returns (ps: seq<Place>)
      requires Valid()
      ensures Collected(Table(), watch, prefix, ps)
    {
      hide Valid, InsertSorted, Less;
      ps := [];
      var todo := watches.Keys;
      while todo != {}
        invariant todo <= watches.Keys
        invariant SortedByDir(ps) && Distinct(ps)
        invariant forall p | p in ps ::
                    && p.wd in watches && p.wd !in todo && p.dir == watches[p.wd].directory
                    && StartsWith(prefix, p.dir) && watches[p.wd] != watch
        invariant forall v | v in watches && v !in todo && watches[v] != watch
                  && StartsWith(prefix, watches[v].directory) ::
                    Place(v, watches[v].directory) in ps
      {
        var v := Pick(todo);
        if watches[v] != watch && StartsWith(prefix, watches[v].directory) {
          InsertSortedKeeps(ps, Place(v, watches[v].directory));
          ps := InsertSorted(ps, Place(v, watches[v].directory));
        }
        todo := todo - {v};
      }
    }

    /** One round of the deletion loop. */
    method RemoveReported(dir: string) returns (ghost gone: set<int>, ghost calls: seq<Callback>)
      requires Valid()
      modifies this
      ensures Valid() && repr == old(repr) && log == old(log) + calls
      ensures Round(old(Table()), gone, dir, calls)
      ensures watches == old(watches) - gone && Table() == old(Table()) - gone
      ensures SubMap(realWatches, old(realWatches))
    {
      hide Valid, FileName, Deleted, ParentDir;
      gone, calls := {}, [];
      TableEntries();
      var containing := WatcherContainsDirectory(dir);
      if containing != null {
        gone, calls := HandleRemove(containing, FileName(dir));
      }
    }

    /** The deletion loop, last directory first. */
    method RemoveBelow(ps: seq<Place>) returns (ghost gone: set<int>, ghost calls: seq<Callback>)
      requires Valid()
      modifies this
      ensures Valid() && repr == old(repr) && log == old(log) + calls
      ensures Swept(old(Table()), gone, ps, calls)
      ensures watches == old(watches) - gone && Table() == old(Table()) - gone
      ensures SubMap(realWatches, old(realWatches))
    {
      hide Valid, Round, Swept, SubMap, Table;
      var n := |ps|;
      gone, calls := {}, [];
      SweptNone(Table(), ps);
      NothingAdded(log, realWatches);
      assert ps[n..] == [] && watches - gone == watches && Table() - gone == Table();
      while n > 0
        invariant n <= |ps|
        invariant Valid() && repr == old(repr) && log == old(log) + calls
        invariant Swept(old(Table()), gone, ps[n..], calls)
        invariant watches == old(watches) - gone && Table() == old(Table()) - gone
        invariant SubMap(realWatches, old(realWatches))
      {
        n := n - 1;
        ghost var roots := realWatches;
        ghost var h, last := RemoveReported(ps[n].dir);
        SubMapOf(realWatches, roots, old(realWatches));
        SweptStep(old(Table()), ps, n, gone, calls, h, last);
        MapMinus(old(Table()), gone, h);
        MapMinus(old(watches), gone, h);
        gone, calls := gone + h, calls + last;
      }
      assert ps[0..] == ps;
    }

    /** Reports a moved-out entry and everything watched below it, and stops watching it. In a tidy
        tree this removes exactly the watches at or below the entry. */
    method EmitMovedOutside(watch: WatcherInotify, oldFileName: string)
      returns (ghost gone: set<int>, ghost calls: seq<Callback>)
      requires Valid() && watch in repr
      modifies this, watch`oldFileName
      ensures Valid() && repr == old(repr) && watch.oldFileName == ""
      ensures log == old(log) + calls
      ensures LeavesTree(old(Table()), gone, old(EntryOf(watch)), oldFileName, calls)
      ensures watches == old(watches) - gone && Table() == old(Table()) - gone
      ensures SubMap(realWatches, old(realWatches))
      ensures old(InTable(watch)) && Tidy(old(Table()), watch.wd, oldFileName) ==>
                && gone == Below(old(Table()), ChildDir(watch.directory, oldFileName))
                && exists dirs :: Reports(old(Table()), dirs, ChildDir(watch.directory, oldFileName))
                                  && calls == Deletes(watch.id, dirs)
    {
      hide Valid, Tidy, Reports, Deletes, Below, Swept, Deleted, Collected;
      ghost var t, w := Table(), EntryOf(watch);
      TableEntries();
      watch.oldFileName := "";
      assert Table() == t;
      var ps := CollectBelow(watch, watch.directory + oldFileName + [Slash]);
      if ps == [] {
        gone, calls := HandleRemove(watch, oldFileName);
      } else {
        gone, calls := RemoveBelow(ps);
      }
      assert ReportsLeft(t, gone, w, oldFileName, ps, calls);
      if old(InTable(watch)) && Tidy(t, watch.wd, oldFileName) {
        TidyLeaves(t, watch.wd, oldFileName, gone, calls);
      }
    }

    // ---------- run: one batch ----------

    ghost predicate NoOldNames()
      reads `repr, repr`oldFileName
    {
      forall w | w in repr :: w.oldFileName == ""
    }

    /** The sources that wait, as they are now. */
    ghost function Held(pending: map<int, PendingMove>): map<int, Source>
      reads (set c | c in pending :: pending[c].watcher)`directory
    {
      map c | c in pending ::
        Source(pending[c].watcher.wd, EntryOf(pending[c].watcher), pending[c].filename)
    }

    ghost predicate Sources(pending: map<int, PendingMove>)
      reads `repr
    {
      forall c | c in pending :: pending[c].watcher in repr && pending[c].filename != ""
    }

    /** Cookie to destination descriptor, the last one when a cookie comes twice. */
    method MovePairs(events: seq<BatchEvent>) returns (pairs: map<int, int>)
      ensures forall c | c in pairs :: exists j :: 0 <= j < |events| && events[j].kind.MovedTo?
                                                   && events[j].cookie == c && events[j].wd == pairs[c]
      ensures forall j | 0 <= j < |events| && events[j].kind.MovedTo? :: events[j].cookie in pairs
    {
      pairs := map[];
      for i := 0 to |events|
        invariant forall c | c in pairs :: exists j :: 0 <= j < i && events[j].kind.MovedTo?
                                                       && events[j].cookie == c && events[j].wd == pairs[c]
        invariant forall j | 0 <= j < i && events[j].kind.MovedTo? :: events[j].cookie in pairs
      {
        if events[i].kind.MovedTo? {
          pairs := pairs[events[i].cookie := events[i].wd];
        }
      }
    }

    /** The MOVED_FROM branch. */
    method ReplayFrom(e: BatchEvent, pairs: map<int, int>, pending: map<int, PendingMove>)
      returns (pending': map<int, PendingMove>, ghost s: Step)
      requires Valid() && NoOldNames() && e.kind.MovedFrom? && e.filename != "" && Sources(pending)
      modifies this, repr
      ensures Valid() && NoOldNames() && repr == old(repr) && Sources(pending')
      ensures s.before == old(Table()) && s.after == Table() && log == old(log) + s.calls && StepFits(e, s)
      ensures PendingChange(e, s, old(Held(pending)), Held(pending'))
      ensures forall w | w in repr :: w.directory == old(w.directory)
      ensures old(Owned()) ==> Owned()
      ensures s.outcome.Deferred? <==>
              e.cookie in pairs && Joins(old(Table()), e.wd, pairs[e.cookie])
    {
      hide StepFits, Valid, Owned, Joins, Held, PendingChange, Sources, Coalesces;
      TableEntries();
      if e.wd !in watches {
        pending', s := pending, Step(Table(), Table(), Dropped, []);
        DropSource(e, pending, s);
        return;
      }
      CoalescesIs(e, pairs);
      if Coalesces(e, pairs) {
        pending', s := DeferSource(e, pending);
      } else {
        pending' := pending;
        s := ReplayAway(e, pending);
      }
    }

    /** A source on a watch that is gone. */
    lemma DropSource(e: BatchEvent, pending: map<int, PendingMove>, s: Step)
      requires Valid() && e.kind.MovedFrom? && e.wd !in watches && s == Step(Table(), Table(), Dropped, [])
      ensures StepFits(e, s) && PendingChange(e, s, Held(pending), Held(pending))
      ensures forall destination :: !Joins(Table(), e.wd, destination)
    {
      hide StepFits, Valid, Carried, Joins, Held;
      TableEntries();
      HeldParts(pending);
      NotJoined(Table(), e.wd);
      QuietFits(e, s);
      HeldCarried(pending, s, Held(pending));
    }

    /** A source that waits for its destination. */
    method DeferSource(e: BatchEvent, pending: map<int, PendingMove>)
      returns (pending': map<int, PendingMove>, ghost s: Step)
      requires Valid() && e.kind.MovedFrom? && e.wd in watches && e.filename != "" && Sources(pending)
      ensures s == Step(old(Table()), Table(), Deferred, []) && StepFits(e, s) && Sources(pending')
      ensures PendingChange(e, s, old(Held(pending)), Held(pending'))
    {
      hide StepFits, Valid, Carried, Held;
      TableEntries();
      HeldParts(pending);
      WatchOf(e.wd);
      pending' := pending[e.cookie := PendingMove(watches[e.wd], e.filename)];
      s := Step(Table(), Table(), Deferred, []);
      QuietFits(e, s);
      HeldCarried(pending, s, Held(pending));
      HeldWith(pending, e.cookie, watches[e.wd], e.filename);
    }

    lemma HeldParts(pending: map<int, PendingMove>)
      ensures Held(pending).Keys == pending.Keys
      ensures forall c | c in pending ::
                Held(pending)[c] == Source(pending[c].watcher.wd, EntryOf(pending[c].watcher), pending[c].filename)
    {
    }

    lemma HeldWith(pending: map<int, PendingMove>, cookie: int, watcher: WatcherInotify, filename: string)
      ensures Held(pending[cookie := PendingMove(watcher, filename)])
              == Held(pending)[cookie := Source(watcher.wd, EntryOf(watcher), filename)]
    {
    }

    lemma NotJoined(t: map<int, Entry>, wd: int)
      requires wd !in t
      ensures forall destination :: !Joins(t, wd, destination)
    {
    }

    /** Whether the pair of a source will be one Moved. */
    predicate Coalesces(e: BatchEvent, pairs: map<int, int>)
      reads `watches
    {
      && e.wd in watches && e.cookie in pairs && pairs[e.cookie] in watches
      && var curWatcher, destination := watches[e.wd], watches[pairs[e.cookie]];
         destination == curWatcher || (destination.reportCrossDirectoryMoves && destination.id == curWatcher.id)
    }

    lemma CoalescesIs(e: BatchEvent, pairs: map<int, int>)
      requires Valid() && e.wd in watches
      ensures Coalesces(e, pairs) <==> e.cookie in pairs && Joins(Table(), e.wd, pairs[e.cookie])
    {
      hide Valid;
      TableEntries();
      WatchOf(e.wd);
    }

    /** A source that has no destination in its batch. */
    method ReplayAway(e: BatchEvent, ghost pending: map<int, PendingMove>) returns (ghost s: Step)
      requires Valid() && NoOldNames() && e.kind.MovedFrom? && e.wd in watches && Sources(pending)
      modifies this, repr
      ensures Valid() && NoOldNames() && repr == old(repr)
      ensures s.before == old(Table()) && s.after == Table() && log == old(log) + s.calls && StepFits(e, s)
      ensures s.outcome.MovedAway?
      ensures PendingChange(e, s, old(Held(pending)), Held(pending))
      ensures forall w | w in repr :: w.directory == old(w.directory)
      ensures old(Owned()) ==> Owned()
    {
      hide LeavesTree, StepFits, Valid, Owned, Tidy, Reports, Deletes, Below, Carried, Held;
      ghost var t, held := Table(), Held(pending);
      TableEntries();
      HeldParts(pending);
      WatchOf(e.wd);
      ghost var gone, calls := EmitMovedOutside(watches[e.wd], e.filename);
      s := Step(t, Table(), MovedAway(Source(e.wd, t[e.wd], e.filename)), calls);
      FromFits(e, s, gone);
      OwnedStill();
      HeldCarried(pending, s, held);
    }

    lemma WatchOf(wd: int)
      requires Valid() && wd in watches
      ensures watches[wd].wd == wd && watches[wd] in repr
      ensures forall v | v in watches && watches[v] == watches[wd] :: v == wd
    {
    }

    lemma FromFits(e: BatchEvent, s: Step, gone: set<int>)
      requires e.kind.MovedFrom? && e.wd in s.before
      requires s.outcome == MovedAway(Source(e.wd, s.before[e.wd], e.filename))
      requires LeavesTree(s.before, gone, s.before[e.wd], e.filename, s.calls) && s.after == s.before - gone
      ensures StepFits(e, s)
    {
      hide LeavesTree;
    }

    /** When no watch has changed its directory, the waiting sources have not changed. */
    lemma HeldCarried(pending: map<int, PendingMove>, s: Step, was: map<int, Source>)
      requires Valid() && s.after == Table()
      requires was.Keys == pending.Keys && forall c | c in pending ::
                 was[c] == Source(pending[c].watcher.wd, Entry(pending[c].watcher, was[c].entry.dir),
                                  pending[c].filename)
      requires forall c | c in pending ::
                 pending[c].watcher.directory == was[c].entry.dir || InTable(pending[c].watcher)
      ensures Held(pending) == Carried(s, was)
    {
      forall c | c in pending
        ensures Held(pending)[c] == Carried(s, was)[c]
      {
        var w := pending[c].watcher;
        assert w.wd in s.after ==> s.after[w.wd] == EntryOf(watches[w.wd]);
      }
    }

    /** The end of a coalesced rename: source and destination watch are known. */
    method CompleteMove(source: WatcherInotify, sourceFilename: string, curWatcher: WatcherInotify,
                        filename: string, at: Node)
      requires Valid() && NoOldNames() && source in repr && curWatcher in repr && sourceFilename != ""
      modifies this, repr
      ensures Valid() && NoOldNames() && repr == old(repr)
      ensures watches == old(watches) && realWatches == old(realWatches)
      ensures log == old(log) + [FileAction(curWatcher.id, old(curWatcher.directory), filename, Moved,
                                            if source == curWatcher then sourceFilename
                                            else old(source.directory) + sourceFilename)]
      ensures forall w | w in repr ::
                w.directory ==
                if curWatcher.recursive && at.Folder? && old(InTable(w)) then
                  Reprefix(old(w.directory),
                           MoveSource(old(curWatcher.directory),
                                      if source == curWatcher then sourceFilename
                                      else old(source.directory) + sourceFilename),
                           AddSlash(old(curWatcher.directory) + filename))
                else old(w.directory)
    {
      if source == curWatcher {
        curWatcher.oldFileName := sourceFilename;
        ghost var es, calls := HandleMovedTo(curWatcher, filename, at);
      } else {
        EmitCrossDirectoryMove(source, sourceFilename, curWatcher, filename, at);
      }
    }

    /** Events that do not end a pending rename. */
    method ReplayPlain(e: BatchEvent) returns (ghost s: Step)
      requires Valid() && NoOldNames() && !e.kind.MovedFrom?
      modifies this, repr
      ensures Valid() && NoOldNames() && old(repr) <= repr && fresh(repr - old(repr))
      ensures s.before == old(Table()) && s.after == Table() && log == old(log) + s.calls && StepFits(e, s)
      ensures s.outcome.Handled? || s.outcome.Dropped?
      ensures forall w | w in old(repr) :: w.directory == old(w.directory)
      ensures old(Owned()) ==> Owned()
    {
      hide Valid, Acts, Owned;
      ghost var t := Table();
      TableEntries();
      if e.wd in watches {
        WatchOf(e.wd);
        var curWatcher := watches[e.wd];
        ghost var es, calls := HandleAction(curWatcher, e.filename, e.kind, e.at);
        s := Step(t, Table(), Handled(es), calls);
      } else {
        s := Step(t, t, Dropped, []);
      }
    }

    /** A MOVED_TO whose source is pending. */
    method ReplayTo(e: BatchEvent, pending: map<int, PendingMove>)
      returns (pending': map<int, PendingMove>, ghost s: Step)
      requires Valid() && NoOldNames() && e.kind.MovedTo? && e.cookie in pending && Sources(pending)
      modifies this, repr
      ensures Valid() && NoOldNames() && repr == old(repr)
      ensures pending' == pending - {e.cookie}
      ensures s.before == old(Table()) && s.after == Table() && log == old(log) + s.calls && StepFits(e, s)
      ensures Settles(s, old(Held(pending))[e.cookie])
      ensures Held(pending) == Carried(s, old(Held(pending)))
      ensures old(Owned()) && (s.outcome.Coalesced? ==> RootsStay(s)) ==> Owned()
    {
      hide StepFits, Valid, Owned, RootsStay, Carried;
      ghost var held := Held(pending);
      TableEntries();
      var source, sourceFilename := pending[e.cookie].watcher, pending[e.cookie].filename;
      pending' := pending - {e.cookie};
      if e.wd !in watches {
        s := ReplayLost(e, source, sourceFilename);
      } else {
        s := ReplayMoved(e, source, sourceFilename);
      }
      HeldCarried(pending, s, held);
    }

    /** The destination watch is gone: the source is reported as moved away. */
    method ReplayLost(e: BatchEvent, source: WatcherInotify, sourceFilename: string) returns (ghost s: Step)
      requires Valid() && NoOldNames() && e.kind.MovedTo? && e.wd !in watches && source in repr
      modifies this, repr
      ensures Valid() && NoOldNames() && repr == old(repr)
      ensures s.before == old(Table()) && s.after == Table() && log == old(log) + s.calls && StepFits(e, s)
      ensures s.outcome == MovedAway(Source(source.wd, old(EntryOf(source)), sourceFilename))
      ensures forall w | w in repr :: w.directory == old(w.directory)
      ensures old(Owned()) ==> Owned()
    {
      hide LeavesTree, StepFits, Valid, Owned, Tidy, Reports, Deletes, Below;
      ghost var t, w := Table(), EntryOf(source);
      TableEntries();
      ghost var gone, calls := EmitMovedOutside(source, sourceFilename);
      s := Step(t, Table(), MovedAway(Source(source.wd, w, sourceFilename)), calls);
      AwayFits(e, s, gone);
      OwnedStill();
    }

    /** One Moved, and the table follows the directory. */
    method ReplayMoved(e: BatchEvent, source: WatcherInotify, sourceFilename: string) returns (ghost s: Step)
      requires Valid() && NoOldNames() && e.kind.MovedTo? && e.wd in watches && source in repr && sourceFilename != ""
      modifies this, repr
      ensures Valid() && NoOldNames() && repr == old(repr)
      ensures s.before == old(Table()) && s.after == Table() && log == old(log) + s.calls && StepFits(e, s)
      ensures s.outcome == Coalesced(Source(source.wd, old(EntryOf(source)), sourceFilename))
      ensures forall w | w in repr :: w.directory == old(w.directory) || InTable(w)
      ensures old(Owned()) && RootsStay(s) ==> Owned()
    {
      hide StepFits, Valid, Owned, Reprefix, MoveSource, AddSlash, RootsStay;
      ghost var t := Table();
      TableEntries();
      WatchOf(e.wd);
      AllInTable();
      var curWatcher := watches[e.wd];
      ghost var w, src := EntryOf(curWatcher), Source(source.wd, EntryOf(source), sourceFilename);
      ghost var oldName := OldName(src, w);
      CompleteMove(source, sourceFilename, curWatcher, e.filename, e.at);
      RenamesTable(t, curWatcher.recursive && e.at.Folder?, MoveSource(w.dir, oldName), AddSlash(w.dir + e.filename));
      s := Step(t, Table(), Coalesced(src), [FileAction(curWatcher.id, w.dir, e.filename, Moved, oldName)]);
      CoalescedFits(e, s);
      RootsOwned(s);
    }

    lemma AwayFits(e: BatchEvent, s: Step, gone: set<int>)
      requires e.kind.MovedTo? && e.wd !in s.before && s.outcome.MovedAway?
      requires var src := s.outcome.source; LeavesTree(s.before, gone, src.entry, src.file, s.calls)
      requires s.after == s.before - gone
      ensures StepFits(e, s)
    {
      hide LeavesTree;
    }

    lemma CoalescedFits(e: BatchEvent, s: Step)
      requires e.kind.MovedTo? && e.wd in s.before && s.outcome.Coalesced?
      requires var w := s.before[e.wd];
               Renames(s.before, s.after, w, e.filename, e.at, OldName(s.outcome.source, w), s.calls)
      ensures StepFits(e, s)
    {
      hide Renames;
    }

    /** With every root where it was, the roots conflict no more than before. */
    twostate lemma RootsOwned(s: Step)
      requires Valid() && old(Valid()) && watches == old(watches) && realWatches == old(realWatches)
      requires s.before == old(Table()) && s.after == Table()
      ensures old(Owned()) && RootsStay(s) ==> Owned()
    {
      hide Check;
      if RootsStay(s) {
        forall v | v in realWatches
          ensures realWatches[v].directory == old(realWatches[v].directory)
        {
          assert Table()[v] == EntryOf(watches[v]);
        }
      }
    }

    method ReplayEvent(e: BatchEvent, pairs: map<int, int>, pending: map<int, PendingMove>)
      returns (pending': map<int, PendingMove>, ghost s: Step)
      requires Valid() && NoOldNames() && (e.kind.MovedFrom? ==> e.filename != "") && Sources(pending)
      modifies this, repr
      ensures Valid() && NoOldNames() && old(repr) <= repr && fresh(repr - old(repr)) && Sources(pending')
      ensures s.before == old(Table()) && s.after == Table() && log == old(log) + s.calls && StepFits(e, s)
      ensures PendingChange(e, s, old(Held(pending)), Held(pending'))
      ensures e.kind.MovedFrom? ==>
                (s.outcome.Deferred? <==> e.cookie in pairs && Joins(s.before, e.wd, pairs[e.cookie]))
      ensures old(Owned()) && (s.outcome.Coalesced? ==> RootsStay(s)) ==> Owned()
    {
      hide Valid, StepFits, Joins, Owned, RootsStay;
      ghost var held := Held(pending);
      if e.kind.MovedFrom? {
        pending', s := ReplayFrom(e, pairs, pending);
      } else if e.kind.MovedTo? && e.cookie in pending {
        pending', s := ReplayTo(e, pending);
        assert Held(pending') == Held(pending) - {e.cookie};
      } else {
        pending' := pending;
        s := ReplayPlain(e);
        HeldCarried(pending, s, held);
      }
    }

    /** Replays one read batch. The steps lead from the table before to the table after; each does what
        the code does with its event; and every rename half is settled once, in kernel order. */
    method ReplayBatch(events: seq<BatchEvent>) returns (ghost steps: seq<Step>)
      requires Valid() && NoOldNames()
      requires forall e | e in events && e.kind.MovedFrom? :: e.filename != ""
      requires CookiesPaired(events)
      modifies this, repr
      ensures Valid() && NoOldNames()
      ensures |steps| == |events| && log == old(log) + Concat(steps)
      ensures Linked(old(Table()), steps, Table())
      ensures forall i | 0 <= i < |events| :: StepFits(events[i], steps[i])
      ensures forall i | 0 <= i < |events| && events[i].kind.MovedFrom? ::
                steps[i].outcome.Deferred? <==>
                exists j :: && 0 <= j < |events| && events[j].kind.MovedTo? && events[j].cookie == events[i].cookie
                            && var (t, v, w) := (steps[i].before, events[i].wd, events[j].wd);
                               v in t && w in t
                               && (v == w || (t[w].watch.reportCrossDirectoryMoves && t[w].watch.id == t[v].watch.id))
      ensures forall i, j | Pairs(events, steps, i, j) && steps[j].outcome.Coalesced? ::
                && events[j].wd in steps[j].before
                && var to, from := steps[j].before[events[j].wd], WatchAt(events, steps, i, j);
                   steps[j].calls == [FileAction(to.watch.id, to.dir, events[j].filename, Moved,
                                                 if from.watch == to.watch then events[i].filename
                                                 else from.dir + events[i].filename)]
      ensures AllSettled(events, steps) && deletedWatches == []
      ensures old(Owned()) && (forall s | s in steps && s.outcome.Coalesced? :: RootsStay(s)) ==> Owned()
      ensures Neat(old(Table())) && (forall i | 0 <= i < |events| :: Orderly(events[i], steps[i])) ==>
                Neat(Table()) && (old(Owned()) ==> Owned())
    {
      hide Neat, Orderly, Valid, StepFits, CookiesPaired, Deferrable, Linked, Owned, RootsStay, Replayed, AllSettled,
           Concat, WatchAt, Settles;
      ghost var pending;
      steps, pending := ReplayAll(events);
      NothingPending(events, steps, pending, old(log), log);
      ReplayedMeans(events, steps, pending, old(log), log);
      RenamesTold(events, steps);
      if Neat(old(Table())) && forall i | 0 <= i < |events| :: Orderly(events[i], steps[i]) {
        BatchNeat(old(Table()), events, steps, Table());
      }
      // Watches removed while the batch was replayed are freed only now.
      deletedWatches := [];
    }

    /** The loop over the events of a batch. */
    method ReplayAll(events: seq<BatchEvent>) returns (ghost steps: seq<Step>, ghost left: map<int, Source>)
      requires Valid() && NoOldNames() && CookiesPaired(events)
      requires forall e | e in events && e.kind.MovedFrom? :: e.filename != ""
      modifies this, repr
      ensures Valid() && NoOldNames()
      ensures |steps| == |events| && Replayed(events, steps, left, old(log), log)
      ensures Linked(old(Table()), steps, Table())
      ensures old(Owned()) && (forall s | s in steps && s.outcome.Coalesced? :: RootsStay(s)) ==> Owned()
    {
      hide Valid, StepFits, Joins, CookiesPaired, Deferrable, Linked, Owned, RootsStay, Replayed, PendingChange;
      var pairs := MovePairs(events);
      var pending: map<int, PendingMove> := map[];
      steps := [];
      assert Held(pending) == map[];
      NoSteps(events, Table(), log);
      for i := 0 to |events|
        invariant Valid() && NoOldNames() && fresh(repr - old(repr)) && Sources(pending)
        invariant |steps| == i && Replayed(events, steps, Held(pending), old(log), log)
        invariant Linked(old(Table()), steps, Table())
        invariant old(Owned()) && (forall s | s in steps && s.outcome.Coalesced? :: RootsStay(s)) ==> Owned()
      {
        ghost var was, sofar, t := Held(pending), log, Table();
        ghost var s;
        pending, s := ReplayEvent(events[i], pairs, pending);
        DeferrableByPairs(events, pairs, s.before, events[i]);
        ReplayedStep(events, steps, s, was, Held(pending), old(log), sofar);
        LinkedStep(old(Table()), steps, t, s);
        steps := steps + [s];
      }
      left := Held(pending);
    }

    /** A coalesced rename, as what it does to all the paths in the table. */
    method CompleteRename(source: WatcherInotify, sourceFilename: string, curWatcher: WatcherInotify,
                          filename: string, at: Node, ghost src: seq<string>, ghost dst: seq<string>)
      requires Valid() && NoOldNames() && source in repr && curWatcher in repr
      requires IsName(sourceFilename) && IsName(filename)
      requires ChildDir(source.directory, sourceFilename) == PathOf(src)
      requires ChildDir(curWatcher.directory, filename) == PathOf(dst)
      modifies this, repr
      ensures Valid() && NoOldNames()
      ensures Dirs() == Rewritten(old(Dirs()), PathTracking.Move(src, dst, curWatcher.recursive, at.Folder?))
    {
      hide Valid, Reprefix, MoveSource, AddSlash, PathOf, ChildDir;
      MoveSourceIs(source.directory, sourceFilename, curWatcher.directory, src);
      AddedSlash(curWatcher.directory, filename);
      AllInTable();
      ghost var was := Dirs();
      CompleteMove(source, sourceFilename, curWatcher, filename, at);
      DirsRenamed(was, curWatcher.recursive && at.Folder?, PathOf(src), PathOf(dst));
    }

    lemma DirsRenamed(was: map<int, string>, rewritten: bool, opath: string, npath: string)
      requires was.Keys == watches.Keys
      requires forall v | v in watches ::
                 watches[v].directory == if rewritten then Reprefix(was[v], opath, npath) else was[v]
      ensures Dirs() == if rewritten then ReprefixAll(was, opath, npath) else was
    {
      hide Reprefix;
      forall v | v in watches
        ensures Dirs()[v] == if rewritten then ReprefixAll(was, opath, npath)[v] else was[v]
      {
      }
    }

    /** A coalesced directory rename, against the kernel's tree: afterwards the table's paths are true
        exactly when the watch is recursive and the directory found, or nothing in it was watched. */
    method CompleteTrackedRename(source: WatcherInotify, sourceFilename: string, curWatcher: WatcherInotify,
                                 filename: string, at: Node, ghost tree: Dir, ghost inos: map<int, nat>,
                                 ghost src: seq<string>, ghost dst: seq<string>)
      requires Valid() && NoOldNames() && source in repr && curWatcher in repr
      requires CanRename(tree, src, dst) && IsName(sourceFilename) && IsName(filename)
      requires ChildDir(source.directory, sourceFilename) == PathOf(src)
      requires ChildDir(curWatcher.directory, filename) == PathOf(dst)
      requires Tracks(tree, Dirs(), inos) && DistinctDirs(Dirs()) && NoneBelow(Dirs(), dst)
      modifies this, repr
      ensures Valid() && NoOldNames() && DistinctDirs(Dirs())
      ensures Tracks(Rename(tree, src, dst), Dirs(), inos) <==>
              (curWatcher.recursive && at.Folder?) || NoneBelow(old(Dirs()), src)
    {
      RenameTracked(tree, src, dst, Dirs(), inos);
      UnrewrittenTracks(tree, src, dst, Dirs(), inos);
      CompleteRename(source, sourceFilename, curWatcher, filename, at, src, dst);
    }

    /** Both kinds of old name, the bare one of a local rename and the absolute one, mean the source. */
    lemma MoveSourceIs(sourceDir: string, sourceFilename: string, dir: string, src: seq<string>)
      requires IsName(sourceFilename) && ChildDir(sourceDir, sourceFilename) == PathOf(src)
      ensures MoveSource(dir, sourceDir + sourceFilename) == PathOf(src)
      ensures dir == sourceDir ==> MoveSource(dir, sourceFilename) == PathOf(src)
    {
      AddedSlash(sourceDir, sourceFilename);
      assert sourceFilename[0] in sourceFilename;
      assert PathOf(src)[0] == Slash;
      assert (sourceDir + sourceFilename)[0] == ChildDir(sourceDir, sourceFilename)[0];
      assert sourceDir != "";
    }

    lemma AddedSlash(dir: string, name: string)
      requires IsName(name)
      ensures AddSlash(dir + name) == ChildDir(dir, name)
    {
      assert name[|name| - 1] in name;
      assert (dir + name)[|dir + name| - 1] == name[|name| - 1];
    }
  }
}
