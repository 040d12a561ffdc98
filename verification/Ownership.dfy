/** Which explicit inotify registrations may live side by side: the conflict check of
    FileWatcherInotify, against the set of directories each registration needs a watch on. */
module Ownership {
  import opened Paths

  /** An explicit registration by its comparison path. */
  datatype Root = Root(path: string, recursive: bool)

  datatype Verdict = NoConflict | Repeated | Overlapping

  /** isDirectoryInside: child is a strict descendant of parent. */
  predicate Inside(child: string, parent: string) {
    if parent == "" then false
    else if child == parent then false
    else if |child| <= |parent| then false
    else if child[..|parent|] != parent then false
    else SlashAtEnd(parent) || child[|parent|] == Slash
  }

  /** What the check answers for one existing registration. */
  function Check(existing: Root, added: Root): Verdict {
    if existing.path == added.path then Repeated
    else if existing.recursive && Inside(added.path, existing.path) then Overlapping
    else if added.recursive && Inside(existing.path, added.path) then Overlapping
    else NoConflict
  }

  /** The directories a registration puts a native watch on. */
  predicate Covers(root: Root, dir: string) {
    dir == root.path || (root.recursive && Inside(dir, root.path))
  }

  /** No two registrations are equal and no recursive one strictly contains another. */
  predicate SingleOwner(roots: map<int, Root>) {
    forall v, w | v in roots && w in roots && v != w :: Check(roots[v], roots[w]) == NoConflict
  }

  lemma CheckSymmetric(a: Root, b: Root)
    ensures (Check(a, b) == NoConflict) == (Check(b, a) == NoConflict)
    ensures (Check(a, b) == Repeated) == (Check(b, a) == Repeated)
  {
  }

  /** Of two slash-terminated directories, equal ones are repeated, and an inner one overlaps with a recursive
      outer one, whichever of them comes first. */
  lemma VerdictMeans(a: Root, b: Root)
    requires SlashAtEnd(a.path) && SlashAtEnd(b.path)
    ensures Check(a, b) == Repeated <==> a.path == b.path
    ensures Check(a, b) == Overlapping <==>
            a.path != b.path && ((a.recursive && a.path <= b.path) || (b.recursive && b.path <= a.path))
  {
    InsideIsPrefix(a.path, b.path);
    InsideIsPrefix(b.path, a.path);
  }

  lemma RepeatedIs(a: Root, b: Root)
    ensures Check(a, b) == Repeated <==> a.path == b.path
  {
  }

  lemma InsideIsPrefix(child: string, parent: string)
    requires SlashAtEnd(parent)
    ensures Inside(child, parent) <==> parent < child
  {
  }

  /** Two registrations pass the check, in either order, exactly when no directory is covered by both. */
  lemma ConflictIffShared(a: Root, b: Root)
    requires SlashAtEnd(a.path) && SlashAtEnd(b.path)
    ensures Check(a, b) == NoConflict <==> !exists dir :: Covers(a, dir) && Covers(b, dir)
  {
    if Check(a, b) != NoConflict {
      assert (Covers(a, b.path) && Covers(b, b.path)) || (Covers(a, a.path) && Covers(b, a.path));
    }
    forall dir | Covers(a, dir) && Covers(b, dir)
      ensures Check(a, b) != NoConflict
    {
      if |a.path| <= |b.path| {
        assert a.path == dir[..|a.path|] && b.path == dir[..|b.path|];
        assert a.path == b.path[..|a.path|];
      } else {
        assert b.path == dir[..|b.path|] && a.path == dir[..|a.path|];
        assert b.path == a.path[..|b.path|];
      }
    }
  }

  /** Under single ownership every directory belongs to at most one registration, and conversely. */
  lemma SingleOwnerIffDisjoint(roots: map<int, Root>)
    requires forall w | w in roots :: SlashAtEnd(roots[w].path)
    ensures SingleOwner(roots) <==>
            forall v, w, dir | v in roots && w in roots && Covers(roots[v], dir) && Covers(roots[w], dir) :: v == w
  {
    forall v, w | v in roots && w in roots && v != w
      ensures Check(roots[v], roots[w]) == NoConflict <==>
              !exists dir :: Covers(roots[v], dir) && Covers(roots[w], dir)
    {
      ConflictIffShared(roots[v], roots[w]);
    }
    if !SingleOwner(roots) {
      var v, w :| v in roots && w in roots && v != w && Check(roots[v], roots[w]) != NoConflict;
      assert exists dir :: Covers(roots[v], dir) && Covers(roots[w], dir);
    }
  }

  /** Adding a registration that was checked against every existing one keeps single ownership. */
  lemma AddKeepsSingleOwner(roots: map<int, Root>, wd: int, added: Root)
    requires SingleOwner(roots) && wd !in roots
    requires forall w | w in roots :: Check(roots[w], added) == NoConflict
    ensures SingleOwner(roots[wd := added])
  {
    forall w | w in roots {
      CheckSymmetric(roots[w], added);
    }
  }
}
