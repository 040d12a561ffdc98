/** DirectorySnapshot: the sorted list of a directory's entries, kept up to date by rescans and by
    single-entry updates. The file system's answers are parameters. */
module Snapshot {
  import opened Paths
  import opened Files
  import opened SnapshotDiff

  /** The same entries under another directory. */
  function Rebased(files: seq<FileInfo>, dir: string): seq<FileInfo> {
    seq(|files|, i requires 0 <= i < |files| => files[i].(path := dir + FileName(files[i].path)))
  }

  /** Every entry is a child of the directory with a proper name. */
  ghost predicate NamedChildren(dir: string, files: seq<FileInfo>) {
    forall f | f in files :: |dir| < |f.path| && f.path[..|dir|] == dir && IsName(f.path[|dir|..])
  }

  lemma NameOfChild(dir: string, f: FileInfo)
    requires SlashAtEnd(dir) && |dir| < |f.path| && f.path[..|dir|] == dir && IsName(f.path[|dir|..])
    ensures FileName(f.path) == f.path[|dir|..] && f.path == dir + FileName(f.path)
  {
    assert f.path == dir + f.path[|dir|..];
    ChildParts(dir, f.path[|dir|..]);
  }

  lemma RebasedEntry(files: seq<FileInfo>, from: string, to: string, i: nat)
    requires SlashAtEnd(from) && SlashAtEnd(to) && NamedChildren(from, files) && i < |files|
    ensures var name, r := files[i].path[|from|..], Rebased(files, to);
            && IsName(name) && FileName(files[i].path) == name
            && files[i].path == from + name && r[i].path == to + name
            && FileName(r[i].path) == name && r[i].path[|to|..] == name
            && |to| < |r[i].path| && r[i].path[..|to|] == to
            && Rebased(r, from)[i] == files[i]
  {
    assert files[i] in files;
    NameOfChild(from, files[i]);
    ChildParts(to, FileName(files[i].path));
  }

  /** Re-prefixing keeps names, contents and order. */
  lemma RebasedKeeps(files: seq<FileInfo>, from: string, to: string)
    requires SlashAtEnd(from) && SlashAtEnd(to) && NamedChildren(from, files)
    ensures NamedChildren(to, Rebased(files, to))
    ensures Sorted(files) ==> Sorted(Rebased(files, to))
    ensures forall i | 0 <= i < |files| :: FileName(Rebased(files, to)[i].path) == FileName(files[i].path)
    ensures Rebased(Rebased(files, to), from) == files
  {
    forall i | 0 <= i < |files|
      ensures FileName(Rebased(files, to)[i].path) == FileName(files[i].path)
      ensures Rebased(Rebased(files, to), from)[i] == files[i]
    {
      RebasedEntry(files, from, to, i);
    }
    if Sorted(files) {
      RebasedSorted(files, from, to);
    }
    RebasedNamed(files, from, to);
  }

  lemma RebasedNamed(files: seq<FileInfo>, from: string, to: string)
    requires SlashAtEnd(from) && SlashAtEnd(to) && NamedChildren(from, files)
    ensures NamedChildren(to, Rebased(files, to))
  {
    hide FileName, IsName, SlashAtEnd;
    forall f | f in Rebased(files, to)
      ensures |to| < |f.path| && f.path[..|to|] == to && IsName(f.path[|to|..])
    {
      var i :| 0 <= i < |files| && Rebased(files, to)[i] == f;
      RebasedEntry(files, from, to, i);
    }
  }

  lemma RebasedSorted(files: seq<FileInfo>, from: string, to: string)
    requires SlashAtEnd(from) && SlashAtEnd(to) && NamedChildren(from, files) && Sorted(files)
    ensures Sorted(Rebased(files, to))
  {
    var r := Rebased(files, to);
    forall i, j | 0 <= i < j < |r|
      ensures Less(r[i].path, r[j].path)
    {
      RebasedEntry(files, from, to, i);
      RebasedEntry(files, from, to, j);
      var a, b := files[i].path[|from|..], files[j].path[|from|..];
      LessSamePrefix(from, a, b);
      LessSamePrefix(to, a, b);
      assert Less(files[i].path, files[j].path);
    }
  }

  lemma NamedAreDirect(dir: string, files: seq<FileInfo>)
    requires SlashAtEnd(dir) && NamedChildren(dir, files)
    ensures DirectChildren(dir, files)
  {
    hide FileName;
    forall f | f in files
      ensures f.path == dir + FileName(f.path)
    {
      NameOfChild(dir, f);
    }
  }

  class DirectorySnapshot {
    var info: FileInfo
    var files: seq<FileInfo>

    constructor ()
      ensures files == []
    {
      info := FileInfo("", 0, 0, 0, 0, 0, 0, 0, 0);
      files := [];
    }

    /** setDirectoryInfo: the directory has been renamed, or is being set for the first time. */
    method SetDirectoryInfo(directory: string, stat: FileInfo)
      modifies this
      ensures files == Rebased(old(files), AddSlash(directory)) && info == stat
    {
      var newDirectory := AddSlash(directory);
      for i := 0 to |files|
        invariant |files| == |old(files)| && info == old(info)
        invariant forall k | 0 <= k < i ::
                    files[k] == old(files)[k].(path := newDirectory + FileName(old(files)[k].path))
        invariant forall k | i <= k < |files| :: files[k] == old(files)[k]
      {
        files := files[i := files[i].(path := newDirectory + FileName(files[i].path))];
      }
      info := stat;
    }

    /** scan: takes the current listing as the next snapshot and reports the difference. */
    method Scan(stat: FileInfo, exists_: bool, listing: seq<FileInfo>) returns (dirChanged: bool, diff: Diff)
      requires Sorted(files) && Sorted(listing)
      modifies this
      ensures dirChanged <==> old(info).(path := stat.path, links := stat.links) != stat
      ensures info == if dirChanged then stat else old(info)
      ensures files == if exists_ then Supported(listing) else []
      ensures forall f :: f in files <==> exists_ && f in listing && (f.IsRegularFile() || f.IsDirectory())
      ensures diff == ScanDiff(old(files), files)
      ensures Sorted(files)
    {
      diff := EmptyDiff;
      dirChanged := !info.Same(stat);
      if dirChanged {
        info := stat;
      }
      if !exists_ {
        diff := DeleteAll();
        return;
      }
      var current := Supported(listing);
      SupportedSorted(listing);
      if |current| == 0 && |files| == 0 {
        return;
      }
      diff := DiffCurrent(current);
      diff := DiffDeleted(current, diff);
      files := current;
    }

    /** scan's loop over the current entries; moved old entries are taken out on the way. */
    method DiffCurrent(current: seq<FileInfo>) returns (diff: Diff)
      requires Sorted(files) && Sorted(current)
      modifies this`files
      ensures ScanFirst(old(files), current, |current|) == SnapshotDiff.Scan(files, diff)
      ensures Sorted(files)
    {
      hide FileInfo.IsDirectory, FileInfo.Same, FileName, Matches, Less, Find, NodeInFiles;
      diff := EmptyDiff;
      for i := 0 to |current|
        invariant ScanFirst(old(files), current, i) == SnapshotDiff.Scan(files, diff)
        invariant Sorted(files)
      {
        var file := current[i];
        var fiIt := FindFile(files, file.path);
        if fiIt < |files| {
          if !files[fiIt].Same(file) {
            diff := diff.AddModified(file);
          }
        } else {
          var fit := NodeIn(file, current);
          if fit < |files| {
            var oldFile := FileName(files[fit].path);
            WithoutKeeps(files, fit);
            files := files[..fit] + files[fit + 1..];
            diff := diff.AddMoved(oldFile, file);
          } else {
            diff := diff.AddCreated(file);
          }
        }
      }
    }

    /** scan's loop over the entries left over. */
    method DiffDeleted(current: seq<FileInfo>, sofar: Diff) returns (diff: Diff)
      requires Sorted(current)
      ensures diff == DeleteFirst(sofar, files, current, |files|)
    {
      diff := sofar;
      for i := 0 to |files|
        invariant diff == DeleteFirst(sofar, files, current, i)
      {
        var found := FindFile(current, files[i].path);
        if found == |current| {
          diff := diff.AddDeleted(files[i]);
        }
      }
    }

    method DeleteAll() returns (diff: Diff)
      modifies this`files
      ensures files == [] && diff == ScanDiff(old(files), [])
    {
      diff := EmptyDiff;
      for i := 0 to |files|
        invariant files == old(files) && diff == DeleteFirst(EmptyDiff, files, [], i)
      {
        diff := diff.AddDeleted(files[i]);
      }
      files := [];
    }

    /** nodeInFiles */
    method NodeIn(file: FileInfo, current: seq<FileInfo>) returns (it: nat)
      requires Sorted(current)
      ensures it == NodeInFiles(files, file, current)
    {
      it := 0;
      while it < |files|
        invariant it <= |files|
        invariant forall j | 0 <= j < it :: !Matches(files[j], file, current)
      {
        var found := FindFile(current, files[it].path);
        if found == |current| && files[it].SameInode(file) && files[it].Same(file) && files[it].path != file.path {
          return;
        }
        it := it + 1;
      }
    }

    /** addFile and updateFile */
    method AddFile(file: FileInfo)
      requires Sorted(files)
      modifies this`files
      ensures Sorted(files)
      ensures forall g :: g in files <==> g == file || (g in old(files) && g.path != file.path)
    {
      var it := LowerBound(files, file.path);
      LessIrreflexive(file.path);
      if it < |files| && files[it].path == file.path {
        files := files[it := file];
        PutInPlace(old(files), it, file);
      } else {
        files := files[..it] + [file] + files[it..];
        PutBetween(old(files), it, file);
      }
    }

    method RemoveFile(path: string)
      requires Sorted(files)
      modifies this`files
      ensures Sorted(files)
      ensures forall g :: g in files <==> g in old(files) && g.path != path
    {
      var it := FindFile(files, path);
      if it < |files| {
        WithoutKeeps(files, it);
        TakenOut(files, it);
        files := files[..it] + files[it + 1..];
      }
    }

    method MoveFile(oldPath: string, file: FileInfo)
      requires Sorted(files)
      modifies this`files
      ensures Sorted(files)
      ensures forall g :: g in files <==> g == file || (g in old(files) && g.path != oldPath && g.path != file.path)
    {
      RemoveFile(oldPath);
      AddFile(file);
    }
  }

  lemma TakenOut(files: seq<FileInfo>, i: nat)
    requires Sorted(files) && i < |files|
    ensures forall g :: g in Without(files, i) <==> g in files && g.path != files[i].path
  {
    WithoutKeeps(files, i);
    forall g | g in Without(files, i)
      ensures g.path != files[i].path
    {
      var j :| 0 <= j < |Without(files, i)| && Without(files, i)[j] == g;
      var k := if j < i then j else j + 1;
      assert files[k] == g && k != i;
      LessIrreflexive(g.path);
    }
  }

  lemma PutInPlace(files: seq<FileInfo>, i: nat, file: FileInfo)
    requires Sorted(files) && i < |files| && files[i].path == file.path
    ensures Sorted(files[i := file])
    ensures forall g :: g in files[i := file] <==> g == file || (g in files && g.path != file.path)
  {
    var r := files[i := file];
    forall g
      ensures g in r <==> g == file || (g in files && g.path != file.path)
    {
      if g in r && g != file {
        var j :| 0 <= j < |r| && r[j] == g;
        assert files[j] == g && j != i;
        LessIrreflexive(g.path);
      }
      if g in files && g.path != file.path {
        var j :| 0 <= j < |files| && files[j] == g;
        assert r[j] == g;
      }
      assert r[i] == file;
    }
  }

  lemma PutBetween(files: seq<FileInfo>, i: nat, file: FileInfo)
    requires Sorted(files) && i <= |files|
    requires forall j | 0 <= j < i :: Less(files[j].path, file.path)
    requires forall j | i <= j < |files| :: !Less(files[j].path, file.path)
    requires i < |files| ==> files[i].path != file.path
    ensures Sorted(files[..i] + [file] + files[i..])
    ensures forall g :: g in files[..i] + [file] + files[i..] <==> g == file || (g in files && g.path != file.path)
  {
    hide Less;
    var r := files[..i] + [file] + files[i..];
    forall j | i <= j < |files|
      ensures Less(file.path, files[j].path)
    {
      LessTotal(file.path, files[i].path);
      if i < j {
        LessTransitive(file.path, files[i].path, files[j].path);
      }
    }
    LessIrreflexive(file.path);
    forall g
      ensures g in r <==> g == file || (g in files && g.path != file.path)
    {
      if g in files {
        var j :| 0 <= j < |files| && files[j] == g;
        assert r[if j < i then j else j + 1] == g;
      }
      assert r[i] == file;
    }
  }
}
