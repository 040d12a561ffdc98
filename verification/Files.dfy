/** FileInfo: what stat reports about a path, and sorted lists of such entries. */
module Files {
  import opened Paths

  datatype FileInfo = FileInfo(path: string, mtime: nat, size: nat, owner: nat, group: nat,
                               permissions: nat, device: nat, inode: nat, links: nat)
  {
    /** operator==: neither the path nor the link count takes part. */
    predicate Same(other: FileInfo) {
      && mtime == other.mtime && size == other.size && owner == other.owner && group == other.group
      && permissions == other.permissions && device == other.device && inode == other.inode
    }

    predicate SameInode(other: FileInfo) {
      inode != 0 && device == other.device && inode == other.inode
    }

    /** S_ISDIR and S_ISREG: the file type is in the four bits above the twelve permission bits. */
    predicate IsDirectory() {
      permissions / 0x1000 % 16 == 4
    }

    predicate IsRegularFile() {
      permissions / 0x1000 % 16 == 8
    }
  }

  /** The mode of a directory is 0040000 with the twelve permission bits, that of a regular file 0100000. */
  lemma KindByMode(f: FileInfo)
    requires f.permissions < 0x1_0000
    ensures f.IsDirectory() <==> 0x4000 <= f.permissions <= 0x4FFF
    ensures f.IsRegularFile() <==> 0x8000 <= f.permissions <= 0x8FFF
  {
    var nibble := f.permissions / 0x1000;
    assert 0x1000 * nibble <= f.permissions < 0x1000 * (nibble + 1);
    assert nibble < 16;
  }

  function FilePaths(files: seq<FileInfo>): seq<string> {
    seq(|files|, i requires 0 <= i < |files| => files[i].path)
  }

  /** In path order, each path once. */
  ghost predicate Sorted(files: seq<FileInfo>) {
    forall i, j | 0 <= i < j < |files| :: Less(files[i].path, files[j].path)
  }

  predicate Holds(files: seq<FileInfo>, path: string) {
    exists i :: 0 <= i < |files| && files[i].path == path
  }

  /** The entry with this path by linear search; |files| when there is none. */
  function Find(files: seq<FileInfo>, path: string): (i: nat)
    ensures i <= |files|
    ensures i < |files| ==> files[i].path == path
    ensures i == |files| <==> !Holds(files, path)
    ensures forall j | 0 <= j < i :: files[j].path != path
  {
    if files == [] then 0
    else if files[0].path == path then 0
    else
      assert forall j | 1 <= j < |files| :: files[j] == files[1..][j - 1];
      1 + Find(files[1..], path)
  }

  /** std::lower_bound by path. */
  method LowerBound(files: seq<FileInfo>, path: string) returns (first: nat)
    requires Sorted(files)
    ensures first <= |files|
    ensures forall j | 0 <= j < first :: Less(files[j].path, path)
    ensures forall j | first <= j < |files| :: !Less(files[j].path, path)
  {
    first := 0;
    var count: nat := |files|;
    while count > 0
      invariant first + count <= |files|
      invariant forall j | 0 <= j < first :: Less(files[j].path, path)
      invariant forall j | first + count <= j < |files| :: !Less(files[j].path, path)
    {
      var step := count / 2;
      var it := first + step;
      if Less(files[it].path, path) {
        forall j | 0 <= j < it {
          LessTransitive(files[j].path, files[it].path, path);
        }
        first := it + 1;
        count := count - step - 1;
      } else {
        forall j | it < j < |files|
          ensures !Less(files[j].path, path)
        {
          if Less(files[j].path, path) {
            LessTransitive(files[it].path, files[j].path, path);
          }
        }
        count := step;
      }
    }
  }

  /** findFile: the binary lookup finds what a linear search finds. */
  method FindFile(files: seq<FileInfo>, path: string) returns (i: nat)
    requires Sorted(files)
    ensures i == Find(files, path)
  {
    i := LowerBound(files, path);
    var k := Find(files, path);
    if k < |files| {
      LessIrreflexive(path);
      NotBefore(files, i, k);
    }
    if !(i < |files| && files[i].path == path) {
      i := |files|;
    }
  }

  lemma NotBefore(files: seq<FileInfo>, i: nat, k: nat)
    requires Sorted(files) && i <= k < |files| && !Less(files[i].path, files[k].path)
    ensures i == k
  {
  }

  lemma SortedDistinct(files: seq<FileInfo>, i: nat, j: nat)
    requires Sorted(files) && i < |files| && j < |files| && files[i].path == files[j].path
    ensures i == j
  {
    LessIrreflexive(files[i].path);
  }

  /** removeUnsupportedFiles */
  function Supported(files: seq<FileInfo>): (r: seq<FileInfo>)
    ensures forall f :: f in r <==> f in files && (f.IsRegularFile() || f.IsDirectory())
  {
    if files == [] then []
    else Supported(files[..|files| - 1]) +
         (var f := files[|files| - 1]; if f.IsRegularFile() || f.IsDirectory() then [f] else [])
  }

  lemma {:induction false} SupportedSorted(files: seq<FileInfo>)
    requires Sorted(files)
    ensures Sorted(Supported(files))
    decreases |files|
  {
    if files != [] {
      var front, last := files[..|files| - 1], files[|files| - 1];
      SupportedSorted(front);
      forall f | f in Supported(front)
        ensures Less(f.path, last.path)
      {
        assert f in front;
        var i :| 0 <= i < |front| && front[i] == f;
        assert Less(files[i].path, last.path);
      }
    }
  }
}
