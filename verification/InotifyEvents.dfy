/** What the inotify backend is told by the kernel and what it tells the listener. */
module InotifyEvents {
  import opened Paths

  datatype Action = Add | Delete | Modified | Moved

  /** A call of the listener. */
  datatype Callback =
    | FileAction(id: int, dir: string, file: string, action: Action, oldFile: string)
    | Missed(id: int, dir: string)

  /** The kind of one inotify event. */
  datatype Kind = QueueOverflow | CloseWrite | Modify | MovedTo | Create | MovedFrom | Remove | OtherKind

  /** What the file system shows at a path. A folder carries the descriptor inotify_add_watch would
      return for it, negative when the call fails. */
  datatype Node =
    | Absent
    | Special
    | Regular
    | Folder(wd: int, readable: bool, remote: bool, entries: seq<(string, Node)>)

  const FileNotFound := -1
  const FileRepeated := -2
  const FileNotReadable := -4
  const FileRemote := -5
  const Unspecified := -7
  const FileOverlapping := -8

  ghost predicate AllAdds(calls: seq<Callback>) {
    forall c | c in calls :: c.FileAction? && c.action == Add
  }

  /** Between two logs only callbacks with this action were made. */
  ghost predicate Added(before: seq<Callback>, after: seq<Callback>, action: Action) {
    && before <= after
    && forall i | |before| <= i < |after| :: after[i].FileAction? && after[i].action == action
  }

  lemma AddedOn(a: seq<Callback>, b: seq<Callback>, c: seq<Callback>, action: Action)
    requires Added(a, b, action) && Added(b, c, action)
    ensures Added(a, c, action)
  {
  }

  /** Where a Moved event with this old name says the directory was. */
  function MoveSource(dir: string, oldFile: string): string {
    AddSlash(if oldFile == "" || oldFile[0] != Slash then dir + oldFile else oldFile)
  }
}
