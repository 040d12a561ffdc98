/** Deferred removals and old names of a Windows watch: what one extended notification, one flush and
    one buffer overflow do to them, and the account of where each of them went. */
module Win32PendingMoves {
  import opened Files
  import opened InotifyEvents

  const Backslash: char := '\\'
  const TwoTo64: nat := 0x1_0000_0000_0000_0000
  /** pendingMoveTimeoutMs */
  const TimeoutMs: nat := 100
  const Infinite: nat := 0xFFFF_FFFF

  datatype Native = Added | Removed | Changed | RenamedOld | RenamedNew | Unknown

  /** PendingRenameWin32 */
  datatype Pending = Pending(name: string, fileId: int, createdAt: nat)

  /** One extended notification with a name, and what the file system and the clock say when it is
      handled. */
  datatype Notice = Notice(action: Native, name: string, fileId: int, now: nat, at: FileInfo)

  /** What the watch has been set up with. */
  datatype Config = Config(id: int, dirName: string, reportCross: bool, recursive: bool, canonical: string -> string)

  // ---------- names ----------

  predicate IsSeparator(c: char) {
    c == '/' || c == Backslash
  }

  /** find_last_of("/\\"), -1 when there is none. */
  function LastSeparator(s: string): (i: int)
    ensures -1 <= i < |s|
    ensures i >= 0 ==> IsSeparator(s[i])
    ensures forall j :: i < j < |s| ==> !IsSeparator(s[j])
  {
    if s == "" then -1
    else if IsSeparator(s[|s| - 1]) then |s| - 1
    else LastSeparator(s[..|s| - 1])
  }

  /** The part of a name up to and including its last separator. */
  function ParentPath(name: string): string {
    name[..LastSeparator(name) + 1]
  }

  function BaseName(name: string): string {
    name[LastSeparator(name) + 1..]
  }

  function AddBackslash(dir: string): string {
    if dir != "" && dir[|dir| - 1] != Backslash then dir + [Backslash] else dir
  }

  function RemoveBackslash(dir: string): string {
    if dir != "" && dir[|dir| - 1] == Backslash then dir[..|dir| - 1] else dir
  }

  function LastBackslash(s: string): (i: int)
    ensures -1 <= i < |s|
  {
    if s == "" then -1 else if s[|s| - 1] == Backslash then |s| - 1 else LastBackslash(s[..|s| - 1])
  }

  /** fileNameFromPath */
  function FileNameOf(path: string): string {
    var p := RemoveBackslash(path);
    p[LastBackslash(p) + 1..]
  }

  // ---------- what the listener is told ----------

  function ActionOf(a: Native): Action
    requires a.Added? || a.Removed? || a.Changed?
  {
    match a case Added => Add case Removed => Delete case Changed => Modified
  }

  /** The directory a name is reported under. A name that ends in its separator keeps it off. */
  function Folder(c: Config, name: string): string {
    var sep := LastSeparator(name);
    AddBackslash(if sep < 0 then c.dirName else c.dirName + name[..if sep + 1 < |name| then sep + 1 else sep])
  }

  /** handleAction for everything but the second half of a rename. */
  function Report(c: Config, name: string, a: Native): seq<Callback> {
    if a.Added? || a.Removed? || a.Changed? then [FileAction(c.id, Folder(c, name), BaseName(name), ActionOf(a), "")]
    else []
  }

  function CrossDirectory(source: string, name: string): bool {
    ParentPath(source) != ParentPath(name)
  }

  /** handleAction with FILE_ACTION_RENAMED_NEW_NAME and a known source. */
  function ReportRename(c: Config, source: string, name: string): seq<Callback> {
    var cross := CrossDirectory(source, name);
    if cross && !c.reportCross then Report(c, source, Removed) + Report(c, name, Added)
    else [FileAction(c.id, AddBackslash(c.dirName + ParentPath(name)), BaseName(name), Moved,
                     if cross then c.canonical(c.dirName + source) else FileNameOf(source))]
  }

  // ---------- the two lists ----------

  /** What has been told, with the pending entry it was about. */
  datatype Out =
    | Plain(name: string, action: Native)
    | Gone(p: Pending)
    | AsMove(p: Pending, name: string)
    | Overflow(lost: seq<Pending>)

  datatype St = St(renames: seq<Pending>, removals: seq<Pending>, lastModified: (string, nat, nat), out: seq<Out>)

  function Render(c: Config, o: Out): seq<Callback> {
    match o
    case Plain(name, a) => Report(c, name, a)
    case Gone(p) => Report(c, p.name, Removed)
    case AsMove(p, name) => ReportRename(c, p.name, name)
    case Overflow(_) => [Missed(c.id, RemoveBackslash(c.dirName))]
  }

  function RenderAll(c: Config, out: seq<Out>): seq<Callback> {
    if out == [] then [] else RenderAll(c, out[..|out| - 1]) + Render(c, out[|out| - 1])
  }

  function WithId(ps: seq<Pending>, id: int): seq<Pending> {
    if ps == [] then [] else WithId(ps[..|ps| - 1], id) + (if ps[|ps| - 1].fileId == id then [ps[|ps| - 1]] else [])
  }

  function WithoutId(ps: seq<Pending>, id: int): seq<Pending> {
    if ps == [] then [] else WithoutId(ps[..|ps| - 1], id) + (if ps[|ps| - 1].fileId == id then [] else [ps[|ps| - 1]])
  }

  /** The first entry with this identity; |ps| when there is none. */
  function FirstWithId(ps: seq<Pending>, id: int): (i: nat)
    ensures i <= |ps|
    ensures i < |ps| ==> ps[i].fileId == id
    ensures forall j | 0 <= j < i :: ps[j].fileId != id
  {
    if ps == [] then 0 else if ps[0].fileId == id then 0 else 1 + FirstWithId(ps[1..], id)
  }

  function AsGone(ps: seq<Pending>): seq<Out> {
    seq(|ps|, i requires 0 <= i < |ps| => Gone(ps[i]))
  }

  /** The option that defers removals is on. */
  predicate Defers(c: Config) {
    c.reportCross && c.recursive
  }

  /** A removal and an addition of the same file make a move when the file at the new name is that
      file, has no other name, and the directories differ. */
  predicate CertainMove(source: Pending, n: Notice) {
    && CrossDirectory(source.name, n.name)
    && n.at.inode != 0 && n.at.inode == n.fileId
    && (n.at.IsDirectory() || (n.at.IsRegularFile() && n.at.links == 1))
  }

  function Tell(s: St, o: Out): St {
    s.(out := s.out + [o])
  }

  /** An addition with a file identity, against the deferred removals. The answer is whether it has been
      reported as a move. */
  function Arrive(s: St, n: Notice): (St, bool) {
    var sources := WithId(s.removals, n.fileId);
    if |sources| == 1 && CertainMove(sources[0], n) then
      (Tell(s.(removals := WithoutId(s.removals, n.fileId)), AsMove(sources[0], n.name)), true)
    else
      (s.(removals := WithoutId(s.removals, n.fileId), out := s.out + AsGone(sources)), false)
  }

  /** The second half of the loop body: what is not deferred or paired by identity. */
  function Settle(s: St, n: Notice): St {
    match n.action
    case Changed =>
      if s.lastModified == (n.name, n.at.mtime, n.at.size) then s
      else Tell(s.(lastModified := (n.name, n.at.mtime, n.at.size)), Plain(n.name, Changed))
    case RenamedOld => s.(renames := s.renames + [Pending(n.name, n.fileId, n.now)])
    case RenamedNew =>
      var i := FirstWithId(s.renames, n.fileId);
      if i == |s.renames| then Tell(s, Plain(n.name, Added))
      else Tell(s.(renames := s.renames[..i] + s.renames[i + 1..]), AsMove(s.renames[i], n.name))
    case Added | Removed | Unknown => Tell(s, Plain(n.name, n.action))
  }

  /** One notification of WatchCallbackEx. */
  function Notify(c: Config, s: St, n: Notice): St {
    if Defers(c) && n.action.Removed? && n.fileId != 0 then
      s.(removals := s.removals + [Pending(n.name, n.fileId, n.now)])
    else if Defers(c) && n.action.Added? && n.fileId != 0 then
      var (arrived, moved) := Arrive(s, n);
      if moved then arrived else Settle(arrived, n)
    else Settle(s, n)
  }

  // ---------- time ----------

  /** Unsigned 64-bit subtraction. */
  function Elapsed(now: nat, since: nat): nat {
    (now - since) % TwoTo64
  }

  predicate Expired(p: Pending, now: nat) {
    Elapsed(now, p.createdAt) >= TimeoutMs
  }

  function Remaining(p: Pending, now: nat): nat {
    if Expired(p, now) then 0 else TimeoutMs - Elapsed(now, p.createdAt)
  }

  function ExpiredOf(ps: seq<Pending>, now: nat): seq<Pending> {
    if ps == [] then []
    else ExpiredOf(ps[..|ps| - 1], now) + (if Expired(ps[|ps| - 1], now) then [ps[|ps| - 1]] else [])
  }

  function KeptOf(ps: seq<Pending>, now: nat): seq<Pending> {
    if ps == [] then [] else KeptOf(ps[..|ps| - 1], now) + (if Expired(ps[|ps| - 1], now) then [] else [ps[|ps| - 1]])
  }

  /** FlushPendingMoves */
  function Flush(s: St, now: nat): St {
    s.(renames := KeptOf(s.renames, now), removals := KeptOf(s.removals, now),
       out := s.out + AsGone(ExpiredOf(s.renames, now)) + AsGone(ExpiredOf(s.removals, now)))
  }

  /** A completion without data: the buffer has overflowed. */
  function Overflowed(s: St): St {
    Tell(s.(renames := [], removals := []), Overflow(s.renames + s.removals))
  }

  // ---------- runs ----------

  datatype Input = Notified(n: Notice) | Flushing(now: nat) | Overflowing

  function Next(c: Config, s: St, i: Input): St {
    match i
    case Notified(n) => Notify(c, s, n)
    case Flushing(now) => Flush(s, now)
    case Overflowing => Overflowed(s)
  }

  function Run(c: Config, s: St, inputs: seq<Input>): St {
    if inputs == [] then s else Next(c, Run(c, s, inputs[..|inputs| - 1]), inputs[|inputs| - 1])
  }

  const Start := St([], [], ("", 0, 0), [])

  /** The entry that an input puts into a pending list. */
  function Deferred(c: Config, i: Input): multiset<Pending> {
    match i
    case Notified(n) =>
      if n.action.RenamedOld? || (Defers(c) && n.action.Removed? && n.fileId != 0)
      then multiset{Pending(n.name, n.fileId, n.now)} else multiset{}
    case Flushing(_) => multiset{}
    case Overflowing => multiset{}
  }

  function DeferredAll(c: Config, inputs: seq<Input>): multiset<Pending> {
    if inputs == [] then multiset{} else DeferredAll(c, inputs[..|inputs| - 1]) + Deferred(c, inputs[|inputs| - 1])
  }

  /** The entries that left with one output. */
  function Left(o: Out): multiset<Pending> {
    match o
    case Plain(_, _) => multiset{}
    case Gone(p) => multiset{p}
    case AsMove(p, _) => multiset{p}
    case Overflow(lost) => multiset(lost)
  }

  function LeftAll(out: seq<Out>): multiset<Pending> {
    if out == [] then multiset{} else LeftAll(out[..|out| - 1]) + Left(out[|out| - 1])
  }

  /** The books: what waits and what has left. */
  function Booked(s: St): multiset<Pending> {
    multiset(s.renames) + multiset(s.removals) + LeftAll(s.out)
  }

  // ---------- conservation ----------

  lemma LeftAppend(a: seq<Out>, o: Out)
    ensures LeftAll(a + [o]) == LeftAll(a) + Left(o)
  {
    assert (a + [o])[..|a|] == a;
  }

  lemma GoneAppend(a: seq<Out>, ps: seq<Pending>, p: Pending)
    ensures a + AsGone(ps + [p]) == a + AsGone(ps) + [Gone(p)]
  {
  }

  lemma {:induction false} LeftGone(a: seq<Out>, ps: seq<Pending>)
    ensures LeftAll(a + AsGone(ps)) == LeftAll(a) + multiset(ps)
    decreases |ps|
  {
    hide LeftAll;
    if ps == [] {
      assert a + AsGone(ps) == a;
    } else {
      var front, last := ps[..|ps| - 1], ps[|ps| - 1];
      assert ps == front + [last];
      LeftGone(a, front);
      LeftAppend(a + AsGone(front), Gone(last));
      GoneAppend(a, front, last);
    }
  }

  lemma {:induction false} SplitById(ps: seq<Pending>, id: int)
    ensures multiset(ps) == multiset(WithId(ps, id)) + multiset(WithoutId(ps, id))
    ensures forall p | p in WithId(ps, id) :: p in ps && p.fileId == id
    ensures forall p | p in ps && p.fileId == id :: p in WithId(ps, id)
    ensures forall p :: p in WithoutId(ps, id) <==> p in ps && p.fileId != id
    decreases |ps|
  {
    if ps != [] {
      assert ps == ps[..|ps| - 1] + [ps[|ps| - 1]];
      SplitById(ps[..|ps| - 1], id);
    }
  }

  lemma {:induction false} SplitByAge(ps: seq<Pending>, now: nat)
    ensures multiset(ps) == multiset(ExpiredOf(ps, now)) + multiset(KeptOf(ps, now))
    ensures forall p :: p in ExpiredOf(ps, now) <==> p in ps && Expired(p, now)
    ensures forall p :: p in KeptOf(ps, now) <==> p in ps && !Expired(p, now)
    ensures |ps| == |ExpiredOf(ps, now)| + |KeptOf(ps, now)|
    decreases |ps|
  {
    hide Expired;
    if ps != [] {
      assert ps == ps[..|ps| - 1] + [ps[|ps| - 1]];
      SplitByAge(ps[..|ps| - 1], now);
    }
  }

  lemma Regroup(a: multiset<Pending>, b: multiset<Pending>, c: multiset<Pending>, d: multiset<Pending>)
    ensures a + b + (c + d) == a + (d + b) + c
    ensures a + b + (c + d) == (a + d) + b + c
    ensures a + b + (c + d) == a + b + c + d
    ensures a + d + b + c == a + b + c + d
  {
  }

  lemma ArriveBooked(s: St, n: Notice)
    ensures Booked(Arrive(s, n).0) == Booked(s)
    ensures Arrive(s, n).0.renames == s.renames && Arrive(s, n).0.lastModified == s.lastModified
  {
    hide CertainMove, LeftAll, WithId, WithoutId;
    var sources, rest := WithId(s.removals, n.fileId), WithoutId(s.removals, n.fileId);
    SplitById(s.removals, n.fileId);
    Regroup(multiset(s.renames), multiset(rest), LeftAll(s.out), multiset(sources));
    if |sources| == 1 && CertainMove(sources[0], n) {
      LeftAppend(s.out, AsMove(sources[0], n.name));
      assert sources == [sources[0]];
    } else {
      LeftGone(s.out, sources);
    }
  }

  /** The entry at i is the only one with this identity. */
  predicate OnlyAt(ps: seq<Pending>, i: int, id: int) {
    0 <= i < |ps| && ps[i].fileId == id && forall j | 0 <= j < |ps| && j != i :: ps[j].fileId != id
  }

  lemma {:induction false} IdAbsent(ps: seq<Pending>, id: int)
    ensures WithId(ps, id) == [] <==> forall j | 0 <= j < |ps| :: ps[j].fileId != id
    decreases |ps|
  {
    if ps != [] {
      IdAbsent(ps[..|ps| - 1], id);
    }
  }

  lemma {:induction false} OneWithId(ps: seq<Pending>, id: int)
    ensures |WithId(ps, id)| == 1 ==> exists i :: OnlyAt(ps, i, id)
    ensures forall i | OnlyAt(ps, i, id) :: WithId(ps, id) == [ps[i]]
    decreases |ps|
  {
    if ps != [] {
      var front, n := ps[..|ps| - 1], |ps| - 1;
      OneWithId(front, id);
      IdAbsent(front, id);
      if |WithId(ps, id)| == 1 {
        if ps[n].fileId == id {
          assert OnlyAt(ps, n, id);
        } else {
          var i :| OnlyAt(front, i, id);
          assert OnlyAt(ps, i, id);
        }
      }
      forall i | OnlyAt(ps, i, id)
        ensures WithId(ps, id) == [ps[i]]
      {
        assert i < n ==> OnlyAt(front, i, id);
      }
    }
  }

  /** An addition is a move exactly when a single deferred removal has its identity and the file at the new
      name confirms it; otherwise every deferred removal of the file is reported. No other one is touched. */
  lemma ArriveDecides(s: St, n: Notice)
    ensures var (e, moved) := Arrive(s, n);
            && (moved <==> exists i :: OnlyAt(s.removals, i, n.fileId) && CertainMove(s.removals[i], n))
            && (forall i | OnlyAt(s.removals, i, n.fileId) && CertainMove(s.removals[i], n) ::
                  e.out == s.out + [AsMove(s.removals[i], n.name)])
            && (!moved ==> exists ps ::
                  && e.out == s.out + AsGone(ps)
                  && forall p :: p in ps <==> p in s.removals && p.fileId == n.fileId)
            && (forall p :: p in e.removals <==> p in s.removals && p.fileId != n.fileId)
  {
    hide CertainMove, WithId, WithoutId;
    var sources := WithId(s.removals, n.fileId);
    SplitById(s.removals, n.fileId);
    OneWithId(s.removals, n.fileId);
    assert forall p :: p in sources <==> p in s.removals && p.fileId == n.fileId;
  }

  lemma TakenOut(ps: seq<Pending>, i: nat)
    requires i < |ps|
    ensures multiset(ps) == multiset(ps[..i] + ps[i + 1..]) + multiset{ps[i]}
  {
    assert ps == ps[..i] + ([ps[i]] + ps[i + 1..]);
  }

  lemma SettleBooked(s: St, n: Notice)
    ensures Booked(Settle(s, n))
            == Booked(s) + if n.action.RenamedOld? then multiset{Pending(n.name, n.fileId, n.now)} else multiset{}
  {
    hide Booked, FirstWithId, Tell;
    var i := FirstWithId(s.renames, n.fileId);
    if n.action.RenamedNew? && i < |s.renames| {
      PairBooked(s, i, n.name);
    } else if n.action.RenamedOld? {
      OldNameBooked(s, Pending(n.name, n.fileId, n.now));
    } else {
      PlainBooked(s, n.name, if n.action.RenamedNew? then Added else n.action, s.lastModified);
      PlainBooked(s, n.name, n.action, (n.name, n.at.mtime, n.at.size));
    }
  }

  lemma PlainBooked(s: St, name: string, a: Native, last: (string, nat, nat))
    ensures Booked(Tell(s.(lastModified := last), Plain(name, a))) == Booked(s)
    ensures s.lastModified == last ==> Booked(Tell(s, Plain(name, a))) == Booked(s)
  {
    hide LeftAll;
    LeftAppend(s.out, Plain(name, a));
  }

  lemma OldNameBooked(s: St, p: Pending)
    ensures Booked(s.(renames := s.renames + [p])) == Booked(s) + multiset{p}
  {
    hide LeftAll;
    Regroup(multiset(s.renames), multiset(s.removals), LeftAll(s.out), multiset{p});
    assert multiset(s.renames + [p]) == multiset(s.renames) + multiset{p};
  }

  lemma PairBooked(s: St, i: nat, name: string)
    requires i < |s.renames|
    ensures Booked(Tell(s.(renames := s.renames[..i] + s.renames[i + 1..]), AsMove(s.renames[i], name))) == Booked(s)
  {
    hide LeftAll;
    TakenOut(s.renames, i);
    LeftAppend(s.out, AsMove(s.renames[i], name));
    Regroup(multiset(s.renames[..i] + s.renames[i + 1..]), multiset(s.removals), LeftAll(s.out),
            multiset{s.renames[i]});
  }

  lemma NextBooked(c: Config, s: St, i: Input)
    ensures Booked(Next(c, s, i)) == Booked(s) + Deferred(c, i)
  {
    hide Settle, Arrive, Booked;
    match i
    case Notified(n) =>
      if Defers(c) && n.action.Removed? && n.fileId != 0 {
        RemovalBooked(s, Pending(n.name, n.fileId, n.now));
      } else {
        ArriveBooked(s, n);
        SettleBooked(Arrive(s, n).0, n);
        SettleBooked(s, n);
      }
    case Flushing(now) => FlushBooked(s, now);
    case Overflowing => OverflowBooked(s);
  }

  lemma RemovalBooked(s: St, p: Pending)
    ensures Booked(s.(removals := s.removals + [p])) == Booked(s) + multiset{p}
  {
  }

  lemma FlushBooked(s: St, now: nat)
    ensures Booked(Flush(s, now)) == Booked(s)
  {
    hide Expired;
    SplitByAge(s.renames, now);
    SplitByAge(s.removals, now);
    LeftGone(s.out, ExpiredOf(s.renames, now));
    LeftGone(s.out + AsGone(ExpiredOf(s.renames, now)), ExpiredOf(s.removals, now));
  }

  lemma OverflowBooked(s: St)
    ensures Booked(Overflowed(s)) == Booked(s)
  {
    LeftAppend(s.out, Overflow(s.renames + s.removals));
  }

  /** Whatever happens, every deferred entry either still waits or has left exactly once: as the source
      of one move, as one removal, or in one overflow. */
  lemma {:induction false} PendingConserved(c: Config, s: St, inputs: seq<Input>)
    ensures Booked(Run(c, s, inputs)) == Booked(s) + DeferredAll(c, inputs)
    decreases |inputs|
  {
    hide Next, Booked;
    if inputs != [] {
      var front, last := inputs[..|inputs| - 1], inputs[|inputs| - 1];
      PendingConserved(c, s, front);
      NextBooked(c, Run(c, s, front), last);
    }
  }

  /** What the listener is told when an entry leaves, with the option on: one Moved, one Delete, or one
      report of missed events. */
  lemma LeavingIsTold(c: Config, o: Out)
    requires c.reportCross
    ensures o.AsMove? ==> |Render(c, o)| == 1 && Render(c, o)[0].FileAction? && Render(c, o)[0].action == Moved
    ensures o.AsMove? ==>
              Render(c, o)[0].oldFile == (if CrossDirectory(o.p.name, o.name) then c.canonical(c.dirName + o.p.name)
                                          else FileNameOf(o.p.name))
    ensures o.Gone? ==> Render(c, o) == [FileAction(c.id, Folder(c, o.p.name), BaseName(o.p.name), Delete, "")]
    ensures o.Overflow? ==> Render(c, o) == [Missed(c.id, RemoveBackslash(c.dirName))]
  {
    hide Folder, BaseName, CrossDirectory;
  }

  // ---------- what every input tells, in calls of the listener ----------

  /** A call about a name below the watched directory. */
  function About(c: Config, name: string, action: Action): Callback {
    FileAction(c.id, Folder(c, name), BaseName(name), action, "")
  }

  /** A call is about a name by its directory and its last part, which together make its path. */
  lemma NameSplits(c: Config, name: string)
    requires c.dirName != "" && c.dirName[|c.dirName| - 1] == Backslash
    requires name != "" && name[|name| - 1] != Backslash && '/' !in name
    ensures Folder(c, name) + BaseName(name) == c.dirName + name
    ensures BaseName(name) != "" && '/' !in BaseName(name) && Backslash !in BaseName(name)
    ensures AddBackslash(c.dirName + ParentPath(name)) == Folder(c, name) && FileNameOf(name) == BaseName(name)
    ensures RemoveBackslash(c.dirName) + [Backslash] == c.dirName
  {
    hide *;
    FileNameIsBase(name);
    LastPart(name);
    PartsMake(name);
    FolderIs(c, name, ParentPath(name));
    assert c.dirName + ParentPath(name) + BaseName(name) == c.dirName + (ParentPath(name) + BaseName(name));
    BackslashThere(c.dirName);
  }

  lemma PartsMake(name: string)
    ensures ParentPath(name) + BaseName(name) == name
  {
    hide LastSeparator;
  }

  lemma FolderIs(c: Config, name: string, parent: string)
    requires c.dirName != "" && c.dirName[|c.dirName| - 1] == Backslash && parent == ParentPath(name)
    requires BaseName(name) != "" && (parent == "" || parent[|parent| - 1] == Backslash)
    ensures Folder(c, name) == c.dirName + parent && AddBackslash(c.dirName + parent) == c.dirName + parent
  {
    hide AddBackslash, ParentPath, BaseName;
    FolderByParent(c, name);
    var dir := c.dirName + parent;
    if parent == "" {
      assert dir == c.dirName;
    } else {
      assert dir[|dir| - 1] == parent[|parent| - 1];
    }
    BackslashThere(dir);
  }

  lemma FolderByParent(c: Config, name: string)
    requires BaseName(name) != ""
    ensures Folder(c, name) == AddBackslash(if ParentPath(name) == "" then c.dirName else c.dirName + ParentPath(name))
  {
    hide LastSeparator, AddBackslash;
  }

  lemma BackslashThere(dir: string)
    requires dir != "" && dir[|dir| - 1] == Backslash
    ensures AddBackslash(dir) == dir && RemoveBackslash(dir) + [Backslash] == dir
  {
  }

  lemma FileNameIsBase(name: string)
    requires name != "" && name[|name| - 1] != Backslash && '/' !in name
    ensures FileNameOf(name) == BaseName(name)
  {
    LastBackslashIs(name);
  }

  lemma LastPart(name: string)
    requires name != "" && name[|name| - 1] != Backslash && '/' !in name
    ensures BaseName(name) != "" && '/' !in BaseName(name) && Backslash !in BaseName(name)
    ensures var parent := ParentPath(name); parent == "" || parent[|parent| - 1] == Backslash
  {
    hide LastSeparator;
    assert name[|name| - 1] in name;
    assert LastSeparator(name) >= 0 ==> name[LastSeparator(name)] in name;
    forall i | 0 <= i < |BaseName(name)|
      ensures !IsSeparator(BaseName(name)[i])
    {
      assert BaseName(name)[i] == name[LastSeparator(name) + 1 + i];
    }
  }

  lemma {:induction false} LastBackslashIs(s: string)
    requires '/' !in s
    ensures LastBackslash(s) == LastSeparator(s)
    decreases |s|
  {
    if s != "" {
      assert s[|s| - 1] in s;
      LastBackslashIs(s[..|s| - 1]);
    }
  }

  /** Some of these entries, in their order. */
  ghost predicate Within(part: seq<Pending>, all: seq<Pending>) {
    exists at :: InOrder(part, all, at)
  }

  ghost predicate InOrder(part: seq<Pending>, all: seq<Pending>, at: seq<nat>) {
    && |at| == |part| && (forall i, j | 0 <= i < j < |at| :: at[i] < at[j])
    && forall i | 0 <= i < |at| :: at[i] < |all| && part[i] == all[at[i]]
  }

  lemma WithinNext(part: seq<Pending>, all: seq<Pending>, p: Pending)
    requires Within(part, all)
    ensures Within(part, all + [p]) && Within(part + [p], all + [p])
  {
    var at: seq<nat> :| InOrder(part, all, at);
    assert InOrder(part, all + [p], at);
    assert InOrder(part + [p], all + [p], at + [|all|]);
  }

  lemma {:induction false} WithinById(ps: seq<Pending>, id: int)
    ensures Within(WithId(ps, id), ps)
    decreases |ps|
  {
    if ps == [] {
      assert InOrder([], ps, []);
    } else {
      var front, last := ps[..|ps| - 1], ps[|ps| - 1];
      WithinById(front, id);
      WithinNext(WithId(front, id), front, last);
      assert front + [last] == ps && WithId(front, id) + [] == WithId(front, id);
    }
  }

  lemma {:induction false} WithinByAge(ps: seq<Pending>, now: nat)
    ensures Within(ExpiredOf(ps, now), ps) && Within(KeptOf(ps, now), ps)
    decreases |ps|
  {
    hide Expired, Within;
    if ps == [] {
      NoneWithin();
    } else {
      var front, last := ps[..|ps| - 1], ps[|ps| - 1];
      WithinByAge(front, now);
      WithinNext(ExpiredOf(front, now), front, last);
      WithinNext(KeptOf(front, now), front, last);
      assert front + [last] == ps && ExpiredOf(front, now) + [] == ExpiredOf(front, now);
      assert KeptOf(front, now) + [] == KeptOf(front, now);
    }
  }

  lemma NoneWithin()
    ensures Within([], [])
  {
    assert InOrder([], [], []);
  }

  /** The Delete of each of these. */
  function DeletesFor(c: Config, ps: seq<Pending>): seq<Callback> {
    seq(|ps|, i requires 0 <= i < |ps| => About(c, ps[i].name, Delete))
  }

  /** The second half of a rename whose first half was of this name: one Moved with the bare old name inside
      one directory or with the full one between two, or a Delete and an Add where such moves are not wanted. */
  ghost predicate PairTold(c: Config, source: string, name: string, calls: seq<Callback>) {
    if ParentPath(source) != ParentPath(name) && !c.reportCross then
      calls == [About(c, source, Delete), About(c, name, Add)]
    else
      calls == [FileAction(c.id, AddBackslash(c.dirName + ParentPath(name)), BaseName(name), Moved,
                           if ParentPath(source) == ParentPath(name) then FileNameOf(source)
                           else c.canonical(c.dirName + source))]
  }

  /** The removal at i is the only one of the added file, which is in another directory now, is still that
      file, and is a directory or a regular file without another name. */
  ghost predicate Confirmed(s: St, n: Notice, i: int) {
    && 0 <= i < |s.removals| && (forall j | 0 <= j < |s.removals| :: s.removals[j].fileId == n.fileId <==> j == i)
    && ParentPath(s.removals[i].name) != ParentPath(n.name) && n.at.inode == n.fileId
    && (n.at.permissions / 0x1000 % 16 == 4 || (n.at.permissions / 0x1000 % 16 == 8 && n.at.links == 1))
  }

  /** What an addition of a file with an identity tells where removals are deferred. */
  ghost predicate ArrivalTold(c: Config, s: St, n: Notice, s': St, calls: seq<Callback>) {
    && (forall p :: p in s'.removals <==> p in s.removals && p.fileId != n.fileId)
    && if exists i :: Confirmed(s, n, i) then
         exists i :: Confirmed(s, n, i) && PairTold(c, s.removals[i].name, n.name, calls)
       else
         exists ps: seq<Pending> ::
           && multiset(ps) + multiset(s'.removals) == multiset(s.removals) && Within(ps, s.removals)
           && (forall p | p in ps :: p.fileId == n.fileId)
           && calls == DeletesFor(c, ps) + [About(c, n.name, Add)]
  }

  /** Every notification is deferred, or repeats the last modification, or tells nothing because its kind is
      unknown, or is told with its own name: as Modified, Delete or Add, or as the Moved of a pair. */
  ghost predicate NoticeTold(c: Config, s: St, n: Notice, s': St, calls: seq<Callback>) {
    var entry := Pending(n.name, n.fileId, n.now);
    var deferring := c.reportCross && c.recursive && n.fileId != 0;
    match n.action
    case Unknown => calls == [] && s' == s.(out := s'.out)
    case Changed =>
      var seen := (n.name, n.at.mtime, n.at.size);
      && s' == s.(lastModified := seen, out := s'.out)
      && calls == if s.lastModified == seen then [] else [About(c, n.name, Modified)]
    case Removed =>
      if deferring then calls == [] && s' == s.(removals := s.removals + [entry], out := s'.out)
      else calls == [About(c, n.name, Delete)] && s' == s.(out := s'.out)
    case Added =>
      && s' == s.(removals := s'.removals, out := s'.out)
      && if deferring then ArrivalTold(c, s, n, s', calls)
         else calls == [About(c, n.name, Add)] && s'.removals == s.removals
    case RenamedOld => calls == [] && s' == s.(renames := s.renames + [entry], out := s'.out)
    case RenamedNew =>
      if forall p | p in s.renames :: p.fileId != n.fileId then
        calls == [About(c, n.name, Add)] && s' == s.(out := s'.out)
      else
        exists i ::
          && 0 <= i < |s.renames| && s.renames[i].fileId == n.fileId
          && (forall j | 0 <= j < i :: s.renames[j].fileId != n.fileId)
          && s' == s.(renames := s.renames[..i] + s.renames[i + 1..], out := s'.out)
          && PairTold(c, s.renames[i].name, n.name, calls)
  }

  /** A flush tells of the entries that have waited for at least 100 milliseconds, old names first. */
  ghost predicate FlushTold(c: Config, s: St, now: nat, s': St, calls: seq<Callback>) {
    && s' == s.(renames := s'.renames, removals := s'.removals, out := s'.out)
    && exists old_, gone ::
         && Aged(s.renames, old_, s'.renames, now) && Aged(s.removals, gone, s'.removals, now)
         && calls == DeletesFor(c, old_) + DeletesFor(c, gone)
  }

  ghost predicate Aged(all: seq<Pending>, gone: seq<Pending>, kept: seq<Pending>, now: nat) {
    && multiset(gone) + multiset(kept) == multiset(all) && Within(gone, all) && Within(kept, all)
    && (forall p | p in gone :: (now - p.createdAt) % 0x1_0000_0000_0000_0000 >= 100)
    && (forall p | p in kept :: (now - p.createdAt) % 0x1_0000_0000_0000_0000 < 100)
  }

  ghost predicate InputTold(c: Config, s: St, i: Input, s': St, calls: seq<Callback>) {
    match i
    case Notified(n) => NoticeTold(c, s, n, s', calls)
    case Flushing(now) => FlushTold(c, s, now, s', calls)
    case Overflowing =>
      s' == s.(renames := [], removals := [], out := s'.out) && calls == [Missed(c.id, RemoveBackslash(c.dirName))]
  }

  lemma RenderTell(c: Config, out: seq<Out>, o: Out)
    ensures RenderAll(c, out + [o]) == RenderAll(c, out) + Render(c, o)
  {
    assert (out + [o])[..|out|] == out;
  }

  lemma {:induction false} RenderGone(c: Config, out: seq<Out>, ps: seq<Pending>)
    ensures RenderAll(c, out + AsGone(ps)) == RenderAll(c, out) + DeletesFor(c, ps)
    decreases |ps|
  {
    hide RenderAll, Folder, BaseName;
    if ps == [] {
      assert out + AsGone(ps) == out;
    } else {
      var front, last := ps[..|ps| - 1], ps[|ps| - 1];
      assert ps == front + [last];
      GoneAppend(out, front, last);
      RenderGone(c, out, front);
      RenderTell(c, out + AsGone(front), Gone(last));
      assert DeletesFor(c, ps) == DeletesFor(c, front) + [About(c, last.name, Delete)];
    }
  }

  lemma PairIsTold(c: Config, p: Pending, name: string)
    ensures PairTold(c, p.name, name, Render(c, AsMove(p, name)))
  {
    hide Folder, BaseName, ParentPath, FileNameOf, AddBackslash;
  }

  lemma SettleTold(c: Config, s: St, n: Notice) returns (calls: seq<Callback>)
    requires !(Defers(c) && n.fileId != 0 && (n.action.Removed? || n.action.Added?))
    ensures RenderAll(c, Settle(s, n).out) == RenderAll(c, s.out) + calls
    ensures NoticeTold(c, s, n, Settle(s, n), calls)
  {
    hide RenderAll, Folder, BaseName, ReportRename, PairTold;
    calls := [];
    match n.action
    case Changed =>
      if s.lastModified != (n.name, n.at.mtime, n.at.size) {
        calls := Render(c, Plain(n.name, Changed));
        RenderTell(c, s.out, Plain(n.name, Changed));
      }
    case RenamedOld =>
    case RenamedNew =>
      var i := FirstWithId(s.renames, n.fileId);
      if i == |s.renames| {
        calls := Render(c, Plain(n.name, Added));
        RenderTell(c, s.out, Plain(n.name, Added));
      } else {
        calls := Render(c, AsMove(s.renames[i], n.name));
        RenderTell(c, s.out, AsMove(s.renames[i], n.name));
        PairIsTold(c, s.renames[i], n.name);
        assert s.renames[i] in s.renames;
      }
    case Added | Removed | Unknown =>
      calls := Render(c, Plain(n.name, n.action));
      RenderTell(c, s.out, Plain(n.name, n.action));
  }

  lemma ConfirmedIs(s: St, n: Notice, i: int)
    requires n.fileId != 0
    ensures Confirmed(s, n, i) <==> OnlyAt(s.removals, i, n.fileId) && CertainMove(s.removals[i], n)
  {
    hide ParentPath;
  }

  lemma ArriveTold(c: Config, s: St, n: Notice) returns (calls: seq<Callback>)
    requires Defers(c) && n.fileId != 0 && n.action.Added?
    ensures RenderAll(c, Notify(c, s, n).out) == RenderAll(c, s.out) + calls
    ensures NoticeTold(c, s, n, Notify(c, s, n), calls)
  {
    hide RenderAll, Folder, BaseName, ReportRename, PairTold, CertainMove, Confirmed, WithId, WithoutId, Within;
    var sources := WithId(s.removals, n.fileId);
    SplitById(s.removals, n.fileId);
    OneWithId(s.removals, n.fileId);
    forall i {
      ConfirmedIs(s, n, i);
    }
    if |sources| == 1 && CertainMove(sources[0], n) {
      calls := Render(c, AsMove(sources[0], n.name));
      RenderTell(c, s.out, AsMove(sources[0], n.name));
      PairIsTold(c, sources[0], n.name);
      var i :| OnlyAt(s.removals, i, n.fileId);
      assert Confirmed(s, n, i) && sources == [s.removals[i]];
    } else {
      calls := DeletesFor(c, sources) + [About(c, n.name, Add)];
      WithinById(s.removals, n.fileId);
      RenderGone(c, s.out, sources);
      RenderTell(c, s.out + AsGone(sources), Plain(n.name, Added));
      forall i
        ensures !Confirmed(s, n, i)
      {
        if OnlyAt(s.removals, i, n.fileId) {
          assert sources == [s.removals[i]];
        }
      }
    }
  }

  lemma FlushIsTold(c: Config, s: St, now: nat) returns (calls: seq<Callback>)
    ensures RenderAll(c, Flush(s, now).out) == RenderAll(c, s.out) + calls
    ensures FlushTold(c, s, now, Flush(s, now), calls)
  {
    hide RenderAll, About, ExpiredOf, KeptOf, Within;
    var old_, gone := ExpiredOf(s.renames, now), ExpiredOf(s.removals, now);
    SplitByAge(s.renames, now);
    SplitByAge(s.removals, now);
    WithinByAge(s.renames, now);
    WithinByAge(s.removals, now);
    RenderGone(c, s.out, old_);
    RenderGone(c, s.out + AsGone(old_), gone);
    calls := DeletesFor(c, old_) + DeletesFor(c, gone);
    assert Aged(s.renames, old_, KeptOf(s.renames, now), now) && Aged(s.removals, gone, KeptOf(s.removals, now), now);
  }

  /** Over any inputs, every one of them is told as these rules say. */
  lemma RunTold(c: Config, s: St, inputs: seq<Input>, k: nat) returns (calls: seq<Callback>)
    requires k < |inputs|
    ensures var before, after := Run(c, s, inputs[..k]), Run(c, s, inputs[..k + 1]);
            && RenderAll(c, after.out) == RenderAll(c, before.out) + calls
            && InputTold(c, before, inputs[k], after, calls)
  {
    hide RenderAll, NoticeTold, FlushTold, Settle, Arrive;
    assert inputs[..k + 1][..k] == inputs[..k];
    var before := Run(c, s, inputs[..k]);
    match inputs[k]
    case Notified(n) =>
      if Defers(c) && n.fileId != 0 && n.action.Added? {
        calls := ArriveTold(c, before, n);
      } else if Defers(c) && n.fileId != 0 && n.action.Removed? {
        calls := [];
        DeferralTold(c, before, n);
      } else {
        calls := SettleTold(c, before, n);
      }
    case Flushing(now) =>
      calls := FlushIsTold(c, before, now);
    case Overflowing =>
      calls := Render(c, Overflow(before.renames + before.removals));
      RenderTell(c, before.out, Overflow(before.renames + before.removals));
  }

  lemma DeferralTold(c: Config, s: St, n: Notice)
    requires Defers(c) && n.fileId != 0 && n.action.Removed?
    ensures NoticeTold(c, s, n, Notify(c, s, n), [])
  {
  }

  // ---------- waiting ----------

  /** The wait is long enough for some entry, and no longer than any needs. */
  ghost predicate IsWait(s: St, now: nat, w: nat) {
    && (s.renames + s.removals == [] ==> w == Infinite)
    && (forall p | p in s.renames + s.removals :: w <= Remaining(p, now))
    && (s.renames + s.removals != [] ==> exists p :: p in s.renames + s.removals && w == Remaining(p, now))
  }

  /** On a running 64-bit clock an entry has expired when its remaining time has passed, and not before. */
  lemma ExpiresInTime(p: Pending, now: nat, later: nat)
    requires p.createdAt <= now <= later < TwoTo64
    ensures Expired(p, later) <==> now + Remaining(p, now) <= later
  {
  }

  /** Waiting the computed time and flushing makes the pending entries strictly fewer. */
  lemma WaitThenFlush(s: St, now: nat, w: nat, later: nat)
    requires s.renames + s.removals != [] && IsWait(s, now, w) && now + w <= later
    requires later < TwoTo64 && forall p | p in s.renames + s.removals :: p.createdAt <= now
    ensures var e := Flush(s, later); |e.renames| + |e.removals| < |s.renames| + |s.removals|
  {
    hide Elapsed, Expired;
    var p :| p in s.renames + s.removals && w == Remaining(p, now);
    ExpiresInTime(p, now, later);
    SplitByAge(s.renames, later);
    SplitByAge(s.removals, later);
    if p in s.renames {
      assert p in ExpiredOf(s.renames, later);
    } else {
      assert p in ExpiredOf(s.removals, later);
    }
  }
}
