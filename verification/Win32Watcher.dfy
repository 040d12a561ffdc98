/** WatcherWin32: the event loop of an extended Windows watch and its pending-move timer. The clock and
    the file information behind a name are parameters. */
module Win32Watcher {
  import opened InotifyEvents
  import opened Win32PendingMoves

  function Inputs(notices: seq<Notice>): seq<Input> {
    seq(|notices|, i requires 0 <= i < |notices| => Notified(notices[i]))
  }

  lemma RunNone(c: Config, s: St, notices: seq<Notice>)
    ensures Run(c, s, Inputs(notices[..0])) == s
  {
  }

  lemma RunNext(c: Config, s: St, notices: seq<Notice>, i: nat)
    requires i < |notices|
    ensures Run(c, s, Inputs(notices[..i + 1])) == Notify(c, Run(c, s, Inputs(notices[..i])), notices[i])
  {
    hide Notify;
    var inputs := Inputs(notices[..i + 1]);
    assert inputs[..i] == Inputs(notices[..i]);
  }

  /** The whole reaction of handleAction. */
  function Handled(c: Config, name: string, a: Native, source: string): seq<Callback> {
    if a.RenamedNew? then (if source == "" then Report(c, name, Added) else ReportRename(c, source, name))
    else Report(c, name, a)
  }

  class WatcherWin32 {
    const config: Config
    var pendingRenames: seq<Pending>
    var pendingRemovals: seq<Pending>
    var lastModified: (string, nat, nat)
    var oldFileName: string
    /** What the listener has been told. */
    var log: seq<Callback>
    ghost var out: seq<Out>

    ghost predicate Valid()
      reads this
    {
      && log == RenderAll(config, out)
      && (forall p | p in pendingRenames :: p.name != "")
      && (forall p | p in pendingRemovals :: p.name != "")
      && oldFileName == ""
    }

    ghost function View(): St
      reads this
    {
      St(pendingRenames, pendingRemovals, lastModified, out)
    }

    constructor (config: Config)
      ensures Valid() && this.config == config && View() == Start
    {
      this.config := config;
      pendingRenames, pendingRemovals, lastModified, oldFileName, log, out := [], [], ("", 0, 0), "", [], [];
    }

    /** FileWatcherWin32::handleAction */
    method HandleAction(filename: string, action: Native, oldFilename: string)
      modifies `log, `oldFileName
      ensures oldFileName == if action.RenamedOld? then filename else if action.RenamedNew? then ""
              else old(oldFileName)
      ensures log == old(log) + Handled(config, filename, action,
                                        if oldFilename == "" then old(oldFileName) else oldFilename)
    {
      hide Report, LastSeparator, LastBackslash;
      match action
      case RenamedOld =>
        SilentReport(config, filename, action);
        oldFileName := filename;
      case RenamedNew =>
        var source := if oldFilename == "" then oldFileName else oldFilename;
        oldFileName := "";
        if source == "" {
          TellPlain(filename, Added);
          return;
        }
        var crossDirectory := ParentPath(source) != ParentPath(filename);
        if crossDirectory && !config.reportCross {
          TellPlain(source, Removed);
          TellPlain(filename, Added);
          return;
        }
        var folderPath := AddBackslash(config.dirName + ParentPath(filename));
        var reported := FileNameOf(source);
        if crossDirectory {
          reported := (config.canonical)(config.dirName + source);
        }
        log := log + [FileAction(config.id, folderPath, BaseName(filename), Moved, reported)];
      case Added | Removed | Changed =>
        TellPlain(filename, action);
      case Unknown =>
        SilentReport(config, filename, action);
    }

    method TellPlain(filename: string, action: Native)
      requires action.Added? || action.Removed? || action.Changed?
      modifies `log
      ensures log == old(log) + Report(config, filename, action)
    {
      var sepPos := LastSeparator(filename);
      var folderPath := config.dirName;
      if sepPos >= 0 {
        folderPath := folderPath + filename[..if sepPos + 1 < |filename| then sepPos + 1 else sepPos];
      }
      log := log + [FileAction(config.id, AddBackslash(folderPath), filename[sepPos + 1..], ActionOf(action), "")];
    }

    /** A call of handleAction, entered in the books. */
    method Tell(filename: string, action: Native, oldFilename: string, ghost o: Out)
      requires Valid() && Handled(config, filename, action, oldFilename) == Render(config, o) && !action.RenamedOld?
      modifies `log, `oldFileName, `out
      ensures Valid() && View() == Win32PendingMoves.Tell(old(View()), o)
    {
      hide Handled, Render, RenderAll;
      RenderAppend(config, out, o);
      HandleAction(filename, action, oldFilename);
      out := out + [o];
    }

    /** WatchCallbackEx over the notifications that have a name. */
    method WatchCallbackEx(notices: seq<Notice>)
      requires Valid() && forall n | n in notices :: n.name != ""
      modifies this
      ensures Valid() && View() == Run(config, old(View()), Inputs(notices))
      ensures log == RenderAll(config, Run(config, old(View()), Inputs(notices)).out)
    {
      hide Notify, View, Valid, Run, Inputs;
      ghost var s := View();
      RunNone(config, s, notices);
      for i := 0 to |notices|
        invariant Valid() && View() == Run(config, s, Inputs(notices[..i]))
      {
        RunNext(config, s, notices, i);
        OnNotice(notices[i]);
      }
      assert notices[..|notices|] == notices;
      Logged();
    }

    lemma Logged()
      requires Valid()
      ensures log == RenderAll(config, View().out)
    {
    }

    method OnNotice(event: Notice)
      requires Valid() && event.name != ""
      modifies this
      ensures Valid() && View() == Notify(config, old(View()), event)
    {
      hide Arrive, Settle;
      if config.reportCross && config.recursive && event.action.Removed? && event.fileId != 0 {
        pendingRemovals := pendingRemovals + [Pending(event.name, event.fileId, event.now)];
        return;
      }
      if config.reportCross && config.recursive && event.action.Added? && event.fileId != 0 {
        var moved := MatchRemovals(event);
        if moved {
          return;
        }
      }
      OnOther(event);
    }

    /** The pairing of an addition with the deferred removals. */
    method MatchRemovals(event: Notice) returns (moved: bool)
      requires Valid() && event.action.Added? && event.name != "" && config.reportCross
      modifies `pendingRemovals, `log, `oldFileName, `out
      ensures Valid() && (View(), moved) == Arrive(old(View()), event)
    {
      hide CertainMove, Report, CrossDirectory, RenderAll, WithId, WithoutId, AsGone;
      var matches, source := CountMatches(event.fileId);
      if matches == 1 {
        SingleId(pendingRemovals, event.fileId, source);
        if CertainMove(pendingRemovals[source], event) {
          var oldFile := pendingRemovals[source];
          pendingRemovals := pendingRemovals[..source] + pendingRemovals[source + 1..];
          Tell(event.name, RenamedNew, oldFile.name, AsMove(oldFile, event.name));
          return true;
        }
      }
      if matches != 0 {
        FlushMatches(event.fileId);
      } else {
        NoneWithId(pendingRemovals, event.fileId);
        NoneGone(out);
      }
      return false;
    }

    /** How many deferred removals have this identity, and the last of them. */
    method CountMatches(id: int) returns (matches: nat, source: nat)
      ensures matches == |WithId(pendingRemovals, id)|
      ensures matches > 0 ==> source < |pendingRemovals| && pendingRemovals[source].fileId == id
    {
      hide WithId, WithoutId;
      matches, source := 0, 0;
      StartOfIds(pendingRemovals, id, []);
      for i := 0 to |pendingRemovals|
        invariant matches == |WithId(pendingRemovals[..i], id)|
        invariant matches > 0 ==> source < |pendingRemovals| && pendingRemovals[source].fileId == id
      {
        NextId(pendingRemovals, id, i);
        if pendingRemovals[i].fileId == id {
          source := i;
          matches := matches + 1;
        }
      }
      assert pendingRemovals[..|pendingRemovals|] == pendingRemovals;
    }

    /** Reports and erases the deferred removals of one file. */
    method FlushMatches(id: int)
      requires Valid()
      modifies `pendingRemovals, `log, `oldFileName, `out
      ensures Valid()
      ensures View() == old(View()).(removals := WithoutId(old(pendingRemovals), id),
                                     out := old(out) + AsGone(WithId(old(pendingRemovals), id)))
    {
      hide Report, RenderAll, WithId, WithoutId, AsGone;
      ghost var all, j := pendingRemovals, 0;
      var it := 0;
      StartOfIds(all, id, out);
      while it < |pendingRemovals|
        invariant Valid() && j <= |all| && it == |WithoutId(all[..j], id)|
        invariant pendingRemovals == WithoutId(all[..j], id) + all[j..]
        invariant out == old(out) + AsGone(WithId(all[..j], id))
        decreases |all| - j
      {
        var p := pendingRemovals[it];
        NextId(all, id, j);
        Erased(WithoutId(all[..j], id), all[j], all[j + 1..]);
        if p.fileId == id {
          GoneAppend(old(out), WithId(all[..j], id), p);
          Tell(p.name, Removed, "", Gone(p));
          pendingRemovals := pendingRemovals[..it] + pendingRemovals[it + 1..];
        } else {
          it := it + 1;
        }
        j := j + 1;
      }
      assert all[..j] == all;
    }

    /** The rest of the loop body: modifications, renames inside the watch, and everything else. */
    method OnOther(event: Notice)
      requires Valid() && event.name != ""
      modifies this
      ensures Valid() && View() == Settle(old(View()), event)
    {
      hide Report, ReportRename;
      match event.action
      case Changed =>
        var skip := lastModified == (event.name, event.at.mtime, event.at.size);
        lastModified := (event.name, event.at.mtime, event.at.size);
        if !skip {
          Tell(event.name, Changed, "", Plain(event.name, Changed));
        }
      case RenamedOld =>
        pendingRenames := pendingRenames + [Pending(event.name, event.fileId, event.now)];
      case RenamedNew =>
        PairRename(event);
      case Added | Removed | Unknown =>
        Tell(event.name, event.action, "", Plain(event.name, event.action));
    }

    method PairRename(event: Notice)
      requires Valid() && event.action.RenamedNew? && event.name != ""
      modifies `pendingRenames, `log, `oldFileName, `out
      ensures Valid() && View() == Settle(old(View()), event)
    {
      hide Report, ReportRename;
      var it := 0;
      var oldFile := "";
      while it < |pendingRenames|
        invariant it <= |pendingRenames|
        invariant forall k | 0 <= k < it :: pendingRenames[k].fileId != event.fileId
      {
        if pendingRenames[it].fileId == event.fileId {
          break;
        }
        it := it + 1;
      }
      FirstIs(pendingRenames, event.fileId, it);
      if it < |pendingRenames| {
        ghost var p := pendingRenames[it];
        oldFile := pendingRenames[it].name;
        pendingRenames := pendingRenames[..it] + pendingRenames[it + 1..];
        Tell(event.name, RenamedNew, oldFile, AsMove(p, event.name));
      } else {
        Tell(event.name, Added, "", Plain(event.name, Added));
      }
    }

    // ---------- the timer ----------

    /** PendingMoveWaitTimeout */
    method PendingMoveWaitTimeout(now: nat) returns (timeout: nat)
      ensures IsWait(View(), now, timeout)
    {
      hide Elapsed, Expired, Remaining;
      var first := LeastRemaining(pendingRenames, now, Infinite);
      timeout := LeastRemaining(pendingRemovals, now, first);
      WaitFound(View(), now, first, timeout);
    }

    method LeastRemaining(pending: seq<Pending>, now: nat, start: nat) returns (timeout: nat)
      ensures timeout <= start && forall p | p in pending :: timeout <= Remaining(p, now)
      ensures timeout == start || exists p :: p in pending && timeout == Remaining(p, now)
    {
      hide Elapsed;
      timeout := start;
      for i := 0 to |pending|
        invariant timeout <= start && forall k | 0 <= k < i :: timeout <= Remaining(pending[k], now)
        invariant timeout == start || exists p :: p in pending && timeout == Remaining(p, now)
      {
        var elapsed := Elapsed(now, pending[i].createdAt);
        var remaining := if elapsed >= TimeoutMs then 0 else TimeoutMs - elapsed;
        if remaining < timeout {
          timeout := remaining;
          assert pending[i] in pending;
        }
      }
    }

    method FlushPendingMoves(now: nat)
      requires Valid()
      modifies this
      ensures Valid() && View() == Flush(old(View()), now)
    {
      hide Expired, Report, KeptOf, ExpiredOf, RenderAll, AsGone;
      ghost var start := out;
      var kept := FlushList(pendingRenames, now);
      pendingRenames := kept;
      kept := FlushList(pendingRemovals, now);
      pendingRemovals := kept;
    }

    /** The flush of one list. */
    method FlushList(pending: seq<Pending>, now: nat) returns (left: seq<Pending>)
      requires Valid() && forall p | p in pending :: p.name != ""
      modifies `log, `oldFileName, `out
      ensures Valid() && left == KeptOf(pending, now) && out == old(out) + AsGone(ExpiredOf(pending, now))
      ensures forall p | p in left :: p.name != ""
    {
      hide Report, Expired, RenderAll, KeptOf, ExpiredOf, AsGone;
      left := pending;
      ghost var j := 0;
      var it := 0;
      StartOfAges(pending, now, out);
      while it < |left|
        invariant Valid() && j <= |pending| && it == |KeptOf(pending[..j], now)|
        invariant left == KeptOf(pending[..j], now) + pending[j..]
        invariant out == old(out) + AsGone(ExpiredOf(pending[..j], now))
        decreases |pending| - j
      {
        var p := left[it];
        NextAge(pending, now, j);
        Erased(KeptOf(pending[..j], now), pending[j], pending[j + 1..]);
        if Expired(p, now) {
          GoneAppend(old(out), ExpiredOf(pending[..j], now), p);
          Tell(p.name, Removed, "", Gone(p));
          left := left[..it] + left[it + 1..];
        } else {
          it := it + 1;
        }
        j := j + 1;
      }
      assert pending[..j] == pending;
      SplitByAge(pending, now);
    }

    /** A completion without data for a watch that has not been stopped: the buffer has overflowed. */
    method OnOverflow()
      requires Valid()
      modifies this
      ensures Valid() && View() == Overflowed(old(View()))
    {
      ghost var lost := pendingRenames + pendingRemovals;
      pendingRenames, pendingRemovals := [], [];
      log := log + [Missed(config.id, RemoveBackslash(config.dirName))];
      out := out + [Overflow(lost)];
      assert out[..|out| - 1] == old(out);
    }
  }

  lemma RenderAppend(c: Config, out: seq<Out>, o: Out)
    ensures RenderAll(c, out + [o]) == RenderAll(c, out) + Render(c, o)
  {
    assert (out + [o])[..|out|] == out;
  }

  lemma RemainingIsShort(p: Pending, now: nat)
    ensures Remaining(p, now) < Infinite
  {
  }

  lemma SilentReport(c: Config, name: string, a: Native)
    requires a.RenamedOld? || a.Unknown?
    ensures Report(c, name, a) == []
  {
  }

  lemma WaitFound(s: St, now: nat, first: nat, w: nat)
    requires first <= Infinite && forall p | p in s.renames :: first <= Remaining(p, now)
    requires first == Infinite || exists p :: p in s.renames && first == Remaining(p, now)
    requires w <= first && forall p | p in s.removals :: w <= Remaining(p, now)
    requires w == first || exists p :: p in s.removals && w == Remaining(p, now)
    ensures IsWait(s, now, w)
  {
    hide Remaining;
    var all := s.renames + s.removals;
    forall p | p in all
      ensures w <= Remaining(p, now) < Infinite
    {
      RemainingIsShort(p, now);
    }
    if all != [] {
      assert all[0] in all;
    }
    if w < first {
      var p :| p in s.removals && w == Remaining(p, now);
      assert p in all;
    } else if first < Infinite {
      var p :| p in s.renames && first == Remaining(p, now);
      assert p in all;
    }
  }

  // The lists while one entry after the other is looked at.

  lemma Erased(a: seq<Pending>, p: Pending, b: seq<Pending>)
    ensures var all := a + ([p] + b);
            all[|a|] == p && all[..|a|] + all[|a| + 1..] == a + b && all == a + [p] + b
  {
  }

  lemma NoneGone(out: seq<Out>)
    ensures AsGone([]) == [] && out + AsGone([]) == out
  {
  }

  lemma StartOfIds(ps: seq<Pending>, id: int, out: seq<Out>)
    ensures WithId(ps[..0], id) == [] && WithoutId(ps[..0], id) == [] && [] + ps[0..] == ps && out + AsGone([]) == out
  {
  }

  lemma NextId(ps: seq<Pending>, id: int, j: nat)
    requires j < |ps|
    ensures ps[j].fileId == id ==>
              WithId(ps[..j + 1], id) == WithId(ps[..j], id) + [ps[j]]
              && WithoutId(ps[..j + 1], id) == WithoutId(ps[..j], id)
    ensures ps[j].fileId != id ==>
              WithId(ps[..j + 1], id) == WithId(ps[..j], id)
              && WithoutId(ps[..j + 1], id) == WithoutId(ps[..j], id) + [ps[j]]
    ensures ps[j..] == [ps[j]] + ps[j + 1..]
  {
    assert ps[..j + 1][..j] == ps[..j];
  }

  lemma StartOfAges(ps: seq<Pending>, now: nat, out: seq<Out>)
    ensures KeptOf(ps[..0], now) == [] && ExpiredOf(ps[..0], now) == [] && [] + ps[0..] == ps && out + AsGone([]) == out
  {
  }

  lemma NextAge(ps: seq<Pending>, now: nat, j: nat)
    requires j < |ps|
    ensures Expired(ps[j], now) ==>
              ExpiredOf(ps[..j + 1], now) == ExpiredOf(ps[..j], now) + [ps[j]]
              && KeptOf(ps[..j + 1], now) == KeptOf(ps[..j], now)
    ensures !Expired(ps[j], now) ==>
              ExpiredOf(ps[..j + 1], now) == ExpiredOf(ps[..j], now)
              && KeptOf(ps[..j + 1], now) == KeptOf(ps[..j], now) + [ps[j]]
    ensures ps[j..] == [ps[j]] + ps[j + 1..]
  {
    hide Expired;
    assert ps[..j + 1][..j] == ps[..j];
  }

  lemma {:induction false} NoneWithId(ps: seq<Pending>, id: int)
    requires WithId(ps, id) == []
    ensures WithoutId(ps, id) == ps
    decreases |ps|
  {
    if ps != [] {
      var front, last := ps[..|ps| - 1], ps[|ps| - 1];
      assert ps == front + [last];
      NoneWithId(front, id);
    }
  }

  /** The only entry with this identity. */
  lemma {:induction false} SingleId(ps: seq<Pending>, id: int, k: nat)
    requires |WithId(ps, id)| == 1 && k < |ps| && ps[k].fileId == id
    ensures WithId(ps, id) == [ps[k]] && WithoutId(ps, id) == ps[..k] + ps[k + 1..]
    decreases |ps|
  {
    var front, last := ps[..|ps| - 1], ps[|ps| - 1];
    if k == |front| {
      NoneWithId(front, id);
      assert ps[..k] == front && ps[k + 1..] == [];
    } else {
      assert front[k] == ps[k];
      IdIn(front, id, k);
      SingleId(front, id, k);
      assert ps[..k] == front[..k] && ps[k + 1..] == front[k + 1..] + [last];
    }
  }

  lemma {:induction false} IdIn(ps: seq<Pending>, id: int, k: nat)
    requires k < |ps| && ps[k].fileId == id
    ensures WithId(ps, id) != []
    decreases |ps|
  {
    if k < |ps| - 1 {
      IdIn(ps[..|ps| - 1], id, k);
    }
  }

  lemma FirstIs(ps: seq<Pending>, id: int, k: nat)
    requires k <= |ps| && (k < |ps| ==> ps[k].fileId == id) && forall j | 0 <= j < k :: ps[j].fileId != id
    ensures FirstWithId(ps, id) == k
  {
  }
}
