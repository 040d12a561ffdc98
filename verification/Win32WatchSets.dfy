/** FileWatcherWin32: the sets of active and retired watches, and what every critical section does to
    them. Completion packets, and the calls a listener makes back into the watcher, are oracles. */
module Win32WatchSets {
  import opened Collections
  import opened Win32Lifetime

  class WatcherStructWin32 {
    const id: nat
    const dirName: string
    var stopNow: bool
    var ioPending: bool

    constructor (id: nat, dirName: string)
      ensures this.id == id && this.dirName == dirName && !stopNow && ioPending
    {
      this.id, this.dirName, stopNow, ioPending := id, dirName, false, true;
    }
  }

  /** What a listener may call while it handles an event. */
  datatype Reentry = ReAdd(dirName: string, opens: bool) | ReRemove(id: nat)

  /** What GetQueuedCompletionStatus returns. */
  datatype Delivery = Packet(k: WatcherStructWin32) | Timeout

  const FileRepeated := -2
  const FileNotFound := -1

  class FileWatcherWin32 {
    var watches: set<WatcherStructWin32>
    var retiredWatches: set<WatcherStructWin32>
    var lastWatchId: nat
    var initOk: bool
    ghost var packets: multiset<WatcherStructWin32>
    ghost var thread: Thread<WatcherStructWin32>
    ghost var added: set<WatcherStructWin32>
    ghost var dead: multiset<WatcherStructWin32>

    ghost function View(): St<WatcherStructWin32>
      reads `watches, `retiredWatches, `packets, `thread, `initOk, `added, `dead, watches, retiredWatches
    {
      St(map w | w in watches + retiredWatches :: Watch(w.stopNow, w.ioPending), watches, retiredWatches,
         packets, thread, !initOk, added, dead)
    }

    ghost predicate Valid()
      reads this, watches, retiredWatches
    {
      Inv(View()) && Named()
    }

    /** Identifiers and directories of active watches are unique. */
    ghost predicate Named()
      reads `watches, `lastWatchId
    {
      && (forall w | w in watches :: w.id <= lastWatchId)
      && (forall v, w | v in watches && w in watches && v != w :: v.id != w.id && v.dirName != w.dirName)
    }

    /** View() is this state. */
    lemma ViewIs(s: St<WatcherStructWin32>)
      requires s.live.Keys == watches + retiredWatches
      requires forall w | w in s.live :: s.live[w] == Watch(w.stopNow, w.ioPending)
      requires s.active == watches && s.retired == retiredWatches && s.packets == packets && s.thread == thread
      requires s.down == !initOk && s.added == added && s.dead == dead
      ensures View() == s
    {
      assert View().live == s.live;
    }

    constructor ()
      ensures Valid() && View() == Init<WatcherStructWin32>()
    {
      watches, retiredWatches, lastWatchId, initOk := {}, {}, 0, true;
      packets, thread, added, dead := multiset{}, Idle, {}, multiset{};
    }

    method PathInWatches(path: string) returns (found: bool)
      ensures found <==> exists w | w in watches :: w.dirName == path
    {
      var todo := watches;
      while todo != {}
        invariant todo <= watches
        invariant forall w | w in watches && w !in todo :: w.dirName != path
      {
        var w := Pick(todo);
        if w.dirName == path {
          return true;
        }
        todo := todo - {w};
      }
      return false;
    }

    /** The last part of addWatch: the watch is armed, so a packet will come for it. */
    method Enter(id: nat, dirName: string) returns (watch: WatcherStructWin32)
      requires Inv(View()) && initOk
      modifies `watches, `packets, `added
      ensures Inv(View()) && fresh(watch) && watch.id == id && watch.dirName == dirName
              && watches == old(watches) + {watch}
      ensures !watch.stopNow && watch.ioPending && packets == old(packets) + multiset{watch}
      ensures Enabled(old(View()), Add(watch)) && View() == Apply(old(View()), Add(watch))
    {
      hide Inv;
      watch := new WatcherStructWin32(id, dirName);
      ghost var s := View();
      AddInv(s, watch);
      watches := watches + {watch};
      packets := packets + multiset{watch};
      added := added + {watch};
      ViewIs(s.(live := s.live[watch := Watch(false, true)], active := s.active + {watch},
                packets := s.packets + multiset{watch}, added := s.added + {watch}));
      hide View;
    }

    lemma NamedWith(was: set<WatcherStructWin32>, watch: WatcherStructWin32)
      requires watches == was + {watch} && watch.id == lastWatchId
      requires forall w | w in was :: w.id < lastWatchId && w.dirName != watch.dirName
      requires forall v, w | v in was && w in was && v != w :: v.id != w.id && v.dirName != w.dirName
      ensures Named()
    {
    }

    /** addWatch on a readable directory; opens says whether CreateWatch can open and arm it. */
    method AddWatch(dirName: string, opens: bool) returns (r: int, ghost steps: seq<Step<WatcherStructWin32>>)
      requires Valid() && initOk
      modifies this
      ensures Valid() && initOk && thread == old(thread)
      ensures Reaches(old(View()), steps, View())
      ensures opens ==> exists w :: w in watches && w.dirName == dirName
      ensures r > 0 <==> opens && !old(exists w | w in watches :: w.dirName == dirName)
      ensures r == FileRepeated <==> old(exists w | w in watches :: w.dirName == dirName)
      ensures if r > 0 then exists w :: && fresh(w) && steps == [Add(w)] && w.id == r && w.dirName == dirName
                                        && watches == old(watches) + {w} && !w.stopNow && w.ioPending
                                        && packets == old(packets) + multiset{w}
              else steps == [] && watches == old(watches) && packets == old(packets)
      ensures retiredWatches == old(retiredWatches) && old(watches) <= watches && fresh(watches - old(watches))
    {
      hide Inv, Enabled, Apply;
      var repeated := PathInWatches(dirName);
      if repeated {
        return FileRepeated, [];
      }
      lastWatchId := lastWatchId + 1;
      if !opens {
        return FileNotFound, [];
      }
      ghost var was := watches;
      var watch := Enter(lastWatchId, dirName);
      NamedWith(was, watch);
      steps := [Add(watch)];
      ReachesByOne(old(View()), Add(watch));
      r := watch.id;
    }

    // ---------- removal ----------

    /** removeWatch for a watch that is active. */
    method Retire(watch: WatcherStructWin32)
      requires Valid() && watch in watches
      modifies `watches, `retiredWatches, watch
      ensures Valid() && View() == Apply(old(View()), Remove(watch))
      ensures watches == old(watches) - {watch} && retiredWatches == old(retiredWatches) + {watch}
    {
      hide Inv, Apply, Enabled, Named;
      ghost var s := View();
      RemoveInv(s, watch);
      RemoveIs(s, watch);
      DisjointSets();
      watch.stopNow := true;
      watches := watches - {watch};
      retiredWatches := retiredWatches + {watch};
      ViewIs(Win32Lifetime.Retire(s, {watch}));
      hide View;
      NamedStill();
    }

    twostate lemma NamedStill()
      requires old(Named()) && watches <= old(watches) && lastWatchId == old(lastWatchId)
      ensures Named()
    {
    }

    lemma DisjointSets()
      requires Valid()
      ensures watches !! retiredWatches
    {
    }

    method RemoveWatch(id: nat) returns (ghost steps: seq<Step<WatcherStructWin32>>)
      requires Valid()
      modifies `watches, `retiredWatches, watches
      ensures Valid()
      ensures Reaches(old(View()), steps, View())
      ensures forall w | w in old(watches) && w.id == id :: watches == old(watches) - {w} && steps == [Remove(w)]
      ensures forall w | w in watches :: w.id != id
      ensures (forall w | w in old(watches) :: w.id != id) ==> steps == []
      ensures watches <= old(watches) && watches + retiredWatches == old(watches + retiredWatches)
      ensures old(retiredWatches) <= retiredWatches
    {
      hide Inv, Apply, View;
      ReachesByNone(View());
      steps := [];
      if watches == {} {
        return;
      }
      var found, w := FindWatch(id);
      if !found {
        return;
      }
      OneId(w);
      ReachesByOne(View(), Remove(w));
      Retire(w);
      steps := [Remove(w)];
    }

    /** Identifiers of active watches differ. */
    lemma OneId(w: WatcherStructWin32)
      requires Valid() && w in watches
      ensures forall v | v in watches && v.id == w.id :: v == w
    {
      hide Inv;
    }

    method FindWatch(id: nat) returns (found: bool, w: WatcherStructWin32)
      requires watches != {}
      ensures found ==> w in watches && w.id == id
      ensures !found ==> forall v | v in watches :: v.id != id
    {
      w := Pick(watches);
      var todo := watches;
      while todo != {}
        invariant todo <= watches
        invariant forall v | v in watches && v !in todo :: v.id != id
      {
        w := Pick(todo);
        if w.id == id {
          return true, w;
        }
        todo := todo - {w};
      }
      return false, w;
    }

    /** The start of the destructor: mInitOK is cleared and removeAllWatches retires every watch. */
    method RemoveAllWatches()
      requires Valid()
      modifies `initOk, `watches, `retiredWatches, watches
      ensures Valid() && !initOk && watches == {} && View() == Apply(old(View()), Shutdown)
    {
      hide Inv, Apply, Enabled;
      ghost var s := View();
      ShutdownInv(s);
      ShutdownIs(s);
      DisjointSets();
      initOk := false;
      StopAll();
      watches := {};
      ViewIs(Win32Lifetime.Retire(s, s.active).(down := true));
      hide View;
    }

    method StopAll()
      modifies `retiredWatches, watches`stopNow
      ensures retiredWatches == old(retiredWatches) + watches
      ensures forall w | w in watches :: w.stopNow
    {
      var todo := watches;
      while todo != {}
        invariant todo <= watches && retiredWatches == old(retiredWatches) + (watches - todo)
        invariant forall w | w in watches && w !in todo :: w.stopNow
      {
        var w := Pick(todo);
        w.stopNow := true;
        retiredWatches := retiredWatches + {w};
        todo := todo - {w};
      }
    }

    // ---------- the watcher thread ----------

    /** releaseRetiredWatches */
    method ReleaseRetiredWatches()
      requires Valid() && (thread.Idle? || thread.Joined?)
      modifies `retiredWatches, `dead
      ensures Valid() && View() == Apply(old(View()), Release)
      ensures retiredWatches <= old(retiredWatches) && forall w | w in retiredWatches :: w.ioPending
      ensures watches == old(watches) && forall w | w in old(retiredWatches) :: w !in watches
      ensures forall w | w in old(retiredWatches) && old(w.ioPending) :: w in retiredWatches
    {
      hide Inv, Named, Apply, Enabled;
      ghost var s := View();
      hide Released;
      ReleaseInv(s);
      ReleaseIs(s);
      DisjointSets();
      IdleReleased();
      ghost var idle := Released(s);
      ghost var gone := DestroyIdle();
      assert gone == idle;
      KeysWithout(watches, old(retiredWatches), gone);
      ViewIs(s.(live := s.live - gone, retired := s.retired - gone, dead := s.dead + multiset(gone)));
      hide View;
    }

    /** The idle retired watches are those that can be released. */
    lemma IdleReleased()
      ensures forall w :: w in Released(View()) <==> w in retiredWatches && !w.ioPending
    {
    }

    lemma OneMore(gone: set<WatcherStructWin32>, w: WatcherStructWin32)
      requires w !in gone
      ensures multiset(gone + {w}) == multiset(gone) + multiset{w}
    {
    }

    method DestroyIdle() returns (ghost gone: set<WatcherStructWin32>)
      modifies `retiredWatches, `dead
      ensures forall w :: w in gone <==> w in old(retiredWatches) && !w.ioPending
      ensures retiredWatches == old(retiredWatches) - gone && dead == old(dead) + multiset(gone)
    {
      gone := {};
      var todo := retiredWatches;
      while todo != {}
        invariant todo <= retiredWatches
        invariant forall w :: w in gone <==> w in old(retiredWatches) && w !in todo && !w.ioPending
        invariant retiredWatches == old(retiredWatches) - gone && dead == old(dead) + multiset(gone)
      {
        var w := Pick(todo);
        if !w.ioPending {
          retiredWatches := retiredWatches - {w};
          OneMore(gone, w);
          dead := dead + multiset{w};
          gone := gone + {w};
        }
        todo := todo - {w};
      }
    }

    /** GetQueuedCompletionStatus returns the packet of a watch. */
    ghost method Receive(k: WatcherStructWin32)
      requires Valid() && thread.Idle? && k in packets
      modifies `packets, `thread
      ensures Valid() && Enabled(old(View()), Dequeue(k)) && View() == Apply(old(View()), Dequeue(k))
      ensures thread == InHand(k)
    {
      hide Inv, Apply, Enabled;
      ghost var s := View();
      DequeueIs(s, k);
      DequeueInv(s, k);
      packets, thread := packets - multiset{k}, InHand(k);
      ViewIs(s.(packets := s.packets - multiset{k}, thread := InHand(k)));
      hide View;
    }

    /** The packet is no longer outstanding. */
    method Complete(k: WatcherStructWin32)
      requires Valid() && thread == InHand(k)
      modifies `thread, k`ioPending
      ensures k in old(View()).live
      ensures View() == old(View()).(live := old(View()).live[k := old(View()).live[k].(ioPending := false)],
                                     thread := Idle)
      ensures !k.ioPending
    {
      hide Inv;
      ghost var s := View();
      HandedOver(s, k);
      k.ioPending := false;
      thread := Idle;
      assert View().live == s.live[k := s.live[k].(ioPending := false)];
    }

    ghost method SetThread(t: Thread<WatcherStructWin32>)
      modifies `thread
      ensures View() == old(View()).(thread := t) && thread == t
    {
      ghost var live := View().live;
      thread := t;
      assert View().live == live;
    }

    /** The start of the critical section in run: the watch is released if it was retired meanwhile. */
    method TakeOver(k: WatcherStructWin32) returns (active: bool)
      requires Valid() && thread == InHand(k)
      modifies `retiredWatches, `thread, `dead, k
      ensures Valid() && View() == Apply(old(View()), Begin)
      ensures active == (k in watches) && (if active then thread == Handling(k, false) else thread == Idle)
      ensures !k.ioPending && retiredWatches == old(retiredWatches) - {k}
      ensures dead == old(dead) + if k in old(retiredWatches) then multiset{k} else multiset{}
    {
      hide Inv, Destroy, View;
      ViewParts();
      BeginInv(View());
      DisjointSets();
      Complete(k);
      ViewParts();
      active := k in watches;
      if k in retiredWatches {
        DestroyOne(k);
      } else if active {
        SetThread(Handling(k, false));
      }
      ViewParts();
    }

    lemma ViewParts()
      ensures var s := View();
              s.active == watches && s.retired == retiredWatches && s.thread == thread && s.packets == packets
    {
    }

    /** DestroyWatch and the erasure from the retired set. */
    method DestroyOne(k: WatcherStructWin32)
      requires k in retiredWatches && k !in watches
      modifies `retiredWatches, `dead
      ensures View() == Destroy(old(View()), {k}) && retiredWatches == old(retiredWatches) - {k}
      ensures dead == old(dead) + multiset{k}
    {
      ghost var s := View();
      retiredWatches := retiredWatches - {k};
      dead := dead + multiset{k};
      assert View().live == s.live - {k};
    }

    /** RefreshWatch after the callback; ok is the kernel's answer. */
    method Refresh(k: WatcherStructWin32, ok: bool)
      requires Valid() && thread == Handling(k, false) && k in View().live && !k.stopNow
      modifies `packets, `thread, k`ioPending
      ensures Valid() && Enabled(old(View()), Rearm(ok)) && View() == Apply(old(View()), Rearm(ok))
      ensures watches == old(watches) && thread == Handling(k, true)
      ensures k.ioPending == ok && packets == old(packets) + if ok then multiset{k} else multiset{}
    {
      hide Inv, Named, Apply, Enabled, View;
      ghost var s := View();
      ViewParts();
      ViewOf(k);
      RearmIs(s, k, ok);
      RearmInv(s, ok);
      Arm(k, ok);
    }

    lemma ViewOf(k: WatcherStructWin32)
      requires k in View().live
      ensures k in watches + retiredWatches && View().live[k] == Watch(k.stopNow, k.ioPending)
    {
    }

    /** Starts the next operation of a watch. */
    method Arm(k: WatcherStructWin32, ok: bool)
      requires k in View().live
      modifies `packets, `thread, k`ioPending
      ensures watches == old(watches) && thread == Handling(k, true)
      ensures k.ioPending == ok && packets == old(packets) + if ok then multiset{k} else multiset{}
      ensures var s := old(View());
              View() == s.(live := s.live[k := s.live[k].(ioPending := ok)],
                           packets := if ok then s.packets + multiset{k} else s.packets, thread := Handling(k, true))
    {
      ghost var s := View();
      k.ioPending := ok;
      if ok {
        packets := packets + multiset{k};
      }
      thread := Handling(k, true);
      ViewIs(s.(live := s.live[k := s.live[k].(ioPending := ok)],
                packets := if ok then s.packets + multiset{k} else s.packets, thread := Handling(k, true)));
      hide View;
    }

    // ---------- what a listener may do meanwhile ----------

    /** One call back into the watcher. */
    method ReenterOnce(call: Reentry) returns (ghost steps: seq<Step<WatcherStructWin32>>)
      requires Valid() && initOk
      modifies this, watches
      ensures call.ReRemove? ==> forall w | w in watches :: w.id != call.id
      ensures call.ReAdd? && call.opens ==> exists w :: w in watches && w.dirName == call.dirName
      ensures Valid() && initOk && thread == old(thread) && Reaches(old(View()), steps, View())
      ensures old(watches + retiredWatches) <= watches + retiredWatches && old(retiredWatches) <= retiredWatches
      ensures fresh(watches - old(watches)) && fresh(watches + retiredWatches - old(watches + retiredWatches))
    {
      hide Valid, View;
      match call
      case ReAdd(dirName, opens) =>
        var _, added := AddWatch(dirName, opens);
        steps := added;
      case ReRemove(id) =>
        steps := RemoveWatch(id);
    }

    /** Calls back into the watcher, one after the other. */
    method Reenter(calls: seq<Reentry>) returns (ghost steps: seq<Step<WatcherStructWin32>>)
      requires Valid() && initOk
      modifies this, watches
      ensures Valid() && initOk && thread == old(thread) && Reaches(old(View()), steps, View())
      ensures old(watches + retiredWatches) <= watches + retiredWatches && old(retiredWatches) <= retiredWatches
      ensures fresh(watches - old(watches)) && fresh(watches + retiredWatches - old(watches + retiredWatches))
    {
      hide Valid, View, Reaches;
      ghost var start := View();
      steps := [];
      ReachesByNone(start);
      for i := 0 to |calls|
        invariant Valid() && initOk && thread == old(thread) && Reaches(start, steps, View())
        invariant old(watches + retiredWatches) <= watches + retiredWatches && old(retiredWatches) <= retiredWatches
        invariant fresh(watches - old(watches)) && fresh(watches + retiredWatches - old(watches + retiredWatches))
      {
        ghost var mid := View();
        ghost var more := ReenterOnce(calls[i]);
        ReachesOn(start, steps, mid, more, View());
        steps := steps + more;
      }
    }

    // ---------- run ----------

    /** WatchCallback and FlushPendingMoves for an active watch: the listener is called while the packet's
        events are handled, the watch is armed again unless it has been stopped, and the listener is
        called for what is flushed. */
    method CallBack(k: WatcherStructWin32, events: seq<Reentry>, rearms: bool, flushed: seq<Reentry>)
      returns (ghost steps: seq<Step<WatcherStructWin32>>)
      requires Valid() && initOk && thread == Handling(k, false)
      modifies this, watches, k
      ensures Valid() && initOk && thread == Idle && Reaches(old(View()), steps, View())
      ensures Rearm(rearms) in steps || k in retiredWatches
      ensures fresh(watches + retiredWatches - old(watches + retiredWatches))
    {
      hide Inv, Named, View, Reaches, Enabled, Apply;
      HandledIsLive();
      ghost var start := View();
      ghost var during := Reenter(events);
      ghost var mid := View();
      HandledIsLive();
      ghost var armed: seq<Step<WatcherStructWin32>>;
      if k.stopNow {
        armed := [];
        StoppedIsRetired(k);
        ReachesByNone(mid);
      } else {
        Refresh(k, rearms);
        armed := [Rearm(rearms)];
        ReachesByOne(mid, Rearm(rearms));
      }
      ReachesOn(start, during, mid, armed, View());
      steps := during + armed;
      mid := View();
      ghost var after := Reenter(flushed);
      ReachesOn(start, steps, mid, after, View());
      steps := steps + after;
      mid := View();
      CanFinish(k);
      SetThread(Idle);
      ReachesByOne(mid, Finish);
      ReachesOn(start, steps, mid, [Finish], View());
      steps := steps + [Finish];
    }

    lemma StoppedIsRetired(k: WatcherStructWin32)
      requires Valid() && k in View().live && k.stopNow
      ensures k in retiredWatches
    {
    }

    lemma CanFinish(k: WatcherStructWin32)
      requires Valid() && thread.Handling? && thread.k == k && (thread.rearmed || k in retiredWatches)
      ensures Enabled(View(), Finish) && Apply(View(), Finish) == View().(thread := Idle)
      ensures Inv(View().(thread := Idle))
    {
      hide Inv;
      HandledIsLive();
      RetiredIsStopped();
      FinishInv(View());
    }

    lemma RetiredIsStopped()
      requires Valid()
      ensures forall w | w in retiredWatches :: w in View().live && View().live[w].stopNow
    {
    }

    lemma HandledIsLive()
      requires Valid() && thread.Handling?
      ensures thread.k in View().live && thread.k in watches + retiredWatches
    {
    }

    /** One round of run. between are calls of other threads after the packet has been dequeued and
        before the lock is taken. The idle retired watches are released first; then a delivered packet is
        dequeued, and its watch is armed again unless it has been removed. */
    method RunOnce(delivery: Delivery, between: seq<Reentry>, events: seq<Reentry>, rearms: bool, flushed: seq<Reentry>)
      returns (ghost steps: seq<Step<WatcherStructWin32>>)
      requires Valid() && initOk && thread == Idle && (delivery.Packet? ==> delivery.k in packets)
      modifies this, watches, retiredWatches
      ensures Valid() && initOk && thread == Idle && Reaches(old(View()), steps, View())
      ensures steps != [] && steps[0] == Release
      ensures delivery.Packet? ==> |steps| > 1 && steps[1] == Dequeue(delivery.k)
      ensures delivery.Packet? ==> Rearm(rearms) in steps || delivery.k !in watches
      ensures delivery.Packet? && delivery.k in old(retiredWatches) ==> delivery.k !in watches + retiredWatches
      ensures forall w | w in old(retiredWatches) && !old(w.ioPending) :: w !in watches + retiredWatches
    {
      hide Inv, Named, View, Reaches, Apply;
      ghost var start := View();
      ViewParts();
      ReachesByOne(start, Release);
      ReleaseRetiredWatches();
      ViewParts();
      steps := [Release];
      if delivery.Packet? {
        ReferredIsLive(delivery.k);
      }
      if watches == {} && retiredWatches == {} {
        return;
      }
      ghost var mid := View();
      ghost var more: seq<Step<WatcherStructWin32>>;
      if delivery.Packet? {
        more := HandlePacket(delivery.k, between, events, rearms, flushed);
      } else {
        more := Reenter(flushed);
      }
      ReachesOn(start, steps, mid, more, View());
      steps := steps + more;
    }

    /** The round of a dequeued packet. */
    method HandlePacket(k: WatcherStructWin32, between: seq<Reentry>, events: seq<Reentry>, rearms: bool,
                        flushed: seq<Reentry>)
      returns (ghost steps: seq<Step<WatcherStructWin32>>)
      requires Valid() && initOk && thread == Idle && k in packets
      modifies this, watches, retiredWatches
      ensures Valid() && initOk && thread == Idle && Reaches(old(View()), steps, View())
      ensures steps != [] && steps[0] == Dequeue(k) && (Rearm(rearms) in steps || k !in watches)
      ensures fresh(watches + retiredWatches - old(watches + retiredWatches))
      ensures k in old(retiredWatches) ==> k !in watches + retiredWatches
    {
      hide Inv, Named, View, Reaches, Apply;
      ghost var start := View();
      ReferredIsLive(k);
      ViewParts();
      ReachesByOne(start, Dequeue(k));
      Receive(k);
      steps := [Dequeue(k)];
      ghost var mid := View();
      ghost var more := Reenter(between);
      ReachesOn(start, steps, mid, more, View());
      steps := steps + more;
      mid := View();
      ViewParts();
      DisjointSets();
      ReachesByOne(mid, Begin);
      var active := TakeOver(k);
      ReachesOn(start, steps, mid, [Begin], View());
      steps := steps + [Begin];
      if active {
        mid := View();
        more := CallBack(k, events, rearms, flushed);
        ReachesOn(start, steps, mid, more, View());
        steps := steps + more;
        DisjointSets();
      }
    }

    lemma ReferredIsLive(k: WatcherStructWin32)
      requires Valid() && k in packets
      ensures k in watches + retiredWatches && k in View().live
    {
    }

    // ---------- shutdown ----------

    /** The watcher thread has been joined. */
    ghost method ThreadEnds()
      requires Valid() && !initOk && thread == Idle
      modifies `thread
      ensures Valid() && thread == Joined && Enabled(old(View()), Join) && View() == Apply(old(View()), Join)
    {
      hide Inv;
      JoinInv(View());
      SetThread(Joined);
    }

    /** drainRetiredWatches, given every packet that is still to come: it ends, nothing is left, and
        every watch there ever was has been destroyed exactly once. */
    method DrainRetiredWatches(delivered: seq<WatcherStructWin32>)
      requires Valid() && thread == Joined && multiset(delivered) == packets
      modifies `retiredWatches, `packets, `dead
      ensures Valid() && watches == {} && retiredWatches == {}
      ensures forall w | w in added :: dead[w] == 1
    {
      hide *;
      ReleaseRetiredWatches();
      var i := 0;
      assert delivered[0..] == delivered;
      while retiredWatches != {}
        invariant Valid() && thread == Joined && i <= |delivered| && multiset(delivered[i..]) == packets
        invariant forall w | w in retiredWatches :: w.ioPending
        decreases |delivered| - i
      {
        StillComing();
        NextDelivered(delivered, i);
        var ov := delivered[i];
        DrainPacket(ov);
        i := i + 1;
      }
      NoneLive();
    }

    /** The destructor, when the watcher thread is waiting and these are the packets that are still to come. */
    method ShutDown(delivered: seq<WatcherStructWin32>)
      requires Valid() && thread == Idle && multiset(delivered) == packets
      modifies this, watches
      ensures Valid() && !initOk && watches == {} && retiredWatches == {}
      ensures forall w | w in added :: dead[w] == 1
      ensures added == old(added)
    {
      hide Inv, Named, Valid, View, Apply, Enabled;
      RemoveAllWatches();
      ThreadEnds();
      DrainRetiredWatches(delivered);
    }

    method DrainPacket(ov: WatcherStructWin32)
      requires Valid() && thread == Joined && ov in packets
      modifies `retiredWatches, `packets, `dead
      ensures Valid() && View() == Apply(old(View()), Drain(ov))
      ensures packets == old(packets) - multiset{ov} && retiredWatches == old(retiredWatches) - {ov}
    {
      hide Inv, Named, Destroy, Apply, Enabled;
      ghost var s := View();
      DrainIs(s, ov);
      DrainInv(s, ov);
      DisjointSets();
      packets := packets - multiset{ov};
      ViewIs(s.(packets := s.packets - multiset{ov}));
      hide View;
      DestroyOne(ov);
    }

    /** A retired watch with a pending operation has a packet to come. */
    lemma StillComing()
      requires Valid() && thread == Joined && retiredWatches != {} && forall w | w in retiredWatches :: w.ioPending
      ensures packets != multiset{}
    {
      var w :| w in retiredWatches;
      assert Referring(View(), w) == 1;
      assert packets[w] == 1;
    }

    lemma NoneLive()
      requires Valid() && thread == Joined && retiredWatches == {}
      ensures watches == {} && forall w | w in added :: dead[w] == 1
    {
    }
  }

  lemma KeysWithout<K>(a: set<K>, b: set<K>, gone: set<K>)
    requires a !! b && gone <= b
    ensures a + b - gone == a + (b - gone)
  {
  }

  lemma NextDelivered<K>(delivered: seq<K>, i: nat)
    requires i <= |delivered| && multiset(delivered[i..]) != multiset{}
    ensures i < |delivered| && delivered[i] in multiset(delivered[i..])
    ensures multiset(delivered[i..]) - multiset{delivered[i]} == multiset(delivered[i + 1..])
  {
    if i < |delivered| {
      assert delivered[i..] == [delivered[i]] + delivered[i + 1..];
    }
  }
}
