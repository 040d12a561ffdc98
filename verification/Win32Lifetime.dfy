/** The lifetime of Windows watches: a watch is active, retired and then destroyed, while an
    asynchronous operation whose completion packet may still be on its way owns its storage. A step is
    one critical section, one packet delivery, or one listener call back into the watcher. */
module Win32Lifetime {

  datatype Watch = Watch(stopNow: bool, ioPending: bool)

  /** What the watcher thread is doing. A packet is in hand from the moment it has been dequeued until
      the critical section that handles it; while it is being handled the listener runs. */
  datatype Thread<K(==)> = Idle | InHand(k: K) | Handling(k: K, rearmed: bool) | Joined
  {
    predicate Refers(k: K) {
      (InHand? || Handling?) && this.k == k
    }
  }

  /** packets are the operations that will still deliver, or have delivered but not been dequeued. */
  datatype St<!K> = St(live: map<K, Watch>, active: set<K>, retired: set<K>, packets: multiset<K>,
                      thread: Thread<K>, down: bool, added: set<K>, dead: multiset<K>)

  datatype Step<K> =
    | Add(k: K)
    | Remove(k: K)
    | Shutdown
    | Release
    | Dequeue(k: K)
    | Begin
    | Rearm(ok: bool)
    | Finish
    | Join
    | Drain(k: K)

  function Init<K>(): St<K> {
    St(map[], {}, {}, multiset{}, Idle, false, {}, multiset{})
  }

  /** StopWatch and the move from the active to the retired set. */
  function Retire<K>(s: St<K>, gone: set<K>): St<K>
    requires gone <= s.active
  {
    s.(live := map k | k in s.live :: if k in gone then s.live[k].(stopNow := true) else s.live[k],
       active := s.active - gone, retired := s.retired + gone)
  }

  /** DestroyWatch */
  function Destroy<K>(s: St<K>, gone: set<K>): St<K> {
    s.(live := s.live - gone, retired := s.retired - gone, dead := s.dead + multiset(gone))
  }

  /** The retired watches that no operation owns. */
  function Released<K>(s: St<K>): set<K> {
    set k | k in s.retired && k in s.live && !s.live[k].ioPending
  }

  predicate Enabled<K>(s: St<K>, step: Step<K>) {
    match step
    case Add(k) => k !in s.added && !s.down
    case Remove(_) => true
    case Shutdown => true
    case Release => s.thread.Idle? || s.thread.Joined?
    case Dequeue(k) => s.thread.Idle? && k in s.packets
    case Begin => s.thread.InHand?
    case Rearm(_) => s.thread.Handling? && !s.thread.rearmed && s.thread.k in s.live && !s.live[s.thread.k].stopNow
    case Finish => s.thread.Handling? && s.thread.k in s.live && (s.thread.rearmed || s.live[s.thread.k].stopNow)
    case Join => s.thread.Idle? && s.down
    case Drain(k) => s.thread.Joined? && k in s.packets
  }

  function Apply<K>(s: St<K>, step: Step<K>): St<K>
    requires Enabled(s, step)
  {
    match step
    case Add(k) =>
      s.(live := s.live[k := Watch(false, true)], active := s.active + {k},
         packets := s.packets + multiset{k}, added := s.added + {k})
    case Remove(k) => if k in s.active then Retire(s, {k}) else s
    case Shutdown => Retire(s, s.active).(down := true)
    case Release => Destroy(s, Released(s))
    case Dequeue(k) => s.(packets := s.packets - multiset{k}, thread := InHand(k))
    case Begin =>
      var k := s.thread.k;
      var done := if k in s.live then s.(live := s.live[k := s.live[k].(ioPending := false)], thread := Idle)
                  else s.(thread := Idle);
      if k in s.retired then Destroy(done, {k})
      else if k in s.active then done.(thread := Handling(k, false))
      else done
    case Rearm(ok) =>
      var k := s.thread.k;
      s.(live := s.live[k := s.live[k].(ioPending := ok)],
         packets := if ok then s.packets + multiset{k} else s.packets, thread := Handling(k, true))
    case Finish => s.(thread := Idle)
    case Join => s.(thread := Joined)
    case Drain(k) =>
      var rest := s.(packets := s.packets - multiset{k});
      if k in s.retired then Destroy(rest, {k}) else rest
  }

  // ---------- the invariant ----------

  /** The packets that refer to a watch, delivered ones included. */
  function Referring<K>(s: St<K>, k: K): nat {
    s.packets[k] + if s.thread == InHand(k) then 1 else 0
  }

  ghost predicate Inv<K>(s: St<K>) {
    && s.active !! s.retired && s.live.Keys == s.active + s.retired
    && (forall k | k in s.live :: Referring(s, k) == if s.live[k].ioPending then 1 else 0)
    && (forall k | k in s.packets :: k in s.live)
    && (forall k | k in s.live :: s.live[k].stopNow <==> k in s.retired)
    && (s.thread.InHand? || s.thread.Handling? ==> s.thread.k in s.live)
    && (s.thread.Handling? && !s.thread.rearmed ==> !s.live[s.thread.k].ioPending)
    && (s.down ==> s.active == {})
    && (s.thread.Joined? ==> s.down)
    && (forall k | k in s.added :: s.dead[k] == if k in s.live then 0 else 1)
    && (forall k | k in s.live :: k in s.added)
    && (forall k | k in s.dead :: k in s.added)
  }

  lemma InitInv<K>()
    ensures Inv(Init<K>())
  {
  }

  lemma AddInv<K>(s: St<K>, k: K)
    requires Inv(s) && Enabled(s, Add(k))
    ensures Inv(Apply(s, Add(k)))
  {
  }

  lemma RetireInv<K>(s: St<K>, gone: set<K>)
    requires Inv(s) && gone <= s.active
    ensures Inv(Retire(s, gone))
  {
  }

  lemma ShutdownInv<K>(s: St<K>)
    requires Inv(s)
    ensures Inv(Apply(s, Shutdown))
  {
    RetireInv(s, s.active);
  }

  lemma DestroyInv<K>(s: St<K>, gone: set<K>)
    requires Inv(s) && gone <= s.retired
    requires forall k | k in gone && k in s.live :: !s.live[k].ioPending && !s.thread.Refers(k)
    ensures Inv(Destroy(s, gone))
  {
  }

  lemma ReleaseInv<K>(s: St<K>)
    requires Inv(s) && Enabled(s, Release)
    ensures Inv(Apply(s, Release))
    ensures var r := Apply(s, Release); forall k | k in r.retired && k in r.live :: r.live[k].ioPending
  {
    DestroyInv(s, Released(s));
  }

  lemma DequeueInv<K>(s: St<K>, k: K)
    requires Inv(s) && Enabled(s, Dequeue(k))
    ensures Inv(Apply(s, Dequeue(k)))
  {
  }

  lemma HandedOver<K>(s: St<K>, k: K)
    requires Inv(s) && s.thread == InHand(k)
    ensures k in s.live && (k in s.active || k in s.retired)
    ensures Inv(s.(live := s.live[k := s.live[k].(ioPending := false)], thread := Idle))
  {
  }

  lemma BeginInv<K>(s: St<K>)
    requires Inv(s) && Enabled(s, Begin)
    ensures Inv(Apply(s, Begin))
    ensures s.thread.k in s.active || s.thread.k in s.retired
  {
    var k := s.thread.k;
    HandedOver(s, k);
    var done := s.(live := s.live[k := s.live[k].(ioPending := false)], thread := Idle);
    if k in s.retired {
      DestroyInv(done, {k});
    }
  }

  lemma RearmInv<K>(s: St<K>, ok: bool)
    requires Inv(s) && Enabled(s, Rearm(ok))
    ensures Inv(Apply(s, Rearm(ok)))
  {
  }

  /** A packet that arrives after the thread has ended is that of a retired watch, which it frees. */
  lemma PacketGone<K>(s: St<K>, k: K)
    requires Inv(s) && s.thread.Joined? && k in s.packets
    ensures k in s.live && k in s.retired
    ensures Inv(s.(live := s.live[k := s.live[k].(ioPending := false)], packets := s.packets - multiset{k}))
  {
  }

  lemma DrainInv<K>(s: St<K>, k: K)
    requires Inv(s) && Enabled(s, Drain(k))
    ensures Inv(Apply(s, Drain(k))) && k in s.retired
    ensures Apply(s, Drain(k)) == Destroy(s.(packets := s.packets - multiset{k}), {k})
  {
    hide Inv;
    PacketGone(s, k);
    var done := s.(live := s.live[k := s.live[k].(ioPending := false)], packets := s.packets - multiset{k});
    DestroyInv(done, {k});
    assert done.live - {k} == s.live - {k};
  }

  // What the steps are, one by one.

  lemma DrainIs<K>(s: St<K>, k: K)
    requires s.thread.Joined? && k in s.packets
    ensures Enabled(s, Drain(k))
  {
  }

  lemma RearmIs<K>(s: St<K>, k: K, ok: bool)
    requires s.thread == Handling(k, false) && k in s.live && !s.live[k].stopNow
    ensures Enabled(s, Rearm(ok))
    ensures Apply(s, Rearm(ok))
            == s.(live := s.live[k := s.live[k].(ioPending := ok)],
                  packets := if ok then s.packets + multiset{k} else s.packets, thread := Handling(k, true))
  {
  }

  lemma RemoveIs<K>(s: St<K>, k: K)
    requires k in s.active
    ensures Enabled(s, Remove(k)) && Apply(s, Remove(k)) == Retire(s, {k})
  {
  }

  lemma DequeueIs<K>(s: St<K>, k: K)
    requires s.thread.Idle? && k in s.packets
    ensures Enabled(s, Dequeue(k))
    ensures Apply(s, Dequeue(k)) == s.(packets := s.packets - multiset{k}, thread := InHand(k))
  {
  }

  lemma ShutdownIs<K>(s: St<K>)
    ensures Enabled(s, Shutdown) && Apply(s, Shutdown) == Retire(s, s.active).(down := true)
  {
  }

  lemma ReleaseIs<K>(s: St<K>)
    requires s.thread.Idle? || s.thread.Joined?
    ensures Enabled(s, Release) && Apply(s, Release) == Destroy(s, Released(s))
  {
  }

  lemma StepInv<K>(s: St<K>, step: Step<K>)
    requires Inv(s) && Enabled(s, step)
    ensures Inv(Apply(s, step))
  {
    hide Inv, Apply, Enabled;
    match step
    case Add(k) => AddInv(s, k);
    case Remove(k) => RemoveInv(s, k);
    case Shutdown => ShutdownInv(s);
    case Release => ReleaseInv(s);
    case Dequeue(k) => DequeueInv(s, k);
    case Begin => BeginInv(s);
    case Rearm(ok) => RearmInv(s, ok);
    case Finish => FinishInv(s);
    case Join => JoinInv(s);
    case Drain(k) => DrainInv(s, k);
  }

  lemma RemoveInv<K>(s: St<K>, k: K)
    requires Inv(s)
    ensures Inv(Apply(s, Remove(k)))
  {
    if k in s.active {
      RetireInv(s, {k});
    }
  }

  lemma FinishInv<K>(s: St<K>)
    requires Inv(s) && Enabled(s, Finish)
    ensures Inv(Apply(s, Finish))
  {
  }

  lemma JoinInv<K>(s: St<K>)
    requires Inv(s) && Enabled(s, Join)
    ensures Inv(Apply(s, Join))
  {
  }

  // ---------- runs ----------

  /** Each step is enabled in the state the steps before it lead to. */
  predicate Possible<K>(s: St<K>, steps: seq<Step<K>>)
    decreases |steps|
  {
    steps != [] ==> Enabled(s, steps[0]) && Possible(Apply(s, steps[0]), steps[1..])
  }

  function Run<K>(s: St<K>, steps: seq<Step<K>>): St<K>
    requires Possible(s, steps)
    decreases |steps|
  {
    if steps == [] then s else Run(Apply(s, steps[0]), steps[1..])
  }

  /** These steps lead from one state to the other. */
  ghost predicate Reaches<K>(s: St<K>, steps: seq<Step<K>>, e: St<K>) {
    Possible(s, steps) && Run(s, steps) == e
  }

  lemma ReachesByNone<K>(s: St<K>)
    ensures Reaches(s, [], s)
  {
  }

  lemma ReachesByOne<K>(s: St<K>, step: Step<K>)
    requires Enabled(s, step)
    ensures Reaches(s, [step], Apply(s, step))
  {
    hide Enabled, Apply;
    var e := Apply(s, step);
    assert [step][1..] == [] && Possible(e, []) && Run(e, []) == e;
  }

  lemma {:induction false} ReachesOn<K>(s: St<K>, a: seq<Step<K>>, mid: St<K>, b: seq<Step<K>>, e: St<K>)
    requires Reaches(s, a, mid) && Reaches(mid, b, e)
    ensures Reaches(s, a + b, e)
    decreases |a|
  {
    hide Enabled, Apply;
    if a == [] {
      assert a + b == b;
    } else {
      assert (a + b)[0] == a[0] && (a + b)[1..] == a[1..] + b;
      ReachesOn(Apply(s, a[0]), a[1..], mid, b, e);
    }
  }

  lemma {:induction false} RunInv<K>(s: St<K>, steps: seq<Step<K>>)
    requires Inv(s) && Possible(s, steps)
    ensures Inv(Run(s, steps))
    decreases |steps|
  {
    hide Inv, Enabled, Apply;
    if steps != [] {
      StepInv(s, steps[0]);
      RunInv(Apply(s, steps[0]), steps[1..]);
    }
  }

  /** Watches whose storage a step reads or writes. */
  function Touched<K>(s: St<K>, step: Step<K>): set<K> {
    match step
    case Begin => if s.thread.InHand? then {s.thread.k} else {}
    case Rearm(_) => if s.thread.Handling? then {s.thread.k} else {}
    case Finish => if s.thread.Handling? then {s.thread.k} else {}
    case Release => s.retired
    case Shutdown => s.active
    case Remove(k) => if k in s.active then {k} else {}
    case Drain(k) => if k in s.retired then {k} else {}
    case Add(_) | Dequeue(_) | Join => {}
  }

  lemma TouchesLive<K>(s: St<K>, step: Step<K>)
    requires Inv(s) && Enabled(s, step)
    ensures Touched(s, step) <= s.live.Keys
  {
  }

  lemma DeadUnreferred<K>(s: St<K>)
    requires Inv(s)
    ensures forall k | k in s.dead :: s.packets[k] == 0 && !s.thread.Refers(k)
  {
    forall k | k in s.dead
      ensures s.packets[k] == 0 && !s.thread.Refers(k)
    {
      assert k in s.added && k !in s.live;
    }
  }

  /** What holds in every interleaving: a live watch has exactly one packet that refers to it when its
      operation is pending and none otherwise; active and retired watches are different ones; no packet,
      and not the thread, refers to a destroyed watch; a step touches live watches only; and every watch
      ever added is either live or has been destroyed exactly once. */
  lemma LifetimeSafe<K(!new)>(steps: seq<Step<K>>)
    requires Possible(Init<K>(), steps)
    ensures var s := Run(Init<K>(), steps);
            && (forall k | k in s.live :: Referring(s, k) == (if s.live[k].ioPending then 1 else 0))
            && s.active !! s.retired
            && (forall k | k in s.dead :: s.packets[k] == 0 && !s.thread.Refers(k))
            && (forall step | Enabled(s, step) :: Touched(s, step) <= s.live.Keys)
            && (forall k | k in s.added :: s.dead[k] == if k in s.live then 0 else 1)
  {
    hide Enabled, Apply, Referring, Touched;
    var s := Run(Init<K>(), steps);
    InitInv<K>();
    RunInv(Init<K>(), steps);
    DeadUnreferred(s);
    forall step | Enabled(s, step) {
      TouchesLive(s, step);
    }
  }

  // ---------- shutdown ----------

  /** The loop of drainRetiredWatches over the packets that are delivered to it. */
  function DrainAll<K>(s: St<K>, delivered: seq<K>): St<K>
    requires s.thread.Joined? && multiset(delivered) <= s.packets
    decreases |delivered|
  {
    if delivered == [] then s
    else
      assert delivered == [delivered[0]] + delivered[1..];
      DrainAll(Apply(s, Drain(delivered[0])), delivered[1..])
  }

  lemma DrainStep<K>(s: St<K>, k: K)
    requires Inv(s) && Enabled(s, Drain(k))
    ensures var e := Apply(s, Drain(k));
            && e.thread == s.thread && e.packets == s.packets - multiset{k} && e.added == s.added && Subset(e, s)
  {
  }

  /** What is still live is as it was. */
  ghost predicate Subset<K>(e: St<K>, s: St<K>) {
    forall k | k in e.live :: k in s.live && e.live[k] == s.live[k]
  }

  lemma FirstDelivered<K>(delivered: seq<K>)
    requires delivered != []
    ensures multiset(delivered) == multiset{delivered[0]} + multiset(delivered[1..])
  {
    assert delivered == [delivered[0]] + delivered[1..];
  }

  lemma AllThere<K>(s: St<K>)
    ensures Subset(s, s)
  {
  }

  lemma SubsetOf<K>(a: St<K>, b: St<K>, c: St<K>)
    requires Subset(a, b) && Subset(b, c)
    ensures Subset(a, c)
  {
  }

  lemma {:induction false} DrainKeeps<K>(s: St<K>, delivered: seq<K>)
    requires Inv(s) && s.thread.Joined? && multiset(delivered) <= s.packets
    ensures var e := DrainAll(s, delivered);
            && Inv(e) && e.thread.Joined? && e.packets == s.packets - multiset(delivered) && e.added == s.added
               && Subset(e, s)
    decreases |delivered|
  {
    hide Inv, Apply, Subset;
    if delivered == [] {
      AllThere(s);
    } else {
      var k := delivered[0];
      FirstDelivered(delivered);
      DrainInv(s, k);
      DrainStep(s, k);
      var e := Apply(s, Drain(k));
      DrainKeeps(e, delivered[1..]);
      SubsetOf(DrainAll(e, delivered[1..]), e, s);
    }
  }

  /** After the release that precedes it, the drain loop waits only while some packet is still to come. */
  lemma DrainNeverStuck<K>(s: St<K>)
    requires Inv(s) && s.thread.Joined?
    ensures var r := Apply(s, Release); r.retired != {} ==> exists k :: k in r.retired && k in r.packets
  {
    ReleaseInv(s);
    var r := Apply(s, Release);
    if r.retired != {} {
      var k :| k in r.retired;
      assert Referring(r, k) == 1;
    }
  }

  /** Once every packet has been delivered the drain loop has ended with no watch left, and every watch
      ever added has been destroyed exactly once. */
  lemma DrainEmpties<K>(s: St<K>, delivered: seq<K>)
    requires Inv(s) && s.thread.Joined? && multiset(delivered) == Apply(s, Release).packets
    ensures var e := DrainAll(Apply(s, Release), delivered);
            e.live == map[] && e.active == {} && e.retired == {} && forall k | k in e.added :: e.dead[k] == 1
  {
    hide Inv, DrainAll;
    var r := Apply(s, Release);
    ReleaseInv(s);
    DrainKeeps(r, delivered);
    ReleasedDown(s);
    NoneLeft(DrainAll(r, delivered), r);
  }

  /** The watcher thread has ended, so every watch is retired. */
  lemma ReleasedDown<K>(s: St<K>)
    requires Inv(s) && s.thread.Joined?
    ensures Apply(s, Release).live.Keys == Apply(s, Release).retired
  {
  }

  lemma NoneLeft<K>(e: St<K>, r: St<K>)
    requires Inv(e) && e.thread.Joined? && e.packets == multiset{} && Subset(e, r)
    requires r.live.Keys == r.retired && forall k | k in r.retired && k in r.live :: r.live[k].ioPending
    ensures e.live == map[] && e.active == {} && e.retired == {} && forall k | k in e.added :: e.dead[k] == 1
  {
    assert forall k | k in e.live :: Referring(e, k) == 0;
    assert e.live.Keys == {};
  }
}
