/** The MLFQS scheduler as a state machine (src/threads/thread.c and
    src/devices/timer.c, with thread_mlfqs on).

    A state is what can be seen between regions that run with interrupts off; each
    step is one such region.  It starts after thread_start(), when the idle thread
    has announced itself. */
module Scheduler {
  import opened Ordering
  import opened Mlfqs

  const INT64_MAX := 0x7FFF_FFFF_FFFF_FFFF
  const TIME_PER_PRIORITY := 4          // ticks between priority updates

  type Tid = nat

  datatype Status = Running | Ready | Blocked

  datatype Thread = Thread(status: Status, priority: int, nice: int, recentCpu: int, wakeup: int)

  datatype Sched = Sched(
    threads: map<Tid, Thread>,          // all_list
    ready: seq<Tid>,                    // ready_list
    sleeping: seq<Tid>,                 // sleeping_list
    current: Tid,
    idle: Tid,
    loadAvg: int,
    nextWakeup: int,
    ticks: nat)

  // ----- keys and comparisons

  function Priority(threads: map<Tid, Thread>): Tid -> int {
    t => if t in threads then threads[t].priority else 0
  }

  function Wakeup(threads: map<Tid, Thread>): Tid -> int {
    t => if t in threads then threads[t].wakeup else 0
  }

  // ----- steps

  /** The part of thread_unblock and thread_yield that makes t ready. */
  function Enqueue(s: Sched, t: Tid): Sched
    requires t in s.threads
  {
    s.(ready := InsertOrdered(s.ready, t, Priority(s.threads), HigherPriority),
       threads := s.threads[t := s.threads[t].(status := Ready)])
  }

  /** next_thread_to_run */
  function Next(s: Sched): Tid {
    if s.ready == [] then s.idle else s.ready[0]
  }

  /** schedule and thread_schedule_tail */
  function Schedule(s: Sched): Sched
    requires Next(s) in s.threads
  {
    s.(current := Next(s),
       ready := if s.ready == [] then [] else s.ready[1..],
       threads := s.threads[Next(s) := s.threads[Next(s)].(status := Running)])
  }

  function SetCurrent(s: Sched, status: Status): Sched
    requires s.current in s.threads
  {
    s.(threads := s.threads[s.current := s.threads[s.current].(status := status)])
  }

  /** thread_unblock */
  function Unblock(s: Sched, t: Tid): Sched
    requires t in s.threads
  {
    Enqueue(s, t)
  }

  /** thread_yield before it calls schedule */
  function GiveUp(s: Sched): Sched
    requires s.current in s.threads
  {
    if s.current != s.idle then Enqueue(s, s.current) else SetCurrent(s, Ready)
  }

  /** thread_sleep before it calls schedule */
  function FallAsleep(s: Sched, wakeup: int): Sched
    requires s.current in s.threads
  {
    var threads := s.threads[s.current := s.threads[s.current].(wakeup := wakeup)];
    SetCurrent(s.(threads := threads,
                  sleeping := InsertOrdered(s.sleeping, s.current, Wakeup(threads), Earlier),
                  nextWakeup := if wakeup < s.nextWakeup then wakeup else s.nextWakeup), Blocked)
  }

  /** init_thread and the rest of thread_create */
  function Create(s: Sched, t: Tid): Sched
    requires s.current in s.threads
  {
    var c := s.threads[s.current];
    var child := Thread(Blocked, PriorityOf(c.recentCpu, c.nice), c.nice, c.recentCpu, 0);
    Unblock(s.(threads := s.threads[t := child]), t)
  }

  /** thread_update_priority_mlfqs on the running thread */
  function UpdatePriority(s: Sched): Sched
    requires s.current in s.threads
  {
    var c := s.threads[s.current];
    var p := if s.current == s.idle then PRI_MIN else PriorityOf(c.recentCpu, c.nice);
    s.(threads := s.threads[s.current := c.(priority := p)])
  }

  function SetNice(s: Sched, nice: int): Sched
    requires s.current in s.threads
  {
    UpdatePriority(s.(threads := s.threads[s.current := s.threads[s.current].(nice := nice)]))
  }

  /** thread_mlfqs_tick */
  function MlfqsTick(s: Sched): Sched
    requires s.current in s.threads
  {
    var c := s.threads[s.current];
    var s1 := if s.current == s.idle then s
              else s.(threads := s.threads[s.current := c.(recentCpu := c.recentCpu + F)]);
    if s.ticks % TIME_PER_PRIORITY == 0 then UpdatePriority(s1) else s1
  }

  /** The wake-up loop of timer_interrupt. */
  function WakeLoop(s: Sched): Sched
    decreases |s.sleeping|
  {
    if s.sleeping != [] && s.sleeping[0] in s.threads && s.threads[s.sleeping[0]].wakeup <= s.ticks then
      WakeLoop(Unblock(s.(sleeping := s.sleeping[1..]), s.sleeping[0]))
    else s
  }

  function Wake(s: Sched): Sched {
    if s.nextWakeup <= s.ticks then
      var w := WakeLoop(s);
      w.(nextWakeup := if w.sleeping == [] then INT64_MAX else Wakeup(w.threads)(w.sleeping[0]))
    else s
  }

  /** ready_threads of the one-second update */
  function ReadyCount(s: Sched): nat {
    |s.ready| + if s.current != s.idle then 1 else 0
  }

  /** mlfqs_update_load_avg_and_recent_cpu_all and mlfqs_recompute_priority_all,
      for one thread */
  function Aged(t: Thread, load: int): Thread
    requires 0 <= load
  {
    var rc := RecentNext(load, t.recentCpu, t.nice);
    t.(recentCpu := rc, priority := PriorityOf(rc, t.nice))
  }

  function AgedAll(threads: map<Tid, Thread>, idle: Tid, load: int): map<Tid, Thread>
    requires 0 <= load
  {
    map t | t in threads :: if t == idle then threads[t] else Aged(threads[t], load)
  }

  function SecondUpdate(s: Sched): Sched
    requires 0 <= LoadNext(s.loadAvg, ReadyCount(s))
  {
    var load := LoadNext(s.loadAvg, ReadyCount(s));
    var threads := AgedAll(s.threads, s.idle, load);
    s.(loadAvg := load, threads := threads, ready := InsertionSort(s.ready, Priority(threads), HigherPriority))
  }

  /** timer_interrupt up to the one-second hook */
  function TickAndWake(s: Sched): Sched
    requires s.current in s.threads
  {
    Wake(MlfqsTick(s.(ticks := s.ticks + 1)))
  }

  predicate SecondBoundary(s: Sched) { (s.ticks + 1) % TIMER_FREQ == 0 }

  function Interrupt(s: Sched): Sched
    requires s.current in s.threads
    requires SecondBoundary(s) ==> var w := TickAndWake(s); 0 <= LoadNext(w.loadAvg, ReadyCount(w))
  {
    var w := TickAndWake(s);
    if SecondBoundary(s) then SecondUpdate(w) else w
  }

  // ----- the ready list

  /** The ready list is sorted and holds exactly the ready threads; exactly the
      current thread runs. */
  ghost predicate ReadyOk(s: Sched) {
    && s.current in s.threads && s.idle in s.threads
    && (forall t :: t in s.threads ==> (s.threads[t].status == Running <==> t == s.current))
    && ListOk(s)
  }

  ghost predicate ListOk(s: Sched) {
    && NoDup(s.ready)
    && (forall t :: t in s.ready <==> t in s.threads && t != s.idle && s.threads[t].status == Ready)
    && Sorted(s.ready, Priority(s.threads), HigherPriority)
  }

  lemma ReadyMembers(s: Sched)
    requires ListOk(s)
    ensures forall t :: t in s.ready <==> t in s.threads && t != s.idle && s.threads[t].status == Ready
  {
  }

  /** Steps that leave the ready threads and their list alone. */
  lemma ListUntouched(s: Sched, s': Sched)
    requires ListOk(s) && s'.ready == s.ready && s'.idle == s.idle
    requires forall t :: t in s.ready <==> t in s'.threads && t != s'.idle && s'.threads[t].status == Ready
    requires forall t :: t in s.ready ==> t in s.threads && s'.threads[t].priority == s.threads[t].priority
    ensures ListOk(s')
  {
    SortedSameKeys(s.ready, Priority(s.threads), Priority(s'.threads), HigherPriority);
  }

  lemma EnqueueKeeps(s: Sched, t: Tid)
    requires ListOk(s) && t in s.threads && t != s.idle && s.threads[t].status != Ready
    ensures ListOk(Enqueue(s, t))
  {
    var key := Priority(s.threads);
    ComparisonsAreOrders();
    InsertFacts(s.ready, t, key, HigherPriority);
    InsertOrderedSorted(s.ready, t, key, HigherPriority);
    var s' := Enqueue(s, t);
    SortedSameKeys(s'.ready, key, Priority(s'.threads), HigherPriority);
  }

  /** schedule() dispatches a thread of maximal priority and restores the
      invariant. */
  lemma ScheduleKeeps(s: Sched)
    requires ListOk(s) && s.idle in s.threads
    requires forall t :: t in s.threads ==> s.threads[t].status != Running
    ensures Next(s) in s.threads && ReadyOk(Schedule(s))
    ensures forall t :: t in s.ready ==> s.threads[t].priority <= s.threads[Next(s)].priority
  {
    if s.ready != [] {
      assert s.ready[0] in s.ready;
      assert s.ready == [s.ready[0]] + s.ready[1..];
      var key := Priority(s.threads);
      SortedParts([s.ready[0]], s.ready[1..], key, HigherPriority);
      assert s.ready[0] !in s.ready[1..];
      var s' := Schedule(s);
      SortedSameKeys(s'.ready, key, Priority(s'.threads), HigherPriority);
      forall t | t in s.ready ensures s.threads[t].priority <= s.threads[s.ready[0]].priority {
        var i :| 0 <= i < |s.ready| && s.ready[i] == t;
      }
    }
  }

  // ----- the sleep queue

  /** Sleepers are blocked, listed once, and in order of their wake-up tick. */
  ghost predicate SleepersOk(s: Sched) {
    && NoDup(s.sleeping)
    && (forall t :: t in s.sleeping ==>
          t in s.threads && t != s.idle && s.threads[t].status == Blocked && s.threads[t].wakeup < INT64_MAX)
    && Sorted(s.sleeping, Wakeup(s.threads), Earlier)
  }

  ghost predicate SleepOk(s: Sched) {
    && SleepersOk(s)
    && s.nextWakeup == if s.sleeping == [] then INT64_MAX else Wakeup(s.threads)(s.sleeping[0])
  }

  lemma SleeperMembers(s: Sched)
    requires SleepersOk(s)
    ensures forall t :: t in s.sleeping ==>
              t in s.threads && t != s.idle && s.threads[t].status == Blocked && s.threads[t].wakeup < INT64_MAX
  {
  }

  /** Steps that leave the sleepers and their queue alone. */
  lemma SleepUntouched(s: Sched, s': Sched)
    requires SleepersOk(s) && s'.sleeping == s.sleeping && s'.idle == s.idle
    requires forall t :: t in s.sleeping ==>
               t in s'.threads && s'.threads[t].status == Blocked && s'.threads[t].wakeup == s.threads[t].wakeup
    ensures SleepersOk(s')
    ensures s.sleeping != [] ==> Wakeup(s'.threads)(s.sleeping[0]) == Wakeup(s.threads)(s.sleeping[0])
  {
    SortedSameKeys(s.sleeping, Wakeup(s.threads), Wakeup(s'.threads), Earlier);
    if s.sleeping != [] { assert s.sleeping[0] in s.sleeping; }
  }

  /** What a run of the wake-up loop does: exactly the sleepers that are due are
      made ready, and nothing else changes. */
  ghost predicate Woken(s: Sched, s': Sched) {
    && s' == s.(threads := s'.threads, ready := s'.ready, sleeping := s'.sleeping)
    && s'.threads.Keys == s.threads.Keys
    && (forall t :: t in s.threads ==>
          if t in s.sleeping && s.threads[t].wakeup <= s.ticks
          then s'.threads[t] == s.threads[t].(status := Ready)
          else s'.threads[t] == s.threads[t])
    && (forall t :: t in s'.sleeping <==> t in s.sleeping && t in s.threads && s.threads[t].wakeup > s.ticks)
  }

  /** One round of the loop. */
  lemma WakeOne(s: Sched)
    requires ReadyOk(s) && SleepersOk(s) && s.sleeping != []
    ensures var t := s.sleeping[0];
            && t in s.threads && t !in s.sleeping[1..]
            && var s2 := Unblock(s.(sleeping := s.sleeping[1..]), t);
               ReadyOk(s2) && SleepersOk(s2)
  {
    hide ListOk;
    hide SleepersOk;
    hide InsertOrdered;
    var t := s.sleeping[0];
    FirstAsleep(s);
    var s1 := s.(sleeping := s.sleeping[1..]);
    SleeperMembers(s1);
    ReadyMembers(s);
    ListUntouched(s, s1);
    EnqueueKeeps(s1, t);
    SleepUntouched(s1, Unblock(s1, t));
  }

  lemma FirstAsleep(s: Sched)
    requires SleepersOk(s) && s.sleeping != []
    ensures var t := s.sleeping[0];
            && t in s.threads && t != s.idle && s.threads[t].status == Blocked && t !in s.sleeping[1..]
            && SleepersOk(s.(sleeping := s.sleeping[1..]))
  {
    var t := s.sleeping[0];
    assert t in s.sleeping;
    assert s.sleeping == [t] + s.sleeping[1..];
    SortedParts([t], s.sleeping[1..], Wakeup(s.threads), Earlier);
  }

  lemma {:induction false} WakeLoopKeeps(s: Sched)
    requires ReadyOk(s) && SleepersOk(s)
    ensures ReadyOk(WakeLoop(s)) && SleepersOk(WakeLoop(s)) && Woken(s, WakeLoop(s))
    decreases |s.sleeping|
  {
    hide ReadyOk;
    hide SleepersOk;
    hide Woken;
    if s.sleeping != [] {
      WakeOne(s);
    }
    if s.sleeping != [] && s.threads[s.sleeping[0]].wakeup <= s.ticks {
      var t := s.sleeping[0];
      var s2 := Unblock(s.(sleeping := s.sleeping[1..]), t);
      WakeLoopKeeps(s2);
      WokenStep(s, t, s2, WakeLoop(s2));
    } else {
      NobodyDue(s);
    }
  }

  lemma WokenStep(s: Sched, t: Tid, s2: Sched, s': Sched)
    requires s.sleeping != [] && t == s.sleeping[0] && t !in s.sleeping[1..]
    requires t in s.threads && s.threads[t].wakeup <= s.ticks
    requires s2 == Unblock(s.(sleeping := s.sleeping[1..]), t) && Woken(s2, s')
    ensures Woken(s, s')
  {
    assert forall x :: x in s.sleeping <==> x == t || x in s.sleeping[1..];
  }

  lemma NobodyDue(s: Sched)
    requires SleepersOk(s)
    requires s.sleeping == [] || s.threads[s.sleeping[0]].wakeup > s.ticks
    ensures forall t :: t in s.sleeping ==> s.threads[t].wakeup > s.ticks
    ensures Woken(s, s)
  {
    forall t | t in s.sleeping ensures s.threads[t].wakeup > s.ticks {
      var i :| 0 <= i < |s.sleeping| && s.sleeping[i] == t;
      assert s.sleeping[0] in s.sleeping;
      if i > 0 { assert !Earlier(Wakeup(s.threads)(s.sleeping[i]), Wakeup(s.threads)(s.sleeping[0])); }
    }
  }

  /** Each timer interrupt wakes exactly the sleepers whose tick has come, so none
      wakes early and none sleeps past an interrupt at or after its tick. */
  lemma WakeKeeps(s: Sched)
    requires ReadyOk(s) && SleepOk(s)
    ensures ReadyOk(Wake(s)) && SleepOk(Wake(s))
    ensures Woken(s, Wake(s).(nextWakeup := s.nextWakeup)) && Wake(s).loadAvg == s.loadAvg
    ensures forall t :: t in Wake(s).sleeping ==> Wake(s).threads[t].wakeup > s.ticks
  {
    if s.nextWakeup <= s.ticks {
      WakeLoopKeeps(s);
      var w := WakeLoop(s);
      var w' := Wake(s);
      assert w == w'.(nextWakeup := s.nextWakeup);
      SleepUntouched(w, w');
      assert ReadyOk(w');
    } else {
      if s.sleeping != [] { assert s.sleeping[0] in s.sleeping; }
      NobodyDue(s);
    }
  }

  // ----- runs

  datatype Event =
    | UnblockThread(t: Tid)
    | Yield
    | Block
    | CreateThread(t: Tid)
    | Exit
    | ChangeNice(nice: int)
    | Sleep(wakeup: int)
    | TimerTick

  /** What the source asserts or relies on when it takes the step. */
  ghost predicate Enabled(s: Sched, e: Event) {
    match e
    case UnblockThread(t) => t in s.threads && s.threads[t].status == Blocked && t != s.idle && t !in s.sleeping
    case CreateThread(t) => t !in s.threads && s.current != s.idle
    case Exit => s.current != s.idle
    case ChangeNice(nice) => s.current != s.idle
    case Sleep(wakeup) => wakeup < INT64_MAX
    case _ => true
  }

  /** Everything thread_exit takes away before it calls schedule. */
  function Die(s: Sched): Sched {
    s.(threads := s.threads - {s.current})
  }

  /** The state in which schedule() is called, for the steps that call it. */
  function BeforeSwitch(s: Sched, e: Event): Sched
    requires s.current in s.threads
  {
    match e
    case Yield => GiveUp(s)
    case Block => SetCurrent(s, Blocked)
    case Exit => Die(s)
    case Sleep(wakeup) => FallAsleep(s, wakeup)
    case _ => s
  }

  predicate Switches(s: Sched, e: Event) {
    e.Yield? || e.Block? || e.Exit? || (e.Sleep? && s.current != s.idle)
  }

  /** Step e takes state s to state s'. */
  ghost predicate Takes(s: Sched, e: Event, s': Sched) {
    && Enabled(s, e) && s.current in s.threads
    && if Switches(s, e) then
         var b := BeforeSwitch(s, e);
         Next(b) in b.threads && s' == Schedule(b)
       else
         match e
         case UnblockThread(t) => s' == Unblock(s, t)
         case CreateThread(t) => s' == Create(s, t)
         case ChangeNice(nice) => s' == SetNice(s, nice)
         case TimerTick => CanUpdate(s) && s' == Interrupt(s)
         case _ => s' == s
  }

  /** The load average the one-second update would leave is not negative. */
  ghost predicate CanUpdate(s: Sched)
    requires s.current in s.threads
  {
    SecondBoundary(s) ==> var w := TickAndWake(s); 0 <= LoadNext(w.loadAvg, ReadyCount(w))
  }

  ghost predicate Inv(s: Sched) {
    ReadyOk(s) && SleepOk(s) && 0 <= s.loadAvg
  }

  /** Before every switch the ready list is in order and nobody runs; the sleep
      queue is already in order. */
  lemma SwitchPossible(s: Sched, e: Event)
    requires Inv(s) && Enabled(s, e) && Switches(s, e)
    ensures var b := BeforeSwitch(s, e);
            && ListOk(b) && b.idle in b.threads && SleepOk(b) && Next(b) in b.threads
            && forall t :: t in b.threads ==> b.threads[t].status != Running
  {
    hide ListOk;
    hide SleepersOk;
    hide InsertOrdered;
    ReadyMembers(s);
    SleeperMembers(s);
    match e {
      case Yield =>
        YieldReady(s);
      case Block =>
        ListUntouched(s, SetCurrent(s, Blocked));
        SleepUntouched(s, SetCurrent(s, Blocked));
      case Exit =>
        ListUntouched(s, Die(s));
        SleepUntouched(s, Die(s));
      case Sleep(wakeup) =>
        SleepReady(s, wakeup);
    }
    var b := BeforeSwitch(s, e);
    ReadyMembers(b);
    if b.ready != [] { assert b.ready[0] in b.ready; }
  }

  lemma YieldReady(s: Sched)
    requires Inv(s)
    ensures var b := GiveUp(s);
            && ListOk(b) && b.idle in b.threads && SleepOk(b)
            && forall t :: t in b.threads ==> b.threads[t].status != Running
  {
    hide ListOk;
    hide SleepersOk;
    hide InsertOrdered;
    ReadyMembers(s);
    SleeperMembers(s);
    var b := GiveUp(s);
    SleepUntouched(s, b);
    if s.current != s.idle {
      EnqueueKeeps(s, s.current);
    } else {
      ListUntouched(s, b);
    }
  }

  lemma SleepReady(s: Sched, wakeup: int)
    requires Inv(s) && wakeup < INT64_MAX && s.current != s.idle
    ensures var b := FallAsleep(s, wakeup);
            && ListOk(b) && b.idle in b.threads && SleepOk(b)
            && forall t :: t in b.threads ==> b.threads[t].status != Running
  {
    hide InsertOrdered;
    hide ListOk;
    hide SleepOk;
    ReadyMembers(s);
    SleepQueued(s, wakeup);
    ListUntouched(s, FallAsleep(s, wakeup));
  }

  /** The thread that falls asleep takes its place in the sleep queue. */
  lemma SleepQueued(s: Sched, wakeup: int)
    requires Inv(s) && wakeup < INT64_MAX && s.current != s.idle
    ensures SleepOk(FallAsleep(s, wakeup))
  {
    hide ListOk;
    hide Sorted;
    var b := FallAsleep(s, wakeup);
    var threads := s.threads[s.current := s.threads[s.current].(wakeup := wakeup)];
    var key := Wakeup(threads);
    assert s.current !in s.sleeping;
    ComparisonsAreOrders();
    InsertFacts(s.sleeping, s.current, key, Earlier);
    SortedSameKeys(s.sleeping, Wakeup(s.threads), key, Earlier);
    InsertOrderedSorted(s.sleeping, s.current, key, Earlier);
    SortedSameKeys(b.sleeping, key, Wakeup(b.threads), Earlier);
    assert b.sleeping[0] in b.sleeping;
    if s.sleeping != [] { assert s.sleeping[0] in s.sleeping; }
  }

  /** The run queue only ever loses its head to the processor: one step of
      schedule() keeps the invariant and picks a maximal thread. */
  lemma SwitchKeeps(s: Sched, e: Event)
    requires Inv(s) && Enabled(s, e) && Switches(s, e)
    ensures var b := BeforeSwitch(s, e);
            && Next(b) in b.threads && Inv(Schedule(b))
            && forall t :: t in b.ready ==> t in b.threads && b.threads[t].priority <= b.threads[Next(b)].priority
  {
    var b := BeforeSwitch(s, e);
    SwitchPossible(s, e);
    ScheduleKeeps(b);
    SleepUntouched(b, Schedule(b));
  }

  /** The running thread's accounting may change freely. */
  lemma CurrentChanged(s: Sched, c: Thread, ticks: nat)
    requires Inv(s) && c.status == s.threads[s.current].status && c.wakeup == s.threads[s.current].wakeup
    ensures Inv(s.(threads := s.threads[s.current := c], ticks := ticks))
  {
    hide ListOk;
    hide SleepersOk;
    ReadyMembers(s);
    SleeperMembers(s);
    var s' := s.(threads := s.threads[s.current := c], ticks := ticks);
    ListUntouched(s, s');
    SleepUntouched(s, s');
  }

  lemma CurrentExists(s: Sched)
    requires Inv(s)
    ensures s.current in s.threads
  {
  }

  lemma TickKeeps(s: Sched)
    requires Inv(s)
    ensures var m := MlfqsTick(s.(ticks := s.ticks + 1));
            && Inv(m) && m == s.(threads := m.threads, ticks := s.ticks + 1)
            && m.current in m.threads && m.threads == s.threads[s.current := m.threads[s.current]]
  {
    var m := MlfqsTick(s.(ticks := s.ticks + 1));
    var c := m.threads[s.current];
    assert m.threads == s.threads[s.current := c];
    CurrentChanged(s, c, s.ticks + 1);
  }

  /** Each timer interrupt makes ready exactly the sleepers whose tick has come:
      none wakes early and none sleeps on past its tick. */
  lemma TickAndWakeKeeps(s: Sched)
    requires Inv(s)
    ensures Inv(TickAndWake(s))
    ensures Woken(MlfqsTick(s.(ticks := s.ticks + 1)), TickAndWake(s).(nextWakeup := s.nextWakeup))
    ensures forall t :: t in TickAndWake(s).sleeping ==> TickAndWake(s).threads[t].wakeup > s.ticks + 1
  {
    hide MlfqsTick;
    hide ReadyOk;
    hide SleepOk;
    hide Woken;
    hide Wake;
    CurrentExists(s);
    var m := MlfqsTick(s.(ticks := s.ticks + 1));
    TickKeeps(s);
    WakeKeeps(m);
    assert TickAndWake(s) == Wake(m);
  }

  lemma SecondUpdateKeeps(s: Sched)
    requires ReadyOk(s) && SleepOk(s) && 0 <= s.loadAvg
    ensures 0 <= LoadNext(s.loadAvg, ReadyCount(s)) && Inv(SecondUpdate(s))
  {
    hide ListOk;
    hide SleepersOk;
    hide InsertionSort;
    hide RecentNext;
    hide PriorityOf;
    SleeperMembers(s);
    assert 0 <= LoadNext(s.loadAvg, ReadyCount(s));
    var s' := SecondUpdate(s);
    Resorted(s, s'.threads);
    ListSame(s.(threads := s'.threads, ready := s'.ready), s');
    SleepUntouched(s, s');
  }

  /** Sorting the ready list puts it in order for whatever priorities there are now. */
  lemma Resorted(s: Sched, threads: map<Tid, Thread>)
    requires ListOk(s) && threads.Keys == s.threads.Keys
    requires forall t :: t in threads ==> threads[t].status == s.threads[t].status
    ensures ListOk(s.(threads := threads, ready := InsertionSort(s.ready, Priority(threads), HigherPriority)))
  {
    hide InsertionSort;
    var key := Priority(threads);
    var r := InsertionSort(s.ready, key, HigherPriority);
    ComparisonsAreOrders();
    InsertionSortPermutes(s.ready, key, HigherPriority);
    PermutationFacts(s.ready, r);
    InsertionSortStable(s.ready, key, HigherPriority);
  }

  lemma ListSame(s: Sched, s': Sched)
    requires ListOk(s) && s'.ready == s.ready && s'.idle == s.idle && s'.threads == s.threads
    ensures ListOk(s')
  {
  }

  lemma InterruptKeeps(s: Sched)
    requires Inv(s)
    ensures CanUpdate(s) && Inv(Interrupt(s))
  {
    TickAndWakeKeeps(s);
    SecondUpdateKeeps(TickAndWake(s));
  }

  lemma UnblockKeeps(s: Sched, t: Tid)
    requires Inv(s) && Enabled(s, UnblockThread(t))
    ensures Inv(Unblock(s, t))
  {
    EnqueueKeeps(s, t);
    SleepUntouched(s, Unblock(s, t));
  }

  lemma SetNiceKeeps(s: Sched, nice: int)
    requires Inv(s)
    ensures Inv(SetNice(s, nice))
  {
    var c := SetNice(s, nice).threads[s.current];
    assert SetNice(s, nice).threads == s.threads[s.current := c];
    CurrentChanged(s, c, s.ticks);
  }

  /** Every step keeps the invariant. */
  lemma StepKeeps(s: Sched, e: Event, s': Sched)
    requires Inv(s) && Takes(s, e, s')
    ensures Inv(s')
  {
    hide Inv;
    if Switches(s, e) {
      SwitchKeeps(s, e);
    } else {
      match e
      case UnblockThread(t) => UnblockKeeps(s, t);
      case CreateThread(t) => CreateKeeps(s, t);
      case ChangeNice(nice) => SetNiceKeeps(s, nice);
      case TimerTick => InterruptKeeps(s);
      case _ =>
    }
  }

  /** Every enabled step can be taken: schedule() always finds a thread. */
  lemma StepExists(s: Sched, e: Event) returns (s': Sched)
    requires Inv(s) && Enabled(s, e)
    ensures Takes(s, e, s')
  {
    if Switches(s, e) {
      SwitchKeeps(s, e);
      s' := Schedule(BeforeSwitch(s, e));
    } else {
      match e
      case UnblockThread(t) => s' := Unblock(s, t);
      case CreateThread(t) => s' := Create(s, t);
      case ChangeNice(nice) => s' := SetNice(s, nice);
      case TimerTick =>
        InterruptKeeps(s);
        s' := Interrupt(s);
      case _ => s' := s;
    }
  }

  lemma CreateKeeps(s: Sched, t: Tid)
    requires Inv(s) && t !in s.threads
    ensures Inv(Create(s, t))
  {
    hide ListOk;
    hide SleepersOk;
    hide InsertOrdered;
    hide PriorityOf;
    ReadyMembers(s);
    SleeperMembers(s);
    var c := s.threads[s.current];
    var s1 := s.(threads := s.threads[t := Thread(Blocked, PriorityOf(c.recentCpu, c.nice), c.nice, c.recentCpu, 0)]);
    ListUntouched(s, s1);
    EnqueueKeeps(s1, t);
    SleepUntouched(s, Create(s, t));
  }

  /** A run: the states passed and the steps between them. */
  ghost predicate IsRun(states: seq<Sched>, es: seq<Event>) {
    && |states| == |es| + 1
    && forall i :: 0 <= i < |es| ==> Takes(states[i], es[i], states[i + 1])
  }

  /** In every reachable state the ready list is sorted and complete, the sleep
      queue is sorted with next_wakeup_tick at its head, and one thread runs. */
  lemma {:induction false} RunKeeps(states: seq<Sched>, es: seq<Event>, i: nat)
    requires IsRun(states, es) && Inv(states[0]) && i <= |es|
    ensures Inv(states[i])
  {
    hide Inv;
    hide Takes;
    if i > 0 {
      RunKeeps(states, es, i - 1);
      assert Takes(states[i - 1], es[i - 1], states[i - 1 + 1]);
      StepKeeps(states[i - 1], es[i - 1], states[i]);
    }
  }

  // ----- MLFQS bounds over runs

  /** Accounting bounds k ticks after a one-second update. */
  ghost predicate BoundsAt(s: Sched, n: nat, k: nat) {
    && LoadOk(s.loadAvg, n)
    && s.idle in s.threads && s.threads[s.idle].recentCpu == 0
    && forall t :: t in s.threads ==> ThreadBounds(s.threads[t], n, k)
  }

  ghost predicate ThreadBounds(t: Thread, n: nat, k: nat) {
    RecentOk(t.recentCpu, n, k) && NiceOk(t.nice) && PRI_MIN <= t.priority <= PRI_MAX
  }

  /** At most n threads are ready at an update and nice values are in range. */
  ghost predicate Admissible(s: Sched, e: Event, n: nat) {
    && (e.ChangeNice? ==> NiceOk(e.nice))
    && (e.TimerTick? && SecondBoundary(s) && s.current in s.threads ==> ReadyCount(TickAndWake(s)) <= n)
  }

  /** Neither accounts nor load average change. */
  ghost predicate SameAccounts(s: Sched, s': Sched) {
    && s'.loadAvg == s.loadAvg && s'.ticks == s.ticks && s'.idle == s.idle
    && forall t :: t in s'.threads ==>
         && t in s.threads && s'.threads[t].recentCpu == s.threads[t].recentCpu
         && s'.threads[t].nice == s.threads[t].nice && s'.threads[t].priority == s.threads[t].priority
  }

  lemma SwitchAccounts(s: Sched, e: Event, s': Sched)
    requires s.current in s.threads && s.idle in s.threads && Enabled(s, e)
    requires Switches(s, e) ==> var b := BeforeSwitch(s, e); Next(b) in b.threads && s' == Schedule(b)
    requires !Switches(s, e) ==> (e.Sleep? && s' == s) || (e.UnblockThread? && s' == Unblock(s, e.t))
    ensures SameAccounts(s, s') && s.idle in s'.threads
  {
    hide InsertOrdered;
    hide Schedule;
    hide Unblock;
    if Switches(s, e) {
      var b := BeforeSwitch(s, e);
      BeforeSwitchAccounts(s, e);
      ScheduleAccounts(b);
    } else if e.UnblockThread? {
      UnblockAccounts(s, e.t);
    }
  }

  lemma BeforeSwitchAccounts(s: Sched, e: Event)
    requires s.current in s.threads && s.idle in s.threads && Enabled(s, e) && Switches(s, e)
    ensures SameAccounts(s, BeforeSwitch(s, e)) && s.idle in BeforeSwitch(s, e).threads
  {
    hide InsertOrdered;
  }

  lemma ScheduleAccounts(b: Sched)
    requires b.idle in b.threads && Next(b) in b.threads
    ensures SameAccounts(b, Schedule(b)) && b.idle in Schedule(b).threads
  {
  }

  lemma UnblockAccounts(s: Sched, t: nat)
    requires t in s.threads && s.idle in s.threads
    ensures SameAccounts(s, Unblock(s, t)) && s.idle in Unblock(s, t).threads
  {
    hide InsertOrdered;
  }

  lemma BoundsKept(s: Sched, s': Sched, n: nat, k: nat)
    requires BoundsAt(s, n, k) && SameAccounts(s, s') && s.idle in s'.threads
    ensures BoundsAt(s', n, k)
  {
  }

  lemma MlfqsTickBounds(s: Sched, n: nat, k: nat)
    requires s.current in s.threads && BoundsAt(s, n, k)
    ensures var m := MlfqsTick(s.(ticks := s.ticks + 1)); BoundsAt(m, n, k + 1) && m.ticks == s.ticks + 1
  {
  }

  lemma TickBounds(s: Sched, n: nat, k: nat)
    requires Inv(s) && BoundsAt(s, n, k)
    ensures s.current in s.threads && BoundsAt(TickAndWake(s), n, k + 1) && TickAndWake(s).ticks == s.ticks + 1
  {
    hide Inv;
    hide MlfqsTick;
    hide Woken;
    hide TickAndWake;
    CurrentExists(s);
    MlfqsTickBounds(s, n, k);
    TickAndWakeKeeps(s);
    var m, w := MlfqsTick(s.(ticks := s.ticks + 1)), TickAndWake(s);
    WokenAccounts(m, w.(nextWakeup := s.nextWakeup));
    BoundsKept(m, w, n, k + 1);
  }

  lemma WokenAccounts(s: Sched, s': Sched)
    requires Woken(s, s') && s.idle in s.threads
    ensures SameAccounts(s, s') && s.idle in s'.threads
  {
  }

  lemma SecondBounds(s: Sched, n: nat)
    requires BoundsAt(s, n, TIMER_FREQ) && ReadyCount(s) <= n
    ensures 0 <= LoadNext(s.loadAvg, ReadyCount(s)) && BoundsAt(SecondUpdate(s), n, 0)
  {
    LoadBound(s.loadAvg, ReadyCount(s), n);
    var load := LoadNext(s.loadAvg, ReadyCount(s));
    var s' := SecondUpdate(s);
    forall t | t in s'.threads ensures ThreadBounds(s'.threads[t], n, 0) {
      var o := s.threads[t];
      if t != s.idle { RecentBound(load, o.recentCpu, o.nice, n); }
    }
  }

  lemma InterruptBounds(s: Sched, n: nat)
    requires Inv(s) && BoundsAt(s, n, s.ticks % TIMER_FREQ) && Admissible(s, TimerTick, n)
    ensures s.current in s.threads && CanUpdate(s)
    ensures BoundsAt(Interrupt(s), n, Interrupt(s).ticks % TIMER_FREQ)
  {
    hide Inv;
    hide TickAndWake;
    hide BoundsAt;
    CurrentExists(s);
    TickBounds(s, n, s.ticks % TIMER_FREQ);
    if SecondBoundary(s) { SecondBounds(TickAndWake(s), n); }
  }

  lemma CurrentBounds(s: Sched, e: Event, n: nat, k: nat)
    requires s.current in s.threads && BoundsAt(s, n, k) && Enabled(s, e) && Admissible(s, e, n)
    ensures e.CreateThread? ==> BoundsAt(Create(s, e.t), n, k)
    ensures e.ChangeNice? ==> BoundsAt(SetNice(s, e.nice), n, k)
  {
  }

  /** The bounds hold after every step, inherited accounts included. */
  lemma StepBounds(s: Sched, e: Event, s': Sched, n: nat)
    requires Inv(s) && Takes(s, e, s') && Admissible(s, e, n)
    requires BoundsAt(s, n, s.ticks % TIMER_FREQ)
    ensures BoundsAt(s', n, s'.ticks % TIMER_FREQ)
  {
    hide Inv;
    hide BoundsAt;
    hide Interrupt;
    hide InsertOrdered;
    hide Admissible;
    IdleExists(s);
    match e
    case TimerTick => InterruptBounds(s, n);
    case CreateThread(_) => CurrentBounds(s, e, n, s.ticks % TIMER_FREQ);
    case ChangeNice(_) => CurrentBounds(s, e, n, s.ticks % TIMER_FREQ);
    case _ =>
      SwitchAccounts(s, e, s');
      BoundsKept(s, s', n, s.ticks % TIMER_FREQ);
  }

  lemma IdleExists(s: Sched)
    requires Inv(s)
    ensures s.idle in s.threads
  {
  }

  /** The state thread_start leaves: the first thread runs and the idle thread has
      blocked itself.  rc is what the first thread was charged meanwhile. */
  function Boot(main: Tid, idle: Tid, rc: int, ticks: nat): Sched {
    Sched(map[main := Thread(Running, PriorityOf(rc, 0), 0, rc, 0), idle := Thread(Blocked, PRI_MIN, 0, 0, 0)],
          [], [], main, idle, 0, INT64_MAX, ticks)
  }

  /** Runs start in a good state, within the bounds. */
  lemma BootKeeps(main: Tid, idle: Tid, rc: int, ticks: nat, n: nat)
    requires main != idle && RecentOk(rc, n, ticks % TIMER_FREQ)
    ensures Inv(Boot(main, idle, rc, ticks)) && BoundsAt(Boot(main, idle, rc, ticks), n, ticks % TIMER_FREQ)
  {
  }

  /** Over every run that never counts more than n ready threads, the load average
      stays in [0, n] and every recent_cpu in its band. */
  lemma {:induction false} RunBounds(states: seq<Sched>, es: seq<Event>, n: nat, i: nat)
    requires IsRun(states, es) && Inv(states[0]) && BoundsAt(states[0], n, states[0].ticks % TIMER_FREQ)
    requires forall j :: 0 <= j < |es| ==> Admissible(states[j], es[j], n)
    requires i <= |es|
    ensures BoundsAt(states[i], n, states[i].ticks % TIMER_FREQ)
  {
    hide Inv;
    hide Takes;
    hide Admissible;
    if i > 0 {
      RunBounds(states, es, n, i - 1);
      RunKeeps(states, es, i - 1);
      assert Takes(states[i - 1], es[i - 1], states[i - 1 + 1]) && Admissible(states[i - 1], es[i - 1], n);
      StepBounds(states[i - 1], es[i - 1], states[i], n);
    }
  }

  /** No 32-bit intermediate of timer_interrupt overflows. */
  ghost predicate InterruptFits(s: Sched)
    requires s.current in s.threads
  {
    && (s.current != s.idle ==> TickFits(s.threads[s.current].recentCpu, s.threads[s.current].nice))
    && (SecondBoundary(s) ==>
          var w := TickAndWake(s);
          && 0 <= LoadNext(w.loadAvg, ReadyCount(w))
          && forall t :: t in w.threads && t != w.idle ==>
               UpdateFits(w.loadAvg, ReadyCount(w), w.threads[t].recentCpu, w.threads[t].nice))
  }

  /** Nor does one of a priority computed outside it. */
  ghost predicate StepFits(s: Sched, e: Event)
    requires s.current in s.threads
  {
    match e
    case TimerTick => InterruptFits(s)
    case CreateThread(_) => PriorityFits(s.threads[s.current].recentCpu, s.threads[s.current].nice)
    case ChangeNice(nice) => PriorityFits(s.threads[s.current].recentCpu, nice)
    case _ => true
  }

  lemma StepNoOverflow(s: Sched, e: Event, n: nat)
    requires Inv(s) && Enabled(s, e) && Admissible(s, e, n) && BoundsAt(s, n, s.ticks % TIMER_FREQ) && n <= 272
    ensures s.current in s.threads && StepFits(s, e)
  {
    hide Inv;
    hide TickAndWake;
    hide TickFits;
    hide UpdateFits;
    hide PriorityFits;
    CurrentExists(s);
    var k, c := s.ticks % TIMER_FREQ, s.threads[s.current];
    assert ThreadBounds(c, n, k);
    match e
    case TimerTick =>
      NoOverflowTick(c.recentCpu, c.nice, n, k);
      TickBounds(s, n, k);
      if SecondBoundary(s) { SecondNoOverflow(TickAndWake(s), n); }
    case CreateThread(_) => PriorityInRange(c.recentCpu, c.nice, n, k);
    case ChangeNice(nice) => PriorityInRange(c.recentCpu, nice, n, k);
    case _ =>
  }

  lemma SecondNoOverflow(w: Sched, n: nat)
    requires BoundsAt(w, n, TIMER_FREQ) && ReadyCount(w) <= n <= 272
    ensures 0 <= LoadNext(w.loadAvg, ReadyCount(w))
    ensures forall t :: t in w.threads && t != w.idle ==>
              UpdateFits(w.loadAvg, ReadyCount(w), w.threads[t].recentCpu, w.threads[t].nice)
  {
    hide UpdateFits;
    hide RecentOk;
    LoadBound(w.loadAvg, ReadyCount(w), n);
    forall t | t in w.threads && t != w.idle
      ensures UpdateFits(w.loadAvg, ReadyCount(w), w.threads[t].recentCpu, w.threads[t].nice)
    {
      assert ThreadBounds(w.threads[t], n, TIMER_FREQ);
      NoOverflow(w.loadAvg, ReadyCount(w), w.threads[t].recentCpu, w.threads[t].nice, n);
    }
  }

  /** Over every run that never counts more than 272 ready threads at an update, no
      32-bit intermediate of a tick, of a one-second update or of a priority
      computation overflows. */
  lemma RunNoOverflow(states: seq<Sched>, es: seq<Event>, n: nat, i: nat)
    requires IsRun(states, es) && Inv(states[0]) && BoundsAt(states[0], n, states[0].ticks % TIMER_FREQ)
    requires forall j :: 0 <= j < |es| ==> Admissible(states[j], es[j], n)
    requires i < |es| && n <= 272
    ensures states[i].current in states[i].threads && StepFits(states[i], es[i])
  {
    hide Inv;
    hide Admissible;
    hide BoundsAt;
    hide StepFits;
    RunBounds(states, es, n, i);
    RunKeeps(states, es, i);
    assert Takes(states[i], es[i], states[i + 1]) && Admissible(states[i], es[i], n);
    StepNoOverflow(states[i], es[i], n);
  }

  // ----- enqueue order

  ghost predicate Before<T>(q: seq<T>, a: T, b: T) {
    exists i, j :: 0 <= i < j < |q| && q[i] == a && q[j] == b
  }

  lemma BeforeTail<T>(q: seq<T>, a: T, b: T)
    requires Before(q, a, b) && q[0] != a
    ensures Before(q[1..], a, b)
  {
    var i, j :| 0 <= i < j < |q| && q[i] == a && q[j] == b;
    assert q[1..][i - 1] == a && q[1..][j - 1] == b;
  }

  lemma BeforeCons<T>(x: T, q: seq<T>, a: T, b: T)
    requires Before(q, a, b) || (x == a && b in q)
    ensures Before([x] + q, a, b)
  {
    if Before(q, a, b) {
      var i, j :| 0 <= i < j < |q| && q[i] == a && q[j] == b;
      assert ([x] + q)[i + 1] == a && ([x] + q)[j + 1] == b;
    } else {
      var j :| 0 <= j < |q| && q[j] == b;
      assert ([x] + q)[0] == a && ([x] + q)[j + 1] == b;
    }
  }

  /** Enqueueing does not reorder threads already in the list. */
  lemma {:induction false} InsertKeepsOrder<T, K>(q: seq<T>, x: T, a: T, b: T, key: T -> K, less: (K, K) -> bool)
    requires Before(q, a, b)
    ensures Before(InsertOrdered(q, x, key, less), a, b)
  {
    if q == [] || less(key(x), key(q[0])) {
      BeforeCons(x, q, a, b);
    } else {
      var r := InsertOrdered(q[1..], x, key, less);
      if q[0] == a && b in q[1..] {
        InsertOrderedPermutes(q[1..], x, key, less);
        assert b in multiset(q[1..] + [x]);
        assert b in r;
        BeforeCons(q[0], r, a, b);
      } else {
        var i, j :| 0 <= i < j < |q| && q[i] == a && q[j] == b;
        assert q[1..][j - 1] == b;
        assert i > 0;
        assert q[1..][i - 1] == a;
        assert Before(q[1..], a, b);
        InsertKeepsOrder(q[1..], x, a, b, key, less);
        BeforeCons(q[0], r, a, b);
      }
    }
  }

  /** A thread joins the queue behind everyone of its own or higher priority. */
  lemma {:induction false} JoinsBehind<T, K(!new)>(q: seq<T>, x: T, u: T, key: T -> K, less: (K, K) -> bool)
    requires StrictWeakOrder(less) && Sorted(q, key, less) && u in q && !less(key(x), key(u))
    ensures Before(InsertOrdered(q, x, key, less), u, x)
  {
    var i :| 0 <= i < |q| && q[i] == u;
    assert i > 0 ==> !less(key(q[i]), key(q[0]));
    assert !less(key(x), key(q[0]));
    var r := InsertOrdered(q[1..], x, key, less);
    InsertOrderedPermutes(q[1..], x, key, less);
    assert x in multiset(q[1..] + [x]);
    assert x in r;
    if q[0] != u {
      assert q[1..][i - 1] == u;
      assert q == [q[0]] + q[1..];
      SortedCons(q[0], q[1..], key, less);
      JoinsBehind(q[1..], x, u, key, less);
    }
    BeforeCons(q[0], r, u, x);
  }

  lemma {:induction false} WakeLoopOrder(s: Sched, a: Tid, b: Tid)
    requires Before(s.ready, a, b)
    ensures Before(WakeLoop(s).ready, a, b)
    decreases |s.sleeping|
  {
    if s.sleeping != [] && s.sleeping[0] in s.threads && s.threads[s.sleeping[0]].wakeup <= s.ticks {
      InsertKeepsOrder(s.ready, s.sleeping[0], a, b, Priority(s.threads), HigherPriority);
      WakeLoopOrder(Unblock(s.(sleeping := s.sleeping[1..]), s.sleeping[0]), a, b);
    }
  }

  /** A switch takes the head of the list and nobody else. */
  lemma SwitchOrder(s: Sched, e: Event, a: Tid, b: Tid)
    requires s.current in s.threads && Switches(s, e) && Before(s.ready, a, b)
    requires Next(BeforeSwitch(s, e)) in BeforeSwitch(s, e).threads
    ensures var s' := Schedule(BeforeSwitch(s, e)); s'.current == a || Before(s'.ready, a, b)
  {
    hide InsertOrdered;
    var q := BeforeSwitch(s, e);
    if e.Yield? && s.current != s.idle {
      InsertKeepsOrder(s.ready, s.current, a, b, Priority(s.threads), HigherPriority);
    }
    assert Before(q.ready, a, b);
    if q.ready[0] != a { BeforeTail(q.ready, a, b); }
  }

  /** No step but the one-second recomputation lets b overtake a. */
  lemma StepOrder(s: Sched, e: Event, s': Sched, a: Tid, b: Tid)
    requires Takes(s, e, s') && Before(s.ready, a, b) && !(e.TimerTick? && SecondBoundary(s))
    ensures s'.current == a || Before(s'.ready, a, b)
  {
    hide InsertOrdered;
    hide Before;
    if Switches(s, e) {
      SwitchOrder(s, e, a, b);
    } else {
      match e
      case UnblockThread(t) =>
        InsertKeepsOrder(s.ready, t, a, b, Priority(s.threads), HigherPriority);
      case CreateThread(t) =>
        var c := s.threads[s.current];
        var threads := s.threads[t := Thread(Blocked, PriorityOf(c.recentCpu, c.nice), c.nice, c.recentCpu, 0)];
        InsertKeepsOrder(s.ready, t, a, b, Priority(threads), HigherPriority);
      case TimerTick =>
        WakeLoopOrder(MlfqsTick(s.(ticks := s.ticks + 1)), a, b);
      case _ =>
    }
  }

  /** b joins the ready list in this step, with a priority no higher than that of a,
      which was there already: then b is behind a, or a is dispatched at once. */
  lemma StepJoins(s: Sched, e: Event, s': Sched, a: Tid, b: Tid)
    requires Inv(s) && Takes(s, e, s') && !(e.TimerTick? && SecondBoundary(s))
    requires a in s.ready && b !in s.ready && b in s'.ready
    requires Priority(s'.threads)(b) <= Priority(s'.threads)(a)
    ensures s'.current == a || Before(s'.ready, a, b)
  {
    hide Inv;
    hide InsertOrdered;
    hide Before;
    hide TickAndWake;
    hide Create;
    ReadySorted(s);
    if Switches(s, e) {
      SwitchJoins(s, e, a, b);
    } else {
      match e
      case UnblockThread(t) => EnqueueJoins(s, t, a, b);
      case CreateThread(t) => CreateJoins(s, t, a, b);
      case TimerTick => TickJoins(s, a, b);
      case _ =>
    }
  }

  lemma ReadySorted(s: Sched)
    requires Inv(s)
    ensures Sorted(s.ready, Priority(s.threads), HigherPriority)
    ensures s.current in s.threads && forall t :: t in s.ready ==> t in s.threads && t != s.current
  {
  }

  lemma CreateJoins(s: Sched, t: Tid, a: Tid, b: Tid)
    requires Inv(s) && s.current in s.threads && t !in s.threads
    requires a in s.ready && b !in s.ready && b in Create(s, t).ready
    requires Priority(Create(s, t).threads)(b) <= Priority(Create(s, t).threads)(a)
    ensures Before(Create(s, t).ready, a, b)
  {
    hide InsertOrdered;
    hide Before;
    hide Inv;
    hide Sorted;
    ReadySorted(s);
    var c := s.threads[s.current];
    var s1 := s.(threads := s.threads[t := Thread(Blocked, PriorityOf(c.recentCpu, c.nice), c.nice, c.recentCpu, 0)]);
    SortedSameKeys(s.ready, Priority(s.threads), Priority(s1.threads), HigherPriority);
    EnqueueJoins(s1, t, a, b);
  }

  lemma TickJoins(s: Sched, a: Tid, b: Tid)
    requires Inv(s) && s.current in s.threads && a in s.ready && b !in s.ready && b in TickAndWake(s).ready
    requires Priority(TickAndWake(s).threads)(b) <= Priority(TickAndWake(s).threads)(a)
    ensures Before(TickAndWake(s).ready, a, b)
  {
    hide Before;
    hide WakeLoop;
    hide MlfqsTick;
    hide ReadyOk;
    hide SleepersOk;
    TickKeeps(s);
    var m := MlfqsTick(s.(ticks := s.ticks + 1));
    if m.nextWakeup <= m.ticks {
      WakeLoopKeeps(m);
      WokenPriorities(m, WakeLoop(m));
      WakeLoopJoins(m, a, b);
    }
  }

  lemma WokenPriorities(s: Sched, s': Sched)
    requires Woken(s, s')
    ensures forall t :: Priority(s'.threads)(t) == Priority(s.threads)(t)
  {
  }

  lemma EnqueueJoins(s: Sched, t: Tid, a: Tid, b: Tid)
    requires Sorted(s.ready, Priority(s.threads), HigherPriority) && t in s.threads
    requires a in s.ready && b !in s.ready && b in Enqueue(s, t).ready
    requires Priority(s.threads)(b) <= Priority(s.threads)(a)
    ensures t == b && Before(Enqueue(s, t).ready, a, b)
  {
    ComparisonsAreOrders();
    InsertMembers(s.ready, t, Priority(s.threads), HigherPriority);
    JoinsBehind(s.ready, b, a, Priority(s.threads), HigherPriority);
  }

  lemma InsertMembers<T, K>(q: seq<T>, x: T, key: T -> K, less: (K, K) -> bool)
    ensures forall y :: y in InsertOrdered(q, x, key, less) <==> y == x || y in q
  {
    InsertOrderedPermutes(q, x, key, less);
    var r := InsertOrdered(q, x, key, less);
    forall y ensures y in r <==> y == x || y in q {
      assert y in r <==> y in multiset(r);
      assert y in q + [x] <==> y in multiset(q + [x]);
    }
  }

  lemma SwitchJoins(s: Sched, e: Event, a: Tid, b: Tid)
    requires Inv(s) && Switches(s, e) && Next(BeforeSwitch(s, e)) in BeforeSwitch(s, e).threads
    requires a in s.ready && b !in s.ready && b in Schedule(BeforeSwitch(s, e)).ready
    requires Priority(BeforeSwitch(s, e).threads)(b) <= Priority(BeforeSwitch(s, e).threads)(a)
    ensures var s' := Schedule(BeforeSwitch(s, e)); s'.current == a || Before(s'.ready, a, b)
  {
    hide InsertOrdered;
    hide Before;
    var q := BeforeSwitch(s, e);
    assert b in q.ready;
    EnqueueJoins(s, s.current, a, b);
    if q.ready[0] != a { BeforeTail(q.ready, a, b); }
  }

  lemma {:induction false} WakeLoopJoins(s: Sched, a: Tid, b: Tid)
    requires ReadyOk(s) && SleepersOk(s) && a in s.ready && b !in s.ready && b in WakeLoop(s).ready
    requires Priority(s.threads)(b) <= Priority(s.threads)(a)
    ensures Before(WakeLoop(s).ready, a, b)
    decreases |s.sleeping|
  {
    hide InsertOrdered;
    hide Before;
    if s.sleeping != [] && s.sleeping[0] in s.threads && s.threads[s.sleeping[0]].wakeup <= s.ticks {
      var t := s.sleeping[0];
      var s2 := Unblock(s.(sleeping := s.sleeping[1..]), t);
      WakeOne(s);
      InsertMembers(s.ready, t, Priority(s.threads), HigherPriority);
      if t == b {
        EnqueueJoins(s, t, a, b);
        WakeLoopOrder(s2, a, b);
      } else {
        WakeLoopJoins(s2, a, b);
      }
    }
  }

  /** Two sleepers woken by the same interrupt join in the order of the sleep queue,
      unless the later one has a higher priority. */
  lemma {:induction false} WakeLoopBoth(s: Sched, a: Tid, b: Tid)
    requires ReadyOk(s) && SleepersOk(s) && Before(s.sleeping, a, b) && b !in s.ready && b in WakeLoop(s).ready
    requires Priority(s.threads)(b) <= Priority(s.threads)(a)
    ensures Before(WakeLoop(s).ready, a, b)
    decreases |s.sleeping|
  {
    hide InsertOrdered;
    hide Before;
    if s.sleeping != [] && s.sleeping[0] in s.threads && s.threads[s.sleeping[0]].wakeup <= s.ticks {
      var t := s.sleeping[0];
      var s2 := Unblock(s.(sleeping := s.sleeping[1..]), t);
      WakeOne(s);
      InsertMembers(s.ready, t, Priority(s.threads), HigherPriority);
      NotHead(s.sleeping, a, b);
      if t == a {
        WakeLoopJoins(s2, a, b);
      } else {
        BeforeTail(s.sleeping, a, b);
        WakeLoopBoth(s2, a, b);
      }
    }
  }

  lemma NotHead<T>(q: seq<T>, a: T, b: T)
    requires NoDup(q) && Before(q, a, b)
    ensures q[0] != b && a in q && b in q
  {
  }

  lemma StepJoinsBoth(s: Sched, e: Event, s': Sched, a: Tid, b: Tid)
    requires Inv(s) && Takes(s, e, s') && !(e.TimerTick? && SecondBoundary(s))
    requires Before(s.sleeping, a, b) && b in s'.ready
    requires Priority(s'.threads)(b) <= Priority(s'.threads)(a)
    ensures Before(s'.ready, a, b)
  {
    hide InsertOrdered;
    hide Before;
    hide WakeLoop;
    hide MlfqsTick;
    NotHead(s.sleeping, a, b);
    SleeperNotReady(s, b);
    if e.TimerTick? {
      TickKeeps(s);
      var m := MlfqsTick(s.(ticks := s.ticks + 1));
      if m.nextWakeup <= m.ticks {
        WakeLoopKeeps(m);
        WokenPriorities(m, WakeLoop(m));
        WakeLoopBoth(m, a, b);
      }
    } else {
      NotEnqueued(s, e, s', b);
    }
  }

  lemma SleeperNotReady(s: Sched, b: Tid)
    requires Inv(s) && b in s.sleeping
    ensures b !in s.ready && b != s.current && b in s.threads && b != s.idle
  {
  }

  /** Only the timer makes a sleeper ready. */
  lemma NotEnqueued(s: Sched, e: Event, s': Sched, b: Tid)
    requires Inv(s) && Takes(s, e, s') && !e.TimerTick? && b in s.sleeping
    ensures b !in s'.ready
  {
    hide InsertOrdered;
    SleeperNotReady(s, b);
    match e
    case UnblockThread(t) => InsertMembers(s.ready, t, Priority(s.threads), HigherPriority);
    case CreateThread(t) =>
      var c := s.threads[s.current];
      var threads := s.threads[t := Thread(Blocked, PriorityOf(c.recentCpu, c.nice), c.nice, c.recentCpu, 0)];
      InsertMembers(s.ready, t, Priority(threads), HigherPriority);
    case Yield => InsertMembers(s.ready, s.current, Priority(s.threads), HigherPriority);
    case _ =>
  }

  /** Between recomputations, as long as a has not been dispatched it stays ahead
      of b in the ready list. */
  lemma {:induction false} StaysAhead(states: seq<Sched>, es: seq<Event>, a: Tid, b: Tid, i: nat, j: nat)
    requires IsRun(states, es) && i <= j <= |es| && Before(states[i].ready, a, b)
    requires forall k :: i <= k < j ==> !(es[k].TimerTick? && SecondBoundary(states[k]))
    requires forall k :: i < k <= j ==> states[k].current != a
    ensures Before(states[j].ready, a, b)
  {
    hide Takes;
    hide Before;
    if i < j {
      StaysAhead(states, es, a, b, i, j - 1);
      assert Takes(states[j - 1], es[j - 1], states[j - 1 + 1]);
      StepOrder(states[j - 1], es[j - 1], states[j], a, b);
    }
  }

  /** Between two one-second recomputations b is not dispatched before a, if a is
      ahead of b in the ready list. */
  lemma AheadServedFirst(states: seq<Sched>, es: seq<Event>, a: Tid, b: Tid, i: nat, j: nat)
    requires IsRun(states, es) && Inv(states[0]) && i <= j <= |es| && Before(states[i].ready, a, b)
    requires forall k :: i <= k < j ==> !(es[k].TimerTick? && SecondBoundary(states[k]))
    requires states[j].current == b
    ensures exists k :: i < k <= j && states[k].current == a
  {
    if forall k :: i < k <= j ==> states[k].current != a {
      StaysAhead(states, es, a, b, i, j);
      RunKeeps(states, es, j);
      CurrentNotReady(states[j], a);
    }
  }

  /** First come, first served: if b is enqueued in step i, while a with at least the same
      priority is in the ready list or ahead of b in the sleep queue, then b is not
      dispatched before a until the next one-second recomputation. */
  lemma FirstComeFirstServed(states: seq<Sched>, es: seq<Event>, a: Tid, b: Tid, i: nat, j: nat)
    requires IsRun(states, es) && Inv(states[0]) && i < j <= |es|
    requires a in states[i].ready || Before(states[i].sleeping, a, b)
    requires b !in states[i].ready && b in states[i + 1].ready
    requires Priority(states[i + 1].threads)(b) <= Priority(states[i + 1].threads)(a)
    requires forall k :: i <= k < j ==> !(es[k].TimerTick? && SecondBoundary(states[k]))
    requires states[j].current == b
    ensures exists k :: i < k <= j && states[k].current == a
  {
    hide Takes;
    hide Inv;
    hide Before;
    RunKeeps(states, es, i);
    assert Takes(states[i], es[i], states[i + 1]);
    if a in states[i].ready {
      StepJoins(states[i], es[i], states[i + 1], a, b);
    } else {
      StepJoinsBoth(states[i], es[i], states[i + 1], a, b);
    }
    if states[i + 1].current != a {
      AheadServedFirst(states, es, a, b, i + 1, j);
    }
  }

  lemma CurrentNotReady(s: Sched, a: Tid)
    requires Inv(s)
    ensures !Before(s.ready, a, s.current)
  {
    assert s.current !in s.ready;
  }

  // ----- what each step does

  /** The status that a thread giving up the processor is left with. */
  function LeftAs(e: Event): Status
    requires e.Yield? || e.Block? || e.Sleep?
  {
    if e.Yield? then Ready else Blocked
  }

  /** The running thread as its call leaves it. */
  function Left(c: Thread, e: Event): Thread
    requires e.Yield? || e.Block? || e.Sleep?
  {
    if e.Sleep? then c.(wakeup := e.wakeup, status := LeftAs(e)) else c.(status := LeftAs(e))
  }

  function NowRunning(t: Thread, runs: bool): Thread {
    if runs then t.(status := Running) else t
  }

  /** A switch changes the thread that gives up the processor, as its call says, and the
      one that is dispatched, which runs; no other thread changes. */
  ghost predicate Switched(s: Sched, e: Event, s': Sched)
    requires s.current in s.threads && Switches(s, e)
  {
    var c := s.threads[s.current];
    && s'.threads.Keys == (if e.Exit? then s.threads.Keys - {s.current} else s.threads.Keys)
    && (forall t :: t in s.threads && t != s.current ==>
          t in s'.threads && s'.threads[t] == NowRunning(s.threads[t], t == s'.current))
    && (!e.Exit? ==>
          && s.current in s'.threads
          && s'.threads[s.current] == NowRunning(Left(c, e), s.current == s'.current))
    && s'.loadAvg == s.loadAvg && s'.ticks == s.ticks && s'.idle == s.idle
  }

  /** Who is dispatched: a thread of maximal priority among those that were ready and, if it
      yields, the running one; the idle thread exactly if there are none. */
  ghost predicate Dispatched(s: Sched, e: Event, next: Tid) {
    var yielded := e.Yield? && s.current != s.idle;
    && (next in s.ready || (yielded && next == s.current) || (next == s.idle && s.ready == [] && !yielded))
    && (forall t :: t in s.ready ==> Priority(s.threads)(t) <= Priority(s.threads)(next))
    && (yielded ==> Priority(s.threads)(s.current) <= Priority(s.threads)(next))
  }

  lemma SwitchMeaning(s: Sched, e: Event, s': Sched)
    requires Inv(s) && Takes(s, e, s') && Switches(s, e)
    ensures Switched(s, e, s') && Dispatched(s, e, s'.current)
    ensures forall t :: t in s'.ready <==>
              (t in s.ready || (e.Yield? && t == s.current && t != s.idle)) && t != s'.current
    ensures forall t :: t in s'.sleeping <==> t in s.sleeping || (e.Sleep? && t == s.current)
  {
    hide Inv;
    hide Switched;
    hide Dispatched;
    hide BeforeSwitch;
    CurrentExists(s);
    SwitchKeeps(s, e);
    SwitchedAre(s, e);
    DispatchedIs(s, e);
    QueuesBefore(s, e);
    QueuesAfter(BeforeSwitch(s, e), s');
  }

  lemma SwitchedAre(s: Sched, e: Event)
    requires s.current in s.threads && Switches(s, e) && Next(BeforeSwitch(s, e)) in BeforeSwitch(s, e).threads
    ensures Switched(s, e, Schedule(BeforeSwitch(s, e)))
  {
    hide BeforeSwitch;
    BeforeIs(s, e);
  }

  lemma BeforeIs(s: Sched, e: Event)
    requires s.current in s.threads && Switches(s, e)
    ensures var b := BeforeSwitch(s, e);
            && b.loadAvg == s.loadAvg && b.ticks == s.ticks && b.idle == s.idle
            && b.threads == if e.Exit? then s.threads - {s.current}
                            else s.threads[s.current := Left(s.threads[s.current], e)]
  {
    hide InsertOrdered;
  }

  lemma DispatchedIs(s: Sched, e: Event)
    requires Inv(s) && Enabled(s, e) && Switches(s, e)
    ensures s.current in s.threads && Dispatched(s, e, Next(BeforeSwitch(s, e)))
  {
    hide Inv;
    hide InsertOrdered;
    CurrentExists(s);
    ReadyAre(s);
    SwitchKeeps(s, e);
    QueuesBefore(s, e);
    PrioritiesBefore(s, e);
    var b := BeforeSwitch(s, e);
    if b.ready != [] { assert b.ready[0] in b.ready; }
    if s.ready != [] { assert s.ready[0] in s.ready && s.ready[0] in b.ready; }
  }

  lemma PrioritiesBefore(s: Sched, e: Event)
    requires s.current in s.threads && Switches(s, e)
    ensures var b := BeforeSwitch(s, e);
            && b.idle == s.idle
            && forall t :: t in b.threads ==> t in s.threads && b.threads[t].priority == s.threads[t].priority
  {
    hide InsertOrdered;
  }

  lemma QueuesAfter(b: Sched, s': Sched)
    requires Next(b) in b.threads && s' == Schedule(b) && Inv(s')
    ensures forall t :: t in s'.ready <==> t in b.ready && t != s'.current
    ensures s'.sleeping == b.sleeping
  {
    hide Inv;
    ReadyAre(s');
    if b.ready != [] { assert b.ready == [b.ready[0]] + b.ready[1..]; }
  }

  lemma ReadyAre(s: Sched)
    requires Inv(s)
    ensures s.idle in s.threads
    ensures forall t :: t in s.ready <==> t in s.threads && t != s.idle && s.threads[t].status == Ready
    ensures forall t :: t in s.threads ==> (s.threads[t].status == Running <==> t == s.current)
    ensures forall t :: t in s.sleeping ==> t in s.threads && t != s.idle && s.threads[t].status == Blocked
  {
  }

  lemma QueuesBefore(s: Sched, e: Event)
    requires s.current in s.threads && Switches(s, e)
    ensures var b := BeforeSwitch(s, e);
            && (forall t :: t in b.ready <==> t in s.ready || (e.Yield? && t == s.current && t != s.idle))
            && (forall t :: t in b.sleeping <==> t in s.sleeping || (e.Sleep? && t == s.current))
  {
    hide InsertOrdered;
    match e
    case Yield => InsertMembers(s.ready, s.current, Priority(s.threads), HigherPriority);
    case Sleep(wakeup) =>
      var threads := s.threads[s.current := s.threads[s.current].(wakeup := wakeup)];
      InsertMembers(s.sleeping, s.current, Wakeup(threads), Earlier);
    case _ =>
  }

  /** thread_sleep puts the running thread, and only it, in the sleep queue, to be woken at
      the given tick. */
  lemma SleepMeaning(s: Sched, wakeup: int, s': Sched)
    requires Inv(s) && Takes(s, Sleep(wakeup), s') && s.current != s.idle
    ensures s.current in s'.sleeping && s.current in s'.threads && s'.current != s.current
    ensures s'.threads[s.current] == s.threads[s.current].(status := Blocked, wakeup := wakeup)
    ensures forall t :: t in s'.sleeping <==> t in s.sleeping || t == s.current
    ensures s'.nextWakeup <= wakeup
  {
    hide Inv;
    SwitchMeaning(s, Sleep(wakeup), s');
    StepKeeps(s, Sleep(wakeup), s');
    ReadyAre(s);
    ReadyAre(s');
    HeadIsNext(s', s.current);
  }

  lemma HeadIsNext(s: Sched, t: Tid)
    requires Inv(s) && t in s.sleeping
    ensures t in s.threads && s.nextWakeup <= s.threads[t].wakeup
  {
    var i :| 0 <= i < |s.sleeping| && s.sleeping[i] == t;
    assert s.sleeping[0] in s.sleeping;
    if i > 0 { assert !Earlier(Wakeup(s.threads)(s.sleeping[i]), Wakeup(s.threads)(s.sleeping[0])); }
  }

  /** thread_unblock makes its thread ready and touches no other. */
  lemma UnblockMeaning(s: Sched, t: Tid, s': Sched)
    requires Inv(s) && Takes(s, UnblockThread(t), s')
    ensures t in s'.ready && multiset(s'.ready) == multiset(s.ready) + multiset{t}
    ensures s' == s.(ready := s'.ready, threads := s.threads[t := s.threads[t].(status := Ready)])
  {
    hide Inv;
    hide InsertOrdered;
    InsertOrderedPermutes(s.ready, t, Priority(s.threads), HigherPriority);
    InsertMembers(s.ready, t, Priority(s.threads), HigherPriority);
  }

  /** thread_create leaves the child ready, with its parent's nice value and recent_cpu and
      the priority they ask for, and touches no other thread. */
  lemma CreateMeaning(s: Sched, t: Tid, s': Sched)
    requires Inv(s) && Takes(s, CreateThread(t), s')
    ensures t in s'.ready && multiset(s'.ready) == multiset(s.ready) + multiset{t}
    ensures t in s'.threads && s' == s.(ready := s'.ready, threads := s.threads[t := s'.threads[t]])
    ensures var c, parent := s'.threads[t], s.threads[s.current];
            && c.status == Ready && c.nice == parent.nice && c.recentCpu == parent.recentCpu
            && c.priority == PriorityOf(parent.recentCpu, parent.nice)
  {
    hide Inv;
    hide InsertOrdered;
    var c := s.threads[s.current];
    var threads := s.threads[t := Thread(Blocked, PriorityOf(c.recentCpu, c.nice), c.nice, c.recentCpu, 0)];
    InsertOrderedPermutes(s.ready, t, Priority(threads), HigherPriority);
    InsertMembers(s.ready, t, Priority(threads), HigherPriority);
  }

  /** thread_set_nice, before it may yield, sets the nice value of the running thread and the
      priority that goes with it. */
  lemma ChangeNiceMeaning(s: Sched, nice: int, s': Sched)
    requires Inv(s) && Takes(s, ChangeNice(nice), s')
    ensures s' == s.(threads := s'.threads) && s'.threads.Keys == s.threads.Keys
    ensures forall t :: t in s.threads && t != s.current ==> s'.threads[t] == s.threads[t]
    ensures var c, c' := s.threads[s.current], s'.threads[s.current];
            c' == c.(nice := nice, priority := c'.priority) && c'.priority == PriorityOf(c.recentCpu, nice)
  {
  }

  /** A sleeper whose tick has come when the interrupt counts it. */
  predicate Due(s: Sched, t: Tid) {
    t in s.sleeping && t in s.threads && s.threads[t].wakeup <= s.ticks + 1
  }

  /** recent_cpu after the tick has been charged. */
  function Charged(s: Sched, t: Tid): int
    requires t in s.threads
  {
    s.threads[t].recentCpu + if t == s.current && t != s.idle then F else 0
  }

  /** One thread over a timer interrupt that leaves the load average at load. */
  ghost predicate Ticked(s: Sched, t: Tid, o: Thread, load: int)
    requires t in s.threads
  {
    var w := s.threads[t];
    && o.nice == w.nice && o.wakeup == w.wakeup
    && o.status == (if Due(s, t) then Ready else w.status)
    && (if SecondBoundary(s) && t != s.idle then
          && 0 <= load
          && o.recentCpu == RecentNext(load, Charged(s, t), w.nice) && o.priority == PriorityOf(o.recentCpu, w.nice)
        else
          && o.recentCpu == Charged(s, t)
          && o.priority == if t != s.current || (s.ticks + 1) % TIME_PER_PRIORITY != 0 then w.priority
                           else if t == s.idle then PRI_MIN else PriorityOf(o.recentCpu, w.nice))
  }

  /** timer_interrupt, thread by thread: the tick is charged to the running thread, exactly
      the sleepers that are due become ready, every fourth tick the running thread's
      priority is recomputed and every hundredth the load average, every recent_cpu and
      every priority. */
  lemma TimerMeaning(s: Sched, s': Sched)
    requires Inv(s) && Takes(s, TimerTick, s')
    ensures s'.ticks == s.ticks + 1 && s'.current == s.current && s'.idle == s.idle
    ensures s'.threads.Keys == s.threads.Keys
    ensures forall t :: t in s.threads ==> Ticked(s, t, s'.threads[t], s'.loadAvg)
    ensures forall t :: t in s'.sleeping <==> t in s.sleeping && !Due(s, t)
    ensures forall t :: t in s'.ready <==> t in s.ready || Due(s, t)
    ensures s'.loadAvg == if SecondBoundary(s) then LoadNext(s.loadAvg, ReadyCount(s')) else s.loadAvg
  {
    hide Inv;
    hide TickAndWake;
    hide SecondUpdate;
    hide Ticked;
    TickMeaning(s);
    InterruptKeeps(s);
    TickAndWakeKeeps(s);
    var w := TickAndWake(s);
    ReadyAre(w);
    ReadyAre(s);
    if SecondBoundary(s) {
      SecondMeaning(w);
      forall t | t in s.threads ensures Ticked(s, t, s'.threads[t], s'.loadAvg) {
        AgedTick(s, t, w.threads[t], s'.threads[t], s'.loadAvg);
      }
    } else {
      forall t | t in s.threads ensures Ticked(s, t, s'.threads[t], s'.loadAvg) {
        PlainTick(s, t, w.threads[t], s'.loadAvg);
      }
    }
    ReadyFrom(s, w);
  }

  /** One thread before the hook of every hundredth tick. */
  ghost predicate TickedOnly(s: Sched, t: Tid, o: Thread)
    requires t in s.threads
  {
    var w := s.threads[t];
    && o.nice == w.nice && o.wakeup == w.wakeup
    && o.status == (if Due(s, t) then Ready else w.status)
    && o.recentCpu == Charged(s, t)
    && o.priority == if t != s.current || (s.ticks + 1) % TIME_PER_PRIORITY != 0 then w.priority
                     else if t == s.idle then PRI_MIN else PriorityOf(o.recentCpu, w.nice)
  }

  lemma PlainTick(s: Sched, t: Tid, o: Thread, load: int)
    requires t in s.threads && TickedOnly(s, t, o) && !SecondBoundary(s)
    ensures Ticked(s, t, o, load)
  {
  }

  lemma AgedTick(s: Sched, t: Tid, o: Thread, o': Thread, load: int)
    requires t in s.threads && TickedOnly(s, t, o) && SecondBoundary(s) && 0 <= load
    requires o' == if t == s.idle then o else Aged(o, load)
    ensures Ticked(s, t, o', load)
  {
  }

  lemma ReadyFrom(s: Sched, w: Sched)
    requires Inv(s) && Inv(w) && w.idle == s.idle && w.threads.Keys == s.threads.Keys
    requires forall t :: t in s.threads ==> TickedOnly(s, t, w.threads[t])
    ensures forall t :: t in w.ready <==> t in s.ready || Due(s, t)
  {
    hide Inv;
    ReadyAre(s);
    ReadyAre(w);
  }

  lemma TickMeaning(s: Sched)
    requires Inv(s)
    ensures s.current in s.threads
    ensures var w := TickAndWake(s);
            && w.ticks == s.ticks + 1 && w.current == s.current && w.idle == s.idle && w.loadAvg == s.loadAvg
            && w.threads.Keys == s.threads.Keys
            && (forall t :: t in s.threads ==> TickedOnly(s, t, w.threads[t]))
            && (forall t :: t in w.sleeping <==> t in s.sleeping && !Due(s, t))
  {
    hide Inv;
    hide Wake;
    CurrentExists(s);
    ReadyAre(s);
    TickKeeps(s);
    TickAndWakeKeeps(s);
    var m, w := MlfqsTick(s.(ticks := s.ticks + 1)), TickAndWake(s);
    assert Woken(m, w.(nextWakeup := s.nextWakeup));
  }

  /** The hook of every hundredth tick changes accounts and priorities, and the order of the
      ready list, by the formulas; nothing else. */
  lemma SecondMeaning(w: Sched)
    requires Inv(w)
    ensures 0 <= LoadNext(w.loadAvg, ReadyCount(w))
    ensures var s' := SecondUpdate(w);
            && s' == w.(threads := s'.threads, loadAvg := s'.loadAvg, ready := s'.ready)
            && s'.loadAvg == LoadNext(w.loadAvg, ReadyCount(w))
            && multiset(s'.ready) == multiset(w.ready) && |s'.ready| == |w.ready|
            && (forall t :: t in s'.ready <==> t in w.ready)
            && s'.threads.Keys == w.threads.Keys
            && forall t :: t in w.threads ==>
                 s'.threads[t] == if t == w.idle then w.threads[t] else Aged(w.threads[t], s'.loadAvg)
  {
    hide InsertionSort;
    hide Aged;
    var s' := SecondUpdate(w);
    InsertionSortPermutes(w.ready, Priority(s'.threads), HigherPriority);
    SameMembers(w.ready, s'.ready);
  }

  lemma SameMembers<T>(q: seq<T>, r: seq<T>)
    requires multiset(q) == multiset(r)
    ensures |q| == |r| && forall x :: x in q <==> x in r
  {
    assert |q| == |multiset(q)| == |multiset(r)| == |r|;
    forall x ensures x in q <==> x in r {
      assert x in q <==> x in multiset(q);
      assert x in r <==> x in multiset(r);
    }
  }

  // ----- the alarm clock over runs

  /** Nothing but an interrupt at or after its tick takes a sleeper out of the queue. */
  lemma SleeperStays(s: Sched, e: Event, s': Sched, t: Tid)
    requires Inv(s) && Takes(s, e, s') && t in s.sleeping
    ensures t in s.threads && t in s'.threads && s'.threads[t].wakeup == s.threads[t].wakeup
    ensures t in s'.sleeping <==> !(e.TimerTick? && s.threads[t].wakeup <= s.ticks + 1)
    ensures t !in s'.sleeping ==> t in s'.ready
  {
    hide Inv;
    hide InsertOrdered;
    ReadyAre(s);
    CurrentExists(s);
    if Switches(s, e) {
      SwitchMeaning(s, e, s');
    } else if e.TimerTick? {
      TimerMeaning(s, s');
    }
  }

  /** A thread that sleeps until tick `wakeup` stays in the sleep queue up to the first timer
      interrupt that counts that tick or a later one, and that interrupt makes it ready:
      it sleeps neither shorter nor longer. */
  lemma {:induction false} SleepsUntilDue(states: seq<Sched>, es: seq<Event>, wakeup: int, i: nat, j: nat)
    requires IsRun(states, es) && Inv(states[0]) && i < j <= |es|
    requires es[i] == Sleep(wakeup) && states[i].current != states[i].idle
    requires forall k :: i < k < j - 1 ==> !(es[k].TimerTick? && states[k].ticks + 1 >= wakeup)
    ensures var t := states[i].current;
            && t in states[j].threads && states[j].threads[t].wakeup == wakeup
            && if j > i + 1 && es[j - 1].TimerTick? && states[j - 1].ticks + 1 >= wakeup
               then t in states[j].ready && t !in states[j].sleeping
               else t in states[j].sleeping && states[j].threads[t].status == Blocked
  {
    hide Takes;
    hide Inv;
    RunKeeps(states, es, j - 1);
    RunKeeps(states, es, j);
    assert Takes(states[j - 1], es[j - 1], states[j - 1 + 1]);
    ReadyAre(states[j]);
    if j == i + 1 {
      SleepMeaning(states[i], wakeup, states[j]);
    } else {
      SleepsUntilDue(states, es, wakeup, i, j - 1);
      SleeperStays(states[j - 1], es[j - 1], states[j], states[i].current);
    }
  }
}
