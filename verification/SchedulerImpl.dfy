/** The scheduler's state as the kernel keeps it, with each operation written as
    the source writes it and proved equal to its step in `Scheduler`. */
module SchedulerImpl {
  import opened Ordering
  import opened Mlfqs
  import opened Scheduler

  lemma UpdatePossible(s: Sched)
    requires Inv(s)
    ensures 0 <= LoadNext(s.loadAvg, ReadyCount(s))
  {
  }

  lemma SameThreads(s: Sched)
    requires Inv(s)
    ensures s.current in s.threads && TickAndWake(s).threads.Keys == s.threads.Keys
    ensures CanUpdate(s) && Interrupt(s).threads.Keys == s.threads.Keys
  {
    hide Inv;
    hide Wake;
    hide MlfqsTick;
    hide InsertionSort;
    CurrentExists(s);
    TickKeeps(s);
    TickAndWakeKeeps(s);
    InterruptKeeps(s);
  }

  lemma TickLater(s: Sched)
    requires Inv(s)
    ensures Inv(s.(ticks := s.ticks + 1))
  {
    CurrentChanged(s, s.threads[s.current], s.ticks + 1);
    assert s.threads[s.current := s.threads[s.current]] == s.threads;
  }

  lemma Removed<T>(q: seq<T>, i: nat)
    requires NoDup(q) && i < |q|
    ensures NoDup(q[..i] + q[i + 1..])
    ensures forall x :: x in q[..i] + q[i + 1..] <==> x in q && x != q[i]
  {
    var r := q[..i] + q[i + 1..];
    assert forall j :: 0 <= j < |r| ==> r[j] == q[if j < i then j else j + 1];
    forall x | x in q && x != q[i] ensures x in r {
      var j :| 0 <= j < |q| && q[j] == x;
      assert r[if j < i then j else j - 1] == x;
    }
  }

  /** t stands behind the ready threads of its priority and above, ahead of the rest. */
  ghost predicate PlacedAt(q: seq<Tid>, q': seq<Tid>, t: Tid, i: nat, priority: Tid -> int) {
    && i <= |q| && q' == q[..i] + ([t] + q[i..])
    && (forall j :: 0 <= j < i ==> priority(q[j]) >= priority(t))
    && (forall j :: i <= j < |q| ==> priority(q[j]) < priority(t))
  }

  lemma Placed(s: Sched, t: Tid, i: nat)
    requires ListOk(s) && i <= |s.ready|
    requires forall j :: 0 <= j < i ==> !HigherPriority(Priority(s.threads)(t), Priority(s.threads)(s.ready[j]))
    requires i < |s.ready| ==> HigherPriority(Priority(s.threads)(t), Priority(s.threads)(s.ready[i]))
    ensures PlacedAt(s.ready, s.ready[..i] + ([t] + s.ready[i..]), t, i, Priority(s.threads))
  {
    var key := Priority(s.threads);
    forall j | i <= j < |s.ready| ensures key(s.ready[j]) < key(t) {
      if j > i { assert !HigherPriority(key(s.ready[j]), key(s.ready[i])); }
    }
  }

  /** list_insert_ordered: the search, and where it stops. */
  method ListInsertOrdered(q: seq<Tid>, t: Tid, key: Tid -> int, less: (int, int) -> bool)
    returns (r: seq<Tid>, ghost i: nat)
    ensures r == InsertOrdered(q, t, key, less)
    ensures i <= |q| && r == q[..i] + ([t] + q[i..])
    ensures forall j :: 0 <= j < i ==> !less(key(t), key(q[j]))
    ensures i < |q| ==> less(key(t), key(q[i]))
  {
    var k := 0;
    while k < |q| && !less(key(t), key(q[k]))
      invariant k <= |q|
      invariant forall j :: 0 <= j < k ==> !less(key(t), key(q[j]))
    {
      k := k + 1;
    }
    InsertAt(q, t, k, key, less);
    r, i := q[..k] + ([t] + q[k..]), k;
  }

  /** schedule() may be called: the ready list is in order and nobody runs. */
  ghost predicate CanSwitch(s: Sched) {
    ListOk(s) && s.idle in s.threads && forall t :: t in s.threads ==> s.threads[t].status != Running
  }

  lemma SwitchReady(s: Sched, e: Event)
    requires Inv(s) && Enabled(s, e) && Switches(s, e)
    ensures s.current in s.threads
    ensures var b := BeforeSwitch(s, e);
            CanSwitch(b) && Next(b) in b.threads && Inv(Schedule(b)) && Schedule(b).threads.Keys == b.threads.Keys
  {
    hide ListOk;
    hide SleepOk;
    SwitchPossible(s, e);
    SwitchKeeps(s, e);
  }

  /** all_list names every thread once. */
  ghost predicate Listed(all: seq<Tid>, threads: set<Tid>) {
    NoDup(all) && forall t :: t in all <==> t in threads
  }

  lemma ListedAdd(all: seq<Tid>, threads: set<Tid>, t: Tid)
    requires Listed(all, threads) && t !in threads
    ensures Listed(all + [t], threads + {t})
  {
  }

  lemma ListedHas(all: seq<Tid>, threads: set<Tid>, t: Tid)
    requires Listed(all, threads) && t in threads
    ensures t in all
  {
  }

  lemma ListedRemove(all: seq<Tid>, threads: set<Tid>, i: nat)
    requires Listed(all, threads) && i < |all|
    ensures Listed(all[..i] + all[i + 1..], threads - {all[i]})
  {
    Removed(all, i);
  }

  /** A ready thread has a higher priority than the running one. */
  predicate Outranked(s: Sched) {
    s.ready != [] && Priority(s.threads)(s.ready[0]) > Priority(s.threads)(s.current)
  }

  /** The running thread has the highest priority. */
  ghost predicate TopRuns(s: Sched) {
    forall t :: t in s.ready ==> Priority(s.threads)(t) <= Priority(s.threads)(s.current)
  }

  lemma NotOutranked(s: Sched)
    requires Inv(s) && !Outranked(s)
    ensures TopRuns(s)
  {
    var key := Priority(s.threads);
    forall t | t in s.ready ensures key(t) <= key(s.current) {
      var i :| 0 <= i < |s.ready| && s.ready[i] == t;
      if i > 0 { assert !HigherPriority(key(s.ready[i]), key(s.ready[0])); }
    }
  }

  lemma YieldedTop(s: Sched)
    requires Inv(s) && s.current in s.threads
    ensures var b := GiveUp(s); Next(b) in b.threads && TopRuns(Schedule(b))
  {
    hide Inv;
    hide InsertOrdered;
    SwitchKeeps(s, Yield);
    var b := GiveUp(s);
    var s' := Schedule(b);
    forall t | t in s'.ready ensures Priority(s'.threads)(t) <= Priority(s'.threads)(s'.current) {
      assert t in b.ready;
    }
  }

  lemma IdleNotReady(s: Sched)
    requires ListOk(s)
    ensures s.idle !in s.ready && forall t :: t in s.ready ==> t in s.threads
  {
  }

  /** What thread_unblock relies on for the first sleeper. */
  lemma FirstSleeper(s: Sched)
    requires ReadyOk(s) && SleepersOk(s) && s.sleeping != []
    ensures var t := s.sleeping[0];
            t in s.threads && t != s.idle && s.threads[t].status == Blocked && ListOk(s.(sleeping := s.sleeping[1..]))
  {
    assert s.sleeping[0] in s.sleeping;
  }

  lemma NewcomerReady(s: Sched, t: Tid)
    requires Inv(s) && t !in s.threads
    ensures s.current in s.threads && t != s.idle
    ensures var c := s.threads[s.current];
            var child := Thread(Blocked, PriorityOf(c.recentCpu, c.nice), c.nice, c.recentCpu, 0);
            ListOk(s.(threads := s.threads[t := child]))
  {
    var c := s.threads[s.current];
    var s1 := s.(threads := s.threads[t := Thread(Blocked, PriorityOf(c.recentCpu, c.nice), c.nice, c.recentCpu, 0)]);
    SortedSameKeys(s.ready, Priority(s.threads), Priority(s1.threads), HigherPriority);
  }

  lemma SortedNothing<T, K>(key: T -> K, less: (K, K) -> bool)
    ensures InsertionSort([], key, less) == []
  {
  }

  class Kernel {
    var threads: map<Tid, Thread>
    var allList: seq<Tid>
    var readyList: seq<Tid>
    var sleepingList: seq<Tid>
    var current: Tid
    const idle: Tid
    var loadAvg: int
    var nextWakeup: int
    var ticks: nat

    ghost function State(): Sched
      reads this
    {
      Sched(threads, readyList, sleepingList, current, idle, loadAvg, nextWakeup, ticks)
    }

    ghost predicate Valid()
      reads this
    {
      Inv(State()) && Listed(allList, threads.Keys)
    }

    /** thread_unblock */
    method ThreadUnblock(t: Tid)
      requires ListOk(State()) && t in threads && t != idle && threads[t].status == Blocked
      modifies this`threads, this`readyList
      ensures State() == Unblock(old(State()), t) && ListOk(State())
      ensures exists i :: PlacedAt(old(readyList), readyList, t, i, Priority(old(threads)))
    {
      hide ListOk;
      hide InsertOrdered;
      EnqueueKeeps(State(), t);
      ghost var i;
      readyList, i := ListInsertOrdered(readyList, t, Priority(threads), HigherPriority);
      Placed(old(State()), t, i);
      threads := threads[t := threads[t].(status := Ready)];
    }

    /** schedule, called with nobody running: the thread of highest priority runs next,
        the idle thread only if none is ready. */
    method SwitchThreads()
      requires CanSwitch(State())
      modifies this`threads, this`readyList, this`current
      ensures Next(old(State())) in old(threads) && State() == Schedule(old(State()))
      ensures ReadyOk(State()) && (current == idle <==> old(readyList) == [])
      ensures forall t :: t in old(readyList) ==> Priority(threads)(t) <= Priority(threads)(current)
    {
      hide ListOk;
      ScheduleKeeps(State());
      IdleNotReady(State());
      var next;
      if readyList == [] {
        next := idle;
      } else {
        next := readyList[0];
        readyList := readyList[1..];
      }
      current := next;
      threads := threads[next := threads[next].(status := Running)];
    }

    /** thread_yield */
    method ThreadYield()
      requires Valid()
      modifies this`threads, this`readyList, this`current
      ensures Valid() && Takes(old(State()), Yield, State())
      ensures Switched(old(State()), Yield, State()) && Dispatched(old(State()), Yield, current)
    {
      hide Inv;
      hide CanSwitch;
      hide InsertOrdered;
      hide ReadyOk;
      hide Listed;
      SwitchReady(State(), Yield);
      var cur := current;
      if cur != idle {
        ghost var i;
        readyList, i := ListInsertOrdered(readyList, cur, Priority(threads), HigherPriority);
      }
      threads := threads[cur := threads[cur].(status := Ready)];
      assert threads.Keys == old(threads.Keys);
      SwitchThreads();
      SwitchMeaning(old(State()), Yield, State());
    }

    /** thread_block */
    method ThreadBlock()
      requires Valid()
      modifies this`threads, this`readyList, this`current
      ensures Valid() && Takes(old(State()), Block, State())
      ensures Switched(old(State()), Block, State()) && Dispatched(old(State()), Block, current)
    {
      hide Inv;
      hide CanSwitch;
      hide ReadyOk;
      hide Listed;
      SwitchReady(State(), Block);
      threads := threads[current := threads[current].(status := Blocked)];
      assert threads.Keys == old(threads.Keys);
      SwitchThreads();
      SwitchMeaning(old(State()), Block, State());
    }

    /** thread_sleep */
    method ThreadSleep(wakeup: int)
      requires Valid() && wakeup < INT64_MAX
      modifies this
      ensures Valid() && Takes(old(State()), Sleep(wakeup), State())
      ensures old(current) != idle ==>
                && old(current) in sleepingList && old(current) in threads && nextWakeup <= wakeup
                && threads[old(current)].wakeup == wakeup && threads[old(current)].status == Blocked
    {
      hide Inv;
      hide CanSwitch;
      hide InsertOrdered;
      hide ReadyOk;
      hide Listed;
      hide Wakeup;
      hide HigherPriority;
      hide Earlier;
      CurrentExists(State());
      if current == idle {
        return;
      }
      SwitchReady(State(), Sleep(wakeup));
      var t := current;
      threads := threads[t := threads[t].(wakeup := wakeup)];
      ghost var i;
      sleepingList, i := ListInsertOrdered(sleepingList, t, Wakeup(threads), Earlier);
      if wakeup < nextWakeup {
        nextWakeup := wakeup;
      }
      threads := threads[t := threads[t].(status := Blocked)];
      assert threads.Keys == old(threads.Keys);
      SwitchThreads();
      SleepMeaning(old(State()), wakeup, State());
    }

    /** thread_exit */
    method ThreadExit()
      requires Valid() && current != idle
      modifies this
      ensures Valid() && Takes(old(State()), Exit, State())
      ensures Switched(old(State()), Exit, State()) && Dispatched(old(State()), Exit, current)
    {
      hide Inv;
      hide CanSwitch;
      hide ReadyOk;
      hide Listed;
      SwitchReady(State(), Exit);
      ListedHas(allList, threads.Keys, current);
      var i := IndexOf(current);
      ListedRemove(allList, threads.Keys, i);
      allList := allList[..i] + allList[i + 1..];
      threads := threads - {current};
      assert threads.Keys == old(threads.Keys) - {current};
      SwitchThreads();
      SwitchMeaning(old(State()), Exit, State());
    }

    method IndexOf(t: Tid) returns (i: nat)
      requires t in allList
      ensures i < |allList| && allList[i] == t
    {
      i := 0;
      while allList[i] != t
        invariant i < |allList| && t in allList[i..]
        decreases |allList| - i
      {
        assert allList[i..] == [allList[i]] + allList[i + 1..];
        i := i + 1;
      }
    }

    /** thread_create, without the stack frames */
    method ThreadCreate(t: Tid)
      requires Valid() && t !in threads && current != idle
      modifies this
      ensures Valid() && Takes(old(State()), CreateThread(t), State())
      ensures t in readyList && t in threads && old(current) in old(threads)
      ensures threads[t].nice == old(threads)[old(current)].nice
      ensures threads[t].recentCpu == old(threads)[old(current)].recentCpu
      ensures threads[t].priority == PriorityOf(threads[t].recentCpu, threads[t].nice)
    {
      hide Inv;
      hide InsertOrdered;
      hide HigherPriority;
      hide PriorityOf;
      hide ListOk;
      hide Listed;
      CreateKeeps(State(), t);
      NewcomerReady(State(), t);
      var c := threads[current];
      ListedAdd(allList, threads.Keys, t);
      allList := allList + [t];
      threads := threads[t := Thread(Blocked, PriorityOf(c.recentCpu, c.nice), c.nice, c.recentCpu, 0)];
      assert threads.Keys == old(threads.Keys) + {t};
      ThreadUnblock(t);
      assert threads.Keys == old(threads.Keys) + {t};
      CreateMeaning(old(State()), t, State());
    }

    /** thread_set_nice: the new nice value takes effect, and when the call returns no
        ready thread has a higher priority than the running one. */
    method ThreadSetNice(nice: int)
      requires Valid() && current != idle
      modifies this`threads, this`readyList, this`current
      ensures Valid() && TopRuns(State())
      ensures old(current) in old(threads)
      ensures var mid := SetNice(old(State()), nice);
              && Takes(old(State()), ChangeNice(nice), mid)
              && if Outranked(mid) then Takes(mid, Yield, State()) else State() == mid
    {
      hide Inv;
      hide Listed;
      hide TopRuns;
      hide InsertOrdered;
      hide PriorityOf;
      SetNiceKeeps(State(), nice);
      CurrentExists(State());
      ghost var keys := threads.Keys;
      CurrentChanged(State(), threads[current].(nice := nice), ticks);
      threads := threads[current := threads[current].(nice := nice)];
      UpdatePriorityMlfqs();
      assert threads.Keys == keys;
      TryThreadYield();
    }

    /** try_thread_yield */
    method TryThreadYield()
      requires Valid()
      modifies this`threads, this`readyList, this`current
      ensures Valid() && TopRuns(State())
      ensures if Outranked(old(State())) then Takes(old(State()), Yield, State()) else State() == old(State())
    {
      hide Inv;
      hide TopRuns;
      hide InsertOrdered;
      CurrentExists(State());
      if readyList != [] && Priority(threads)(readyList[0]) > threads[current].priority {
        YieldedTop(State());
        ThreadYield();
      } else {
        NotOutranked(State());
      }
    }

    /** thread_update_priority_mlfqs on the running thread, which is in no list */
    method UpdatePriorityMlfqs()
      requires Inv(State()) && current in threads
      modifies this`threads
      ensures Inv(State()) && State() == UpdatePriority(old(State()))
      ensures current != idle ==>
                threads[current].priority == PriorityOf(threads[current].recentCpu, threads[current].nice)
      ensures forall t :: t in old(threads) && t != current ==> t in threads && threads[t] == old(threads)[t]
    {
      hide Inv;
      ghost var was := State();
      var c := threads[current];
      var p := if current == idle then PRI_MIN else PriorityOf(c.recentCpu, c.nice);
      if p != c.priority {
        threads := threads[current := c.(priority := p)];
      }
      assert threads == old(threads)[current := c.(priority := p)];
      CurrentChanged(was, c.(priority := p), ticks);
    }

    /** thread_mlfqs_tick: charges the tick to the running thread, unless it is idle */
    method ThreadMlfqsTick()
      requires Inv(State()) && current in threads
      modifies this`threads
      ensures Inv(State()) && State() == MlfqsTick(old(State()))
      ensures current in threads
      ensures threads[current].recentCpu == old(threads)[current].recentCpu + if current == idle then 0 else F
      ensures forall t :: t in old(threads) && t != current ==> t in threads && threads[t] == old(threads)[t]
    {
      hide Inv;
      if current != idle {
        var c := threads[current];
        CurrentChanged(State(), c.(recentCpu := c.recentCpu + F), ticks);
        threads := threads[current := c.(recentCpu := c.recentCpu + F)];
      }
      if ticks % TIME_PER_PRIORITY == 0 {
        UpdatePriorityMlfqs();
      }
    }

    /** The wake-up part of timer_interrupt. */
    method WakeSleepers()
      requires Inv(State())
      modifies this`threads, this`readyList, this`sleepingList, this`nextWakeup
      ensures State() == Wake(old(State()))
    {
      hide InsertOrdered;
      if ticks >= nextWakeup {
        WakeAllDue();
        if sleepingList != [] {
          WakeOne(State());
          nextWakeup := threads[sleepingList[0]].wakeup;
        } else {
          nextWakeup := INT64_MAX;
        }
      }
    }

    method WakeAllDue()
      requires ReadyOk(State()) && SleepersOk(State())
      modifies this`threads, this`readyList, this`sleepingList
      ensures State() == WakeLoop(old(State())) && ReadyOk(State()) && SleepersOk(State())
    {
      hide ReadyOk;
      hide SleepersOk;
      hide InsertOrdered;
      hide ListOk;
      ghost var goal := WakeLoop(State());
      while sleepingList != []
        invariant ReadyOk(State()) && SleepersOk(State()) && WakeLoop(State()) == goal
        decreases |sleepingList|
      {
        WakeOne(State());
        FirstSleeper(State());
        var t := sleepingList[0];
        if ticks < threads[t].wakeup { break; }
        sleepingList := sleepingList[1..];
        ThreadUnblock(t);
      }
    }

    /** The threads after the loops have reached position i of all_list. */
    static ghost predicate AgedUpTo(was: map<Tid, Thread>, now: map<Tid, Thread>, all: seq<Tid>, i: nat, idle: Tid,
                                    load: int)
      requires 0 <= load
    {
      && i <= |all| && now.Keys == was.Keys
      && forall t :: t in was ==> now[t] == if t in all[..i] && t != idle then Aged(was[t], load) else was[t]
    }

    static lemma AgedStep(was: map<Tid, Thread>, now: map<Tid, Thread>, all: seq<Tid>, i: nat, idle: Tid, load: int)
      requires 0 <= load && AgedUpTo(was, now, all, i, idle, load) && i < |all| && all[i] in was && NoDup(all)
      ensures now[all[i]] == was[all[i]]
      ensures AgedUpTo(was, if all[i] == idle then now else now[all[i] := Aged(was[all[i]], load)], all, i + 1, idle,
                       load)
    {
      assert all[..i + 1] == all[..i] + [all[i]];
      assert all[i] !in all[..i];
    }

    /** mlfqs_update_load_avg_and_recent_cpu_all and mlfqs_recompute_priority_all */
    method OneSecondUpdate()
      requires Valid()
      modifies this`loadAvg, this`threads, this`readyList
      ensures 0 <= LoadNext(old(loadAvg), ReadyCount(old(State())))
      ensures State() == SecondUpdate(old(State()))
    {
      hide Inv;
      hide InsertionSort;
      hide LoadNext;
      hide Coeff;
      hide AgedAll;
      UpdatePossible(State());
      var coeff := UpdateLoad();
      AgeThreads(coeff);
      if readyList != [] {
        readyList := InsertionSort(readyList, Priority(threads), HigherPriority);
      } else {
        SortedNothing(Priority(threads), HigherPriority);
      }
    }

    /** The new load average, and the coefficient that goes with it. */
    method UpdateLoad() returns (coeff: int)
      requires 0 <= LoadNext(loadAvg, ReadyCount(State()))
      modifies this`loadAvg
      ensures loadAvg == LoadNext(old(loadAvg), ReadyCount(old(State()))) && coeff == Coeff(loadAvg)
    {
      var ready := |readyList|;
      if current != idle {
        ready := ready + 1;
      }
      loadAvg := FpDivMix(loadAvg * 59, 60) + FpDivMix(ready * F, 60);
      coeff := FpDiv(loadAvg * 2, loadAvg * 2 + F);
    }

    /** The two loops over all_list. */
    method AgeThreads(coeff: int)
      requires 0 <= loadAvg && coeff == Coeff(loadAvg) && forall t :: t in allList <==> t in threads
      requires NoDup(allList)
      modifies this`threads
      ensures threads == AgedAll(old(threads), idle, loadAvg)
    {
      hide FpMult;
      hide FpDiv;
      hide PriorityOf;
      hide NoDup;
      var i := 0;
      while i < |allList|
        invariant AgedUpTo(old(threads), threads, allList, i, idle, loadAvg)
      {
        var t := allList[i];
        AgedStep(old(threads), threads, allList, i, idle, loadAvg);
        if t != idle {
          var o := threads[t];
          var rc := FpMult(coeff, o.recentCpu) + o.nice * F;
          threads := threads[t := o.(recentCpu := rc, priority := PriorityOf(rc, o.nice))];
        }
        i := i + 1;
      }
      assert allList[..i] == allList;
    }

    /** timer_interrupt */
    method TimerInterrupt()
      requires Valid()
      modifies this
      ensures Valid() && Takes(old(State()), TimerTick, State())
    {
      hide Inv;
      hide Wake;
      hide MlfqsTick;
      hide SecondUpdate;
      hide Woken;
      InterruptKeeps(State());
      TickAndWakeKeeps(State());
      CurrentExists(State());
      TickKeeps(State());
      SameThreads(State());
      TickLater(State());
      ticks := ticks + 1;
      ThreadMlfqsTick();
      WakeSleepers();
      if ticks % TIMER_FREQ == 0 {
        OneSecondUpdate();
      }
    }
  }
}
