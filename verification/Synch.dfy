/** Semaphores and locks under every interleaving (src/threads/synch.c).

    Each region that runs with interrupts off is one step.  A thread inside
    sema_down() is either waiting (blocked on the semaphore's list) or woken
    (unblocked by sema_up() but not yet back at the loop test). */
module Synch {
  import opened Ordering

  type Tid = nat
  type Priorities = map<Tid, int>

  function PriorityIn(p: Priorities): Tid -> int {
    t => if t in p then p[t] else 0
  }

  datatype Sema = Sema(
    value: nat,
    waiters: seq<Tid>,
    woken: set<Tid>,                    // unblocked, about to test the value again
    priority: Priorities,
    initial: nat,
    ups: nat,
    downs: nat)                         // completed downs, by either function

  datatype Step =
    | Down(t: Tid)                      // first test of the loop in sema_down
    | Recheck(t: Tid)                   // the test after waking up
    | TryDown(t: Tid)
    | Up
    | SetPriority(t: Tid, p: int)       // donation or MLFQS, at any time

  predicate Outside(s: Sema, t: Tid) { t !in s.waiters && t !in s.woken }

  predicate Enabled(s: Sema, e: Step) {
    match e
    case Down(t) => Outside(s, t)
    case Recheck(t) => t in s.woken
    case TryDown(t) => Outside(s, t)
    case _ => true
  }

  /** One round of the loop in sema_down. */
  function Attempt(s: Sema, t: Tid): Sema {
    if s.value == 0 then
      s.(waiters := InsertOrdered(s.waiters, t, PriorityIn(s.priority), HigherPriority), woken := s.woken - {t})
    else s.(value := s.value - 1, downs := s.downs + 1, woken := s.woken - {t})
  }

  /** The waiters as sema_up sorts them. */
  function ByPriority(s: Sema): (q: seq<Tid>)
    ensures |q| == |s.waiters|
  {
    InsertionSort(s.waiters, PriorityIn(s.priority), HigherPriority)
  }

  function UpStep(s: Sema): Sema {
    if s.waiters == [] then s.(value := s.value + 1, ups := s.ups + 1)
    else
      var q := ByPriority(s);
      s.(waiters := q[1..], woken := s.woken + {q[0]}, value := s.value + 1, ups := s.ups + 1)
  }

  function Next(s: Sema, e: Step): Sema {
    match e
    case Down(t) => Attempt(s, t)
    case Recheck(t) => Attempt(s, t)
    case TryDown(t) => if s.value > 0 then s.(value := s.value - 1, downs := s.downs + 1) else s
    case Up => UpStep(s)
    case SetPriority(t, p) => s.(priority := s.priority[t := p])
  }

  /** The count is right, and no wake-up is lost: while anybody waits, there are at
      least as many threads on their way to the value as the value would admit. */
  ghost predicate Inv(s: Sema) {
    && s.value + s.downs == s.initial + s.ups
    && NoDup(s.waiters)
    && (forall t :: t in s.waiters ==> t !in s.woken)
    && (s.waiters != [] ==> s.value <= |s.woken|)
  }

  lemma SortFacts(s: Sema)
    requires Inv(s) && s.waiters != []
    ensures var q := ByPriority(s);
            && NoDup(q) && (forall t :: t in q <==> t in s.waiters)
            && q[0] in s.waiters && q[0] !in q[1..]
            && forall t :: t in s.waiters ==> PriorityIn(s.priority)(t) <= PriorityIn(s.priority)(q[0])
  {
    var key := PriorityIn(s.priority);
    var q := ByPriority(s);
    InsertionSortPermutes(s.waiters, key, HigherPriority);
    PermutationFacts(s.waiters, q);
    ComparisonsAreOrders();
    InsertionSortStable(s.waiters, key, HigherPriority);
    assert q[0] in q;
    forall t | t in q ensures key(t) <= key(q[0]) {
      var i :| 0 <= i < |q| && q[i] == t;
      assert i > 0 ==> !HigherPriority(key(q[i]), key(q[0]));
    }
  }

  /** q' is q with t behind every thread of its priority or above and ahead of the rest. */
  ghost predicate QueuedAt(q: seq<Tid>, q': seq<Tid>, t: Tid, i: nat, priority: Tid -> int) {
    && i <= |q| && q' == q[..i] + ([t] + q[i..])
    && (forall j :: 0 <= j < i ==> priority(q[j]) >= priority(t))
    && (i < |q| ==> priority(q[i]) < priority(t))
  }

  lemma {:induction false} QueuePoint(q: seq<Tid>, t: Tid, priority: Tid -> int, i: nat) returns (k: nat)
    requires i <= |q| && forall j :: 0 <= j < i ==> priority(q[j]) >= priority(t)
    ensures QueuedAt(q, InsertOrdered(q, t, priority, HigherPriority), t, k, priority)
    decreases |q| - i
  {
    if i < |q| && priority(q[i]) >= priority(t) {
      k := QueuePoint(q, t, priority, i + 1);
    } else {
      k := i;
      InsertAt(q, t, i, priority, HigherPriority);
    }
  }

  /** A round of sema_down takes one from a positive value and lets the thread pass; a
      thread that meets zero is queued by priority, and nothing else happens to it or
      to the others. */
  lemma AttemptMeaning(s: Sema, t: Tid)
    requires t !in s.waiters
    ensures var s' := Attempt(s, t);
            && s'.woken == s.woken - {t}
            && s'.priority == s.priority && s'.initial == s.initial && s'.ups == s.ups
            && (s.value > 0 ==> s'.value == s.value - 1 && s'.downs == s.downs + 1 && s'.waiters == s.waiters)
            && (s.value == 0 ==>
                  && s'.value == 0 && s'.downs == s.downs
                  && multiset(s'.waiters) == multiset(s.waiters) + multiset{t}
                  && exists i :: QueuedAt(s.waiters, s'.waiters, t, i, PriorityIn(s.priority)))
  {
    if s.value == 0 {
      InsertOrderedPermutes(s.waiters, t, PriorityIn(s.priority), HigherPriority);
      var i := QueuePoint(s.waiters, t, PriorityIn(s.priority), 0);
    }
  }

  lemma AttemptKeeps(s: Sema, t: Tid)
    requires Inv(s) && t !in s.waiters
    ensures Inv(Attempt(s, t))
  {
    if s.value == 0 {
      InsertFacts(s.waiters, t, PriorityIn(s.priority), HigherPriority);
    } else if t in s.woken {
      assert |s.woken| == |s.woken - {t}| + 1;
    }
  }

  lemma UpKeeps(s: Sema)
    requires Inv(s)
    ensures Inv(UpStep(s))
  {
    if s.waiters != [] {
      SortFacts(s);
      var q := ByPriority(s);
      assert forall t :: t in q[1..] ==> t in q;
      assert |s.woken + {q[0]}| == |s.woken| + 1;
    }
  }

  lemma StepKeeps(s: Sema, e: Step)
    requires Inv(s) && Enabled(s, e)
    ensures Inv(Next(s, e))
  {
    match e
    case Down(t) => AttemptKeeps(s, t);
    case Recheck(t) => AttemptKeeps(s, t);
    case Up => UpKeeps(s);
    case _ =>
  }

  /** Each up wakes one waiter, of maximal current priority, and only that one. */
  lemma UpWakesHighest(s: Sema)
    requires Inv(s) && s.waiters != []
    ensures var s' := UpStep(s);
            exists t ::
              && t in s.waiters && s'.woken == s.woken + {t}
              && (forall u :: u in s'.waiters <==> u in s.waiters && u != t)
              && forall u :: u in s.waiters ==> PriorityIn(s.priority)(u) <= PriorityIn(s.priority)(t)
  {
    SortFacts(s);
    var q := ByPriority(s);
    assert q == [q[0]] + q[1..];
  }

  /** A waiter facing a positive value is never stranded: somebody is awake to take
      the value, and taking it completes a down. */
  lemma NoLostWakeup(s: Sema)
    requires Inv(s) && s.waiters != [] && s.value > 0
    ensures exists t :: t in s.woken && Enabled(s, Recheck(t)) && Next(s, Recheck(t)).downs == s.downs + 1
  {
    assert s.woken != {};
    var t :| t in s.woken;
    assert Enabled(s, Recheck(t));
  }

  /** The step by which t gets past its sema_down. */
  predicate Completes(s: Sema, e: Step, t: Tid) {
    (e == Down(t) || e == Recheck(t)) && s.value > 0
  }

  /** A thread is inside sema_down after a step exactly if it was, or has just called it,
      and this step does not let it pass. */
  lemma MembershipStep(s: Sema, e: Step, t: Tid)
    requires Inv(s) && Enabled(s, e)
    ensures !Outside(Next(s, e), t) <==> (!Outside(s, t) || e == Down(t)) && !Completes(s, e, t)
  {
    match e
    case Down(u) => AttemptMembers(s, u);
    case Recheck(u) => AttemptMembers(s, u);
    case TryDown(u) =>
    case Up => UpMembers(s);
    case SetPriority(u, p) =>
  }

  lemma AttemptMembers(s: Sema, t: Tid)
    requires Inv(s) && t !in s.waiters
    ensures var s' := Attempt(s, t);
            && (forall u :: u in s'.waiters <==> u in s.waiters || (u == t && s.value == 0))
            && s'.woken == s.woken - {t}
  {
    if s.value == 0 { InsertFacts(s.waiters, t, PriorityIn(s.priority), HigherPriority); }
  }

  lemma UpMembers(s: Sema)
    requires Inv(s)
    ensures forall u :: Outside(UpStep(s), u) <==> Outside(s, u)
  {
    if s.waiters != [] {
      SortFacts(s);
      var q := ByPriority(s);
      assert q == [q[0]] + q[1..];
    }
  }

  ghost predicate IsRun(states: seq<Sema>, es: seq<Step>) {
    && |states| == |es| + 1
    && forall i :: 0 <= i < |es| ==> Enabled(states[i], es[i]) && states[i + 1] == Next(states[i], es[i])
  }

  ghost predicate Fresh(s: Sema) {
    s.waiters == [] && s.woken == {} && s.value == s.initial && s.ups == s.downs == 0
  }

  /** Under every interleaving since sema_init. */
  lemma {:induction false} RunKeeps(states: seq<Sema>, es: seq<Step>, i: nat)
    requires IsRun(states, es) && Fresh(states[0]) && i <= |es|
    ensures Inv(states[i])
  {
    hide Next;
    if i > 0 {
      RunKeeps(states, es, i - 1);
      assert states[i - 1 + 1] == Next(states[i - 1], es[i - 1]);
      StepKeeps(states[i - 1], es[i - 1]);
    }
  }

  /** sema_down forgets nobody: from its call until the step that lets it pass, a thread
      is queued or on its way back to the test, in every state of every run. */
  lemma {:induction false} WaitsUntilServed(states: seq<Sema>, es: seq<Step>, t: Tid, i: nat, j: nat)
    requires IsRun(states, es) && Fresh(states[0]) && i < j <= |es| && es[i] == Down(t)
    requires forall k :: i <= k < j ==> !Completes(states[k], es[k], t)
    ensures t in states[j].waiters || t in states[j].woken
  {
    hide Next;
    hide Inv;
    hide Fresh;
    RunKeeps(states, es, j - 1);
    assert states[j - 1 + 1] == Next(states[j - 1], es[j - 1]);
    MembershipStep(states[j - 1], es[j - 1], t);
    if i < j - 1 { WaitsUntilServed(states, es, t, i, j - 1); }
  }

  /** And only those: a thread that is inside called sema_down and has not passed since. */
  lemma {:induction false} InsideMeansWaiting(states: seq<Sema>, es: seq<Step>, t: Tid, j: nat) returns (i: nat)
    requires IsRun(states, es) && Fresh(states[0]) && j <= |es| && !Outside(states[j], t)
    ensures i < j && es[i] == Down(t) && forall k :: i <= k < j ==> !Completes(states[k], es[k], t)
  {
    hide Next;
    hide Inv;
    RunKeeps(states, es, j - 1);
    assert states[j - 1 + 1] == Next(states[j - 1], es[j - 1]);
    MembershipStep(states[j - 1], es[j - 1], t);
    if es[j - 1] == Down(t) {
      i := j - 1;
    } else {
      i := InsideMeansWaiting(states, es, t, j - 1);
    }
  }

  // ----- locks

  /** Where a thread is between completing its down and doing its up. */
  datatype Hold = Got | Holding | Releasing

  datatype Holder = Nobody | HeldBy(thread: Tid)

  datatype Lock = Lock(sema: Sema, inside: map<Tid, Hold>, holder: Holder)

  datatype LockStep =
    | Acquire(t: Tid)                   // first test in lock_acquire
    | AcquireAgain(t: Tid)              // the test after waking up
    | TryAcquire(t: Tid)
    | SetHolder(t: Tid)                 // lock->holder = thread_current ()
    | ClearHolder(t: Tid)               // lock->holder = NULL
    | Release(t: Tid)                   // the up in lock_release
    | Reprioritize(t: Tid, p: int)

  predicate LockEnabled(l: Lock, e: LockStep) {
    match e
    case Acquire(t) => l.holder != HeldBy(t) && t !in l.inside && Enabled(l.sema, Down(t))
    case AcquireAgain(t) => t !in l.inside && Enabled(l.sema, Recheck(t))
    case TryAcquire(t) => l.holder != HeldBy(t) && t !in l.inside && Enabled(l.sema, TryDown(t))
    case SetHolder(t) => t in l.inside && l.inside[t] == Got
    case ClearHolder(t) => l.holder == HeldBy(t) && t in l.inside && l.inside[t] == Holding
    case Release(t) => t in l.inside && l.inside[t] == Releasing
    case Reprioritize(t, p) => true
  }

  /** A down that completes lets its thread in. */
  function Enter(l: Lock, e: Step, t: Tid): Lock {
    var s := Next(l.sema, e);
    l.(sema := s, inside := if s.downs > l.sema.downs then l.inside[t := Got] else l.inside)
  }

  function LockNext(l: Lock, e: LockStep): Lock
    requires LockEnabled(l, e)
  {
    match e
    case Acquire(t) => Enter(l, Down(t), t)
    case AcquireAgain(t) => Enter(l, Recheck(t), t)
    case TryAcquire(t) => Enter(l, TryDown(t), t)
    case SetHolder(t) => l.(holder := HeldBy(t), inside := l.inside[t := Holding])
    case ClearHolder(t) => l.(holder := Nobody, inside := l.inside[t := Releasing])
    case Release(t) => l.(sema := Next(l.sema, Up), inside := l.inside - {t})
    case Reprioritize(t, p) => l.(sema := Next(l.sema, SetPriority(t, p)))
  }

  /** The semaphore's count is what the threads inside leave of one, and a holder
      that is set is inside. */
  ghost predicate LockInv(l: Lock) {
    && Inv(l.sema)
    && l.sema.value + |l.inside| == 1
    && forall t :: l.holder == HeldBy(t) <==> t in l.inside && l.inside[t] == Holding
  }

  lemma LockStepKeeps(l: Lock, e: LockStep)
    requires LockInv(l) && LockEnabled(l, e)
    ensures LockInv(LockNext(l, e))
  {
    hide LockInv;
    hide Next;
    match e
    case Acquire(t) => EnterKeeps(l, Down(t), t);
    case AcquireAgain(t) => EnterKeeps(l, Recheck(t), t);
    case TryAcquire(t) => EnterKeeps(l, TryDown(t), t);
    case SetHolder(t) => HolderKeeps(l, t, HeldBy(t), Holding);
    case ClearHolder(t) => HolderKeeps(l, t, Nobody, Releasing);
    case Release(t) => ReleaseKeeps(l, t);
    case Reprioritize(t, p) => ReprioritizeKeeps(l, t, p);
  }

  lemma HolderKeeps(l: Lock, t: Tid, h: Holder, phase: Hold)
    requires LockInv(l) && t in l.inside
    requires (h == HeldBy(t) && phase == Holding) || (h == Nobody && phase == Releasing)
    ensures LockInv(l.(holder := h, inside := l.inside[t := phase]))
  {
    OnlyOne(l, t);
    assert l.inside[t := phase].Keys == l.inside.Keys;
  }

  lemma ReleaseKeeps(l: Lock, t: Tid)
    requires LockInv(l) && t in l.inside && l.inside[t] == Releasing
    ensures LockInv(l.(sema := Next(l.sema, Up), inside := l.inside - {t}))
  {
    UpKeeps(l.sema);
    OnlyOne(l, t);
  }

  lemma ReprioritizeKeeps(l: Lock, t: Tid, p: int)
    requires LockInv(l)
    ensures LockInv(l.(sema := Next(l.sema, SetPriority(t, p))))
  {
    StepKeeps(l.sema, SetPriority(t, p));
  }

  lemma EnterKeeps(l: Lock, e: Step, t: Tid)
    requires LockInv(l) && Enabled(l.sema, e) && t !in l.inside && (e == Down(t) || e == Recheck(t) || e == TryDown(t))
    ensures LockInv(Enter(l, e, t))
  {
    StepKeeps(l.sema, e);
    var l' := Enter(l, e, t);
    if l.sema.value > 0 {
      assert l'.inside.Keys == l.inside.Keys + {t};
    }
  }

  /** Mutual exclusion: a thread between its down and its up is alone. */
  lemma OnlyOne(l: Lock, t: Tid)
    requires LockInv(l) && t in l.inside
    ensures l.inside.Keys == {t} && l.sema.value == 0
    ensures l.holder == Nobody || l.holder == HeldBy(t)
  {
    assert |l.inside.Keys - {t}| == 0;
    assert l.inside.Keys == {t};
  }

  /** Who is between down and up, and whom the holder field names, after a step. */
  lemma LockStepMeaning(l: Lock, e: LockStep, t: Tid)
    requires LockInv(l) && LockEnabled(l, e)
    ensures var l' := LockNext(l, e);
            && (t in l'.inside <==>
                  if e == Acquire(t) || e == AcquireAgain(t) || e == TryAcquire(t) then l.sema.value > 0
                  else t in l.inside && e != Release(t))
            && (l'.holder == HeldBy(t) <==> e == SetHolder(t) || (l.holder == HeldBy(t) && e != ClearHolder(t)))
  {
    match e
    case SetHolder(u) => OnlyOne(l, u);
    case _ =>
  }

  /** Nobody is turned away from a free lock, and a release frees it. */
  lemma LockFreed(l: Lock, t: Tid)
    requires LockInv(l)
    ensures l.sema.value > 0 <==> l.inside == map[]
    ensures LockEnabled(l, Release(t)) ==> LockNext(l, Release(t)).sema.value == 1
  {
    assert |l.inside| == 0 <==> l.inside == map[];
    if LockEnabled(l, Release(t)) {
      LockStepKeeps(l, Release(t));
      OnlyOne(l, t);
      assert LockNext(l, Release(t)).inside == map[];
    }
  }

  ghost predicate IsLockRun(states: seq<Lock>, es: seq<LockStep>) {
    && |states| == |es| + 1
    && forall i :: 0 <= i < |es| ==> LockEnabled(states[i], es[i]) && states[i + 1] == LockNext(states[i], es[i])
  }

  ghost predicate FreshLock(l: Lock) {
    Fresh(l.sema) && l.sema.initial == 1 && l.inside == map[] && l.holder == Nobody
  }

  /** Under every interleaving since lock_init at most one thread is between its
      down and its up, and a holder that is set is that thread. */
  lemma {:induction false} LockRunKeeps(states: seq<Lock>, es: seq<LockStep>, i: nat)
    requires IsLockRun(states, es) && FreshLock(states[0]) && i <= |es|
    ensures LockInv(states[i])
    ensures forall t, u :: t in states[i].inside && u in states[i].inside ==> t == u
    ensures forall t :: t in states[i].inside ==> states[i].holder == Nobody || states[i].holder == HeldBy(t)
    ensures states[i].holder.HeldBy? ==> states[i].holder.thread in states[i].inside
  {
    if i > 0 {
      LockRunKeeps(states, es, i - 1);
      assert states[i - 1 + 1] == LockNext(states[i - 1], es[i - 1]);
      LockStepKeeps(states[i - 1], es[i - 1]);
    }
    forall t | t in states[i].inside ensures forall u :: u in states[i].inside ==> t == u {
      OnlyOne(states[i], t);
    }
  }

  // ----- the operations on a semaphore object

  class Semaphore {
    var value: nat
    var waiters: seq<Tid>
    ghost var woken: set<Tid>
    ghost var priority: Priorities
    ghost var initial: nat
    ghost var ups: nat
    ghost var downs: nat

    ghost function State(): Sema
      reads this
    {
      Sema(value, waiters, woken, priority, initial, ups, downs)
    }

    /** sema_init */
    constructor (v: nat, ghost p: Priorities)
      ensures Fresh(State()) && Inv(State()) && value == v && priority == p
    {
      value, waiters, woken, priority, initial, ups, downs := v, [], {}, p, v, 0, 0;
    }

    /** One round of sema_down by the running thread; false means it blocked. */
    method DownOnce(t: Tid, prio: Priorities) returns (passed: bool)
      requires Inv(State()) && t !in waiters && prio == priority
      modifies this
      ensures State() == Attempt(old(State()), t) && Inv(State())
      ensures passed <==> old(value) > 0
      ensures passed ==> value == old(value) - 1 && waiters == old(waiters)
      ensures !passed ==> value == 0 && multiset(waiters) == multiset(old(waiters)) + multiset{t}
      ensures !passed ==> exists i :: QueuedAt(old(waiters), waiters, t, i, PriorityIn(prio))
    {
      hide Inv;
      hide InsertOrdered;
      hide QueuedAt;
      AttemptKeeps(State(), t);
      AttemptMeaning(State(), t);
      passed := value > 0;
      if value == 0 {
        waiters := InsertOrdered(waiters, t, PriorityIn(prio), HigherPriority);
      } else {
        value := value - 1;
        downs := downs + 1;
      }
      woken := woken - {t};
    }

    /** sema_try_down */
    method TryDownNow(ghost t: Tid) returns (success: bool)
      requires Inv(State()) && Outside(State(), t)
      modifies this
      ensures State() == Next(old(State()), TryDown(t)) && Inv(State())
      ensures success <==> old(value) > 0
      ensures success ==> value == old(value) - 1 && downs == old(downs) + 1
      ensures waiters == old(waiters) && woken == old(woken) && (!success ==> State() == old(State()))
    {
      StepKeeps(State(), TryDown(t));
      if value > 0 {
        value := value - 1;
        downs := downs + 1;
        success := true;
      } else {
        success := false;
      }
    }

    /** sema_up, with the thread it unblocks */
    method UpNow(prio: Priorities) returns (unblocked: seq<Tid>)
      requires Inv(State()) && prio == priority
      modifies this
      ensures State() == UpStep(old(State())) && Inv(State())
      ensures |unblocked| == (if old(waiters) == [] then 0 else 1)
      ensures |unblocked| == 1 ==> woken == old(woken) + {unblocked[0]}
      ensures |unblocked| == 1 ==>
                multiset(old(waiters)) == multiset(waiters) + multiset{unblocked[0]}
                && forall u :: u in old(waiters) ==> PriorityIn(prio)(u) <= PriorityIn(prio)(unblocked[0])
      ensures value == old(value) + 1 && ups == old(ups) + 1
    {
      UpKeeps(State());
      unblocked := [];
      if waiters != [] {
        SortFacts(State());
        InsertionSortPermutes(waiters, PriorityIn(prio), HigherPriority);
        var q := InsertionSort(waiters, PriorityIn(prio), HigherPriority);
        assert q == [q[0]] + q[1..];
        unblocked := [q[0]];
        waiters := q[1..];
        woken := woken + {q[0]};
      }
      value := value + 1;
      ups := ups + 1;
    }
  }
}
