/** Chained priority donation (donate_priority in src/threads/synch.c, with
    thread_mlfqs off).

    Threads and locks are named by numbers; a table holds each of their fields. */
module Donation {
  import opened Common

  const LIMIT := 20

  type Tid = nat
  type Lid = nat

  datatype Graph = Graph(priority: map<Tid, int>, waitingOn: map<Tid, Lid>, holder: map<Lid, Tid>)

  /** waiting_on and holder are partial: a thread may wait for no lock, a lock may
      have no holder.  Every thread named has a priority. */
  ghost predicate World(g: Graph) {
    && (forall t :: t in g.waitingOn ==> t in g.priority)
    && (forall l :: l in g.holder ==> g.holder[l] in g.priority)
  }

  function HolderOf(g: Graph, l: Lid): Option<Tid> {
    if l in g.holder then Some(g.holder[l]) else None
  }

  /** The holder that thread t waits for. */
  function Blocker(g: Graph, t: Tid): Option<Tid> {
    if t in g.waitingOn then HolderOf(g, g.waitingOn[t]) else None
  }

  /** No thread waits for a holder of lower priority. */
  ghost predicate Closed(g: Graph) {
    && World(g)
    && forall t :: t in g.priority && Blocker(g, t).Some? ==> g.priority[t] <= g.priority[Blocker(g, t).value]
  }

  /** The holder reached after the first i threads of c, starting from lock. */
  function HolderAt(g: Graph, lock: Lid, c: seq<Tid>, i: nat): Option<Tid>
    requires i <= |c|
  {
    if i == 0 then HolderOf(g, lock) else Blocker(g, c[i - 1])
  }

  /** c follows the chain of holders from lock on, all of them below p. */
  ghost predicate Links(g: Graph, lock: Lid, p: int, c: seq<Tid>) {
    && (forall i :: 0 <= i < |c| ==> c[i] in g.priority && g.priority[c[i]] < p)
    && (forall i {:trigger HolderAt(g, lock, c, i)} :: 0 <= i < |c| ==> HolderAt(g, lock, c, i) == Some(c[i]))
    && (forall i, j :: 0 <= i < j < |c| ==> c[i] != c[j])
  }

  /** It stops at the end, at a holder not below p, or where it meets itself. */
  ghost predicate Stops(g: Graph, lock: Lid, p: int, c: seq<Tid>)
    requires World(g)
  {
    var end := HolderAt(g, lock, c, |c|);
    end.None? || g.priority[end.value] >= p || end.value in c
  }

  ghost predicate Chain(g: Graph, lock: Lid, p: int, c: seq<Tid>)
    requires World(g)
  {
    Links(g, lock, p, c) && Stops(g, lock, p, c)
  }

  /** There is always such a chain, cyclic waits included. */
  lemma ChainExists(g: Graph, lock: Lid, p: int)
    requires World(g)
    ensures exists c :: Chain(g, lock, p, c)
  {
    var c := [];
    var left := g.priority.Keys;
    while !Stops(g, lock, p, c)
      invariant Links(g, lock, p, c)
      invariant forall t :: t in g.priority && t !in c ==> t in left
      decreases left
    {
      var next := HolderAt(g, lock, c, |c|).value;
      ExtendChain(g, lock, p, c, next);
      left := left - {next};
      c := c + [next];
    }
    assert Chain(g, lock, p, c);
  }

  ghost function ChainOf(g: Graph, lock: Lid, p: int): (c: seq<Tid>)
    requires World(g)
    ensures Chain(g, lock, p, c)
  {
    ChainExists(g, lock, p);
    var c :| Chain(g, lock, p, c);
    c
  }

  lemma ExtendChain(g: Graph, lock: Lid, p: int, c: seq<Tid>, next: Tid)
    requires World(g) && Links(g, lock, p, c) && HolderAt(g, lock, c, |c|) == Some(next)
    requires g.priority[next] < p && next !in c
    ensures Links(g, lock, p, c + [next])
  {
    var d := c + [next];
    forall i | 0 <= i < |d| ensures HolderAt(g, lock, d, i) == Some(d[i]) {
      if i < |c| { assert HolderAt(g, lock, c, i) == Some(c[i]); }
    }
  }

  lemma {:induction false} ChainPrefixUnique(g: Graph, lock: Lid, p: int, c: seq<Tid>, d: seq<Tid>, i: nat)
    requires World(g) && Links(g, lock, p, c) && Links(g, lock, p, d) && i <= |c| && i <= |d|
    ensures c[..i] == d[..i]
  {
    if i > 0 {
      ChainPrefixUnique(g, lock, p, c, d, i - 1);
      if i > 1 { assert c[i - 2] == c[..i - 1][i - 2] == d[..i - 1][i - 2] == d[i - 2]; }
      assert HolderAt(g, lock, c, i - 1) == Some(c[i - 1]);
      assert HolderAt(g, lock, d, i - 1) == Some(d[i - 1]);
    }
  }

  /** The chain is determined by the graph, so its length is something a caller can
      look up before the call. */
  lemma ChainUnique(g: Graph, lock: Lid, p: int, c: seq<Tid>, d: seq<Tid>)
    requires World(g) && Chain(g, lock, p, c) && Chain(g, lock, p, d)
    ensures c == d
  {
    hide Links;
    hide Stops;
    if |c| < |d| {
      LongerChain(g, lock, p, c, d);
    } else if |d| < |c| {
      LongerChain(g, lock, p, d, c);
    } else {
      ChainPrefixUnique(g, lock, p, c, d, |c|);
      assert c[..|c|] == c && d[..|c|] == d;
    }
  }

  lemma LongerChain(g: Graph, lock: Lid, p: int, c: seq<Tid>, d: seq<Tid>)
    requires World(g) && Links(g, lock, p, c) && Links(g, lock, p, d) && |c| < |d|
    ensures !Stops(g, lock, p, c)
  {
    ChainPrefixUnique(g, lock, p, c, d, |c|);
    var n := |c|;
    if n > 0 { assert c[n - 1] == c[..n][n - 1] == d[..n][n - 1] == d[n - 1]; }
    assert HolderAt(g, lock, d, n) == Some(d[n]);
    forall i | 0 <= i < n ensures c[i] != d[n] { assert c[i] == c[..n][i] == d[..n][i] == d[i]; }
  }

  /** The graph with the new waiting edge and the first k holders of c raised. */
  function Donated(g: Graph, current: Tid, lock: Lid, c: seq<Tid>, k: nat): Graph
    requires current in g.priority && k <= |c|
  {
    g.(waitingOn := g.waitingOn[current := lock],
       priority := map t | t in g.priority :: if t in c[..k] then g.priority[current] else g.priority[t])
  }

  /** Donation closes the wait graph, the new edge included, if and only if the
      chain of holders below the donor is no longer than the limit.  No priority
      drops in either case. */
  lemma DonationCloses(g: Graph, current: Tid, lock: Lid, c: seq<Tid>)
    requires Closed(g) && current in g.priority
    requires Chain(g, lock, g.priority[current], c)
    ensures var g' := Donated(g, current, lock, c, if |c| <= LIMIT then |c| else LIMIT);
            && (Closed(g') <==> |c| <= LIMIT)
            && forall t :: t in g.priority ==> t in g'.priority && g.priority[t] <= g'.priority[t]
  {
    var p := g.priority[current];
    var k := if |c| <= LIMIT then |c| else LIMIT;
    var g' := Donated(g, current, lock, c, k);
    forall t | t in g.priority ensures t in g'.priority && g.priority[t] <= g'.priority[t] {
      if t in c[..k] { var i :| 0 <= i < k && c[..k][i] == t; assert c[i] == t; }
    }
    if |c| <= LIMIT {
      assert c[..k] == c;
      forall t | t in g'.priority && Blocker(g', t).Some? ensures g'.priority[t] <= g'.priority[Blocker(g', t).value] {
        EdgeClosed(g, current, lock, c, g', t);
      }
    } else {
      OpenEdge(g, current, lock, c, g');
    }
  }

  lemma EdgeClosed(g: Graph, current: Tid, lock: Lid, c: seq<Tid>, g': Graph, t: Tid)
    requires Closed(g) && current in g.priority
    requires Chain(g, lock, g.priority[current], c) && g' == Donated(g, current, lock, c, |c|)
    requires t in g'.priority && Blocker(g', t).Some?
    ensures Blocker(g', t).value in g'.priority && g'.priority[t] <= g'.priority[Blocker(g', t).value]
  {
    var p := g.priority[current];
    var h := Blocker(g', t).value;
    assert c[..|c|] == c;
    if h in c {
      // h now has the donor's priority, which nobody along the way exceeds
      if t != current && t !in c { assert g.priority[t] <= g.priority[h]; }
    } else if t in c {
      var i :| 0 <= i < |c| && c[i] == t;
      assert HolderAt(g, lock, c, i + 1) == Some(h) by { assert t != current; }
    } else if t == current {
      assert HolderAt(g, lock, c, 0) == Some(h);
    } else {
      assert g.priority[t] <= g.priority[h];
    }
  }

  /** Past the limit the chain is left with a waiter above its holder. */
  lemma OpenEdge(g: Graph, current: Tid, lock: Lid, c: seq<Tid>, g': Graph)
    requires World(g) && current in g.priority
    requires Links(g, lock, g.priority[current], c) && |c| > LIMIT && g' == Donated(g, current, lock, c, LIMIT)
    ensures !Closed(g')
  {
    var t, h := c[LIMIT - 1], c[LIMIT];
    assert HolderAt(g, lock, c, LIMIT) == Some(h);
    assert c[..LIMIT][LIMIT - 1] == t;
    assert t != current && Blocker(g', t) == Some(h);
    assert h !in c[..LIMIT];
  }

  /** Only the waiting edge is new, and no way of closing the graph that takes no
      priority away raises any thread less. */
  lemma DonationLeast(g: Graph, current: Tid, lock: Lid, c: seq<Tid>, k: nat, h: Graph)
    requires World(g) && current in g.priority && Chain(g, lock, g.priority[current], c) && k <= |c|
    requires Closed(h) && h.holder == g.holder && h.waitingOn == g.waitingOn[current := lock]
    requires forall t :: t in g.priority ==> t in h.priority && g.priority[t] <= h.priority[t]
    ensures var g' := Donated(g, current, lock, c, k);
            && g'.holder == h.holder && g'.waitingOn == h.waitingOn && g'.priority.Keys == g.priority.Keys
            && forall t :: t in g'.priority ==> g'.priority[t] <= h.priority[t]
  {
    forall t | t in c[..k] ensures t in h.priority && g.priority[current] <= h.priority[t] {
      var i :| 0 <= i < k && c[..k][i] == t;
      RaisedAt(g, current, lock, c, h, i);
    }
  }

  lemma {:induction false} RaisedAt(g: Graph, current: Tid, lock: Lid, c: seq<Tid>, h: Graph, i: nat)
    requires World(g) && current in g.priority && Links(g, lock, g.priority[current], c) && i < |c|
    requires Closed(h) && h.holder == g.holder && h.waitingOn == g.waitingOn[current := lock]
    requires forall t :: t in g.priority ==> t in h.priority && g.priority[t] <= h.priority[t]
    ensures c[i] in h.priority && g.priority[current] <= h.priority[c[i]]
  {
    var t := if i == 0 then current else c[i - 1];
    assert HolderAt(g, lock, c, i) == Some(c[i]);
    assert Blocker(h, t) == Some(c[i]);
    if i > 0 { RaisedAt(g, current, lock, c, h, i - 1); }
  }

  /** A convoy of n holders: thread t, from 1 on, holds lock t and all but the last
      wait for lock t + 1; thread 0 has the only priority above 0. */
  function Convoy(n: nat): Graph {
    Graph(map t: Tid | 0 <= t <= n :: ConvoyPriority(t),
          map t: Tid | 1 <= t < n :: NextLock(t),
          map l: Lid | 1 <= l <= n :: OwnerOf(l))
  }

  function ConvoyPriority(t: Tid): int { if t == 0 then 1 else 0 }

  function NextLock(t: Tid): Lid { t + 1 }

  function OwnerOf(l: Lid): Tid { l }

  function ConvoyChain(n: nat): seq<Tid> { seq(n, i => i + 1) }

  lemma ConvoyChains(n: nat)
    ensures var g := Convoy(n); Closed(g) && 0 in g.priority && Chain(g, 1, g.priority[0], ConvoyChain(n))
  {
    var g, c := Convoy(n), ConvoyChain(n);
    forall i | 0 <= i < |c| ensures HolderAt(g, 1, c, i) == Some(c[i]) {
    }
    assert HolderAt(g, 1, c, n) == None;
  }

  /** When thread 0 of a convoy of 21 asks for lock 1, the last holder of the chain stays
      below the thread that waits for it. */
  lemma DonationFallsShort()
    ensures var g, c := Convoy(LIMIT + 1), ConvoyChain(LIMIT + 1);
            && Closed(g) && 0 in g.priority && Chain(g, 1, g.priority[0], c)
            && var g' := Donated(g, 0, 1, c, LIMIT);
               && !Closed(g')
               && Blocker(g', LIMIT) == Some(LIMIT + 1)
               && g'.priority[LIMIT] == 1 && g'.priority[LIMIT + 1] == 0
  {
    hide Links;
    hide Stops;
    hide Closed;
    var g, c := Convoy(LIMIT + 1), ConvoyChain(LIMIT + 1);
    ConvoyChains(LIMIT + 1);
    assert c[..LIMIT][LIMIT - 1] == LIMIT && c[LIMIT] == LIMIT + 1;
    ClosedWorld(g);
    OpenEdge(g, 0, 1, c, Donated(g, 0, 1, c, LIMIT));
  }

  lemma ClosedWorld(g: Graph)
    requires Closed(g)
    ensures World(g)
  {
  }

  class LockTable {
    var priority: map<Tid, int>
    var waitingOn: map<Tid, Lid>
    var holder: map<Lid, Tid>

    ghost function State(): Graph
      reads this
    {
      Graph(priority, waitingOn, holder)
    }

    /** donate_priority, up to the donor list: raises the first LIMIT holders of the
        chain and nothing else, and ends even when the chain is a cycle. */
    method DonatePriority(current: Tid, lock: Lid)
      requires World(State()) && current in priority
      modifies this`priority, this`waitingOn
      ensures var c := ChainOf(old(State()), lock, old(priority[current]));
              State() == Donated(old(State()), current, lock, c, if |c| <= LIMIT then |c| else LIMIT)
    {
      hide Links;
      hide Stops;
      hide Donated;
      ghost var g := State();
      ghost var c := ChainOf(g, lock, priority[current]);
      waitingOn := waitingOn[current := lock];
      var curLock := lock;
      var depth := 0;
      DonatedFacts(g, current, lock, c, 0);
      while depth < LIMIT
        invariant 0 <= depth <= LIMIT && depth <= |c|
        invariant State() == Donated(g, current, lock, c, depth)
        invariant HolderOf(g, curLock) == HolderAt(g, lock, c, depth)
        decreases LIMIT - depth
      {
        DonatedFacts(g, current, lock, c, depth);
        if curLock !in holder {
          ChainEnds(g, current, lock, c, depth);
          break;
        }
        var h := holder[curLock];
        if priority[current] > priority[h] {
          RaiseOne(g, current, lock, c, depth, h);
          priority := priority[h := priority[current]];
          depth := depth + 1;
          if h in waitingOn {
            curLock := waitingOn[h];
          } else {
            ChainEnds(g, current, lock, c, depth);
            break;
          }
        } else {
          ChainEnds(g, current, lock, c, depth);
          break;
        }
      }
    }
  }

  lemma DonatedFacts(g: Graph, current: Tid, lock: Lid, c: seq<Tid>, k: nat)
    requires World(g) && current in g.priority && k <= |c|
    ensures var g' := Donated(g, current, lock, c, k);
            && g'.holder == g.holder && g'.waitingOn == g.waitingOn[current := lock]
            && g'.priority.Keys == g.priority.Keys && g'.priority[current] == g.priority[current]
    ensures Donated(g, current, lock, c, 0) == g.(waitingOn := g.waitingOn[current := lock])
  {
    var g0 := Donated(g, current, lock, c, 0);
    assert g0.priority == g.priority;
  }

  /** The loop stops early only at the end of the chain. */
  lemma ChainEnds(g: Graph, current: Tid, lock: Lid, c: seq<Tid>, k: nat)
    requires World(g) && current in g.priority && k <= |c|
    requires Chain(g, lock, g.priority[current], c)
    requires var h := HolderAt(g, lock, c, k);
             h.None? || Donated(g, current, lock, c, k).priority[h.value] >= g.priority[current]
    ensures k == |c|
  {
    if k < |c| { NotRaised(g, lock, g.priority[current], c, k); }
  }

  /** The chain meets each holder once. */
  lemma NotRaised(g: Graph, lock: Lid, p: int, c: seq<Tid>, k: nat)
    requires Links(g, lock, p, c) && k < |c|
    ensures HolderAt(g, lock, c, k) == Some(c[k]) && c[k] in g.priority && g.priority[c[k]] < p && c[k] !in c[..k]
  {
  }

  lemma WholePrefix(c: seq<Tid>)
    ensures c[..|c|] == c
  {
  }

  /** A holder below the donor is the next of the chain. */
  lemma RaiseOne(g: Graph, current: Tid, lock: Lid, c: seq<Tid>, k: nat, h: Tid)
    requires World(g) && current in g.priority && k <= |c|
    requires Chain(g, lock, g.priority[current], c) && HolderAt(g, lock, c, k) == Some(h)
    requires Donated(g, current, lock, c, k).priority[h] < g.priority[current]
    ensures k < |c| && c[k] == h && h != current
    ensures var d := Donated(g, current, lock, c, k);
            Donated(g, current, lock, c, k + 1) == d.(priority := d.priority[h := g.priority[current]])
  {
    WholePrefix(c);
    if k < |c| {
      NotRaised(g, lock, g.priority[current], c, k);
      assert c[..k + 1] == c[..k] + [h];
    }
  }
}
