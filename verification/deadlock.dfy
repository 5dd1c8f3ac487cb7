/**
 Deadlock detection over the process table and the single-victim resolution
 policy.

 Process names and resource names share one node space: the graph has an
 edge from each process to the resource it requests and an edge from the
 resource it holds to the process, and a process called "R1" is the same
 node as a resource called "R1".
 */
module Deadlock {
  import opened Wrappers
  import opened Graph
  import opened ProcessTable

  /** The resource-allocation graph of a table. */
  function AllocationGraph(t: map<string, Entry>): (E: set<Edge>)
    ensures forall p :: p in t ==> (p, t[p].requests) in E && (t[p].holds, p) in E
    ensures forall e :: e in E ==> (e.0 in t && e.1 == t[e.0].requests) || (e.1 in t && e.0 == t[e.1].holds)
  {
    (set p | p in t :: (p, t[p].requests)) + (set p | p in t :: (t[p].holds, p))
  }

  /** The table's allocation graph contains a cycle. */
  ghost predicate Deadlocked(s: Store) {
    HasCycle(AllocationGraph(s.table))
  }

  /** Reports whether the table is deadlocked; an empty table never is. */
  function DetectDeadlock(s: Store): (d: bool)
    ensures d <==> Deadlocked(s)
    ensures |s.table| == 0 ==> !d
  {
    if s.table == map[] then
      NoEdgesNoCycle(AllocationGraph(s.table));
      false
    else
      DetectCycle(AllocationGraph(s.table))
  }

  /** The length of the name of the resource process `p` holds: the key the
      victim is chosen by. */
  function HoldsLen(s: Store, p: string): nat
    requires p in s.table
  {
    |s.table[p].holds|
  }

  /** Position `i` of the insertion order holds a process whose held
      resource name is as short as any, and no earlier process ties with it. */
  ghost predicate FirstMinimalAt(s: Store, i: int)
    requires Valid(s)
  {
    && 0 <= i < |s.order|
    && (forall j :: 0 <= j < |s.order| ==> HoldsLen(s, s.order[i]) <= HoldsLen(s, s.order[j]))
    && (forall j :: 0 <= j < i ==> HoldsLen(s, s.order[j]) > HoldsLen(s, s.order[i]))
  }

  /** Python's `min` with a key: scans the names in order from position `i`,
      keeping the best so far and replacing it only by a strictly smaller key. */
  function MinByHoldsFrom(s: Store, i: nat, best: nat): (v: nat)
    requires Valid(s)
    requires best < i <= |s.order|
    requires forall j :: 0 <= j < i ==> HoldsLen(s, s.order[best]) <= HoldsLen(s, s.order[j])
    requires forall j :: 0 <= j < best ==> HoldsLen(s, s.order[j]) > HoldsLen(s, s.order[best])
    ensures FirstMinimalAt(s, v)
    decreases |s.order| - i
  {
    if i == |s.order| then best
    else if HoldsLen(s, s.order[i]) < HoldsLen(s, s.order[best]) then MinByHoldsFrom(s, i + 1, i)
    else MinByHoldsFrom(s, i + 1, best)
  }

  /** The position of the victim in the insertion order. */
  function VictimIndex(s: Store): (v: nat)
    requires Valid(s) && |s.table| > 0
    ensures FirstMinimalAt(s, v)
  {
    assert s.order != [] by {
      var k :| k in s.table;
      assert k in s.order;
    }
    MinByHoldsFrom(s, 1, 0)
  }

  datatype Outcome = NothingToResolve | NoDeadlock | Terminated(victim: string)

  datatype Resolution = Resolution(outcome: Outcome, store: Store)

  /** One resolution request: if the table is deadlocked, delete the process
      whose held resource has the shortest name, the first such in insertion
      order; otherwise leave the table alone. */
  function Resolve(s: Store): (r: Resolution)
    requires Valid(s)
    ensures Valid(r.store)
    ensures r.outcome == NothingToResolve <==> |s.table| == 0
    ensures r.outcome.Terminated? <==> Deadlocked(s)
    ensures !r.outcome.Terminated? ==> r.store == s
    ensures r.outcome.Terminated? ==>
              && r.outcome.victim in s.table
              && (forall k :: k in s.table ==> HoldsLen(s, r.outcome.victim) <= HoldsLen(s, k))
              && (exists i :: FirstMinimalAt(s, i) && s.order[i] == r.outcome.victim
                              && r.store.order == s.order[..i] + s.order[i + 1..])
    ensures r.outcome.Terminated? ==>
              && r.outcome.victim !in r.store.table
              && |r.store.table| == |s.table| - 1
              && (forall k :: k != r.outcome.victim ==> Lookup(r.store, k) == Lookup(s, k))
  {
    if s.table == map[] then
      assert !DetectDeadlock(s);
      Resolution(NothingToResolve, s)
    else if DetectDeadlock(s) then
      var i := VictimIndex(s);
      var victim := s.order[i];
      VictimIsMinimal(s, i);
      var d := Delete(s, victim);
      assert d.order == s.order[..i] + s.order[i + 1..];
      assert victim !in d.table && |d.table| == |s.table| - 1;
      Resolution(Terminated(victim), d)
    else
      Resolution(NoDeadlock, s)
  }

  /** The process at a first-minimal position has a held name no longer than
      that of any process in the table. */
  lemma VictimIsMinimal(s: Store, i: int)
    requires Valid(s) && FirstMinimalAt(s, i)
    ensures s.order[i] in s.table
    ensures forall k :: k in s.table ==> HoldsLen(s, s.order[i]) <= HoldsLen(s, k)
  {
  }

  /** The result of calling Resolve until it stops terminating processes. */
  datatype Run = Run(calls: nat, final: Store)

  /** Repeated resolution: each terminating call removes one process, so a
      table of `n` processes is free of deadlock after at most `n` such calls,
      and what is left is a part of the original table. */
  function ResolveAll(s: Store): (r: Run)
    requires Valid(s)
    ensures Valid(r.final) && !Deadlocked(r.final)
    ensures r.calls <= |s.table|
    ensures |r.final.table| == |s.table| - r.calls
    ensures forall k :: k in r.final.table ==> Lookup(r.final, k) == Lookup(s, k)
    decreases |s.table|
  {
    var res := Resolve(s);
    if res.outcome.Terminated? then
      var rest := ResolveAll(res.store);
      Run(rest.calls + 1, rest.final)
    else
      Run(0, s)
  }

  /** A process that requests, or holds, a resource named like itself forms a
      self-loop and deadlocks on its own. */
  lemma SelfLoopDeadlocks(s: Store, p: string)
    requires p in s.table
    requires s.table[p].requests == p || s.table[p].holds == p
    ensures DetectDeadlock(s)
  {
    var E := AllocationGraph(s.table);
    assert IsCycle(E, [p, p]);
  }

  /** A table of one process deadlocks exactly when two of its three names
      coincide: a self-loop through the name, or a process waiting for the
      resource it holds. */
  lemma SingleProcess(p: string, holds: string, requests: string)
    ensures DetectDeadlock(Store([p], map[p := Entry(holds, requests)]))
        <==> (p == holds || p == requests || holds == requests)
  {
    var t := map[p := Entry(holds, requests)];
    var E := AllocationGraph(t);
    if p == holds || p == requests {
      SelfLoopDeadlocks(Store([p], t), p);
    } else if holds == requests {
      assert (p, requests) in E && (holds, p) in E;
      assert IsCycle(E, [p, holds, p]);
    } else {
      RankedIsAcyclic(E, map[holds := 0, p := 1, requests := 2]);
    }
  }

  /** A terminating call removes the victim's entry and nothing else. */
  lemma ResolveRemovesOnlyVictim(s: Store)
    requires Valid(s)
    ensures Resolve(s).outcome.Terminated? ==>
              Resolve(s).store.table == s.table - {Resolve(s).outcome.victim}
  {
    var r := Resolve(s);
    if r.outcome.Terminated? {
      var v := r.outcome.victim;
      forall k | k in r.store.table
        ensures k in s.table - {v} && r.store.table[k] == s.table[k]
      {
        assert Lookup(r.store, k) == Lookup(s, k);
      }
      forall k | k in s.table - {v}
        ensures k in r.store.table
      {
        assert Lookup(r.store, k) == Lookup(s, k);
      }
    }
  }

  /** Only one position is first-minimal, so the policy names its victim
      unambiguously. */
  lemma FirstMinimalUnique(s: Store, i: int, j: int)
    requires Valid(s) && FirstMinimalAt(s, i) && FirstMinimalAt(s, j)
    ensures i == j
  {
    assert HoldsLen(s, s.order[i]) == HoldsLen(s, s.order[j]);
  }

  /** On a deadlocked table, Resolve terminates the process at the
      first-minimal position. */
  lemma ResolveTerminatesFirstMinimal(s: Store, i: int)
    requires Valid(s) && Deadlocked(s) && FirstMinimalAt(s, i)
    ensures Resolve(s).outcome == Terminated(s.order[i])
  {
    var r := Resolve(s);
    var j :| FirstMinimalAt(s, j) && s.order[j] == r.outcome.victim
             && r.store.order == s.order[..j] + s.order[j + 1..];
    FirstMinimalUnique(s, i, j);
  }

  /** A table that keeps every entry of another has every edge of its graph. */
  lemma AllocationGraphGrows(t: map<string, Entry>, t': map<string, Entry>)
    requires forall p :: p in t ==> p in t' && t'[p] == t[p]
    ensures AllocationGraph(t) <= AllocationGraph(t')
  {
    var E, E' := AllocationGraph(t), AllocationGraph(t');
    forall e | e in E
      ensures e in E'
    {
      if e.0 in t && e.1 == t[e.0].requests {
        assert (e.0, t'[e.0].requests) in E';
      } else {
        assert (t'[e.1].holds, e.1) in E';
      }
    }
  }

  /** Adding a process under a new name only adds edges, so it never removes
      a deadlock. (Overwriting an existing name replaces two edges and can.) */
  lemma AddNewKeepsDeadlock(s: Store, name: string, holds: string, requests: string)
    requires Valid(s) && name !in s.table
    ensures DetectDeadlock(s) ==> DetectDeadlock(Add(s, Some(name), Some(holds), Some(requests)).store)
  {
    var a := Add(s, Some(name), Some(holds), Some(requests)).store;
    forall p | p in s.table
      ensures p in a.table && a.table[p] == s.table[p]
    {
      assert Lookup(a, p) == Lookup(s, p);
    }
    AllocationGraphGrows(s.table, a.table);
    CycleInSupergraph(AllocationGraph(s.table), AllocationGraph(a.table));
  }
}
