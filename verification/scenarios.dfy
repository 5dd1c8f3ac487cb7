/**
 A concrete scenario: two processes in a circular wait, built with the add
 operation, then detected and resolved.
 */
module Scenarios {
  import opened Wrappers
  import opened Graph
  import opened ProcessTable
  import opened Deadlock

  /** The two process names of the scenario differ. */
  lemma P1NeP2()
    ensures "P1" != "P2"
  {
    assert "P1"[1] != "P2"[1];
  }

  /** The table after adding P1 (holding R1, requesting R2) and then P2
      (holding R2, requesting R1). */
  function TwoProcessTable(): (s: Store)
    ensures Valid(s)
  {
    P1NeP2();
    Store(["P1", "P2"], map["P1" := Entry("R1", "R2"), "P2" := Entry("R2", "R1")])
  }

  /** Adding P1 to the empty table stores it as the only entry. */
  lemma AddFirstProcess(s0: Store)
    requires s0 == Empty
    ensures Add(s0, Some("P1"), Some("R1"), Some("R2"))
            == AddReply(Added("P1"), Store(["P1"], map["P1" := Entry("R1", "R2")]))
  {
  }

  /** Adding P2 next appends it after P1, giving the two-process table. */
  lemma AddSecondProcess(s1: Store)
    requires s1 == Store(["P1"], map["P1" := Entry("R1", "R2")])
    ensures Add(s1, Some("P2"), Some("R2"), Some("R1")) == AddReply(Added("P2"), TwoProcessTable())
  {
    P1NeP2();
    assert "P2" !in s1.table;
  }

  /** Adding the two processes to an empty table yields that table. */
  lemma AddTwoProcesses(s0: Store)
    requires s0 == Empty
    ensures Add(Add(s0, Some("P1"), Some("R1"), Some("R2")).store, Some("P2"), Some("R2"), Some("R1"))
            == AddReply(Added("P2"), TwoProcessTable())
  {
    AddFirstProcess(s0);
    AddSecondProcess(Add(s0, Some("P1"), Some("R1"), Some("R2")).store);
  }

  /** The two-process table is deadlocked: P1 -> R2 -> P2 -> R1 -> P1. */
  lemma TwoProcessDeadlocked(s: Store)
    requires s == TwoProcessTable()
    ensures DetectDeadlock(s)
  {
    var t := s.table;
    P1NeP2();
    assert t["P1"] == Entry("R1", "R2") && t["P2"] == Entry("R2", "R1");
    var E := AllocationGraph(t);
    assert ("P1", "R2") in E && ("R2", "P2") in E && ("P2", "R1") in E && ("R1", "P1") in E;
    assert IsCycle(E, ["P1", "R2", "P2", "R1", "P1"]);
  }

  /** In the two-process table, P1 is first among the processes with the
      shortest held name. */
  lemma TwoProcessFirstMinimal(s: Store)
    requires s == TwoProcessTable()
    ensures Valid(s) && FirstMinimalAt(s, 0)
  {
    P1NeP2();
  }

  /** Resolving the two-process table terminates P1: both held names have
      length two, and P1 came first. */
  lemma TwoProcessVictim(s: Store)
    requires s == TwoProcessTable()
    ensures Resolve(s).outcome == Terminated("P1")
  {
    TwoProcessFirstMinimal(s);
    TwoProcessDeadlocked(s);
    ResolveTerminatesFirstMinimal(s, 0);
  }

  /** After resolving the two-process table only P2 is left. */
  lemma TwoProcessRemainder(s: Store)
    requires s == TwoProcessTable()
    ensures Resolve(s).store.table == map["P2" := Entry("R2", "R1")]
  {
    TwoProcessFirstMinimal(s);
    TwoProcessVictim(s);
    ResolveRemovesOnlyVictim(s);
    TwoProcessMinusP1(s.table);
  }

  /** Removing P1 from the two-process table leaves P2 alone. */
  lemma TwoProcessMinusP1(t: map<string, Entry>)
    requires t == TwoProcessTable().table
    ensures t - {"P1"} == map["P2" := Entry("R2", "R1")]
  {
    P1NeP2();
  }

  /** P2 alone, holding R2 and requesting R1, is not deadlocked: the ranking
      R2 < P2 < R1 rises along both of its edges. */
  lemma LoneP2Free(s: Store)
    requires s.table == map["P2" := Entry("R2", "R1")]
    ensures !DetectDeadlock(s)
  {
    RankedIsAcyclic(AllocationGraph(s.table), map["R2" := 0, "P2" := 1, "R1" := 2]);
  }

  /** The scenario of two processes each waiting for the other's resource:
      detection reports a deadlock, resolution terminates P1, and afterwards
      only P2 is left and there is no deadlock. */
  lemma TwoProcessScenario(s: Store)
    requires s == TwoProcessTable()
    ensures DetectDeadlock(s)
    ensures Resolve(s).outcome == Terminated("P1")
    ensures Resolve(s).store.table == map["P2" := Entry("R2", "R1")]
    ensures !DetectDeadlock(Resolve(s).store)
  {
    TwoProcessDeadlocked(s);
    TwoProcessVictim(s);
    TwoProcessRemainder(s);
    LoneP2Free(Resolve(s).store);
  }
}
