/**
 Directed graphs over string-named nodes, given by their set of edges, with a
 declarative notion of cycle and an executable has-cycle check.

 The check repeatedly discards the nodes that have no predecessor among the
 nodes still kept (Kahn-style pruning). What survives is the largest set of
 nodes in which every node has a predecessor, and that set is non-empty
 exactly when some node reaches itself by one or more edges.
 */
module Graph {

  type Node = string
  type Edge = (Node, Node)

  /** The nodes that are an endpoint of some edge. */
  function Nodes(E: set<Edge>): (ns: set<Node>)
    ensures forall e :: e in E ==> e.0 in ns && e.1 in ns
    ensures forall n :: n in ns ==> exists e :: e in E && (e.0 == n || e.1 == n)
  {
    (set e | e in E :: e.0) + (set e | e in E :: e.1)
  }

  /** The elements of a sequence, as a set. */
  function Elems(w: seq<Node>): set<Node> {
    set x | x in w
  }

  /** `w` follows edges of `E` from its first node to its last. */
  ghost predicate IsWalk(E: set<Edge>, w: seq<Node>) {
    |w| >= 1 && forall i :: 0 <= i < |w| - 1 ==> (w[i], w[i + 1]) in E
  }

  /** A walk of one or more edges that returns to where it started; a
      self-loop `[a, a]` is one. */
  ghost predicate IsCycle(E: set<Edge>, w: seq<Node>) {
    IsWalk(E, w) && |w| >= 2 && w[0] == w[|w| - 1]
  }

  /** Some node reaches itself by a path of one or more edges. */
  ghost predicate HasCycle(E: set<Edge>) {
    exists w :: IsCycle(E, w)
  }

  /** `v` has a predecessor inside `R`. */
  predicate HasPredIn(R: set<Node>, E: set<Edge>, v: Node) {
    exists u :: u in R && (u, v) in E
  }

  /** Every node of `R` has a predecessor inside `R`. */
  ghost predicate Closed(R: set<Node>, E: set<Edge>) {
    forall v :: v in R ==> HasPredIn(R, E, v)
  }

  /** One round of pruning: the nodes of `R` that still have a predecessor in `R`. */
  function Step(R: set<Node>, E: set<Edge>): set<Node> {
    set v | v in R && HasPredIn(R, E, v)
  }

  /** Prunes `R` until no node without a predecessor is left. */
  function Prune(R: set<Node>, E: set<Edge>): (K: set<Node>)
    ensures K <= R
    ensures Closed(K, E)
    decreases R
  {
    var R' := Step(R, E);
    if R' == R then R else Prune(R', E)
  }

  /** The executable has-cycle check: something survives pruning. */
  function DetectCycle(E: set<Edge>): (b: bool)
    ensures b <==> HasCycle(E)
  {
    PruneSound(E);
    PruneComplete(E);
    Prune(Nodes(E), E) != {}
  }

  /** Pruning keeps every set of nodes that is closed under predecessors:
      its result is the largest closed subset of `R`. */
  lemma {:induction false} ClosedSurvives(R: set<Node>, E: set<Edge>, C: set<Node>)
    requires C <= R
    requires Closed(C, E)
    ensures C <= Prune(R, E)
    decreases R
  {
    var R' := Step(R, E);
    forall v | v in C
      ensures v in R'
    {
      var u :| u in C && (u, v) in E;
      assert HasPredIn(R, E, v);
    }
    if R' != R {
      ClosedSurvives(R', E, C);
    }
  }

  /** Walking backwards inside a closed set must eventually revisit a node,
      which closes a cycle. */
  lemma {:induction false} CycleFromClosed(E: set<Edge>, R: set<Node>, w: seq<Node>)
    requires Closed(R, E)
    requires IsWalk(E, w)
    requires forall i :: 0 <= i < |w| ==> w[i] in R
    ensures HasCycle(E)
    decreases R - Elems(w)
  {
    assert HasPredIn(R, E, w[0]);
    var u :| u in R && (u, w[0]) in E;
    if u in w {
      var k :| 0 <= k < |w| && w[k] == u;
      var c := [u] + w[..k + 1];
      forall i | 0 <= i < |c| - 1
        ensures (c[i], c[i + 1]) in E
      {
        if i > 0 {
          assert c[i] == w[i - 1] && c[i + 1] == w[i];
        }
      }
      assert IsCycle(E, c);
    } else {
      var w' := [u] + w;
      forall i | 0 <= i < |w'| - 1
        ensures (w'[i], w'[i + 1]) in E
      {
        if i > 0 {
          assert w'[i] == w[i - 1] && w'[i + 1] == w[i];
        }
      }
      assert Elems(w') == Elems(w) + {u};
      CycleFromClosed(E, R, w');
    }
  }

  /** The nodes of a cycle form a closed set inside the graph's nodes. */
  lemma CycleNodesClosed(E: set<Edge>, c: seq<Node>)
    requires IsCycle(E, c)
    ensures Closed(Elems(c), E)
    ensures Elems(c) <= Nodes(E)
  {
    forall v | v in Elems(c)
      ensures HasPredIn(Elems(c), E, v) && v in Nodes(E)
    {
      var i :| 0 <= i < |c| && c[i] == v;
      var j := if i == 0 then |c| - 1 else i;
      assert c[j] == v;
      assert (c[j - 1], c[j]) in E;
      assert c[j - 1] in Elems(c);
    }
  }

  /** A non-empty pruning result yields a cycle. */
  lemma PruneSound(E: set<Edge>)
    ensures Prune(Nodes(E), E) != {} ==> HasCycle(E)
  {
    var K := Prune(Nodes(E), E);
    if K != {} {
      var v :| v in K;
      ClosedNodeGivesCycle(E, K, v);
    }
  }

  /** Any node of a closed set lies on a walk that closes a cycle. */
  lemma ClosedNodeGivesCycle(E: set<Edge>, K: set<Node>, v: Node)
    requires Closed(K, E) && v in K
    ensures HasCycle(E)
  {
    CycleFromClosed(E, K, [v]);
  }

  /** A cycle survives pruning, so the pruning result is non-empty. */
  lemma PruneComplete(E: set<Edge>)
    ensures HasCycle(E) ==> Prune(Nodes(E), E) != {}
  {
    if HasCycle(E) {
      var c :| IsCycle(E, c);
      CycleNodesClosed(E, c);
      ClosedSurvives(Nodes(E), E, Elems(c));
      assert c[0] in Elems(c);
    }
  }

  /** `rank` increases strictly along every edge. */
  ghost predicate RankedBy(E: set<Edge>, rank: map<Node, int>) {
    forall e :: e in E ==> e.0 in rank && e.1 in rank && rank[e.0] < rank[e.1]
  }

  /** Along a walk of one or more edges the rank strictly increases. */
  lemma {:induction false} WalkRaisesRank(E: set<Edge>, rank: map<Node, int>, w: seq<Node>)
    requires RankedBy(E, rank)
    requires IsWalk(E, w) && |w| >= 2
    ensures w[0] in rank && w[|w| - 1] in rank && rank[w[0]] < rank[w[|w| - 1]]
    decreases |w|
  {
    assert (w[0], w[1]) in E;
    if |w| > 2 {
      var w' := w[1..];
      forall i | 0 <= i < |w'| - 1
        ensures (w'[i], w'[i + 1]) in E
      {
        assert w'[i] == w[i + 1] && w'[i + 1] == w[i + 2];
      }
      WalkRaisesRank(E, rank, w');
    }
  }

  /** A ranking that increases along every edge certifies that there is no cycle. */
  lemma RankedIsAcyclic(E: set<Edge>, rank: map<Node, int>)
    requires RankedBy(E, rank)
    ensures !HasCycle(E)
  {
    if HasCycle(E) {
      var c :| IsCycle(E, c);
      WalkRaisesRank(E, rank, c);
    }
  }

  /** A graph without edges has no cycle. */
  lemma NoEdgesNoCycle(E: set<Edge>)
    requires E == {}
    ensures !HasCycle(E)
  {
    RankedIsAcyclic(E, map[]);
  }

  /** Adding edges never removes a cycle. */
  lemma CycleInSupergraph(E: set<Edge>, E': set<Edge>)
    requires E <= E'
    ensures HasCycle(E) ==> HasCycle(E')
  {
    if HasCycle(E) {
      var c :| IsCycle(E, c);
      assert IsCycle(E', c);
    }
  }
}
