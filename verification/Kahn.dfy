/** Kahn's worklist over an edge list. */
module Kahn {
  import opened Graphs

  /** Number of entries of `sources` that are not in `done`. */
  function Pending(sources: seq<nat>, done: seq<nat>): (count: nat)
    ensures count == 0 <==> forall u :: u in sources ==> u in done
  {
    if sources == [] then 0
    else
      var u := sources[|sources| - 1];
      assert sources == sources[..|sources| - 1] + [u];
      Pending(sources[..|sources| - 1], done) + if u in done then 0 else 1
  }

  /** Finishing `u` releases exactly the edges that leave `u`. */
  lemma {:induction false} PendingDone(sources: seq<nat>, done: seq<nat>, u: nat)
    requires u !in done
    ensures Pending(sources, done) == Pending(sources, done + [u]) + Count(sources, u)
  {
    if sources != [] {
      PendingDone(sources[..|sources| - 1], done, u);
      assert sources == sources[..|sources| - 1] + [sources[|sources| - 1]];
    }
  }

  lemma {:induction false} NoneDone(sources: seq<nat>)
    ensures Pending(sources, []) == |sources|
  {
    if sources != [] {
      NoneDone(sources[..|sources| - 1]);
    }
  }

  /** Adjacency lists, predecessor lists and indegrees, filled edge by edge. */
  method Neighbours(edges: seq<Edge>, n: nat)
    returns (adjacency: seq<seq<nat>>, predecessors: seq<seq<nat>>, indegree: seq<nat>)
    requires InRange(edges, n)
    ensures |adjacency| == |predecessors| == |indegree| == n
    ensures forall v :: 0 <= v < n ==> adjacency[v] == Successors(edges, v)
    ensures forall v :: 0 <= v < n ==> predecessors[v] == Predecessors(edges, v)
    ensures forall v :: 0 <= v < n ==> indegree[v] == |Predecessors(edges, v)|
  {
    adjacency, predecessors := seq(n, _ => []), seq(n, _ => []);
    indegree := seq(n, _ => 0);
    for k := 0 to |edges|
      invariant |adjacency| == |predecessors| == |indegree| == n
      invariant forall v :: 0 <= v < n ==> adjacency[v] == Successors(edges[..k], v)
      invariant forall v :: 0 <= v < n ==> predecessors[v] == Predecessors(edges[..k], v)
      invariant forall v :: 0 <= v < n ==> indegree[v] == |Predecessors(edges[..k], v)|
    {
      var (from, to) := edges[k];
      assert edges[k] in edges;
      assert edges[..k + 1][..k] == edges[..k];
      adjacency := adjacency[from := adjacency[from] + [to]];
      predecessors := predecessors[to := predecessors[to] + [from]];
      indegree := indegree[to := indegree[to] + 1];
    }
    assert edges[..|edges|] == edges;
  }

  /** The listed vertices are exactly those whose counter has reached zero. */
  ghost predicate Listed(listed: seq<nat>, n: nat, indegree: seq<nat>) {
    && |indegree| == n && Distinct(listed) && Below(listed, n)
    && forall v :: 0 <= v < n ==> (v in listed <==> indegree[v] == 0)
  }

  /** The counters are the pending predecessors, less the edges already released. */
  ghost predicate Counted(edges: seq<Edge>, n: nat, order: seq<nat>, released: seq<nat>, indegree: seq<nat>) {
    && |indegree| == n
    && forall v :: 0 <= v < n ==> indegree[v] + Count(released, v) == Pending(Predecessors(edges, v), order)
  }

  /** Every ordered vertex comes after all its predecessors. */
  ghost predicate Closed(edges: seq<Edge>, order: seq<nat>) {
    forall i :: 0 <= i < |order| ==> Pending(Predecessors(edges, order[i]), order[..i]) == 0
  }

  /** Between two vertices: the ordered ones are finished, the queued ones are ready. */
  ghost predicate Worklist(edges: seq<Edge>, n: nat, order: seq<nat>, queue: seq<nat>, indegree: seq<nat>) {
    Listed(order + queue, n, indegree) && Counted(edges, n, order, [], indegree) && Closed(edges, order)
  }

  lemma ListedDecrement(started: seq<nat>, queue: seq<nat>, n: nat, indegree: seq<nat>, v: nat)
    requires |indegree| == n && Listed(started + queue, n, indegree) && v < n && indegree[v] > 0
    ensures Listed(started + if indegree[v] == 1 then queue + [v] else queue, n, indegree[v := indegree[v] - 1])
  {
    assert v !in started + queue;
    assert started + (queue + [v]) == started + queue + [v];
  }

  /** The next target of `u` still has the edge from `u` pending. */
  lemma StillPending(edges: seq<Edge>, order: seq<nat>, u: nat, j: nat)
    requires u !in order && j < |Successors(edges, u)|
    ensures var v := Successors(edges, u)[j];
            Count(Successors(edges, u)[..j], v) < Pending(Predecessors(edges, v), order)
  {
    var targets := Successors(edges, u);
    var v := targets[j];
    NeighbourCounts(edges, u, v);
    PendingDone(Predecessors(edges, v), order, u);
    CountNext(targets, j, v);
    CountPrefix(targets, j + 1, v);
  }

  lemma CountedDecrement(edges: seq<Edge>, n: nat, order: seq<nat>, u: nat, j: nat, indegree: seq<nat>)
    requires InRange(edges, n) && u !in order && j < |Successors(edges, u)|
    requires Counted(edges, n, order, Successors(edges, u)[..j], indegree)
    ensures var v := Successors(edges, u)[j];
            && v < n && indegree[v] > 0
            && Counted(edges, n, order, Successors(edges, u)[..j + 1], indegree[v := indegree[v] - 1])
  {
    var targets := Successors(edges, u);
    NeighboursAreEdges(edges, u, targets[j]);
    StillPending(edges, order, u, j);
    forall v | 0 <= v < n
      ensures Count(targets[..j + 1], v) == Count(targets[..j], v) + if targets[j] == v then 1 else 0
    {
      CountNext(targets, j, v);
    }
  }

  lemma CountedFinish(edges: seq<Edge>, n: nat, order: seq<nat>, u: nat, indegree: seq<nat>)
    requires u !in order && Counted(edges, n, order, Successors(edges, u), indegree)
    ensures Counted(edges, n, order + [u], [], indegree)
  {
    forall v | 0 <= v < n
      ensures indegree[v] == Pending(Predecessors(edges, v), order + [u])
    {
      NeighbourCounts(edges, u, v);
      PendingDone(Predecessors(edges, v), order, u);
    }
  }

  lemma ClosedAppend(edges: seq<Edge>, order: seq<nat>, u: nat)
    requires Closed(edges, order) && Pending(Predecessors(edges, u), order) == 0
    ensures Closed(edges, order + [u])
  {
    forall i | 0 <= i < |order + [u]|
      ensures Pending(Predecessors(edges, (order + [u])[i]), (order + [u])[..i]) == 0
    {
      assert (order + [u])[..i] == order[..i];
    }
  }

  /** The head of the queue is a new vertex without pending predecessors. */
  lemma HeadIsReady(edges: seq<Edge>, n: nat, order: seq<nat>, queue: seq<nat>, indegree: seq<nat>)
    requires Worklist(edges, n, order, queue, indegree) && queue != []
    ensures queue[0] < n && queue[0] !in order && |order| < n
    ensures Pending(Predecessors(edges, queue[0]), order) == 0
    ensures order + [queue[0]] + queue[1..] == order + queue
  {
    hide Pending, Predecessors;
    var listed, u := order + queue, queue[0];
    assert listed == order + [u] + queue[1..];
    MiddleIsNew(order, u, queue[1..]);
    assert listed[|order|] == u;
    DistinctBelow(listed, n);
    assert u in listed;
  }

  lemma MiddleIsNew(order: seq<nat>, u: nat, queue: seq<nat>)
    requires Distinct(order + [u] + queue)
    ensures u !in order
  {
    var listed := order + [u] + queue;
    assert listed[|order|] == u;
    assert forall i :: 0 <= i < |order| ==> listed[i] == order[i];
  }

  /** Release the edges that leave `u`: decrement the counter of every target, queue those that reach zero. */
  method Release(edges: seq<Edge>, n: nat, ghost order: seq<nat>, u: nat, targets: seq<nat>, queue: seq<nat>,
                 indegree: seq<nat>)
    returns (queue': seq<nat>, indegree': seq<nat>)
    requires InRange(edges, n) && u !in order && targets == Successors(edges, u)
    requires Listed(order + [u] + queue, n, indegree) && Counted(edges, n, order, [], indegree)
    ensures Listed(order + [u] + queue', n, indegree') && Counted(edges, n, order, targets, indegree')
  {
    queue', indegree' := queue, indegree;
    assert targets[..0] == [];
    for j := 0 to |targets|
      invariant |indegree'| == n && Listed(order + [u] + queue', n, indegree')
      invariant Counted(edges, n, order, targets[..j], indegree')
    {
      hide Listed, Counted, Successors, InRange;
      var v := targets[j];
      CountedDecrement(edges, n, order, u, j, indegree');
      ListedDecrement(order + [u], queue', n, indegree', v);
      indegree' := indegree'[v := indegree'[v] - 1];
      if indegree'[v] == 0 {
        queue' := queue' + [v];
      }
    }
    assert targets[..|targets|] == targets;
  }

  /** A worklist that has run dry either orders all vertices or is stuck. */
  lemma WorklistDone(edges: seq<Edge>, n: nat, order: seq<nat>, indegree: seq<nat>)
    requires InRange(edges, n) && Worklist(edges, n, order, [], indegree)
    ensures |order| == n ==> Topological(order, edges, n)
    ensures |order| != n ==> HasCycle(edges, n)
    ensures Distinct(order) && Below(order, n)
  {
    assert order + [] == order;
    DistinctBelow(order, n);
    if |order| == n {
      forall i, j | 0 <= i < n && 0 <= j < n && (order[i], order[j]) in edges ensures i < j {
        NeighboursAreEdges(edges, order[i], order[j]);
        assert order[i] in order[..j];
      }
    } else {
      var v: nat :| v < n && v !in order;
      assert Stuck(edges, n, order);
      StuckHasCycle(edges, n, order, v);
    }
  }

  lemma StartWorklist(edges: seq<Edge>, n: nat, queue: seq<nat>, indegree: seq<nat>)
    requires Listed(queue, n, indegree)
    requires forall v :: 0 <= v < n ==> indegree[v] == |Predecessors(edges, v)|
    ensures Worklist(edges, n, [], queue, indegree)
  {
    assert [] + queue == queue;
    forall v | 0 <= v < n ensures indegree[v] == Pending(Predecessors(edges, v), []) {
      NoneDone(Predecessors(edges, v));
    }
  }

  method KahnOrder(edges: seq<Edge>, n: nat, adjacency: seq<seq<nat>>, indegrees: seq<nat>)
    returns (order: seq<nat>)
    requires InRange(edges, n) && |adjacency| == |indegrees| == n
    requires forall v :: 0 <= v < n ==> adjacency[v] == Successors(edges, v)
    requires forall v :: 0 <= v < n ==> indegrees[v] == |Predecessors(edges, v)|
    ensures |order| == n ==> Topological(order, edges, n)
    ensures |order| == n <==> !HasCycle(edges, n)
  {
    var indegree := indegrees;
    var queue := ZeroIndegree(indegrees);
    order := [];
    StartWorklist(edges, n, queue, indegree);
    while queue != []
      invariant Worklist(edges, n, order, queue, indegree)
      decreases n - |order|
    {
      HeadIsReady(edges, n, order, queue, indegree);
      var u := queue[0];
      queue, indegree := Release(edges, n, order, u, adjacency[u], queue[1..], indegree);
      CountedFinish(edges, n, order, u, indegree);
      ClosedAppend(edges, order, u);
      order := order + [u];
    }
    WorklistDone(edges, n, order, indegree);
    if |order| == n {
      TopologicalIsAcyclic(order, edges, n);
    }
  }

  /** The vertices without predecessors, in index order. */
  method ZeroIndegree(indegree: seq<nat>) returns (ready: seq<nat>)
    ensures Distinct(ready) && Below(ready, |indegree|)
    ensures forall v :: 0 <= v < |indegree| ==> (v in ready <==> indegree[v] == 0)
  {
    ready := [];
    for v := 0 to |indegree|
      invariant Distinct(ready) && Below(ready, v)
      invariant forall w :: 0 <= w < v ==> (w in ready <==> indegree[w] == 0)
    {
      if indegree[v] == 0 {
        ready := ready + [v];
      }
    }
  }
}
