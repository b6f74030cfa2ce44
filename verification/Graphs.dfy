/** Edge lists: paths, cycles, topological orders and longest paths. */
module Graphs {

  type Edge = (nat, nat)

  predicate InRange(edges: seq<Edge>, n: nat) {
    forall e :: e in edges ==> e.0 < n && e.1 < n
  }

  /** The sources of the edges into `v`, in insertion order. */
  function Predecessors(edges: seq<Edge>, v: nat): seq<nat> {
    if edges == [] then []
    else
      var e := edges[|edges| - 1];
      Predecessors(edges[..|edges| - 1], v) + if e.1 == v then [e.0] else []
  }

  /** The targets of the edges from `u`, in insertion order. */
  function Successors(edges: seq<Edge>, u: nat): seq<nat> {
    if edges == [] then []
    else
      var e := edges[|edges| - 1];
      Successors(edges[..|edges| - 1], u) + if e.0 == u then [e.1] else []
  }

  /** `picks` are the positions of the edges that `chosen` selects, in insertion order. */
  ghost predicate Picks(edges: seq<Edge>, chosen: Edge -> bool, picks: seq<nat>) {
    && (forall i :: 0 <= i < |picks| ==> picks[i] < |edges| && chosen(edges[picks[i]]))
    && (forall i, j :: 0 <= i < j < |picks| ==> picks[i] < picks[j])
    && (forall k :: 0 <= k < |edges| && chosen(edges[k]) ==> k in picks)
  }

  /** The predecessors of `v` are the sources of exactly the edges into `v`, in insertion order. */
  lemma {:induction false} PredecessorsInOrder(edges: seq<Edge>, v: nat) returns (picks: seq<nat>)
    ensures Picks(edges, (e: Edge) => e.1 == v, picks)
    ensures |Predecessors(edges, v)| == |picks|
    ensures forall i :: 0 <= i < |picks| ==> Predecessors(edges, v)[i] == edges[picks[i]].0
    decreases |edges|
  {
    if edges == [] {
      picks := [];
    } else {
      var last := |edges| - 1;
      var before := PredecessorsInOrder(edges[..last], v);
      picks := before + if edges[last].1 == v then [last] else [];
      PicksNext(edges, (e: Edge) => e.1 == v, before);
    }
  }

  /** The successors of `u` are the targets of exactly the edges from `u`, in insertion order. */
  lemma {:induction false} SuccessorsInOrder(edges: seq<Edge>, u: nat) returns (picks: seq<nat>)
    ensures Picks(edges, (e: Edge) => e.0 == u, picks)
    ensures |Successors(edges, u)| == |picks|
    ensures forall i :: 0 <= i < |picks| ==> Successors(edges, u)[i] == edges[picks[i]].1
    decreases |edges|
  {
    if edges == [] {
      picks := [];
    } else {
      var last := |edges| - 1;
      var before := SuccessorsInOrder(edges[..last], u);
      picks := before + if edges[last].0 == u then [last] else [];
      PicksNext(edges, (e: Edge) => e.0 == u, before);
    }
  }

  lemma PicksNext(edges: seq<Edge>, chosen: Edge -> bool, before: seq<nat>)
    requires edges != [] && Picks(edges[..|edges| - 1], chosen, before)
    ensures Picks(edges, chosen, before + if chosen(edges[|edges| - 1]) then [|edges| - 1] else [])
  {
    var last := |edges| - 1;
    var picks := before + if chosen(edges[last]) then [last] else [];
    forall k | 0 <= k < |edges| && chosen(edges[k]) ensures k in picks {
      if k < last { assert edges[..last][k] == edges[k] && k in before; } else { assert picks[|picks| - 1] == last; }
    }
  }

  function Count(s: seq<nat>, x: nat): nat {
    if s == [] then 0 else Count(s[..|s| - 1], x) + if s[|s| - 1] == x then 1 else 0
  }

  lemma CountNext(s: seq<nat>, j: nat, x: nat)
    requires j < |s|
    ensures Count(s[..j + 1], x) == Count(s[..j], x) + if s[j] == x then 1 else 0
  {
    assert s[..j + 1][..j] == s[..j];
  }

  lemma {:induction false} CountPrefix(s: seq<nat>, j: nat, x: nat)
    requires j <= |s|
    ensures Count(s[..j], x) <= Count(s, x)
  {
    if j < |s| {
      CountPrefix(s[..|s| - 1], j, x);
      assert s[..|s| - 1][..j] == s[..j];
    } else {
      assert s[..j] == s;
    }
  }

  lemma CountAppend(s: seq<nat>, tail: seq<nat>, x: nat)
    requires |tail| <= 1
    ensures Count(s + tail, x) == Count(s, x) + Count(tail, x)
  {
    if tail == [] {
      assert s + tail == s;
    } else {
      assert (s + tail)[..|s|] == s;
      assert tail[..0] == [];
    }
  }

  lemma {:induction false} NeighboursAreEdges(edges: seq<Edge>, u: nat, v: nat)
    ensures u in Predecessors(edges, v) <==> (u, v) in edges
    ensures v in Successors(edges, u) <==> (u, v) in edges
  {
    if edges != [] {
      var last := |edges| - 1;
      NeighboursAreEdges(edges[..last], u, v);
      assert (u, v) in edges <==> (u, v) in edges[..last] || edges[last] == (u, v) by {
        assert edges == edges[..last] + [edges[last]];
      }
    }
  }

  /** Both neighbour lists hold one entry for every edge between `u` and `v`. */
  lemma {:induction false} NeighbourCounts(edges: seq<Edge>, u: nat, v: nat)
    ensures Count(Predecessors(edges, v), u) == Count(Successors(edges, u), v)
  {
    if edges != [] {
      var last := |edges| - 1;
      var e := edges[last];
      NeighbourCounts(edges[..last], u, v);
      CountAppend(Predecessors(edges[..last], v), if e.1 == v then [e.0] else [], u);
      CountAppend(Successors(edges[..last], u), if e.0 == u then [e.1] else [], v);
      assert [e.0][..0] == [] && [e.1][..0] == [];
    }
  }

  predicate Distinct(s: seq<nat>) {
    forall i, j :: 0 <= i < j < |s| ==> s[i] != s[j]
  }

  predicate Below(s: seq<nat>, n: nat) {
    forall i :: 0 <= i < |s| ==> s[i] < n
  }

  function Elements(s: seq<nat>): set<nat> {
    set x | x in s
  }

  lemma {:induction false} DistinctSize(s: seq<nat>)
    requires Distinct(s)
    ensures |Elements(s)| == |s|
  {
    if s != [] {
      var last := |s| - 1;
      DistinctSize(s[..last]);
      assert s[last] !in s[..last];
      assert Elements(s) == Elements(s[..last]) + {s[last]};
    }
  }

  function Range(n: nat): (r: set<nat>)
    ensures |r| == n
    ensures forall v: nat :: v in r <==> v < n
  {
    if n == 0 then {} else Range(n - 1) + {n - 1}
  }

  lemma SubsetSize(a: set<nat>, b: set<nat>)
    requires a <= b
    ensures |a| <= |b|
    ensures |a| == |b| ==> a == b
  {
    assert b == a + (b - a);
    assert |b| == |a| + |b - a|;
  }

  predicate Covers(s: seq<nat>, n: nat) {
    forall v: nat :: v < n ==> v in s
  }

  /** Distinct naturals below `n`: there are at most `n` of them, and `n` of them are all. */
  lemma DistinctBelow(s: seq<nat>, n: nat)
    requires Distinct(s) && Below(s, n)
    ensures |s| <= n
    ensures |s| == n <==> Covers(s, n)
  {
    DistinctSize(s);
    SubsetSize(Elements(s), Range(n));
    if Covers(s, n) {
      assert Elements(s) == Range(n);
    } else {
      var v: nat :| v < n && v !in s;
      assert v in Range(n) && v !in Elements(s);
    }
  }

  /** Indices of the empty successor lists, in index order. */
  function Sinks(adjacency: seq<seq<nat>>): (sinks: seq<nat>)
    ensures Below(sinks, |adjacency|)
    ensures forall v :: 0 <= v < |adjacency| ==> (v in sinks <==> adjacency[v] == [])
    ensures forall i, j :: 0 <= i < j < |sinks| ==> sinks[i] < sinks[j]
  {
    if adjacency == [] then []
    else
      var last := |adjacency| - 1;
      Sinks(adjacency[..last]) + if adjacency[last] == [] then [last] else []
  }

  // Paths and cycles

  predicate IsPath(edges: seq<Edge>, n: nat, p: seq<nat>) {
    && p != [] && Below(p, n)
    && forall k :: 0 <= k < |p| - 1 ==> (p[k], p[k + 1]) in edges
  }

  ghost predicate HasCycle(edges: seq<Edge>, n: nat) {
    exists p :: IsPath(edges, n, p) && |p| >= 2 && p[0] == p[|p| - 1]
  }

  /** Every edge goes forward in a permutation of the vertices. */
  ghost predicate Topological(order: seq<nat>, edges: seq<Edge>, n: nat) {
    && |order| == n && Distinct(order) && Below(order, n)
    && forall i, j :: 0 <= i < n && 0 <= j < n && (order[i], order[j]) in edges ==> i < j
  }

  lemma IndexOf(order: seq<nat>, n: nat, v: nat) returns (i: nat)
    requires |order| == n && Distinct(order) && Below(order, n) && v < n
    ensures i < n && order[i] == v
  {
    DistinctBelow(order, n);
    assert v in order;
    i :| 0 <= i < n && order[i] == v;
  }

  lemma {:induction false} PathsGoForward(order: seq<nat>, edges: seq<Edge>, n: nat, p: seq<nat>)
    returns (first: nat, last: nat)
    requires Topological(order, edges, n) && IsPath(edges, n, p)
    ensures first < n && last < n && order[first] == p[0] && order[last] == p[|p| - 1]
    ensures first + |p| - 1 <= last
    decreases |p|
  {
    last := IndexOf(order, n, p[|p| - 1]);
    if |p| == 1 {
      first := last;
    } else {
      var q := p[..|p| - 1];
      assert q[|q| - 1] == p[|p| - 2];
      var middle;
      first, middle := PathsGoForward(order, edges, n, q);
      assert (order[middle], order[last]) in edges;
    }
  }

  /** A graph with a topological order has no cycle. */
  lemma TopologicalIsAcyclic(order: seq<nat>, edges: seq<Edge>, n: nat)
    requires Topological(order, edges, n)
    ensures !HasCycle(edges, n)
  {
    if HasCycle(edges, n) {
      var p :| IsPath(edges, n, p) && |p| >= 2 && p[0] == p[|p| - 1];
      var first, last := PathsGoForward(order, edges, n, p);
    }
  }

  /** Every vertex outside `done` has a predecessor outside `done`. */
  ghost predicate Stuck(edges: seq<Edge>, n: nat, done: seq<nat>) {
    forall v: nat :: v < n && v !in done ==> exists u :: u in Predecessors(edges, v) && u !in done
  }

  lemma {:induction false} WalkBack(edges: seq<Edge>, n: nat, done: seq<nat>, v: nat, length: nat) returns (p: seq<nat>)
    requires InRange(edges, n) && Stuck(edges, n, done) && v < n && v !in done
    ensures IsPath(edges, n, p) && |p| == length + 1
    ensures p[0] !in done
  {
    if length == 0 {
      p := [v];
    } else {
      var q := WalkBack(edges, n, done, v, length - 1);
      assert q[0] < n;
      var u :| u in Predecessors(edges, q[0]) && u !in done;
      NeighboursAreEdges(edges, u, q[0]);
      p := [u] + q;
      PathCons(edges, n, u, q);
    }
  }

  lemma PathCons(edges: seq<Edge>, n: nat, u: nat, q: seq<nat>)
    requires IsPath(edges, n, q) && u < n && (u, q[0]) in edges
    ensures IsPath(edges, n, [u] + q)
  {
    var p := [u] + q;
    forall k | 0 <= k < |p| - 1 ensures (p[k], p[k + 1]) in edges {
      if k > 0 { assert p[k] == q[k - 1] && p[k + 1] == q[k]; }
    }
  }

  lemma SubPath(edges: seq<Edge>, n: nat, p: seq<nat>, i: nat, j: nat)
    requires IsPath(edges, n, p) && i < j <= |p|
    ensures IsPath(edges, n, p[i..j])
  {
    var q := p[i..j];
    forall k | 0 <= k < |q| - 1 ensures (q[k], q[k + 1]) in edges {
      assert (p[i + k], p[i + k + 1]) in edges;
    }
  }

  /** When the vertices outside `done` all wait for one another, some of them form a cycle. */
  lemma StuckHasCycle(edges: seq<Edge>, n: nat, done: seq<nat>, v: nat)
    requires InRange(edges, n) && Stuck(edges, n, done) && v < n && v !in done
    ensures HasCycle(edges, n)
  {
    var p := WalkBack(edges, n, done, v, n);
    if Distinct(p) {
      DistinctBelow(p, n);
    } else {
      var i, j :| 0 <= i < j < |p| && p[i] == p[j];
      SubPath(edges, n, p, i, j + 1);
      hide IsPath;
      assert p[i..j + 1][0] == p[i..j + 1][j - i];
    }
  }
}
