/** The dependency relation as a directed graph, and the depth-bounded search the
    cycle check runs over it. An edge goes from a flag to a flag it depends on. */
module Graph {

  /** A row of flag_dependencies: flagId depends on dependsOnId. */
  datatype Edge = Edge(flagId: int, dependsOnId: int)

  /** Depth at which the cycle check's recursive query stops following edges. */
  const MaxDepth: nat := 10

  /** One round of the recursive query: everything the frontier depends on directly. */
  function Successors(edges: set<Edge>, frontier: set<int>): set<int> {
    set e | e in edges && e.flagId in frontier :: e.dependsOnId
  }

  /** There is a walk of exactly n edges from a to b. */
  ghost predicate ReachesIn(edges: set<Edge>, a: int, b: int, n: nat)
    decreases n
  {
    if n == 0 then a == b
    else exists c :: Edge(a, c) in edges && ReachesIn(edges, c, b, n - 1)
  }

  /** b is reachable from a along 1 to k edges. */
  ghost predicate ReachableWithin(edges: set<Edge>, a: int, b: int, k: nat) {
    exists n: nat :: 1 <= n <= k && ReachesIn(edges, a, b, n)
  }

  /** b is reachable from a along one or more edges: a depends on b, directly
      or transitively. */
  ghost predicate Reachable(edges: set<Edge>, a: int, b: int) {
    exists n: nat :: 1 <= n && ReachesIn(edges, a, b, n)
  }

  /** There is a walk of exactly n edges from a to b whose nodes before b all lie
      in s. */
  ghost predicate ReachesInThrough(edges: set<Edge>, s: set<int>, a: int, b: int, n: nat)
    decreases n
  {
    if n == 0 then a == b
    else a in s && exists c :: Edge(a, c) in edges && ReachesInThrough(edges, s, c, b, n - 1)
  }

  /** b is reachable from a along one or more edges without leaving s before b. */
  ghost predicate ReachableThrough(edges: set<Edge>, s: set<int>, a: int, b: int) {
    exists n: nat :: 1 <= n && ReachesInThrough(edges, s, a, b, n)
  }

  lemma {:induction false} ThroughIsWalk(edges: set<Edge>, s: set<int>, a: int, b: int, n: nat)
    requires ReachesInThrough(edges, s, a, b, n)
    ensures ReachesIn(edges, a, b, n)
    decreases n
  {
    if n > 0 {
      var c :| Edge(a, c) in edges && ReachesInThrough(edges, s, c, b, n - 1);
      ThroughIsWalk(edges, s, c, b, n - 1);
    }
  }

  /** Reachable through a set is reachable. */
  lemma ThroughIsReachable(edges: set<Edge>, s: set<int>, a: int, b: int)
    requires ReachableThrough(edges, s, a, b)
    ensures Reachable(edges, a, b)
  {
    var n: nat :| 1 <= n && ReachesInThrough(edges, s, a, b, n);
    ThroughIsWalk(edges, s, a, b, n);
  }

  /** A walk through s1 to d, followed by the edge from d (a node of s) to b, is a
      walk through the larger set s to b. */
  lemma {:induction false} ThroughExtends(edges: set<Edge>, s1: set<int>, s: set<int>, a: int, d: int, b: int, n: nat)
    requires s1 <= s
    requires ReachesInThrough(edges, s1, a, d, n)
    requires d in s && Edge(d, b) in edges
    ensures ReachesInThrough(edges, s, a, b, n + 1)
    decreases n
  {
    if n == 0 {
      assert ReachesInThrough(edges, s, b, b, 0);
    } else {
      var c :| Edge(a, c) in edges && ReachesInThrough(edges, s1, c, d, n - 1);
      ThroughExtends(edges, s1, s, c, d, b, n - 1);
    }
  }

  /** A walk through a set is a walk through any larger set. */
  lemma {:induction false} ThroughWidens(edges: set<Edge>, s1: set<int>, s: set<int>, a: int, b: int, n: nat)
    requires s1 <= s
    requires ReachesInThrough(edges, s1, a, b, n)
    ensures ReachesInThrough(edges, s, a, b, n)
    decreases n
  {
    if n > 0 {
      var c :| Edge(a, c) in edges && ReachesInThrough(edges, s1, c, b, n - 1);
      ThroughWidens(edges, s1, s, c, b, n - 1);
    }
  }

  /** No flag depends on itself, directly or transitively. */
  ghost predicate Acyclic(edges: set<Edge>) {
    forall x :: !Reachable(edges, x, x)
  }

  /** The depth-bounded search: is target among the rows at depths 1..depth of the
      recursive query started from the frontier? Depth 1 holds the direct
      dependencies of the frontier, and each further round follows one more edge. */
  function FoundWithin(edges: set<Edge>, frontier: set<int>, target: int, depth: nat): bool
    decreases depth
  {
    if depth == 0 then false
    else
      var next := Successors(edges, frontier);
      target in next || FoundWithin(edges, next, target, depth - 1)
  }

  lemma {:induction false} FoundWithinSound(edges: set<Edge>, frontier: set<int>, target: int, depth: nat)
    requires FoundWithin(edges, frontier, target, depth)
    ensures exists s, n: nat :: s in frontier && 1 <= n <= depth && ReachesIn(edges, s, target, n)
    decreases depth
  {
    var next := Successors(edges, frontier);
    if target in next {
      var e :| e in edges && e.flagId in frontier && e.dependsOnId == target;
      var s := e.flagId;
      var one: nat := 1;
      assert ReachesIn(edges, target, target, 0);
      assert Edge(s, target) in edges;
      assert ReachesIn(edges, s, target, one);
    } else {
      FoundWithinSound(edges, next, target, depth - 1);
      var c, n: nat :| c in next && 1 <= n <= depth - 1 && ReachesIn(edges, c, target, n);
      var e :| e in edges && e.flagId in frontier && e.dependsOnId == c;
      var s := e.flagId;
      var m: nat := n + 1;
      assert Edge(s, c) in edges;
      assert ReachesIn(edges, s, target, m);
    }
  }

  lemma {:induction false} FoundWithinComplete(edges: set<Edge>, frontier: set<int>, target: int, depth: nat, s: int, n: nat)
    requires s in frontier && 1 <= n <= depth && ReachesIn(edges, s, target, n)
    ensures FoundWithin(edges, frontier, target, depth)
    decreases depth
  {
    var c :| Edge(s, c) in edges && ReachesIn(edges, c, target, n - 1);
    var next := Successors(edges, frontier);
    var e := Edge(s, c);
    assert e in edges && e.flagId in frontier;
    assert c in next;
    if n > 1 {
      FoundWithinComplete(edges, next, target, depth - 1, c, n - 1);
    }
  }

  /** Starting from one flag, the bounded search finds exactly the flags reachable
      along 1..depth edges. */
  lemma FoundWithinExactly(edges: set<Edge>, start: int, target: int, depth: nat)
    ensures FoundWithin(edges, {start}, target, depth) <==> ReachableWithin(edges, start, target, depth)
  {
    if FoundWithin(edges, {start}, target, depth) {
      FoundWithinSound(edges, {start}, target, depth);
    }
    if ReachableWithin(edges, start, target, depth) {
      var n: nat :| 1 <= n <= depth && ReachesIn(edges, start, target, n);
      FoundWithinComplete(edges, {start}, target, depth, start, n);
    }
  }

  /** A node no edge points to is never found. */
  lemma {:induction false} NeverFoundWithoutIncomingEdge(edges: set<Edge>, frontier: set<int>, target: int, depth: nat)
    requires forall e :: e in edges ==> e.dependsOnId != target
    ensures !FoundWithin(edges, frontier, target, depth)
    decreases depth
  {
    if depth > 0 {
      NeverFoundWithoutIncomingEdge(edges, Successors(edges, frontier), target, depth - 1);
    }
  }

  /** The chain 1 -> 2 -> ... -> n+1 of n edges: flag i depends on flag i+1. */
  function Chain(n: nat): set<Edge>
    decreases n
  {
    if n == 0 then {} else Chain(n - 1) + {Link(n)}
  }

  /** The chain's i-th edge. */
  function Link(i: int): Edge {
    Edge(i, i + 1)
  }

  lemma {:induction false} ChainShape(n: nat)
    ensures forall i :: 1 <= i <= n ==> Link(i) in Chain(n)
    ensures forall e :: e in Chain(n) ==> e.dependsOnId == e.flagId + 1
    decreases n
  {
    if n > 0 {
      ChainShape(n - 1);
    }
  }

  /** In a graph whose edges advance ids by at most one, a frontier below m
      steps to a frontier below m+1. */
  lemma SuccessorsOfSlowEdges(edges: set<Edge>, frontier: set<int>, m: int)
    requires forall e :: e in edges ==> e.dependsOnId <= e.flagId + 1
    requires forall x :: x in frontier ==> x <= m
    ensures forall y :: y in Successors(edges, frontier) ==> y <= m + 1
  {
    forall y | y in Successors(edges, frontier)
      ensures y <= m + 1
    {
      var e :| e in edges && e.flagId in frontier && e.dependsOnId == y;
    }
  }

  lemma {:induction false} SlowEdgesStayBelow(edges: set<Edge>, frontier: set<int>, m: int, target: int, depth: nat)
    requires forall e :: e in edges ==> e.dependsOnId <= e.flagId + 1
    requires forall x :: x in frontier ==> x <= m
    requires m + depth < target
    ensures !FoundWithin(edges, frontier, target, depth)
    decreases depth
  {
    if depth > 0 {
      SuccessorsOfSlowEdges(edges, frontier, m);
      SlowEdgesStayBelow(edges, Successors(edges, frontier), m + 1, target, depth - 1);
    }
  }

  lemma {:induction false} ChainReaches(n: nat, j: int)
    requires 1 <= j <= n + 1
    ensures ReachesIn(Chain(n), j, n + 1, n + 1 - j)
    decreases n + 1 - j
  {
    if j <= n {
      ChainReaches(n, j + 1);
      ChainShape(n);
      assert Link(j) in Chain(n);
    }
  }

  /** An 11-edge chain: the last flag is reachable from the first, but not within
      the search depth. */
  lemma ElevenEdgeChainEscapesSearch()
    ensures Reachable(Chain(11), 1, 12)
    ensures !ReachableWithin(Chain(11), 1, 12, MaxDepth)
    ensures !FoundWithin(Chain(11), {1}, 12, MaxDepth)
  {
    ChainReaches(11, 1);
    var n: nat := 11;
    assert ReachesIn(Chain(11), 1, 12, n);
    ChainShape(11);
    SlowEdgesStayBelow(Chain(11), {1}, 1, 12, MaxDepth);
    FoundWithinExactly(Chain(11), 1, 12, MaxDepth);
  }

  /** Walks compose. */
  lemma {:induction false} ReachesInAppend(edges: set<Edge>, a: int, b: int, c: int, n: nat, m: nat)
    requires ReachesIn(edges, a, b, n) && ReachesIn(edges, b, c, m)
    ensures ReachesIn(edges, a, c, n + m)
    decreases n
  {
    if n > 0 {
      var x :| Edge(a, x) in edges && ReachesIn(edges, x, b, n - 1);
      ReachesInAppend(edges, x, b, c, n - 1, m);
    }
  }
}
