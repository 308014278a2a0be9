/**
 * `calculate_connectivity`: connected components as reachability classes,
 * and the cohesion ratio (largest component over node count).
 */
module Connectivity {
  import opened Graphs

  /** S together with every node adjacent to a node of S. */
  function Grow(g: GraphValue, S: set<Node>): set<Node> {
    S + set x | x in g.roles && exists w :: w in S && Adjacent(g, w, x)
  }

  /** No edge leaves S. */
  ghost predicate Closed(g: GraphValue, S: set<Node>) {
    forall w, x :: w in S && x in g.roles && Adjacent(g, w, x) ==> x in S
  }

  lemma ShrinkingRest(K: set<Node>, S: set<Node>, T: set<Node>)
    requires S <= T <= K && S != T
    ensures |K - T| < |K - S|
  {
    assert !(T <= S);
    var x :| x in T && x !in S;
    var A, B := K - T, (K - S) - {x};
    assert A <= B;
    assert B == A + (B - A);
    assert |B| == |A| + |B - A|;
  }

  /** The smallest closed set containing S, by growing S one layer of neighbours at a time. */
  function Closure(g: GraphValue, S: set<Node>): (r: set<Node>)
    requires S <= g.roles.Keys
    ensures S <= r <= g.roles.Keys
    ensures Closed(g, r)
    decreases |g.roles.Keys - S|
  {
    var T := Grow(g, S);
    if T == S then S
    else
      ShrinkingRest(g.roles.Keys, S, T);
      Closure(g, T)
  }

  /** Every closed set containing S contains the closure of S. */
  lemma {:induction false} ClosureLeast(g: GraphValue, S: set<Node>, C: set<Node>)
    requires S <= g.roles.Keys
    requires S <= C && Closed(g, C)
    ensures Closure(g, S) <= C
    decreases |g.roles.Keys - S|
  {
    var T := Grow(g, S);
    if T != S {
      ShrinkingRest(g.roles.Keys, S, T);
      ClosureLeast(g, T, C);
    }
  }

  /** The connected component of v: every node reachable from v. */
  function Component(g: GraphValue, v: Node): (c: set<Node>)
    requires v in g.roles
    ensures v in c && c <= g.roles.Keys && Closed(g, c)
  {
    Closure(g, {v})
  }

  /** `eg.connected_components(G)`: the set of all components. */
  function Components(g: GraphValue): (r: set<set<Node>>)
    ensures forall c :: c in r ==> c != {} && c <= g.roles.Keys && Closed(g, c)
  {
    set v | v in g.roles :: Component(g, v)
  }

  /** A node of v's component has its whole component inside v's. */
  lemma ComponentIncludes(g: GraphValue, v: Node, u: Node)
    requires v in g.roles && u in Component(g, v)
    ensures Component(g, u) <= Component(g, v)
  {
    ClosureLeast(g, {u}, Component(g, v));
  }

  /** Reachability is symmetric: v is in the component of every node of its own. */
  lemma ComponentSymmetric(g: GraphValue, v: Node, u: Node)
    requires v in g.roles && u in Component(g, v)
    ensures v in Component(g, u)
  {
    var S := set w | w in Component(g, v) && v in Component(g, w);
    forall w, x | w in S && x in g.roles && Adjacent(g, w, x)
      ensures x in S
    {
      AdjacentSymmetric(g, w, x);
      assert w in Component(g, x);
      ComponentIncludes(g, x, w);
    }
    ClosureLeast(g, {v}, S);
  }

  /** Two nodes in one component have the same component. */
  lemma ComponentOfMember(g: GraphValue, v: Node, u: Node)
    requires v in g.roles && u in Component(g, v)
    ensures Component(g, u) == Component(g, v)
  {
    ComponentIncludes(g, v, u);
    ComponentSymmetric(g, v, u);
    ComponentIncludes(g, u, v);
  }

  /**
   * The components partition the nodes: each node lies in its own
   * component, components are nonempty and pairwise disjoint, no edge
   * joins two of them, and each is the component of every node in it.
   */
  lemma ComponentsPartition(g: GraphValue)
    ensures forall v :: v in g.roles ==> v in Component(g, v) && Component(g, v) in Components(g)
    ensures forall C :: C in Components(g) ==> C != {} && C <= g.roles.Keys && Closed(g, C)
    ensures forall C, u :: C in Components(g) && u in C ==> Component(g, u) == C
    ensures forall C, D :: C in Components(g) && D in Components(g) && C != D ==> C !! D
  {
    forall C, u | C in Components(g) && u in C
      ensures Component(g, u) == C
    {
      var v :| v in g.roles && C == Component(g, v);
      ComponentOfMember(g, v, u);
    }
    forall C, D | C in Components(g) && D in Components(g) && C != D
      ensures C !! D
    {
      if x :| x in C && x in D {
        assert false;
      }
    }
  }

  lemma SubsetCount(A: set<Node>, B: set<Node>)
    requires A <= B
    ensures |A| <= |B|
  {
    assert B == A + (B - A);
  }

  /** The size of the largest component among those of the nodes in ns. */
  function LargestIn(g: GraphValue, ns: seq<Node>): (m: nat)
    requires forall n :: n in ns ==> n in g.roles
    ensures forall i :: 0 <= i < |ns| ==> |Component(g, ns[i])| <= m
    ensures ns == [] ==> m == 0
    ensures ns != [] ==> exists i :: 0 <= i < |ns| && m == |Component(g, ns[i])|
    ensures m <= |g.roles.Keys|
  {
    if ns == [] then 0
    else
      var rest := LargestIn(g, ns[1..]);
      var here := |Component(g, ns[0])|;
      SubsetCount(Component(g, ns[0]), g.roles.Keys);
      if here >= rest then here else rest
  }

  lemma RatioBounds(a: real, b: real)
    requires 0.0 < a <= b
    ensures 0.0 < a / b <= 1.0
  {
  }

  /**
   * `calculate_connectivity(G)`: 0 for a graph without nodes, else the size
   * of the largest component over the number of nodes.
   */
  function Cohesion(g: GraphValue): (r: real)
    requires WellFormed(g)
    ensures 0.0 <= r <= 1.0
    ensures |g.order| == 0 <==> r == 0.0
  {
    if |g.order| == 0 then 0.0
    else
      var m := LargestIn(g, g.order);
      NodeCount(g);
      assert |Component(g, g.order[0])| >= 1;
      RatioBounds(m as real, |g.order| as real);
      (m as real) / (|g.order| as real)
  }

  /** `max(components, key=len)` has the size LargestIn computes over the node order. */
  lemma LargestIsLargestComponent(g: GraphValue)
    requires WellFormed(g) && |g.order| > 0
    ensures forall C :: C in Components(g) ==> |C| <= LargestIn(g, g.order)
    ensures exists C :: C in Components(g) && |C| == LargestIn(g, g.order)
  {
    forall C | C in Components(g)
      ensures |C| <= LargestIn(g, g.order)
    {
      var v :| v in g.roles && C == Component(g, v);
      var i :| 0 <= i < |g.order| && g.order[i] == v;
    }
    var i :| 0 <= i < |g.order| && LargestIn(g, g.order) == |Component(g, g.order[i])|;
    assert Component(g, g.order[i]) in Components(g);
  }

  lemma SameCountSubset(A: set<Node>, B: set<Node>)
    requires A <= B && |A| == |B|
    ensures A == B
  {
    assert B == A + (B - A);
    assert |B - A| == 0;
  }

  lemma SingletonSet(S: set<set<Node>>, C: set<Node>)
    requires |S| == 1 && C in S
    ensures S == {C}
  {
    assert S == {C} + (S - {C});
    assert |S - {C}| == 0;
  }

  lemma OnlyElement(S: set<set<Node>>, C: set<Node>)
    requires C in S && forall D :: D in S ==> D == C
    ensures |S| == 1
  {
    assert S == {C};
  }

  lemma RatioOne(a: real, b: real)
    requires b > 0.0
    ensures a / b == 1.0 <==> a == b
  {
  }

  /** A component holding every node is the only component. */
  lemma SpanningComponent(g: GraphValue, v: Node)
    requires v in g.roles && Component(g, v) == g.roles.Keys
    ensures |Components(g)| == 1
  {
    forall C | C in Components(g)
      ensures C == Component(g, v)
    {
      var w :| w in g.roles && C == Component(g, w);
      ComponentOfMember(g, v, w);
    }
    OnlyElement(Components(g), Component(g, v));
  }

  lemma {:induction false} FullRatioIsConnected(g: GraphValue)
    requires (forall n :: n in g.order ==> n in g.roles) && |g.order| == |g.roles.Keys| > 0
    requires LargestIn(g, g.order) == |g.order|
    ensures |Components(g)| == 1
  {
    var i :| 0 <= i < |g.order| && |g.order| == |Component(g, g.order[i])|;
    var v := g.order[i];
    SameCountSubset(Component(g, v), g.roles.Keys);
    SpanningComponent(g, v);
  }

  lemma {:induction false} ConnectedHasFullRatio(g: GraphValue)
    requires WellFormed(g) && |g.order| > 0
    requires |Components(g)| == 1
    ensures LargestIn(g, g.order) == |g.order|
  {
    NodeCount(g);
    var v := g.order[0];
    var C := Component(g, v);
    assert C in Components(g);
    SingletonSet(Components(g), C);
    forall w | w in g.roles
      ensures w in C
    {
      assert Component(g, w) in Components(g);
    }
    assert C == g.roles.Keys;
    assert |Component(g, g.order[0])| <= LargestIn(g, g.order);
  }

  /** The cohesion ratio is 1 exactly when the graph has nodes and a single component. */
  lemma CohesionOne(g: GraphValue)
    requires WellFormed(g)
    ensures Cohesion(g) == 1.0 <==> |g.order| > 0 && |Components(g)| == 1
  {
    if |g.order| > 0 {
      RatioOne(LargestIn(g, g.order) as real, |g.order| as real);
      if Cohesion(g) == 1.0 {
        NodeCount(g);
        FullRatioIsConnected(g);
      }
      if |Components(g)| == 1 {
        ConnectedHasFullRatio(g);
      }
    }
  }

  /** A walk: consecutive nodes are joined by an edge. */
  ghost predicate IsWalk(g: GraphValue, p: seq<Node>) {
    && |p| >= 1
    && (forall i :: 0 <= i < |p| ==> p[i] in g.roles)
    && (forall i :: 0 <= i < |p| - 1 ==> Adjacent(g, p[i], p[i + 1]))
  }

  lemma {:induction false} WalkStaysInClosed(g: GraphValue, p: seq<Node>, C: set<Node>)
    requires IsWalk(g, p) && p[0] in C && Closed(g, C)
    ensures p[|p| - 1] in C
  {
    if |p| > 1 {
      var q := p[..|p| - 1];
      assert IsWalk(g, q);
      WalkStaysInClosed(g, q, C);
      assert Adjacent(g, p[|p| - 2], p[|p| - 1]);
    }
  }

  /** The component of v is exactly the set of nodes some walk from v reaches. */
  lemma ComponentIsReachable(g: GraphValue, v: Node, w: Node)
    requires v in g.roles
    ensures w in Component(g, v) <==> exists p :: IsWalk(g, p) && p[0] == v && p[|p| - 1] == w
  {
    if p :| IsWalk(g, p) && p[0] == v && p[|p| - 1] == w {
      WalkStaysInClosed(g, p, Component(g, v));
    }
    var R := set x | x in g.roles && exists p :: IsWalk(g, p) && p[0] == v && p[|p| - 1] == x;
    assert IsWalk(g, [v]);
    forall x, y | x in R && y in g.roles && Adjacent(g, x, y)
      ensures y in R
    {
      var p :| IsWalk(g, p) && p[0] == v && p[|p| - 1] == x;
      var q := p + [y];
      assert IsWalk(g, q);
      assert q[|q| - 1] == y;
    }
    ClosureLeast(g, {v}, R);
  }
}
