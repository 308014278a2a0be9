/**
 * The part of the `easygraph` undirected `Graph` that the two analysis
 * scripts rely on: a node dictionary kept in insertion order whose entries
 * may carry a `type` attribute, and a set of undirected edges.
 */
module Graphs {
  import opened Wrappers

  type Node = string

  /** The value of the `type` node attribute in the collaboration graph. */
  datatype Role = Repo | Dev

  /**
   * The value of a graph.
   * - order: the node dictionary's iteration order (first insertion first);
   * - roles: the node dictionary; None is an empty attribute dictionary;
   * - edges: unordered pairs {u, v} (a self-loop is the one-element set {u}).
   */
  datatype GraphValue = GraphValue(order: seq<Node>, roles: map<Node, Option<Role>>, edges: set<set<Node>>)

  predicate Distinct<T(==)>(s: seq<T>) {
    forall i, j :: 0 <= i < j < |s| ==> s[i] != s[j]
  }

  /** The representation invariant every graph keeps: each node listed once, edges between nodes. */
  ghost predicate WellFormed(g: GraphValue) {
    && Distinct(g.order)
    && (forall n :: n in g.order <==> n in g.roles)
    && (forall e :: e in g.edges ==> e <= g.roles.Keys)
  }

  /** `G.nodes.get(n)` is truthy: n is present and its attribute dictionary is not empty. */
  predicate HasRole(g: GraphValue, n: Node) {
    n in g.roles && g.roles[n].Some?
  }

  predicate Adjacent(g: GraphValue, u: Node, v: Node) {
    {u, v} in g.edges
  }

  lemma AdjacentSymmetric(g: GraphValue, u: Node, v: Node)
    ensures Adjacent(g, u, v) == Adjacent(g, v, u)
  {
    assert {u, v} == {v, u};
  }

  function Neighbours(g: GraphValue, n: Node): set<Node> {
    set m | m in g.roles && Adjacent(g, n, m)
  }

  /** `degree()` of one node: every incident edge counts once, a self-loop twice. */
  function Degree(g: GraphValue, n: Node): nat {
    |Neighbours(g, n)| + (if Adjacent(g, n, n) then 1 else 0)
  }

  /** The edges that touch n. */
  function IncidentEdges(g: GraphValue, n: Node): set<set<Node>> {
    set e | e in g.edges && n in e
  }

  /** Every edge has one endpoint (a self-loop) or two. */
  ghost predicate PairEdges(g: GraphValue) {
    forall e :: e in g.edges ==> |e| <= 2
  }

  /** Pairing n with each member of S gives as many distinct edges as S has members. */
  lemma {:induction false} PairImageCount(n: Node, S: set<Node>)
    ensures |set m | m in S :: {n, m}| == |S|
  {
    if S != {} {
      var x :| x in S;
      var S' := S - {x};
      PairImageCount(n, S');
      var img' := set m | m in S' :: {n, m};
      assert (set m | m in S :: {n, m}) == img' + {{n, x}};
      assert {n, x} !in img';
    }
  }

  /** An edge through n is {n, m} for one of n's neighbours m. */
  lemma IncidentEdgeShape(g: GraphValue, n: Node, e: set<Node>)
    requires WellFormed(g) && PairEdges(g) && e in g.edges && n in e
    ensures exists m :: m in Neighbours(g, n) && e == {n, m}
  {
    if e - {n} == {} {
      assert e == {n, n};
      assert n in Neighbours(g, n);
    } else {
      var m :| m in e - {n};
      assert |e - {n}| == |e| - 1;
      assert e - {n} - {m} == {} by {
        assert |e - {n} - {m}| == |e - {n}| - 1;
      }
      assert e == {n, m};
      assert m in Neighbours(g, n);
    }
  }

  /**
   * `degree()` counts edges: each edge touching n once, and a self-loop
   * once more.
   */
  lemma DegreeCountsEdges(g: GraphValue, n: Node)
    requires WellFormed(g) && PairEdges(g)
    ensures Degree(g, n) == |IncidentEdges(g, n)| + (if {n} in g.edges then 1 else 0)
  {
    var N := Neighbours(g, n);
    var img := set m | m in N :: {n, m};
    forall e | e in IncidentEdges(g, n)
      ensures e in img
    {
      IncidentEdgeShape(g, n, e);
    }
    assert IncidentEdges(g, n) == img;
    PairImageCount(n, N);
    assert {n, n} == {n};
  }

  /** A distinct sequence has as many elements as the set it enumerates. */
  lemma {:induction false} DistinctCount<T>(s: seq<T>, S: set<T>)
    requires Distinct(s)
    requires forall x :: x in s <==> x in S
    ensures |s| == |S|
  {
    if s != [] {
      var x := s[|s| - 1];
      var s' := s[..|s| - 1];
      forall y
        ensures y in s' <==> y in S - {x}
      {
        if y in s' {
          var k :| 0 <= k < |s'| && s'[k] == y;
          assert s[k] == y;
        }
        if y in S - {x} {
          var k :| 0 <= k < |s| && s[k] == y;
          assert k != |s| - 1;
          assert s'[k] == y;
        }
      }
      DistinctCount(s', S - {x});
    }
  }

  /** `len(G.nodes)` is the number of distinct nodes. */
  lemma NodeCount(g: GraphValue)
    requires WellFormed(g)
    ensures |g.order| == |g.roles.Keys|
  {
    DistinctCount(g.order, g.roles.Keys);
  }

  /** `eg.Graph()`. */
  function Empty(): (g: GraphValue)
    ensures WellFormed(g) && g.order == [] && g.roles == map[] && g.edges == {}
  {
    GraphValue([], map[], {})
  }

  /**
   * `add_node(n, type=role)`: a new node is appended to the order; an
   * existing node keeps its place and its edges, and its attribute is
   * overwritten.
   */
  function WithNode(g: GraphValue, n: Node, role: Role): (r: GraphValue)
    requires WellFormed(g)
    ensures WellFormed(r)
    ensures r.roles == g.roles[n := Some(role)]
    ensures r.order == if n in g.roles then g.order else g.order + [n]
    ensures r.edges == g.edges
  {
    if n in g.roles then g.(roles := g.roles[n := Some(role)])
    else GraphValue(g.order + [n], g.roles[n := Some(role)], g.edges)
  }

  /** The node dictionary after making sure n is a key, with no attributes if it is new. */
  function Untyped(roles: map<Node, Option<Role>>, n: Node): map<Node, Option<Role>> {
    if n in roles then roles else roles[n := None]
  }

  /**
   * r is g after adding the edge {u, v}: the missing endpoints are appended
   * (u before v) with no attributes, every other node keeps its attributes.
   */
  ghost predicate EdgeAdded(g: GraphValue, r: GraphValue, u: Node, v: Node) {
    && r.order == g.order + (if u in g.roles then [] else [u]) + (if v in g.roles || v == u then [] else [v])
    && r.roles.Keys == g.roles.Keys + {u, v}
    && (forall n :: n in r.roles ==> r.roles[n] == if n in g.roles then g.roles[n] else None)
    && r.edges == g.edges + {{u, v}}
  }

  /** Adding an edge keeps the representation invariant. */
  lemma EdgeAddedWellFormed(g: GraphValue, r: GraphValue, u: Node, v: Node)
    requires WellFormed(g) && EdgeAdded(g, r, u, v)
    ensures WellFormed(r)
  {
    var o1 := g.order + (if u in g.roles then [] else [u]);
    assert Distinct(o1);
    assert r.order == o1 + (if v in g.roles || v == u then [] else [v]);
  }

  /**
   * `add_edge(u, v)`: creates the missing endpoints (u before v) without
   * attributes and adds the edge {u, v}; an edge that is already there
   * stays a single edge.
   */
  function WithEdge(g: GraphValue, u: Node, v: Node): (r: GraphValue)
    requires WellFormed(g)
    ensures WellFormed(r)
    ensures EdgeAdded(g, r, u, v)
  {
    var roles1 := Untyped(g.roles, u);
    var order1 := if u in g.roles then g.order else g.order + [u];
    var order2 := if v in roles1 then order1 else order1 + [v];
    var r := GraphValue(order2, Untyped(roles1, v), g.edges + {{u, v}});
    EdgeAddedWellFormed(g, r, u, v);
    r
  }

  /** Re-adding an edge that is already there changes nothing. */
  lemma WithEdgeExisting(g: GraphValue, u: Node, v: Node)
    requires WellFormed(g) && Adjacent(g, u, v)
    ensures WithEdge(g, u, v) == g
  {
    assert u in {u, v} && v in {u, v};
  }

  /** Adding the same edge twice is adding it once. */
  lemma WithEdgeIdempotent(g: GraphValue, u: Node, v: Node)
    requires WellFormed(g)
    ensures WithEdge(WithEdge(g, u, v), u, v) == WithEdge(g, u, v)
  {
    WithEdgeExisting(WithEdge(g, u, v), u, v);
  }

  /** Adding an edge adds one with at most two endpoints. */
  lemma WithEdgePairEdges(g: GraphValue, u: Node, v: Node)
    requires WellFormed(g) && PairEdges(g)
    ensures PairEdges(WithEdge(g, u, v))
  {
    assert |{u, v}| <= 2 by {
      assert {u, v} == {u} + {v};
    }
  }

  /** The order with one node taken out, the others keeping their order. */
  function Without(s: seq<Node>, n: Node): (r: seq<Node>)
    ensures forall x :: x in r <==> x in s && x != n
    ensures Distinct(s) ==> Distinct(r)
    ensures Distinct(s) && n in s ==> |r| == |s| - 1
    ensures n !in s ==> r == s
  {
    if s == [] then []
    else if s[0] == n then Without(s[1..], n)
    else
      assert Distinct(s) ==> s[0] !in s[1..];
      [s[0]] + Without(s[1..], n)
  }

  /**
   * `remove_node(n)`: drops n and every edge touching it; every other edge
   * survives, and so do the neighbours, even when left without edges.
   */
  function WithoutNode(g: GraphValue, n: Node): (r: GraphValue)
    requires WellFormed(g) && n in g.roles
    ensures WellFormed(r)
    ensures |r.order| == |g.order| - 1
    ensures r.roles == g.roles - {n}
    ensures forall e :: e in r.edges <==> e in g.edges && n !in e
  {
    GraphValue(Without(g.order, n), g.roles - {n}, set e | e in g.edges && n !in e)
  }

  /** The graph object whose methods the scripts call. */
  class Graph {
    var order: seq<Node>
    var roles: map<Node, Option<Role>>
    var edges: set<set<Node>>

    function Value(): GraphValue
      reads this
    {
      GraphValue(order, roles, edges)
    }

    ghost predicate Valid()
      reads this
    {
      WellFormed(Value())
    }

    constructor ()
      ensures Valid() && Value() == Empty()
    {
      order, roles, edges := [], map[], {};
    }

    method AddNode(n: Node, role: Role)
      requires Valid()
      modifies this
      ensures Valid() && Value() == WithNode(old(Value()), n, role)
    {
      if n !in roles {
        order := order + [n];
      }
      roles := roles[n := Some(role)];
    }

    method AddEdge(u: Node, v: Node)
      requires Valid()
      modifies this
      ensures Valid() && Value() == WithEdge(old(Value()), u, v)
    {
      if u !in roles {
        order, roles := order + [u], roles[u := None];
      }
      if v !in roles {
        order, roles := order + [v], roles[v := None];
      }
      edges := edges + {{u, v}};
    }

    /** Fails (returns false, changing nothing) when n is not a node, where the library raises KeyError. */
    method RemoveNode(n: Node) returns (found: bool)
      requires Valid()
      modifies this
      ensures Valid()
      ensures found == (n in old(roles))
      ensures found ==> Value() == WithoutNode(old(Value()), n)
      ensures !found ==> Value() == old(Value())
    {
      if n !in roles {
        return false;
      }
      order := Without(order, n);
      roles := roles - {n};
      edges := set e | e in edges && n !in e;
      found := true;
    }

    /** `G.copy()`: an independent graph with the same value. */
    method Copy() returns (c: Graph)
      ensures fresh(c) && c.Value() == Value()
    {
      c := new Graph();
      c.order, c.roles, c.edges := order, roles, edges;
    }
  }
}
