/**
 * The resilience experiment: measure how much of a network stays in one
 * piece, remove the node with the most connections, and measure again.
 */
module Resilience {
  import opened Wrappers
  import opened Graphs
  import opened Connectivity
  import opened Ranking

  /** `G.degree().items()`: one (node, degree) entry per node, in node order. */
  function DegreeItems(g: GraphValue): (d: seq<Item>)
    ensures |d| == |g.order|
    ensures forall i :: 0 <= i < |d| ==> d[i].key == g.order[i] && d[i].score == Degree(g, g.order[i]) as real
    ensures Distinct(g.order) ==> forall i, j :: 0 <= i < j < |d| ==> d[i].key != d[j].key
  {
    seq(|g.order|, i requires 0 <= i < |g.order| => Item(g.order[i], Degree(g, g.order[i]) as real))
  }

  /** Every node of the graph has exactly one entry in the degree items, and nothing else has one. */
  lemma DegreeItemsCoverNodes(g: GraphValue)
    requires WellFormed(g)
    ensures forall n :: n in g.roles <==> exists i :: 0 <= i < |DegreeItems(g)| && DegreeItems(g)[i].key == n
    ensures forall i, j :: 0 <= i < j < |DegreeItems(g)| ==> DegreeItems(g)[i].key != DegreeItems(g)[j].key
  {
    var d := DegreeItems(g);
    forall n | n in g.roles
      ensures exists i :: 0 <= i < |d| && d[i].key == n
    {
      var i :| 0 <= i < |g.order| && g.order[i] == n;
      assert d[i].key == n;
    }
  }

  /** `top_node`: the key of the first entry of the degree items sorted by degree, highest first. */
  function TopDegreeNode(g: GraphValue): (t: Node)
    requires |g.order| > 0
    ensures t in g.order
  {
    var d := DegreeItems(g);
    var s := SortDesc(d);
    assert s[0] in multiset(d);
    assert s[0] in d;
    s[0].key
  }

  /**
   * The node picked for removal has the highest degree, and of the nodes
   * with that degree it is the first in node order.
   */
  lemma TopDegreeNodeIsFirstMax(g: GraphValue) returns (k: nat)
    requires |g.order| > 0
    ensures k < |g.order| && g.order[k] == TopDegreeNode(g)
    ensures forall i :: 0 <= i < |g.order| ==> Degree(g, g.order[i]) <= Degree(g, g.order[k])
    ensures forall i :: 0 <= i < k ==> Degree(g, g.order[i]) < Degree(g, g.order[k])
  {
    var d := DegreeItems(g);
    k := SortDescHead(d);
    forall i | 0 <= i < |g.order|
      ensures Degree(g, g.order[i]) <= Degree(g, g.order[k])
    {
      assert d[i].score <= d[k].score;
    }
    forall i | 0 <= i < k
      ensures Degree(g, g.order[i]) < Degree(g, g.order[k])
    {
      assert d[i].score < d[k].score;
    }
  }

  /** The removed node is a node of the graph of highest degree. */
  lemma TopDegreeNodeIsMaximal(g: GraphValue)
    requires WellFormed(g) && |g.order| > 0
    ensures TopDegreeNode(g) in g.roles
    ensures forall m :: m in g.roles ==> Degree(g, m) <= Degree(g, TopDegreeNode(g))
  {
    var k := TopDegreeNodeIsFirstMax(g);
    forall m | m in g.roles
      ensures Degree(g, m) <= Degree(g, TopDegreeNode(g))
    {
      var i :| 0 <= i < |g.order| && g.order[i] == m;
    }
  }

  /** The node `simulate_attack` removes: none for a graph without nodes. */
  function AttackTarget(v: GraphValue): (t: Option<Node>)
    ensures t.None? <==> |v.order| == 0
  {
    if |v.order| == 0 then None else Some(TopDegreeNode(v))
  }

  /** The cohesion before the attack and, when a node was removed, after it. */
  function AttackHistory(v: GraphValue): (h: seq<real>)
    requires WellFormed(v)
    ensures |h| == (if |v.order| == 0 then 1 else 2)
    ensures 0.0 <= h[0] <= 1.0 && 0.0 <= h[|h| - 1] <= 1.0
    ensures |v.order| == 0 ==> h == [0.0]
    ensures |v.order| > 0 ==> h[0] > 0.0
  {
    var before := Cohesion(v);
    if |v.order| == 0 then [before]
    else
      var n := TopDegreeNode(v);
      assert n in v.roles;
      var after := Cohesion(WithoutNode(v, n));
      [before, after]
  }

  /** The history of a graph with nodes measures it before and after losing its top node. */
  lemma AttackHistoryAfter(v: GraphValue)
    requires WellFormed(v) && |v.order| > 0
    ensures TopDegreeNode(v) in v.roles
    ensures AttackHistory(v) == [Cohesion(v), Cohesion(WithoutNode(v, TopDegreeNode(v)))]
  {
  }

  /**
   * `simulate_attack(G, name)`: works on a copy, so the caller's graph is
   * untouched (the method modifies nothing). The history holds the
   * cohesion before and, for a graph with nodes, after removing the top
   * degree node; the drop rate is the relative loss in percent.
   */
  method SimulateAttack(g: Graph) returns (history: seq<real>, top: Option<Node>, dropRate: Option<real>)
    requires g.Valid()
    ensures history == AttackHistory(g.Value())
    ensures top == AttackTarget(g.Value())
    ensures dropRate == if top.Some? then Some(DropRate(history[0], history[1])) else None
  {
    var temp := g.Copy();
    var before := temp.Value();
    var initial := Cohesion(before);
    history := [initial];
    top, dropRate := None, None;
    if |before.order| > 0 {
      var n := RemoveTop(temp, before);
      assert g.Value() == before;
      var after := Cohesion(temp.Value());
      AttackHistoryAfter(before);
      history := [initial, after];
      top := Some(n);
      dropRate := Some(DropRate(initial, after));
    }
  }

  /** Lines 67-72 of the attack: remove the top degree node from the copy, which holds v. */
  method RemoveTop(temp: Graph, ghost v: GraphValue) returns (n: Node)
    requires temp.Valid() && temp.Value() == v && |v.order| > 0
    modifies temp
    ensures n == TopDegreeNode(v) && n in v.roles
    ensures temp.Valid() && temp.Value() == WithoutNode(v, n)
  {
    n := TopDegreeNode(temp.Value());
    var found := temp.RemoveNode(n);
  }

  /** What the attack reports: the target has the highest degree and the history measures before and after. */
  lemma AttackSpec(v: GraphValue)
    requires WellFormed(v)
    ensures AttackHistory(v)[0] == Cohesion(v)
    ensures AttackTarget(v).Some? ==>
      && AttackTarget(v).value in v.roles
      && (forall m :: m in v.roles ==> Degree(v, m) <= Degree(v, AttackTarget(v).value))
      && AttackHistory(v)[1] == Cohesion(WithoutNode(v, AttackTarget(v).value))
  {
    if |v.order| > 0 {
      TopDegreeNodeIsMaximal(v);
    }
  }

  /**
   * The collapse rate: the share of the initial cohesion lost, in percent.
   * It is negative when the ratio grows, which removing a node can cause.
   */
  function DropRate(initial: real, after: real): (p: real)
    requires 0.0 < initial && 0.0 <= after
    ensures p <= 100.0
    ensures p == 100.0 <==> after == 0.0
    ensures p > 0.0 <==> after < initial
    ensures p == 0.0 <==> after == initial
  {
    (initial - after) / initial * 100.0
  }

  /** A run of `add_edge` calls, in order. */
  function AddEdges(g: GraphValue, ps: seq<(Node, Node)>): (r: GraphValue)
    requires WellFormed(g)
    ensures WellFormed(r)
    decreases |ps|
  {
    if ps == [] then g
    else WithEdge(AddEdges(g, ps[..|ps| - 1]), ps[|ps| - 1].0, ps[|ps| - 1].1)
  }

  /** The calls made by the loop adding an edge from h to each element of ts. */
  function FanOut(h: Node, ts: seq<Node>): (ps: seq<(Node, Node)>)
    ensures |ps| == |ts|
    ensures forall i :: 0 <= i < |ts| ==> ps[i] == (h, ts[i])
  {
    if ts == [] then [] else FanOut(h, ts[..|ts| - 1]) + [(h, ts[|ts| - 1])]
  }

  /** The calls made by the loop adding an edge from each element of ts to h. */
  function FanIn(ts: seq<Node>, h: Node): (ps: seq<(Node, Node)>)
    ensures |ps| == |ts|
    ensures forall i :: 0 <= i < |ts| ==> ps[i] == (ts[i], h)
  {
    if ts == [] then [] else FanIn(ts[..|ts| - 1], h) + [(ts[|ts| - 1], h)]
  }

  lemma FanOutPrefix(h: Node, ts: seq<Node>, k: nat)
    requires k < |ts|
    ensures FanOut(h, ts[..k + 1]) == FanOut(h, ts[..k]) + [(h, ts[k])]
  {
    assert ts[..k + 1][..k] == ts[..k];
  }

  lemma FanInPrefix(ts: seq<Node>, h: Node, k: nat)
    requires k < |ts|
    ensures FanIn(ts[..k + 1], h) == FanIn(ts[..k], h) + [(ts[k], h)]
  {
    assert ts[..k + 1][..k] == ts[..k];
  }

  lemma AddEdgesSnoc(g: GraphValue, ps: seq<(Node, Node)>, p: (Node, Node))
    requires WellFormed(g)
    ensures AddEdges(g, ps + [p]) == WithEdge(AddEdges(g, ps), p.0, p.1)
  {
    assert (ps + [p])[..|ps|] == ps;
  }

  /**
   * r is g after connecting h to the fresh nodes ts: h is appended first
   * if it is new, then ts in order, all without attributes, with one edge
   * from h to each.
   */
  ghost predicate FannedOut(g: GraphValue, r: GraphValue, h: Node, ts: seq<Node>) {
    && r.order == g.order + (if h in g.roles || ts == [] then [] else [h]) + ts
    && (forall n :: n in r.roles <==> n in g.roles || n in ts || (n == h && ts != []))
    && (forall n :: n in r.roles ==> r.roles[n] == if n in g.roles then g.roles[n] else None)
    && r.edges == g.edges + set t | t in ts :: {h, t}
  }

  /** r is g after connecting the fresh nodes ts to h, which g already has. */
  ghost predicate FannedIn(g: GraphValue, r: GraphValue, ts: seq<Node>, h: Node) {
    && r.order == g.order + ts
    && (forall n :: n in r.roles <==> n in g.roles || n in ts)
    && (forall n :: n in r.roles ==> r.roles[n] == if n in g.roles then g.roles[n] else None)
    && r.edges == g.edges + set t | t in ts :: {t, h}
  }

  lemma FanOutStep(g: GraphValue, r: GraphValue, r': GraphValue, h: Node, ts: seq<Node>, t: Node)
    requires FannedOut(g, r, h, ts) && EdgeAdded(r, r', h, t)
    requires t !in g.roles && t != h && t !in ts
    ensures FannedOut(g, r', h, ts + [t])
  {
    assert t !in r.roles;
    assert (set u | u in ts + [t] :: {h, u}) == (set u | u in ts :: {h, u}) + {{h, t}};
  }

  lemma FanInStep(g: GraphValue, r: GraphValue, r': GraphValue, ts: seq<Node>, t: Node, h: Node)
    requires FannedIn(g, r, ts, h) && EdgeAdded(r, r', t, h) && h in g.roles
    requires t !in g.roles && t !in ts
    ensures FannedIn(g, r', ts + [t], h)
  {
    assert t !in r.roles;
    assert (set u | u in ts + [t] :: {u, h}) == (set u | u in ts :: {u, h}) + {{t, h}};
  }

  /** The loop adding an edge from h to each element of ts, over fresh, distinct nodes. */
  lemma {:induction false} FanOutShape(g: GraphValue, h: Node, ts: seq<Node>)
    requires WellFormed(g) && Distinct(ts)
    requires forall i :: 0 <= i < |ts| ==> ts[i] !in g.roles && ts[i] != h
    ensures FannedOut(g, AddEdges(g, FanOut(h, ts)), h, ts)
  {
    if ts != [] {
      var k := |ts| - 1;
      var ts' := ts[..k];
      assert ts == ts' + [ts[k]];
      assert ts[k] !in ts';
      FanOutShape(g, h, ts');
      AddEdgesSnoc(g, FanOut(h, ts'), (h, ts[k]));
      var r := AddEdges(g, FanOut(h, ts'));
      FanOutStep(g, r, WithEdge(r, h, ts[k]), h, ts', ts[k]);
    }
  }

  /** The loop adding an edge from each element of ts to h, over fresh, distinct nodes and a present h. */
  lemma {:induction false} FanInShape(g: GraphValue, ts: seq<Node>, h: Node)
    requires WellFormed(g) && Distinct(ts) && h in g.roles
    requires forall i :: 0 <= i < |ts| ==> ts[i] !in g.roles
    ensures FannedIn(g, AddEdges(g, FanIn(ts, h)), ts, h)
  {
    if ts != [] {
      var k := |ts| - 1;
      var ts' := ts[..k];
      assert ts == ts' + [ts[k]];
      assert ts[k] !in ts';
      FanInShape(g, ts', h);
      AddEdgesSnoc(g, FanIn(ts', h), (ts[k], h));
      var r := AddEdges(g, FanIn(ts', h));
      FanInStep(g, r, WithEdge(r, ts[k], h), ts', ts[k], h);
    }
  }
  /**
   * The cast of a star network: a maintainer m of three libraries c, x
   * and y, where c is also used by u1, u2 and u3.
   */
  datatype Star = Star(m: Node, c: Node, x: Node, y: Node, u1: Node, u2: Node, u3: Node)

  function StarNames(s: Star): seq<Node> {
    [s.m, s.c, s.x, s.y, s.u1, s.u2, s.u3]
  }

  /** The graph the star's construction produces: its names in order, no attributes, six edges. */
  function StarGraph(s: Star): GraphValue {
    GraphValue(
      StarNames(s),
      map n | n in StarNames(s) :: None,
      {{s.m, s.c}, {s.m, s.x}, {s.m, s.y}, {s.u1, s.c}, {s.u2, s.c}, {s.u3, s.c}})
  }

  lemma StarNamesDistinct(s: Star)
    requires Distinct(StarNames(s))
    ensures s.m != s.c && s.m != s.x && s.m != s.y && s.m != s.u1 && s.m != s.u2 && s.m != s.u3 && s.c != s.x
    ensures s.c != s.y && s.c != s.u1 && s.c != s.u2 && s.c != s.u3 && s.x != s.y && s.x != s.u1 && s.x != s.u2
    ensures s.x != s.u3 && s.y != s.u1 && s.y != s.u2 && s.y != s.u3 && s.u1 != s.u2 && s.u1 != s.u3 && s.u2 != s.u3
  {
    var ns := StarNames(s);
    assert ns[0] == s.m && ns[1] == s.c && ns[2] == s.x && ns[3] == s.y;
    assert ns[4] == s.u1 && ns[5] == s.u2 && ns[6] == s.u3;
  }

  /** The two loops' effect on the order, the node dictionary and the edges, spelled out for the star's names. */
  lemma StarFannedOrder(s: Star, g1: GraphValue, g2: GraphValue)
    requires FannedOut(Empty(), g1, s.m, [s.c, s.x, s.y])
    requires FannedIn(g1, g2, [s.u1, s.u2, s.u3], s.c)
    ensures g2.order == StarGraph(s).order
  {
  }

  lemma StarFannedRoles(s: Star, g1: GraphValue, g2: GraphValue)
    requires FannedOut(Empty(), g1, s.m, [s.c, s.x, s.y])
    requires FannedIn(g1, g2, [s.u1, s.u2, s.u3], s.c)
    ensures g2.roles == StarGraph(s).roles
  {
  }

  lemma StarFannedEdges(s: Star, g1: GraphValue, g2: GraphValue)
    requires FannedOut(Empty(), g1, s.m, [s.c, s.x, s.y])
    requires FannedIn(g1, g2, [s.u1, s.u2, s.u3], s.c)
    ensures g2.edges == StarGraph(s).edges
  {
  }

  /** The libraries and the users are each listed once; no library is the maintainer. */
  lemma StarFresh(s: Star)
    requires Distinct(StarNames(s))
    ensures Distinct([s.c, s.x, s.y]) && Distinct([s.u1, s.u2, s.u3])
    ensures forall i :: 0 <= i < 3 ==> [s.c, s.x, s.y][i] !in Empty().roles && [s.c, s.x, s.y][i] != s.m
  {
    StarNamesDistinct(s);
  }

  /** After the first loop, c is present and the users are not. */
  lemma StarMidpoint(s: Star, g1: GraphValue)
    requires Distinct(StarNames(s)) && FannedOut(Empty(), g1, s.m, [s.c, s.x, s.y])
    ensures s.c in g1.roles
    ensures forall i :: 0 <= i < 3 ==> [s.u1, s.u2, s.u3][i] !in g1.roles
  {
    StarNamesDistinct(s);
  }

  /** Connecting m to each library and then each user to c, with seven distinct names, gives StarGraph. */
  lemma StarBuilt(s: Star)
    requires Distinct(StarNames(s))
    ensures AddEdges(AddEdges(Empty(), FanOut(s.m, [s.c, s.x, s.y])), FanIn([s.u1, s.u2, s.u3], s.c)) == StarGraph(s)
  {
    StarFresh(s);
    var g1 := AddEdges(Empty(), FanOut(s.m, [s.c, s.x, s.y]));
    FanOutShape(Empty(), s.m, [s.c, s.x, s.y]);
    StarMidpoint(s, g1);
    FanInShape(g1, [s.u1, s.u2, s.u3], s.c);
    var g2 := AddEdges(g1, FanIn([s.u1, s.u2, s.u3], s.c));
    StarFannedOrder(s, g1, g2);
    StarFannedRoles(s, g1, g2);
    StarFannedEdges(s, g1, g2);
  }

  /** The names of `G_fragile`. */
  function FragileStar(): Star {
    Star("Zloirock", "Core-js", "Lib-X", "Lib-Y", "User1", "User2", "User3")
  }

  lemma FragileNamesDistinct()
    ensures Distinct(StarNames(FragileStar()))
  {
  }

  /** The loop adding an edge from h to each element of ts. */
  method ConnectFrom(g: Graph, h: Node, ts: seq<Node>)
    requires g.Valid()
    modifies g
    ensures g.Valid() && g.Value() == AddEdges(old(g.Value()), FanOut(h, ts))
  {
    ghost var g0 := g.Value();
    assert ts[..0] == [];
    for i := 0 to |ts|
      invariant g.Valid() && g.Value() == AddEdges(g0, FanOut(h, ts[..i]))
    {
      FanOutPrefix(h, ts, i);
      AddEdgesSnoc(g0, FanOut(h, ts[..i]), (h, ts[i]));
      g.AddEdge(h, ts[i]);
    }
    assert ts[..|ts|] == ts;
  }

  /** The loop adding an edge from each element of ts to h. */
  method ConnectTo(g: Graph, ts: seq<Node>, h: Node)
    requires g.Valid()
    modifies g
    ensures g.Valid() && g.Value() == AddEdges(old(g.Value()), FanIn(ts, h))
  {
    ghost var g0 := g.Value();
    assert ts[..0] == [];
    for i := 0 to |ts|
      invariant g.Valid() && g.Value() == AddEdges(g0, FanIn(ts[..i], h))
    {
      FanInPrefix(ts, h, i);
      AddEdgesSnoc(g0, FanIn(ts[..i], h), (ts[i], h));
      g.AddEdge(ts[i], h);
    }
    assert ts[..|ts|] == ts;
  }

  /** The construction of `G_fragile`: an edge from the maintainer to each library, then from each user to Core-js. */
  method BuildFragile() returns (g: Graph)
    ensures fresh(g) && g.Valid() && g.Value() == StarGraph(FragileStar())
  {
    g := new Graph();
    ConnectFrom(g, "Zloirock", ["Core-js", "Lib-X", "Lib-Y"]);
    ConnectTo(g, ["User1", "User2", "User3"], "Core-js");
    FragileNamesDistinct();
    StarBuilt(FragileStar());
  }
  /** Two unordered pairs are equal exactly when they have the same ends. */
  lemma PairEq(a: Node, b: Node, c: Node, d: Node)
    ensures {a, b} == {c, d} <==> (a == c && b == d) || (a == d && b == c)
  {
    if {a, b} == {c, d} {
      assert a in {c, d} && b in {c, d} && c in {a, b} && d in {a, b};
    }
  }

  /** The edges of the star: the maintainer with a library, or Core-js with a user. */
  lemma StarEdgeEnds(s: Star, a: Node, b: Node)
    requires {a, b} in StarGraph(s).edges
    ensures || (a == s.m && b in {s.c, s.x, s.y}) || (b == s.m && a in {s.c, s.x, s.y})
            || (a == s.c && b in {s.u1, s.u2, s.u3}) || (b == s.c && a in {s.u1, s.u2, s.u3})
  {
    PairEq(a, b, s.m, s.c);
    PairEq(a, b, s.m, s.x);
    PairEq(a, b, s.m, s.y);
    PairEq(a, b, s.u1, s.c);
    PairEq(a, b, s.u2, s.c);
    PairEq(a, b, s.u3, s.c);
  }

  /** Core-js is joined to the maintainer and the three users: degree 4. */
  lemma StarDegreeCore(s: Star)
    requires Distinct(StarNames(s))
    ensures Degree(StarGraph(s), s.c) == 4
  {
    StarNamesDistinct(s);
    var G := StarGraph(s);
    forall n | n in G.roles && Adjacent(G, s.c, n)
      ensures n in {s.m, s.u1, s.u2, s.u3}
    {
      StarEdgeEnds(s, s.c, n);
    }
    assert {s.c, s.m} == {s.m, s.c};
    assert {s.c, s.u1} == {s.u1, s.c};
    assert {s.c, s.u2} == {s.u2, s.c};
    assert {s.c, s.u3} == {s.u3, s.c};
    assert Neighbours(G, s.c) == {s.m, s.u1, s.u2, s.u3};
    if Adjacent(G, s.c, s.c) {
      StarEdgeEnds(s, s.c, s.c);
    }
  }
  /** The maintainer is joined to the three libraries: degree 3. */
  lemma StarDegreeMaintainer(s: Star)
    requires Distinct(StarNames(s))
    ensures Degree(StarGraph(s), s.m) == 3
  {
    StarNamesDistinct(s);
    var G := StarGraph(s);
    forall n | n in G.roles && Adjacent(G, s.m, n)
      ensures n in {s.c, s.x, s.y}
    {
      StarEdgeEnds(s, s.m, n);
    }
    assert Neighbours(G, s.m) == {s.c, s.x, s.y};
    if Adjacent(G, s.m, s.m) {
      StarEdgeEnds(s, s.m, s.m);
    }
  }

  /** Every other node has a single edge, to the maintainer or to Core-js. */
  lemma StarDegreeLeaf(s: Star, n: Node)
    requires Distinct(StarNames(s)) && n in {s.x, s.y, s.u1, s.u2, s.u3}
    ensures Degree(StarGraph(s), n) == 1
  {
    StarNamesDistinct(s);
    var G := StarGraph(s);
    var hub := if n in {s.x, s.y} then s.m else s.c;
    forall w | w in G.roles && Adjacent(G, n, w)
      ensures w == hub
    {
      StarEdgeEnds(s, n, w);
    }
    if n == s.x { assert {n, hub} == {s.m, s.x}; }
    else if n == s.y { assert {n, hub} == {s.m, s.y}; }
    else if n == s.u1 { assert {n, hub} == {s.u1, s.c}; }
    else if n == s.u2 { assert {n, hub} == {s.u2, s.c}; }
    else { assert {n, hub} == {s.u3, s.c}; }
    assert Neighbours(G, n) == {hub};
    if Adjacent(G, n, n) {
      StarEdgeEnds(s, n, n);
    }
  }
  /** The attack on a star removes Core-js: no other node reaches its degree. */
  lemma StarTarget(s: Star)
    requires Distinct(StarNames(s))
    ensures TopDegreeNode(StarGraph(s)) == s.c
  {
    var G := StarGraph(s);
    var k := TopDegreeNodeIsFirstMax(G);
    StarDegreeCore(s);
    assert G.order[1] == s.c;
    var t := G.order[k];
    assert t in {s.m, s.c, s.x, s.y, s.u1, s.u2, s.u3};
    if t == s.m {
      StarDegreeMaintainer(s);
    } else if t != s.c {
      StarDegreeLeaf(s, t);
    }
  }
  lemma StarWellFormed(s: Star)
    requires Distinct(StarNames(s))
    ensures WellFormed(StarGraph(s))
  {
    StarBuilt(s);
  }

  /** The six edges, each read from the end the proofs walk from. */
  lemma StarAdjacent(s: Star)
    ensures Adjacent(StarGraph(s), s.m, s.c) && Adjacent(StarGraph(s), s.m, s.x) && Adjacent(StarGraph(s), s.m, s.y)
    ensures Adjacent(StarGraph(s), s.c, s.u1) && Adjacent(StarGraph(s), s.c, s.u2) && Adjacent(StarGraph(s), s.c, s.u3)
  {
    assert {s.c, s.u1} == {s.u1, s.c} && {s.c, s.u2} == {s.u2, s.c} && {s.c, s.u3} == {s.u3, s.c};
  }

  /** Before the attack the star is one piece: cohesion 1. */
  lemma StarCohesionBefore(s: Star)
    requires Distinct(StarNames(s))
    ensures WellFormed(StarGraph(s)) && Cohesion(StarGraph(s)) == 1.0
  {
    StarWellFormed(s);
    var G := StarGraph(s);
    var C := Component(G, s.m);
    StarAdjacent(s);
    assert s.c in C && s.x in C && s.y in C;
    assert s.u1 in C && s.u2 in C && s.u3 in C;
    assert C == G.roles.Keys;
    SpanningComponent(G, s.m);
    CohesionOne(G);
  }

  /** `G_fragile` after losing Core-js. */
  function StarAfter(s: Star): GraphValue
    requires Distinct(StarNames(s))
  {
    StarWellFormed(s);
    WithoutNode(StarGraph(s), s.c)
  }

  /** Without Core-js six nodes are left. */
  lemma StarAfterNodes(s: Star)
    requires Distinct(StarNames(s))
    ensures forall n :: n in StarAfter(s).roles <==> n in {s.m, s.x, s.y, s.u1, s.u2, s.u3}
    ensures |StarAfter(s).order| == 6
  {
    StarNamesDistinct(s);
    assert StarAfter(s).roles == StarGraph(s).roles - {s.c};
  }

  /** Without Core-js the only edges left are the maintainer's to Lib-X and Lib-Y. */
  lemma StarAfterEdges(s: Star, a: Node, b: Node)
    requires Distinct(StarNames(s)) && Adjacent(StarAfter(s), a, b)
    ensures (a == s.m && b in {s.x, s.y}) || (b == s.m && a in {s.x, s.y})
  {
    StarNamesDistinct(s);
    StarEdgeEnds(s, a, b);
  }

  /** Without Core-js the maintainer and its other two libraries form one component. */
  lemma StarAfterMaintainer(s: Star)
    requires Distinct(StarNames(s))
    ensures s.m in StarAfter(s).roles && Component(StarAfter(s), s.m) == {s.m, s.x, s.y}
  {
    StarNamesDistinct(s);
    var W := StarAfter(s);
    var S := {s.m, s.x, s.y};
    forall w, z | w in S && z in W.roles && Adjacent(W, w, z)
      ensures z in S
    {
      StarAfterEdges(s, w, z);
    }
    ClosureLeast(W, {s.m}, S);
    var C := Component(W, s.m);
    assert {s.m, s.x} in W.edges && {s.m, s.y} in W.edges;
    assert s.x in C && s.y in C;
  }

  /** Without Core-js no edge is left at a user. */
  lemma StarAfterLonely(s: Star, u: Node, z: Node)
    requires Distinct(StarNames(s)) && u in {s.u1, s.u2, s.u3}
    ensures !Adjacent(StarAfter(s), u, z)
  {
    if Adjacent(StarAfter(s), u, z) {
      StarAfterEdges(s, u, z);
      StarNamesDistinct(s);
    }
  }

  lemma StarAfterLonelyClosed(s: Star, u: Node)
    requires Distinct(StarNames(s)) && u in {s.u1, s.u2, s.u3}
    ensures Closed(StarAfter(s), {u})
  {
    forall z {
      StarAfterLonely(s, u, z);
    }
  }

  /** Without Core-js each user is cut off alone. */
  lemma StarAfterUser(s: Star, u: Node)
    requires Distinct(StarNames(s)) && u in {s.u1, s.u2, s.u3}
    ensures u in StarAfter(s).roles && Component(StarAfter(s), u) == {u}
  {
    StarAfterNodes(s);
    StarAfterLonelyClosed(s, u);
    ClosureLeast(StarAfter(s), {u}, {u});
  }
  /** Without Core-js the maintainer's component has three nodes. */
  lemma StarAfterMaintainerSize(s: Star)
    requires Distinct(StarNames(s))
    ensures s.m in StarAfter(s).roles && |Component(StarAfter(s), s.m)| == 3
  {
    StarNamesDistinct(s);
    StarAfterMaintainer(s);
    assert |{s.m, s.x, s.y}| == 3;
  }

  /** Without Core-js no component has more than three nodes. */
  lemma StarAfterSmall(s: Star, n: Node)
    requires Distinct(StarNames(s)) && n in StarAfter(s).roles
    ensures |Component(StarAfter(s), n)| <= 3
  {
    StarAfterNodes(s);
    StarAfterMaintainerSize(s);
    if n in {s.x, s.y} {
      StarAfterMaintainer(s);
      ComponentOfMember(StarAfter(s), s.m, n);
    } else if n != s.m {
      StarAfterUser(s, n);
    }
  }

  lemma StarAfterSizes(s: Star)
    requires Distinct(StarNames(s))
    ensures s.m in StarAfter(s).roles && |Component(StarAfter(s), s.m)| == 3
    ensures forall n :: n in StarAfter(s).roles ==> |Component(StarAfter(s), n)| <= 3
  {
    StarAfterMaintainerSize(s);
    forall n | n in StarAfter(s).roles
      ensures |Component(StarAfter(s), n)| <= 3
    {
      StarAfterSmall(s, n);
    }
  }

  /** Without Core-js the largest component has three of the six nodes. */
  lemma StarAfterLargest(s: Star)
    requires Distinct(StarNames(s))
    ensures LargestIn(StarAfter(s), StarAfter(s).order) == 3
    ensures |StarAfter(s).order| == 6
  {
    var W := StarAfter(s);
    StarAfterNodes(s);
    StarAfterSizes(s);
    var j :| 0 <= j < |W.order| && W.order[j] == s.m;
    var i :| 0 <= i < |W.order| && LargestIn(W, W.order) == |Component(W, W.order[i])|;
  }

  /** Without Core-js the cohesion halves. */
  lemma StarCohesionAfter(s: Star)
    requires Distinct(StarNames(s))
    ensures WellFormed(StarAfter(s)) && Cohesion(StarAfter(s)) == 0.5
  {
    StarAfterNodes(s);
    StarAfterLargest(s);
  }
  /** Attacking a star removes Core-js and halves the cohesion: a 50% collapse. */
  lemma StarAttack(s: Star)
    requires Distinct(StarNames(s))
    ensures WellFormed(StarGraph(s))
    ensures AttackTarget(StarGraph(s)) == Some(s.c)
    ensures AttackHistory(StarGraph(s)) == [1.0, 0.5]
    ensures DropRate(1.0, 0.5) == 50.0
  {
    StarCohesionBefore(s);
    StarTarget(s);
    StarCohesionAfter(s);
  }

  /**
   * The fragile half of the experiment: build `G_fragile`, attack it, and
   * get the history [1.0, 0.5] with Core-js removed and a 50% collapse.
   */
  method FragileScenario() returns (history: seq<real>, top: Option<Node>, dropRate: Option<real>)
    ensures history == [1.0, 0.5] && top == Some("Core-js") && dropRate == Some(50.0)
  {
    var g := BuildFragile();
    history, top, dropRate := SimulateAttack(g);
    FragileNamesDistinct();
    StarAttack(FragileStar());
  }
}
