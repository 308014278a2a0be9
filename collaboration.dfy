/**
 * The developer collaboration network of the analysis script: a `repo`
 * node per repository of the contributor table, a `dev` node per
 * contributor, an edge from each contributor to each repository they
 * contribute to; then the ranking of a centrality result and the split of
 * the nodes by type.
 */
module Collaboration {
  import opened Wrappers
  import opened Graphs
  import opened Ranking

  /** `repo_contributors`: each repository with its contributor list, in dictionary order. */
  type Table = seq<(Node, seq<Node>)>

  /**
   * One contributor: typed `dev` unless it already has a type, then linked
   * to the repository by `add_edge`.
   */
  function AddContributor(g: GraphValue, dev: Node, repo: Node): (r: GraphValue)
    requires WellFormed(g)
    ensures WellFormed(r)
    ensures HasRole(r, dev) && r.edges == g.edges + {{dev, repo}}
    ensures forall n :: HasRole(g, n) ==> n in r.roles && r.roles[n] == g.roles[n]
  {
    WithEdge(if HasRole(g, dev) then g else WithNode(g, dev, Dev), dev, repo)
  }

  /** The inner loop over one repository's contributors, in order. */
  function AddContributors(g: GraphValue, repo: Node, devs: seq<Node>): (r: GraphValue)
    requires WellFormed(g)
    ensures WellFormed(r)
    ensures r.edges == g.edges + RowPairs(repo, devs)
    ensures forall n :: HasRole(g, n) ==> n in r.roles && r.roles[n] == g.roles[n]
    decreases |devs|
  {
    if devs == [] then
      assert RowPairs(repo, devs) == {};
      g
    else
      var ds := devs[..|devs| - 1];
      var d := devs[|devs| - 1];
      assert devs == ds + [d];
      RowSnoc(repo, ds, d);
      AddContributor(AddContributors(g, repo, ds), d, repo)
  }

  /** One iteration of the outer loop: the repository node, typed `repo`, then its contributors. */
  function AddRepo(g: GraphValue, repo: Node, devs: seq<Node>): (r: GraphValue)
    requires WellFormed(g)
    ensures WellFormed(r)
    ensures repo in r.roles && r.roles[repo] == Some(Repo)
    ensures r.edges == g.edges + RowPairs(repo, devs)
  {
    AddContributors(WithNode(g, repo, Repo), repo, devs)
  }

  /** The graph `G` after the construction loops over the whole table. */
  function CollaborationGraph(t: Table): (r: GraphValue)
    ensures WellFormed(r)
    decreases |t|
  {
    if t == [] then Empty()
    else AddRepo(CollaborationGraph(t[..|t| - 1]), t[|t| - 1].0, t[|t| - 1].1)
  }

  /** The body of the inner loop: the guarded `add_node`, then `add_edge`. */
  method LinkContributor(g: Graph, dev: Node, repo: Node)
    requires g.Valid()
    modifies g
    ensures g.Valid() && g.Value() == AddContributor(old(g.Value()), dev, repo)
  {
    if !HasRole(g.Value(), dev) {
      g.AddNode(dev, Dev);
    }
    g.AddEdge(dev, repo);
  }

  /** The body of the outer loop: the repository node, then the inner loop over its contributors. */
  method LinkRepo(g: Graph, repo: Node, devs: seq<Node>)
    requires g.Valid()
    modifies g
    ensures g.Valid() && g.Value() == AddRepo(old(g.Value()), repo, devs)
  {
    g.AddNode(repo, Repo);
    ghost var g1 := g.Value();
    assert devs[..0] == [];
    for j := 0 to |devs|
      invariant g.Valid() && g.Value() == AddContributors(g1, repo, devs[..j])
    {
      assert devs[..j + 1][..j] == devs[..j];
      LinkContributor(g, devs[j], repo);
    }
    assert devs[..|devs|] == devs;
  }

  /** The construction loops of the script, run on a fresh graph. */
  method BuildCollaborationGraph(t: Table) returns (g: Graph)
    ensures fresh(g) && g.Valid() && g.Value() == CollaborationGraph(t)
  {
    g := new Graph();
    assert t[..0] == [];
    for i := 0 to |t|
      invariant g.Valid() && g.Value() == CollaborationGraph(t[..i])
    {
      assert t[..i + 1][..i] == t[..i];
      LinkRepo(g, t[i].0, t[i].1);
    }
    assert t[..|t|] == t;
  }

  /** The elements of a list, as a set. */
  function Elems(s: seq<Node>): set<Node> {
    set x | x in s
  }

  /** The repositories of the table (its keys). */
  function Keys(t: Table): set<Node> {
    set i | 0 <= i < |t| :: t[i].0
  }

  /** Everyone listed as a contributor of some repository. */
  function Contributors(t: Table): set<Node> {
    set i, d | 0 <= i < |t| && d in t[i].1 :: d
  }

  /** The unordered pairs {dev, repo} of one repository's row. */
  function RowPairs(repo: Node, devs: seq<Node>): set<set<Node>> {
    set d | d in devs :: {d, repo}
  }

  /** The unordered pairs {dev, repo} of the whole table. */
  function Pairs(t: Table): set<set<Node>> {
    set i, d | 0 <= i < |t| && d in t[i].1 :: {d, t[i].0}
  }

  /**
   * r has exactly the nodes K + C, each typed: `repo` for the members of
   * K, `dev` for the others; and exactly the edges P.
   */
  ghost predicate Describes(r: GraphValue, K: set<Node>, C: set<Node>, P: set<set<Node>>) {
    && WellFormed(r)
    && r.roles.Keys == K + C
    && (forall n :: n in r.roles ==> r.roles[n] == Some(if n in K then Repo else Dev))
    && r.edges == P
  }

  lemma RepoStep(g: GraphValue, K: set<Node>, C: set<Node>, P: set<set<Node>>, repo: Node)
    requires Describes(g, K, C, P)
    ensures Describes(WithNode(g, repo, Repo), K + {repo}, C, P)
  {
  }

  lemma ContributorStep(g: GraphValue, K: set<Node>, C: set<Node>, P: set<set<Node>>, dev: Node, repo: Node,
                        C': set<Node>, P': set<set<Node>>)
    requires Describes(g, K, C, P) && repo in K
    requires C' == C + {dev} && P' == P + {{dev, repo}}
    ensures Describes(AddContributor(g, dev, repo), K, C', P')
  {
    var r := AddContributor(g, dev, repo);
    FirstAppearance(g, dev, repo);
    if HasRole(g, dev) {
      assert r.roles == g.roles;
      assert r.roles.Keys == K + C';
    } else {
      assert dev !in K + C;
      assert r.roles == g.roles[dev := Some(Dev)];
      assert r.roles.Keys == K + C';
    }
  }

  lemma RowSnoc(repo: Node, ds: seq<Node>, d: Node)
    ensures Elems(ds + [d]) == Elems(ds) + {d}
    ensures RowPairs(repo, ds + [d]) == RowPairs(repo, ds) + {{d, repo}}
  {
    assert forall x :: x in ds + [d] <==> x in ds || x == d;
  }

  lemma {:induction false} ContributorsShape(g: GraphValue, K: set<Node>, C: set<Node>, P: set<set<Node>>, repo: Node, devs: seq<Node>)
    requires Describes(g, K, C, P) && repo in K
    ensures Describes(AddContributors(g, repo, devs), K, C + Elems(devs), P + RowPairs(repo, devs))
    decreases |devs|
  {
    if devs == [] {
      assert Elems(devs) == {};
      assert RowPairs(repo, devs) == {};
    } else {
      var ds := devs[..|devs| - 1];
      var d := devs[|devs| - 1];
      assert devs == ds + [d];
      ContributorsShape(g, K, C, P, repo, ds);
      var r0 := AddContributors(g, repo, ds);
      RowSnoc(repo, ds, d);
      ContributorStep(r0, K, C + Elems(ds), P + RowPairs(repo, ds), d, repo, C + Elems(devs), P + RowPairs(repo, devs));
      assert AddContributors(g, repo, devs) == AddContributor(r0, d, repo);
    }
  }

  lemma KeysSnoc(t: Table, repo: Node, devs: seq<Node>)
    ensures Keys(t + [(repo, devs)]) == Keys(t) + {repo}
  {
    var t' := t + [(repo, devs)];
    assert t'[|t|] == (repo, devs);
    forall k | k in Keys(t')
      ensures k in Keys(t) + {repo}
    {
      var i :| 0 <= i < |t'| && k == t'[i].0;
      if i < |t| {
        assert t[i] == t'[i];
      }
    }
    forall k | k in Keys(t)
      ensures k in Keys(t')
    {
      var i :| 0 <= i < |t| && k == t[i].0;
      assert t'[i] == t[i];
    }
  }

  lemma ContributorsSnoc(t: Table, repo: Node, devs: seq<Node>)
    ensures Contributors(t + [(repo, devs)]) == Contributors(t) + Elems(devs)
  {
    var t' := t + [(repo, devs)];
    assert t'[|t|] == (repo, devs);
    forall d | d in Contributors(t')
      ensures d in Contributors(t) + Elems(devs)
    {
      var i :| 0 <= i < |t'| && d in t'[i].1;
      if i < |t| {
        assert t[i] == t'[i];
      }
    }
    forall d | d in Contributors(t)
      ensures d in Contributors(t')
    {
      var i :| 0 <= i < |t| && d in t[i].1;
      assert t'[i] == t[i];
    }
  }

  lemma PairsSnoc(t: Table, repo: Node, devs: seq<Node>)
    ensures Pairs(t + [(repo, devs)]) == Pairs(t) + RowPairs(repo, devs)
  {
    var t' := t + [(repo, devs)];
    assert t'[|t|] == (repo, devs);
    forall e | e in Pairs(t')
      ensures e in Pairs(t) + RowPairs(repo, devs)
    {
      var i, d :| 0 <= i < |t'| && d in t'[i].1 && e == {d, t'[i].0};
      if i < |t| {
        assert t[i] == t'[i];
      }
    }
    forall e | e in Pairs(t)
      ensures e in Pairs(t')
    {
      var i, d :| 0 <= i < |t| && d in t[i].1 && e == {d, t[i].0};
      assert t'[i] == t[i];
    }
  }

  lemma {:induction false} CollaborationShape(t: Table)
    ensures Describes(CollaborationGraph(t), Keys(t), Contributors(t), Pairs(t))
    decreases |t|
  {
    if t == [] {
      assert Keys(t) == {} && Contributors(t) == {} && Pairs(t) == {};
    } else {
      var p := t[..|t| - 1];
      var repo, devs := t[|t| - 1].0, t[|t| - 1].1;
      assert t == p + [(repo, devs)];
      CollaborationShape(p);
      var g := CollaborationGraph(p);
      RepoStep(g, Keys(p), Contributors(p), Pairs(p), repo);
      ContributorsShape(WithNode(g, repo, Repo), Keys(p) + {repo}, Contributors(p), Pairs(p), repo, devs);
      KeysSnoc(p, repo, devs);
      ContributorsSnoc(p, repo, devs);
      PairsSnoc(p, repo, devs);
    }
  }

  /**
   * The nodes are the repositories and the contributors, and nothing else;
   * every repository is typed `repo`, every contributor that is not also a
   * repository is typed `dev`, so every node has a type.
   */
  lemma CollaborationRoles(t: Table)
    ensures var g := CollaborationGraph(t);
      && (forall n :: n in g.roles <==> n in Keys(t) || n in Contributors(t))
      && (forall n :: n in Keys(t) ==> g.roles[n] == Some(Repo))
      && (forall n :: n in Contributors(t) && n !in Keys(t) ==> g.roles[n] == Some(Dev))
      && (forall n :: n in g.roles ==> HasRole(g, n))
      && |g.order| == |Keys(t) + Contributors(t)|
  {
    var g := CollaborationGraph(t);
    CollaborationShape(t);
    NodeCount(g);
  }

  /** Every (dev, repo) pair of the table is an edge, and every edge is such a pair. */
  lemma CollaborationEdges(t: Table)
    ensures var g := CollaborationGraph(t);
      && (forall i, j :: 0 <= i < |t| && 0 <= j < |t[i].1| ==> Adjacent(g, t[i].1[j], t[i].0))
      && (forall e :: e in g.edges ==> exists i, j :: 0 <= i < |t| && 0 <= j < |t[i].1| && e == {t[i].1[j], t[i].0})
  {
    var g := CollaborationGraph(t);
    CollaborationShape(t);
    forall i, j | 0 <= i < |t| && 0 <= j < |t[i].1|
      ensures Adjacent(g, t[i].1[j], t[i].0)
    {
      assert t[i].1[j] in t[i].1;
    }
    forall e | e in g.edges
      ensures exists i, j :: 0 <= i < |t| && 0 <= j < |t[i].1| && e == {t[i].1[j], t[i].0}
    {
      var i, d :| 0 <= i < |t| && d in t[i].1 && e == {d, t[i].0};
      var j :| 0 <= j < |t[i].1| && t[i].1[j] == d;
    }
  }

  /**
   * When no repository name is also listed as a contributor, every edge
   * joins a `repo` node to a `dev` node: the graph is bipartite.
   */
  lemma CollaborationBipartite(t: Table)
    requires Keys(t) !! Contributors(t)
    ensures var g := CollaborationGraph(t);
      forall u, v :: Adjacent(g, u, v) ==> u in g.roles && v in g.roles && u != v && g.roles[u] != g.roles[v]
  {
    var g := CollaborationGraph(t);
    CollaborationShape(t);
    forall u, v | Adjacent(g, u, v)
      ensures u in g.roles && v in g.roles && u != v && g.roles[u] != g.roles[v]
    {
      var i, d :| 0 <= i < |t| && d in t[i].1 && {u, v} == {d, t[i].0};
      assert d in Contributors(t) && t[i].0 in Keys(t);
      assert u in {u, v} && v in {u, v};
      assert d in {u, v} && t[i].0 in {u, v};
    }
  }

  /**
   * A contributor already typed keeps its type (a repository listed as a
   * contributor stays `repo`, a developer seen under an earlier repository
   * stays `dev`); an untyped one becomes `dev`. No other node changes.
   */
  lemma FirstAppearance(g: GraphValue, dev: Node, repo: Node)
    requires WellFormed(g) && repo in g.roles
    ensures AddContributor(g, dev, repo).roles == if HasRole(g, dev) then g.roles else g.roles[dev := Some(Dev)]
    ensures AddContributor(g, dev, repo).order == if dev in g.roles then g.order else g.order + [dev]
    ensures AddContributor(g, dev, repo).edges == g.edges + {{dev, repo}}
  {
  }

  /** Re-adding a contributor to a repository it is linked to already changes nothing. */
  lemma ContributorAgain(g: GraphValue, dev: Node, repo: Node)
    requires WellFormed(g) && repo in g.roles
    ensures var g' := AddContributor(g, dev, repo); AddContributor(g', dev, repo) == g'
  {
    var g' := AddContributor(g, dev, repo);
    FirstAppearance(g, dev, repo);
    WithEdgeExisting(g', dev, repo);
  }

  /**
   * s followed by the members of more that are not listed yet, each where
   * it is first mentioned: the order in which a node dictionary meets them.
   */
  function Appended(s: seq<Node>, more: seq<Node>): (r: seq<Node>)
    ensures forall x :: x in r <==> x in s || x in more
    ensures Distinct(s) ==> Distinct(r)
    decreases |more|
  {
    if more == [] then s
    else
      var e := Appended(s, more[..|more| - 1]);
      assert forall x :: x in more <==> x in more[..|more| - 1] || x == more[|more| - 1];
      if more[|more| - 1] in e then e else e + [more[|more| - 1]]
  }

  /** Every name of the table in the order the loops meet it: each repository, then its contributors. */
  function Mentions(t: Table): seq<Node>
    decreases |t|
  {
    if t == [] then [] else Mentions(t[..|t| - 1]) + ([t[|t| - 1].0] + t[|t| - 1].1)
  }

  lemma {:induction false} AppendedConcat(s: seq<Node>, a: seq<Node>, b: seq<Node>)
    ensures Appended(s, a + b) == Appended(Appended(s, a), b)
    decreases |b|
  {
    if b == [] {
      assert a + b == a;
    } else {
      var b' := b[..|b| - 1];
      assert (a + b)[..|a + b| - 1] == a + b';
      assert (a + b)[|a + b| - 1] == b[|b| - 1];
      AppendedConcat(s, a, b');
    }
  }

  /** The inner loop appends each contributor that is not a node yet, at its first mention. */
  lemma {:induction false} ContributorsOrder(g: GraphValue, repo: Node, devs: seq<Node>)
    requires WellFormed(g) && HasRole(g, repo)
    ensures AddContributors(g, repo, devs).order == Appended(g.order, devs)
    decreases |devs|
  {
    if devs != [] {
      var ds := devs[..|devs| - 1];
      ContributorsOrder(g, repo, ds);
      FirstAppearance(AddContributors(g, repo, ds), devs[|devs| - 1], repo);
    }
  }

  /**
   * The node order of the whole graph: every name of the table once, in
   * the order of its first mention by the loops.
   */
  lemma {:induction false} CollaborationOrder(t: Table)
    ensures CollaborationGraph(t).order == Appended([], Mentions(t))
    decreases |t|
  {
    if t != [] {
      var p := t[..|t| - 1];
      var repo, devs := t[|t| - 1].0, t[|t| - 1].1;
      CollaborationOrder(p);
      var g := CollaborationGraph(p);
      var g1 := WithNode(g, repo, Repo);
      assert [repo][..0] == [];
      assert g1.order == Appended(g.order, [repo]);
      ContributorsOrder(g1, repo, devs);
      AppendedConcat(g.order, [repo], devs);
      AppendedConcat([], Mentions(p), [repo] + devs);
    }
  }

  /** The nodes of one type, in node order: the list comprehension over `G.nodes`. */
  function NodesOfRole(order: seq<Node>, roles: map<Node, Option<Role>>, role: Role): (r: seq<Node>)
    ensures forall n :: n in r <==> n in order && n in roles && roles[n] == Some(role)
    ensures Distinct(order) ==> Distinct(r)
  {
    if order == [] then []
    else
      var rest := NodesOfRole(order[1..], roles, role);
      assert Distinct(order) ==> order[0] !in order[1..];
      (if order[0] in roles && roles[order[0]] == Some(role) then [order[0]] else []) + rest
  }

  /** r lists, in order, the nodes at the increasing positions idx of order. */
  ghost predicate Positions(order: seq<Node>, r: seq<Node>, idx: seq<nat>) {
    && |idx| == |r|
    && (forall k :: 0 <= k < |idx| ==> idx[k] < |order| && order[idx[k]] == r[k])
    && (forall k, l :: 0 <= k < l < |idx| ==> idx[k] < idx[l])
  }

  /** Every position of order whose node has the type is among idx. */
  ghost predicate HitsEvery(order: seq<Node>, roles: map<Node, Option<Role>>, role: Role, idx: seq<nat>) {
    forall i :: 0 <= i < |order| && order[i] in roles && roles[order[i]] == Some(role) ==> i in idx
  }

  /** The positions of the filter over the tail, one further right. */
  lemma ShiftPositions(order: seq<Node>, roles: map<Node, Option<Role>>, role: Role, r: seq<Node>, rest: seq<nat>)
    returns (shifted: seq<nat>)
    requires order != []
    requires Positions(order[1..], r, rest)
    requires HitsEvery(order[1..], roles, role, rest)
    ensures Positions(order, r, shifted)
    ensures forall k :: 0 <= k < |shifted| ==> 1 <= shifted[k]
    ensures forall i :: 1 <= i < |order| && order[i] in roles && roles[order[i]] == Some(role) ==> i in shifted
  {
    var tail := order[1..];
    shifted := seq(|rest|, k requires 0 <= k < |rest| => rest[k] + 1);
    forall k | 0 <= k < |shifted|
      ensures shifted[k] < |order| && order[shifted[k]] == r[k]
    {
      assert tail[rest[k]] == order[rest[k] + 1];
    }
    forall i | 1 <= i < |order| && order[i] in roles && roles[order[i]] == Some(role)
      ensures i in shifted
    {
      assert tail[i - 1] == order[i];
      var k :| 0 <= k < |rest| && rest[k] == i - 1;
      assert shifted[k] == i;
    }
  }

  /** Putting position 0 in front of positions that all lie further right. */
  lemma ConsPosition(order: seq<Node>, roles: map<Node, Option<Role>>, role: Role, r: seq<Node>, shifted: seq<nat>)
    returns (idx: seq<nat>)
    requires order != [] && Positions(order, r, shifted)
    requires forall k :: 0 <= k < |shifted| ==> 1 <= shifted[k]
    requires forall i :: 1 <= i < |order| && order[i] in roles && roles[order[i]] == Some(role) ==> i in shifted
    ensures Positions(order, [order[0]] + r, idx)
    ensures HitsEvery(order, roles, role, idx)
  {
    idx := [0] + shifted;
    forall k | 1 <= k < |idx|
      ensures idx[k] == shifted[k - 1]
    {
    }
    forall k, l | 0 <= k < l < |idx|
      ensures idx[k] < idx[l]
    {
      if k > 0 {
        assert idx[k] == shifted[k - 1] && idx[l] == shifted[l - 1];
      }
    }
    forall i | 0 <= i < |order| && order[i] in roles && roles[order[i]] == Some(role)
      ensures i in idx
    {
      if i == 0 {
        assert idx[0] == i;
      } else {
        var k :| 0 <= k < |shifted| && shifted[k] == i;
        assert idx[k + 1] == i;
      }
    }
  }

  /** When the first node does not have the type, the shifted positions are all of them. */
  lemma SkipPosition(order: seq<Node>, roles: map<Node, Option<Role>>, role: Role, shifted: seq<nat>)
    requires order != [] && !(order[0] in roles && roles[order[0]] == Some(role))
    requires forall i :: 1 <= i < |order| && order[i] in roles && roles[order[i]] == Some(role) ==> i in shifted
    ensures HitsEvery(order, roles, role, shifted)
  {
    forall i | 0 <= i < |order| && order[i] in roles && roles[order[i]] == Some(role)
      ensures i in shifted
    {
      assert i != 0;
    }
  }

  /**
   * The filter keeps node order: its entries sit at increasing positions of
   * `order`, and every position whose node has the type is one of them.
   */
  lemma {:induction false} NodesOfRoleInOrder(order: seq<Node>, roles: map<Node, Option<Role>>, role: Role)
    returns (idx: seq<nat>)
    ensures Positions(order, NodesOfRole(order, roles, role), idx)
    ensures HitsEvery(order, roles, role, idx)
  {
    if order == [] {
      idx := [];
    } else {
      var rest := NodesOfRoleInOrder(order[1..], roles, role);
      var r' := NodesOfRole(order[1..], roles, role);
      var shifted := ShiftPositions(order, roles, role, r', rest);
      if order[0] in roles && roles[order[0]] == Some(role) {
        assert NodesOfRole(order, roles, role) == [order[0]] + r';
        idx := ConsPosition(order, roles, role, r', shifted);
      } else {
        assert NodesOfRole(order, roles, role) == r';
        SkipPosition(order, roles, role, shifted);
        idx := shifted;
      }
    }
  }

  /** `repos`. */
  function Repos(g: GraphValue): (r: seq<Node>)
    ensures WellFormed(g) ==> forall n :: n in r <==> n in g.roles && g.roles[n] == Some(Repo)
  {
    NodesOfRole(g.order, g.roles, Repo)
  }

  /** `devs`. */
  function Devs(g: GraphValue): (r: seq<Node>)
    ensures WellFormed(g) ==> forall n :: n in r <==> n in g.roles && g.roles[n] == Some(Dev)
  {
    NodesOfRole(g.order, g.roles, Dev)
  }

  /**
   * The `repos` and `devs` lists share no node and list each node once;
   * when every node has a type, together they list every node.
   */
  lemma RoleFilters(g: GraphValue)
    requires WellFormed(g)
    ensures Distinct(Repos(g)) && Distinct(Devs(g))
    ensures forall n :: n in Repos(g) ==> n !in Devs(g)
    ensures (forall n :: n in g.roles ==> HasRole(g, n)) ==>
      && (forall n :: n in g.order <==> n in Repos(g) || n in Devs(g))
      && |Repos(g)| + |Devs(g)| == |g.order|
  {
    if forall n :: n in g.roles ==> HasRole(g, n) {
      FiltersCount(g.order, g.roles);
      forall n | n in g.order
        ensures n in Repos(g) || n in Devs(g)
      {
        assert HasRole(g, n);
        match g.roles[n].value
        case Repo => assert g.roles[n] == Some(Repo);
        case Dev => assert g.roles[n] == Some(Dev);
      }
    }
  }

  /** Over nodes that all have a type, the two filters together are as long as the list. */
  lemma {:induction false} FiltersCount(order: seq<Node>, roles: map<Node, Option<Role>>)
    requires forall n :: n in order ==> n in roles && roles[n].Some?
    ensures |NodesOfRole(order, roles, Repo)| + |NodesOfRole(order, roles, Dev)| == |order|
  {
    if order != [] {
      FiltersCount(order[1..], roles);
      assert order[0] in order;
      var rest := order[1..];
      assert roles[order[0]] == Some(roles[order[0]].value);
      match roles[order[0]].value
      case Repo =>
        assert NodesOfRole(order, roles, Repo) == [order[0]] + NodesOfRole(rest, roles, Repo);
        assert NodesOfRole(order, roles, Dev) == NodesOfRole(rest, roles, Dev);
      case Dev =>
        assert NodesOfRole(order, roles, Repo) == NodesOfRole(rest, roles, Repo);
        assert NodesOfRole(order, roles, Dev) == [order[0]] + NodesOfRole(rest, roles, Dev);
    }
  }

  /**
   * In the collaboration graph `repos` lists exactly the repositories of
   * the table and `devs` exactly the contributors that are not also
   * repositories, so together they cover every node.
   */
  lemma RolesPartition(t: Table)
    ensures var g := CollaborationGraph(t);
      && (forall n :: n in Repos(g) <==> n in Keys(t))
      && (forall n :: n in Devs(g) <==> n in Contributors(t) && n !in Keys(t))
      && |Repos(g)| == |Keys(t)|
      && |Devs(g)| == |Contributors(t) - Keys(t)|
      && |Repos(g)| + |Devs(g)| == |g.order|
  {
    var g := CollaborationGraph(t);
    CollaborationRoles(t);
    RoleFilters(g);
    DistinctCount(Repos(g), Keys(t));
    DistinctCount(Devs(g), Contributors(t) - Keys(t));
  }

  /** The number of (dev, repo) entries of the table, repeats included. */
  function Contributions(t: Table): nat
    decreases |t|
  {
    if t == [] then 0 else Contributions(t[..|t| - 1]) + |t[|t| - 1].1|
  }

  lemma ContributionsStep(t: Table, k: nat)
    requires k < |t|
    ensures Contributions(t[..k + 1]) == Contributions(t[..k]) + |t[k].1|
  {
    assert t[..k + 1][..k] == t[..k];
  }

  /** No repository is listed twice, as in a dictionary. */
  predicate KeysDistinct(t: Table) {
    forall i, j :: 0 <= i < j < |t| ==> t[i].0 != t[j].0
  }

  /** No contributor is listed twice for the same repository. */
  predicate RowsDistinct(t: Table) {
    forall i :: 0 <= i < |t| ==> Distinct(t[i].1)
  }

  /** Distinct contributors give distinct pairs with their repository. */
  lemma {:induction false} RowPairsCount(repo: Node, devs: seq<Node>)
    requires Distinct(devs)
    ensures |RowPairs(repo, devs)| == |devs|
    decreases |devs|
  {
    if devs == [] {
      assert RowPairs(repo, devs) == {};
    } else {
      var ds := devs[..|devs| - 1];
      var d := devs[|devs| - 1];
      assert devs == ds + [d];
      RowPairsCount(repo, ds);
      RowSnoc(repo, ds, d);
      forall x | x in ds
        ensures {x, repo} != {d, repo}
      {
        assert x != d;
        assert x in {x, repo};
        assert d in {d, repo};
      }
    }
  }

  /** The pairs of earlier rows never involve a repository that appears nowhere in them. */
  lemma PairsApart(t: Table, repo: Node, devs: seq<Node>)
    requires repo !in Keys(t) && repo !in Contributors(t)
    ensures Pairs(t) !! RowPairs(repo, devs)
  {
    forall e | e in Pairs(t)
      ensures repo !in e
    {
      var i, d :| 0 <= i < |t| && d in t[i].1 && e == {d, t[i].0};
      assert d in Contributors(t) && t[i].0 in Keys(t);
    }
  }

  /** Dropping the last row keeps a table duplicate-free; the last repository is not among the others. */
  lemma PrefixDistinct(t: Table)
    requires t != [] && KeysDistinct(t) && RowsDistinct(t)
    ensures var p := t[..|t| - 1];
      && KeysDistinct(p) && RowsDistinct(p) && Distinct(t[|t| - 1].1)
      && t[|t| - 1].0 !in Keys(p)
  {
    var p := t[..|t| - 1];
    forall k | 0 <= k < |p|
      ensures p[k].0 != t[|t| - 1].0
    {
      assert p[k] == t[k];
    }
  }

  lemma {:induction false} PairsCount(t: Table)
    requires KeysDistinct(t) && RowsDistinct(t) && Keys(t) !! Contributors(t)
    ensures |Pairs(t)| == Contributions(t)
    decreases |t|
  {
    if t == [] {
      assert Pairs(t) == {};
    } else {
      var p := t[..|t| - 1];
      var repo, devs := t[|t| - 1].0, t[|t| - 1].1;
      assert t == p + [(repo, devs)];
      KeysSnoc(p, repo, devs);
      ContributorsSnoc(p, repo, devs);
      PairsSnoc(p, repo, devs);
      PrefixDistinct(t);
      PairsCount(p);
      RowPairsCount(repo, devs);
      PairsApart(p, repo, devs);
    }
  }

  /**
   * When no repository is listed twice, no contributor twice for one
   * repository, and no repository name is also a contributor: there is a
   * node per name and an edge per (dev, repo) entry.
   */
  lemma CollaborationCounts(t: Table)
    requires KeysDistinct(t) && RowsDistinct(t) && Keys(t) !! Contributors(t)
    ensures |CollaborationGraph(t).order| == |Keys(t)| + |Contributors(t)|
    ensures |CollaborationGraph(t).edges| == Contributions(t)
  {
    CollaborationShape(t);
    CollaborationRoles(t);
    PairsCount(t);
  }

  /** The table `repo_contributors` of the script. */
  function RepoContributors(): (t: Table)
    ensures |t| == |RepoNames()| && forall i :: 0 <= i < |t| ==> t[i].0 == RepoNames()[i]
  {
    [("Vue", ["Evan You", "Sodatea", "Posva", "HcySunYang", "DevA", "DevB"]),
     ("Vite", ["Evan You", "Patak", "Antfu", "Sheremet", "DevC"]),
     ("Nuxt", ["Pooya", "Daniel", "Antfu", "DevD"]),
     ("Vitest", ["Antfu", "Sheremet", "Patak", "DevE"]),
     ("Unjs", ["Pooya", "Pi0", "DevF"]),
     ("Core-js", ["Zloirock"])]
  }

  /** Its repositories. */
  function RepoNames(): seq<Node> {
    ["Vue", "Vite", "Nuxt", "Vitest", "Unjs", "Core-js"]
  }

  /** Its contributors, each once, in order of first appearance. */
  function DevNames(): seq<Node> {
    ["Evan You", "Sodatea", "Posva", "HcySunYang", "DevA", "DevB", "Patak", "Antfu", "Sheremet", "DevC",
     "Pooya", "Daniel", "DevD", "DevE", "Pi0", "DevF", "Zloirock"]
  }

  lemma NamesDistinct()
    ensures Distinct(RepoNames()) && Distinct(DevNames())
    ensures forall x :: x in RepoNames() ==> x !in DevNames()
  {
  }

  lemma TableKeys()
    ensures forall x :: x in Keys(RepoContributors()) <==> x in RepoNames()
  {
    var t := RepoContributors();
    forall x | x in Keys(t)
      ensures x in RepoNames()
    {
      var i :| 0 <= i < |t| && x == t[i].0;
      assert i == 0 || i == 1 || i == 2 || i == 3 || i == 4 || i == 5;
    }
    assert t[0].0 == "Vue" && t[1].0 == "Vite" && t[2].0 == "Nuxt";
    assert t[3].0 == "Vitest" && t[4].0 == "Unjs" && t[5].0 == "Core-js";
  }

  lemma TableContributors()
    ensures forall x :: x in Contributors(RepoContributors()) <==> x in DevNames()
  {
    var t := RepoContributors();
    forall x | x in Contributors(t)
      ensures x in DevNames()
    {
      var i :| 0 <= i < |t| && x in t[i].1;
      assert i == 0 || i == 1 || i == 2 || i == 3 || i == 4 || i == 5;
    }
    forall x | x in DevNames()
      ensures x in Contributors(t)
    {
      if x in t[0].1 {
      } else if x in t[1].1 {
      } else if x in t[2].1 {
      } else if x in t[3].1 {
      } else if x in t[4].1 {
      } else {
        assert x in t[5].1;
      }
    }
  }

  lemma TableDistinct()
    ensures KeysDistinct(RepoContributors()) && RowsDistinct(RepoContributors())
  {
    var t := RepoContributors();
    forall i | 0 <= i < |t|
      ensures Distinct(t[i].1)
    {
      assert i == 0 || i == 1 || i == 2 || i == 3 || i == 4 || i == 5;
    }
  }

  lemma TableContributions()
    ensures Contributions(RepoContributors()) == 23
  {
    var t := RepoContributors();
    assert t[..0] == [] && t[..6] == t;
    ContributionsStep(t, 0);
    ContributionsStep(t, 1);
    ContributionsStep(t, 2);
    ContributionsStep(t, 3);
    ContributionsStep(t, 4);
    ContributionsStep(t, 5);
  }

  /** No repository of the table is also listed as a contributor; 6 repositories, 17 contributors. */
  lemma TableApart()
    ensures Keys(RepoContributors()) !! Contributors(RepoContributors())
    ensures |Keys(RepoContributors())| == 6 && |Contributors(RepoContributors())| == 17
  {
    var t := RepoContributors();
    NamesDistinct();
    TableKeys();
    TableContributors();
    DistinctCount(RepoNames(), Keys(t));
    DistinctCount(DevNames(), Contributors(t));
  }

  lemma DisjointMinus(A: set<Node>, B: set<Node>)
    requires A !! B
    ensures B - A == B
  {
  }

  /** The network of the script has 23 nodes and 23 edges. */
  lemma EcosystemSize()
    ensures var g := CollaborationGraph(RepoContributors());
      |g.order| == 23 && |g.edges| == 23
  {
    TableDistinct();
    TableContributions();
    TableApart();
    CollaborationCounts(RepoContributors());
  }

  /** Of its nodes, 6 are typed `repo` and 17 `dev`. */
  lemma EcosystemRoles()
    ensures var g := CollaborationGraph(RepoContributors());
      |Repos(g)| == 6 && |Devs(g)| == 17
  {
    var t := RepoContributors();
    TableApart();
    RolesPartition(t);
    DisjointMinus(Keys(t), Contributors(t));
  }

  /** The construction section of the script: the network built from `repo_contributors`. */
  method BuildEcosystem() returns (g: Graph)
    ensures fresh(g) && g.Valid() && g.Value() == CollaborationGraph(RepoContributors())
    ensures |g.order| == 23 && |g.edges| == 23
  {
    g := BuildCollaborationGraph(RepoContributors());
    EcosystemSize();
  }

  /** What `eg.betweenness_centrality(G)` hands back: a list in node order, or a dictionary. */
  datatype Centrality = ScoreList(scores: seq<real>) | ScoreDict(items: seq<Item>)

  /** `zip(nodes, scores)`: pairs up to the shorter of the two. */
  function Zip(nodes: seq<Node>, scores: seq<real>): (r: seq<Item>)
    ensures |r| == if |nodes| < |scores| then |nodes| else |scores|
    ensures forall i :: 0 <= i < |r| ==> r[i] == Item(nodes[i], scores[i])
  {
    if nodes == [] || scores == [] then []
    else [Item(nodes[0], scores[0])] + Zip(nodes[1..], scores[1..])
  }

  /** The nodes an item sequence gives scores to, in order. */
  function ItemKeys(s: seq<Item>): (r: seq<Node>)
    ensures |r| == |s| && forall i :: 0 <= i < |s| ==> r[i] == s[i].key
  {
    if s == [] then [] else [s[0].key] + ItemKeys(s[1..])
  }

  /**
   * The `items()` of `betweenness` once a list result has been turned into
   * a dictionary keyed by the nodes. Because the nodes are distinct, the
   * dictionary built from the zip keeps every pair, in order.
   */
  function Normalize(nodes: seq<Node>, c: Centrality): (r: seq<Item>)
    ensures c.ScoreDict? ==> r == c.items
    ensures c.ScoreList? ==> |r| == (if |nodes| < |c.scores| then |nodes| else |c.scores|)
    ensures c.ScoreList? ==> forall i :: 0 <= i < |r| ==> r[i].key == nodes[i] && r[i].score == c.scores[i]
  {
    match c
    case ScoreList(scores) => Zip(nodes, scores)
    case ScoreDict(items) => items
  }

  /**
   * A list with a score per node becomes a mapping with exactly one entry
   * for every node, in node order, holding that node's score.
   */
  lemma NormalizeCoversNodes(g: GraphValue, scores: seq<real>)
    requires WellFormed(g) && |scores| == |g.order|
    ensures var items := Normalize(g.order, ScoreList(scores));
      && ItemKeys(items) == g.order
      && Distinct(ItemKeys(items))
      && (forall n :: n in g.roles <==> n in ItemKeys(items))
      && (forall i :: 0 <= i < |items| ==> items[i].score == scores[i])
  {
  }

  /** `top_bridges`: the first three items by score, highest first. */
  function TopBridges(nodes: seq<Node>, c: Centrality): (r: seq<Item>)
    ensures |r| == if 3 < |Normalize(nodes, c)| then 3 else |Normalize(nodes, c)|
    ensures SortedDesc(r)
  {
    TopK(Normalize(nodes, c), 3)
  }

  /** Every bridge is a node of the graph. */
  lemma BridgesAreNodes(g: GraphValue, scores: seq<real>)
    requires WellFormed(g) && |scores| == |g.order|
    ensures forall x :: x in TopBridges(g.order, ScoreList(scores)) ==> x.key in g.roles
  {
    var items := Normalize(g.order, ScoreList(scores));
    var top := TopBridges(g.order, ScoreList(scores));
    TopKSpec(items, 3);
    forall x | x in top
      ensures x.key in g.roles
    {
      assert x in multiset(top);
      var k := ItemIndex(items, x);
      assert items[k].key == g.order[k];
    }
  }

  /** A node that is not among the bridges scores no more than any bridge. */
  lemma BridgesOutrankOthers(g: GraphValue, scores: seq<real>, i: nat, j: nat)
    requires WellFormed(g) && |scores| == |g.order|
    requires i < |g.order| && j < |TopBridges(g.order, ScoreList(scores))|
    requires g.order[i] !in ItemKeys(TopBridges(g.order, ScoreList(scores)))
    ensures scores[i] <= TopBridges(g.order, ScoreList(scores))[j].score
  {
    var items := Normalize(g.order, ScoreList(scores));
    var top := TopBridges(g.order, ScoreList(scores));
    assert items[i] == Item(g.order[i], scores[i]);
    assert items[i] !in top;
    TopKLeavesLower(items, 3, i, j);
  }

  /**
   * For a list of node scores: min(3, node count) bridges, best first,
   * each of them a node; a node that is not selected scores no more than
   * any selected one; nodes of equal score keep the node order.
   */
  lemma TopBridgesSpec(g: GraphValue, scores: seq<real>)
    requires WellFormed(g) && |scores| == |g.order|
    ensures var top := TopBridges(g.order, ScoreList(scores));
      && |top| == (if 3 < |g.order| then 3 else |g.order|)
      && SortedDesc(top)
      && (forall x :: x in top ==> x.key in g.roles)
      && (forall i, j :: 0 <= i < |g.order| && 0 <= j < |top| && g.order[i] !in ItemKeys(top) ==>
            scores[i] <= top[j].score)
      && (forall v :: WithScore(top, v) <= WithScore(Normalize(g.order, ScoreList(scores)), v))
  {
    var items := Normalize(g.order, ScoreList(scores));
    var top := TopBridges(g.order, ScoreList(scores));
    TopKSpec(items, 3);
    BridgesAreNodes(g, scores);
    forall i, j | 0 <= i < |g.order| && 0 <= j < |top| && g.order[i] !in ItemKeys(top)
      ensures scores[i] <= top[j].score
    {
      BridgesOutrankOthers(g, scores, i, j);
    }
  }
}
