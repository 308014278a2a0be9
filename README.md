# Ecosystem network resilience, modelled in Dafny

The two analysis scripts of the OpenSODA project build small undirected
networks with the `easygraph` library and reason about them:

- `resilience_test.py` builds a "fragile" star-shaped ecosystem. It
  measures its *connectivity*: the size of the largest connected component
  over the number of nodes. It then removes the node of highest degree (the
  "core maintainer leaves" attack), measures again, and reports the
  collapse rate.
- `graph_analysis.py` builds the developer collaboration network from a
  table of repositories and their contributors. It gives each node a `repo`
  or `dev` type and links every contributor to every repository they work
  on. It normalises a centrality result into a node-to-score mapping, ranks
  the top three "bridges", and splits the nodes by type.

The model has these modules:

- `Graphs` (graph.dfy): the part of the `easygraph` `Graph` that the
  scripts use.
  - The pure value `GraphValue` holds the node dictionary and the edges:
    node insertion order, node type attribute, and unordered edges.
  - Its operations are `WithNode`, `WithEdge` and `WithoutNode`.
  - The class `Graph` has the methods `AddNode`, `AddEdge`, `RemoveNode`
    and `Copy`. The first three are proved to produce the corresponding
    value; `Copy` is proved to return a fresh graph with the same value.
- `Connectivity` (connectivity.dfy): connected components, defined as the
  least edge-closed set around a node and proved equal to walk
  reachability. Also the ratio `Cohesion`, which is `calculate_connectivity`.
- `Ranking` (ranking.dfy): the stable descending sort by score that both
  scripts use (`sorted(..., key=lambda x: x[1], reverse=True)`), and its
  prefix `[:k]`.
- `Resilience` (resilience.dfy): `simulate_attack` as a method over a
  `Graph`, specified by pure functions, and the construction of
  `G_fragile`. The fragile network's whole experiment is proved:
  - Core-js has degree 4, the unique maximum;
  - the history is [1.0, 0.5];
  - the collapse rate is 50%.

  The star network is reasoned about over seven abstract distinct names.
  The literal names are substituted once at the end.
- `Collaboration` (collaboration.dfy): the construction loops of
  `graph_analysis.py` as a method with nested loops. They are proved equal
  to a fold of the graph operations, and the fold is characterised
  completely:
  - the node order is every name of the table once, in the order the
    loops first meet it;
  - the nodes are exactly the repositories and the contributors;
  - the types are `repo` for the repositories and `dev` for the others;
  - the edges are exactly the (dev, repo) pairs of the table.

  Also modelled: the list-to-mapping normalisation, the top-3 ranking, and
  the role filters. For the script's own table there are 23 nodes (6
  `repo`, 17 `dev`) and 23 edges.
- `Wrappers` (wrappers.dfy): `Option`.

Real numbers stand for Python floats, so ratios and percentages are exact.

Three consequences of what the scripts and the library do, which the
model keeps:

- `add_node` on a node that is already there updates its `type` attribute
  and raises nothing. A contributor that already has a type keeps it only
  because the script tests `G.nodes.get(dev)` first. A repository name is
  always retyped `repo` when its row is handled.
- `simulate_attack` on a graph without nodes returns the one-entry history
  `[0]`. It takes the branch that removes a node only when there are
  nodes, so there is then no target and no collapse rate. The model's
  `SimulateAttack` gives `None` for both in that case.
- The collapse rate `(initial - after) / initial * 100` is not bounded below
  by 0. Removing a node can raise the ratio: K4 plus a five-node path has
  ratio 5/9, and removing its highest-degree node gives 5/8. `DropRate`
  states the exact sign conditions instead of a lower bound.

## Model

| member | source | states |
|---|---|---|
| Graphs.Empty | OpenSODA_Project/resilience_test.py:25 | `eg.Graph()` has no nodes, no attributes and no edges, and is well formed |
| Graphs.WithNode | OpenSODA_Project/graph_analysis.py:26 | `add_node(n, type=role)` appends a new node to the node order (an existing node keeps its place), sets its type, overwriting any earlier one, and leaves the edges alone |
| Graphs.WithEdge | OpenSODA_Project/graph_analysis.py:30 | `add_edge(u, v)` appends the missing endpoints (u first) without attributes, keeps every existing node's attributes, and adds exactly the edge {u, v} |
| Graphs.WithEdgeExisting | OpenSODA_Project/graph_analysis.py:30 | adding an edge that is already there leaves the whole graph unchanged |
| Graphs.WithEdgeIdempotent | OpenSODA_Project/graph_analysis.py:30 | adding the same edge twice is the same as adding it once |
| Graphs.AdjacentSymmetric | OpenSODA_Project/graph_analysis.py:30 | edges are undirected: u is adjacent to v exactly when v is adjacent to u |
| Graphs.NodeCount | OpenSODA_Project/graph_analysis.py:32 | `len(G.nodes)` is the number of distinct nodes |
| Graphs.DegreeCountsEdges | OpenSODA_Project/resilience_test.py:67 | `Degree`, the value `degree()` reports, is the number of edges touching the node, with a self-loop counted a second time, for graphs whose edges have one or two endpoints |
| Graphs.WithEdgePairEdges | OpenSODA_Project/resilience_test.py:29 | `add_edge` only ever adds edges with one or two endpoints, so every graph the scripts build meets the premise of `DegreeCountsEdges` |
| Graphs.WithoutNode | OpenSODA_Project/resilience_test.py:72 | `remove_node(n)` removes exactly n from nodes and attributes (one node fewer), and exactly the edges touching n |
| Graphs.Graph.constructor | OpenSODA_Project/resilience_test.py:25 | a new graph object holds the empty graph |
| Graphs.Graph.AddNode | OpenSODA_Project/graph_analysis.py:29 | the method leaves the object holding `WithNode` of its old value |
| Graphs.Graph.AddEdge | OpenSODA_Project/resilience_test.py:29 | the method leaves the object holding `WithEdge` of its old value |
| Graphs.Graph.RemoveNode | OpenSODA_Project/resilience_test.py:72 | for a node of the graph the object ends up holding `WithoutNode` of its old value; for an absent node (the library's KeyError) it reports failure and changes nothing |
| Graphs.Graph.Copy | OpenSODA_Project/resilience_test.py:59 | `G.copy()` is a new, separate object with the same value |
| Connectivity.Component | OpenSODA_Project/resilience_test.py:46 | the component of v contains v, consists of nodes, and has no edge leaving it |
| Connectivity.ComponentIsReachable | OpenSODA_Project/resilience_test.py:46 | w is in v's component exactly when some walk along edges leads from v to w |
| Connectivity.ComponentOfMember | OpenSODA_Project/resilience_test.py:46 | any two nodes of one component have the same component |
| Connectivity.Components | OpenSODA_Project/resilience_test.py:46 | each component `connected_components` returns is nonempty, consists of nodes and has no edge leaving it |
| Connectivity.ComponentsPartition | OpenSODA_Project/resilience_test.py:46 | `connected_components` partitions the nodes: every node is in its own component, components are nonempty, closed and pairwise disjoint, and each is the component of all its members |
| Connectivity.LargestIn | OpenSODA_Project/resilience_test.py:51 | the largest component size over a list of nodes is attained by one of them, bounds all of them, and is 0 for no nodes |
| Connectivity.LargestIsLargestComponent | OpenSODA_Project/resilience_test.py:51 | `len(max(components, key=len))`: no component is larger, and some component has exactly that size |
| Connectivity.Cohesion | OpenSODA_Project/resilience_test.py:37-55 | `calculate_connectivity` lies in [0, 1], and it is 0 exactly when the graph has no nodes |
| Connectivity.CohesionOne | OpenSODA_Project/resilience_test.py:53-55 | the ratio is 1.0 exactly when the graph has nodes and a single component (the network is intact) |
| Ranking.SortDesc | OpenSODA_Project/resilience_test.py:69 | `sorted(..., reverse=True)` by score yields a permutation of its input in non-increasing score order |
| Ranking.InsertPermutes | OpenSODA_Project/resilience_test.py:69 | one insertion step adds its entry and loses none |
| Ranking.InsertSorted | OpenSODA_Project/resilience_test.py:69 | one insertion step keeps the descending order |
| Ranking.SortDescKeepsTies | OpenSODA_Project/graph_analysis.py:41 | the sort is stable: for every score, the entries with that score keep their original relative order |
| Ranking.SortDescHead | OpenSODA_Project/resilience_test.py:69 | `sorted(...)[0]` is the first entry in input order whose score is maximal |
| Ranking.TopK | OpenSODA_Project/graph_analysis.py:41 | `sorted(...)[:k]` has min(k, n) entries, in non-increasing score order |
| Ranking.TopKSpec | OpenSODA_Project/graph_analysis.py:41 | `sorted(...)[:k]` has min(k, n) entries, in non-increasing order, drawn from the input; no entry left out scores more than a selected one; ties keep their order |
| Resilience.DegreeItems | OpenSODA_Project/resilience_test.py:67 | `G.degree().items()` has one entry per position of the node order, holding that node and its degree; for distinct nodes no two entries share a node |
| Resilience.DegreeItemsCoverNodes | OpenSODA_Project/resilience_test.py:67 | in a graph every node has an entry in the degree items, no other name has one, and no node has two |
| Resilience.TopDegreeNode | OpenSODA_Project/resilience_test.py:69 | `top_node` is one of the graph's nodes |
| Resilience.TopDegreeNodeIsFirstMax | OpenSODA_Project/resilience_test.py:67-69 | the top node is a node of maximal degree, and every node before it in the node order has a strictly smaller degree |
| Resilience.TopDegreeNodeIsMaximal | OpenSODA_Project/resilience_test.py:67-69 | the top node belongs to the graph and no node has a higher degree |
| Resilience.AttackTarget | OpenSODA_Project/resilience_test.py:66-69 | a node is removed exactly when the graph has nodes |
| Resilience.AttackHistory | OpenSODA_Project/resilience_test.py:58-76 | the history has one entry, [0], for a graph with no nodes. Otherwise it has two entries, the first one positive. Both the first and the last entry, and so every entry, lie in [0, 1] |
| Resilience.SimulateAttack | OpenSODA_Project/resilience_test.py:57-81 | without modifying its argument, the method returns the history, the removed node and the collapse rate, as determined by the pure specification |
| Resilience.RemoveTop | OpenSODA_Project/resilience_test.py:67-72 | the copy loses exactly its top-degree node, which is a node of the graph |
| Resilience.AttackSpec | OpenSODA_Project/resilience_test.py:57-81 | the history starts with the ratio of the graph; a removed node is a node of highest degree; the second entry is the ratio of the graph without it |
| Resilience.DropRate | OpenSODA_Project/resilience_test.py:78 | the collapse rate is at most 100; it is 100 exactly when the ratio after is 0, which happens exactly when no node is left, positive exactly when the ratio fell, and 0 exactly when it stayed the same |
| Resilience.AddEdges | OpenSODA_Project/resilience_test.py:28-31 | a run of `add_edge` calls keeps the graph well formed |
| Resilience.FanOut | OpenSODA_Project/resilience_test.py:28-29 | `for r in repos_b: add_edge(h, r)` makes one call (h, r) per element, in order |
| Resilience.FanIn | OpenSODA_Project/resilience_test.py:30-31 | `for d in [...]: add_edge(d, h)` makes one call (d, h) per element, in order |
| Resilience.FanOutShape | OpenSODA_Project/resilience_test.py:28-29 | connecting h to fresh distinct nodes appends h (if new) and then the nodes in order, untyped, and adds one edge from h to each |
| Resilience.FanInShape | OpenSODA_Project/resilience_test.py:30-31 | connecting fresh distinct nodes to an existing h appends them in order, untyped, and adds one edge from each to h |
| Resilience.StarBuilt | OpenSODA_Project/resilience_test.py:25-31 | the two loops build exactly the star: seven nodes in order of first mention and the six edges |
| Resilience.ConnectFrom | OpenSODA_Project/resilience_test.py:28-29 | the loop leaves the graph holding the fold of its `add_edge` calls |
| Resilience.ConnectTo | OpenSODA_Project/resilience_test.py:30-31 | the loop leaves the graph holding the fold of its `add_edge` calls |
| Resilience.BuildFragile | OpenSODA_Project/resilience_test.py:25-31 | `G_fragile` is the star with Zloirock linked to Core-js, Lib-X and Lib-Y and User1-3 linked to Core-js |
| Resilience.StarDegreeCore | OpenSODA_Project/resilience_test.py:25-31 | Core-js has degree 4 |
| Resilience.StarDegreeMaintainer | OpenSODA_Project/resilience_test.py:25-31 | Zloirock has degree 3 |
| Resilience.StarDegreeLeaf | OpenSODA_Project/resilience_test.py:25-31 | the libraries and users have degree 1 |
| Resilience.StarTarget | OpenSODA_Project/resilience_test.py:67-69 | the attack on the star removes Core-js |
| Resilience.StarCohesionBefore | OpenSODA_Project/resilience_test.py:62 | the star is connected: ratio 1.0 |
| Resilience.StarAfterMaintainer | OpenSODA_Project/resilience_test.py:72 | after the removal, Zloirock's component is {Zloirock, Lib-X, Lib-Y} |
| Resilience.StarAfterUser | OpenSODA_Project/resilience_test.py:72 | after the removal, each user is alone in its component |
| Resilience.StarAfterLargest | OpenSODA_Project/resilience_test.py:75 | after the removal 6 nodes are left and the largest component has 3 of them |
| Resilience.StarCohesionAfter | OpenSODA_Project/resilience_test.py:75 | after the removal the ratio is 0.5 |
| Resilience.StarAttack | OpenSODA_Project/resilience_test.py:87 | on the star the attack removes Core-js, the history is [1.0, 0.5] and the collapse rate 50 |
| Resilience.FragileScenario | OpenSODA_Project/resilience_test.py:87 | building `G_fragile` and attacking it gives history [1.0, 0.5], target Core-js and a 50% collapse rate |
| Collaboration.CollaborationGraph | OpenSODA_Project/graph_analysis.py:25-30 | the construction loops over the table, as a fold, keep the graph well formed |
| Collaboration.AddContributor | OpenSODA_Project/graph_analysis.py:28-30 | after one contributor step the contributor has a type, every node that had a type keeps it, and exactly the edge {dev, repo} is added |
| Collaboration.AddContributors | OpenSODA_Project/graph_analysis.py:27-30 | the inner loop adds exactly the pairs {dev, repo} of the row to the edges, and every node that had a type keeps it |
| Collaboration.AddRepo | OpenSODA_Project/graph_analysis.py:25-30 | one outer iteration leaves the repository typed `repo` and adds exactly the pairs of its row to the edges |
| Collaboration.LinkContributor | OpenSODA_Project/graph_analysis.py:28-30 | the guarded `add_node` and the `add_edge` for one contributor leave the graph holding `AddContributor` of its old value |
| Collaboration.LinkRepo | OpenSODA_Project/graph_analysis.py:26-30 | one outer iteration leaves the graph holding `AddRepo` of its old value |
| Collaboration.BuildCollaborationGraph | OpenSODA_Project/graph_analysis.py:23-30 | the nested loops on a fresh graph produce `CollaborationGraph` of the table |
| Collaboration.FirstAppearance | OpenSODA_Project/graph_analysis.py:28-30 | an already typed contributor keeps its type; an untyped one becomes `dev`; no other node changes; the contributor is appended only if new; exactly the edge {dev, repo} is added |
| Collaboration.ContributorAgain | OpenSODA_Project/graph_analysis.py:28-30 | handling the same (dev, repo) pair a second time changes nothing |
| Collaboration.CollaborationOrder | OpenSODA_Project/graph_analysis.py:25-30 | the node order of the built graph is every repository and contributor once, in the order the loops first mention it (`Appended([], Mentions(t))`) |
| Collaboration.ContributorsOrder | OpenSODA_Project/graph_analysis.py:27-30 | the inner loop appends to the node order exactly the contributors that are not nodes yet, each at its first mention |
| Collaboration.Appended | OpenSODA_Project/graph_analysis.py:26-30 | appending the not-yet-listed names lists exactly the old and the new names, and keeps a list without repeats free of repeats |
| Collaboration.AppendedConcat | OpenSODA_Project/graph_analysis.py:25-30 | appending two lists of names one after the other is appending their concatenation |
| Collaboration.CollaborationShape | OpenSODA_Project/graph_analysis.py:25-30 | the built graph has exactly the repositories and contributors as nodes, typed `repo` if a repository and `dev` otherwise, and exactly the (dev, repo) pairs as edges |
| Collaboration.CollaborationRoles | OpenSODA_Project/graph_analysis.py:25-29 | every repository is typed `repo`, every other contributor `dev`, every node has a type, the nodes are exactly the names of the table, and `len(G.nodes)` is their number |
| Collaboration.CollaborationEdges | OpenSODA_Project/graph_analysis.py:30 | every (dev, repo) entry of the table is an edge, and every edge is such an entry |
| Collaboration.CollaborationBipartite | OpenSODA_Project/graph_analysis.py:25-30 | when no repository name is also a contributor, every edge joins two distinct nodes of different types |
| Collaboration.PairsCount | OpenSODA_Project/graph_analysis.py:30 | with no repeated repository, no contributor repeated in one row, and no shared names, there are as many distinct pairs as table entries |
| Collaboration.CollaborationCounts | OpenSODA_Project/graph_analysis.py:32 | under those conditions the graph has one node per name and one edge per (dev, repo) entry |
| Collaboration.TableApart | OpenSODA_Project/graph_analysis.py:11-18 | the script's table has 6 repositories and 17 distinct contributors, with no name shared between the two |
| Collaboration.RepoContributors | OpenSODA_Project/graph_analysis.py:11-18 | the table has six rows, whose repositories are Vue, Vite, Nuxt, Vitest, Unjs and Core-js in dictionary order |
| Collaboration.TableContributions | OpenSODA_Project/graph_analysis.py:11-18 | the script's table has 23 (dev, repo) entries |
| Collaboration.EcosystemSize | OpenSODA_Project/graph_analysis.py:11-32 | the script's network has 23 nodes and 23 edges |
| Collaboration.EcosystemRoles | OpenSODA_Project/graph_analysis.py:54-55 | of the script's network, 6 nodes are listed in `repos` and 17 in `devs` |
| Collaboration.BuildEcosystem | OpenSODA_Project/graph_analysis.py:23-32 | the construction section of the script yields a graph with 23 nodes and 23 edges |
| Collaboration.NodesOfRole | OpenSODA_Project/graph_analysis.py:54-55 | the comprehension lists exactly the nodes that have the given type, each once when the node order has no repeats; the order is stated by `NodesOfRoleInOrder` |
| Collaboration.NodesOfRoleInOrder | OpenSODA_Project/graph_analysis.py:54-55 | the comprehension keeps node order: its entries are the nodes at increasing positions of the node order, and every position whose node has the type is among them |
| Collaboration.Repos | OpenSODA_Project/graph_analysis.py:54 | `repos` holds exactly the nodes typed `repo` |
| Collaboration.Devs | OpenSODA_Project/graph_analysis.py:55 | `devs` holds exactly the nodes typed `dev` |
| Collaboration.RoleFilters | OpenSODA_Project/graph_analysis.py:54-55 | `repos` and `devs` are duplicate-free and disjoint. When every node has a type, they cover every node, and their lengths add up to the node count |
| Collaboration.RolesPartition | OpenSODA_Project/graph_analysis.py:54-55 | in the collaboration graph `repos` is exactly the repositories and `devs` exactly the other contributors, and together they account for every node |
| Collaboration.Zip | OpenSODA_Project/graph_analysis.py:39 | `zip` pairs the i-th node with the i-th score, up to the shorter length |
| Collaboration.Normalize | OpenSODA_Project/graph_analysis.py:38-39 | a list result becomes the pairs of the i-th node with the i-th score, up to the shorter length; a dictionary result is used as it is |
| Collaboration.NormalizeCoversNodes | OpenSODA_Project/graph_analysis.py:38-39 | a list with a score per node becomes a mapping with exactly one entry for every node, in node order, with that node's score |
| Collaboration.TopBridges | OpenSODA_Project/graph_analysis.py:41 | `top_bridges` has min(3, n) entries, best first |
| Collaboration.BridgesAreNodes | OpenSODA_Project/graph_analysis.py:41 | every selected bridge is a node of the graph |
| Collaboration.BridgesOutrankOthers | OpenSODA_Project/graph_analysis.py:41 | a node that is not selected scores no more than any selected bridge |
| Collaboration.TopBridgesSpec | OpenSODA_Project/graph_analysis.py:41 | `top_bridges` has min(3, node count) entries, best first; each is a node; no unselected node scores more; equal scores keep node order |

## Left out

- OpenSODA_Project/od.py is not part of this model. It holds HTTP requests, data frames, CSV output and a floating-point score formula.
- The `easygraph` library's source is not part of this model. The scripts use `add_node`, `add_edge`, `degree`, `remove_node`, `copy`, `connected_components` and `len(G.nodes)`. These are modelled by the behaviour the scripts rely on:
  - node dictionary in insertion order;
  - attributes overwritten on re-insertion;
  - endpoints created without attributes;
  - a self-loop counted twice in the degree.
- `betweenness_centrality` (OpenSODA_Project/graph_analysis.py:36) is not computed. Its result is an input: a list of scores in node order or the items of a mapping.
- Collaboration.Normalize: for the mapping form, item keys are not checked to be distinct.
- Collaboration.Normalize: a list shorter than the node list gives a truncated mapping, as `zip` does. The covering property is proved for a list with one score per node.
- The random edge selection of `G_robust` (OpenSODA_Project/resilience_test.py:19-22) is not modelled, because it depends on `random.random()`. The attack is specified and proved for every graph, so it covers every graph that selection can produce.
- Resilience.TopDegreeNode: ties in degree are broken by node order. The script breaks them by the order of the library's `degree()` dictionary, which is not part of this model.
- The `if not components` guard (OpenSODA_Project/resilience_test.py:49-50) is not modelled as a separate branch. Once the graph has a node there is always a component, so the guard is never taken.
- Graphs.Graph.RemoveNode: the library raises KeyError for an absent node; the model reports it as a result flag instead. In `simulate_attack` the node is always present.
- The progress messages, the percentage formatting, the plotting settings, and all plotting and layout are not modelled. Those are OpenSODA_Project/graph_analysis.py:7-8, 20, 32, 35, 42-53 and 56-90, and OpenSODA_Project/resilience_test.py:6-8, 10, 33, 71, 79, 84, 86, 89-103 and 105-110.
- Resilience.SimulateAttack: the script only prints the removed node and the collapse rate (OpenSODA_Project/resilience_test.py:71 and 79) and returns the history alone. The model returns the node and the rate as two more outputs, so that contracts can state them.
- Python floats are modelled as exact reals, with no rounding.
