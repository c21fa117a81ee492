/** The part of networkx the explorer relies on.
    Both `nx.Graph` (the user's graph G) and `nx.DiGraph` (the BFS tree T) keep
    their nodes in a dict, so `nodes()` enumerates them in insertion order, and
    each node's neighbours (successors, for T) in a dict of their own, so
    `neighbors(n)` and `successors(n)` enumerate them in insertion order too.
    An `Adjacency` is exactly that: the node order and, per node, the ordered
    neighbour list. */
module Graphs {

  type Node = string

  predicate NoDup(s: seq<Node>) {
    forall i, j :: 0 <= i < j < |s| ==> s[i] != s[j]
  }

  /** The index of the first occurrence of `x` in `ns`. */
  function FirstIndex(ns: seq<Node>, x: Node): (i: nat)
    requires x in ns
    ensures i < |ns| && ns[i] == x
    ensures forall j :: 0 <= j < i ==> ns[j] != x
  {
    if ns[0] == x then 0 else 1 + FirstIndex(ns[1..], x)
  }

  /** Setting a key of an insertion-ordered dict: the key is appended when it
      is new and keeps its place when it is already there. */
  function Append(s: seq<Node>, x: Node): (r: seq<Node>)
    ensures forall y :: y in r <==> y in s || y == x
    ensures |r| <= |s| + 1 && s <= r
    ensures NoDup(s) ==> NoDup(r)
  {
    if x in s then s else s + [x]
  }

  datatype Adjacency = Adjacency(nodes: seq<Node>, adj: map<Node, seq<Node>>)

  const Empty: Adjacency := Adjacency([], map[])

  predicate HasArc(g: Adjacency, u: Node, v: Node) {
    u in g.adj && v in g.adj[u]
  }

  /** What networkx keeps true of its dicts: the node list and the adjacency
      keys are the same set, no list repeats a node, and every neighbour is a
      node. */
  ghost predicate WellFormed(g: Adjacency) {
    NodesOk(g) && ListsOk(g)
  }

  ghost predicate NodesOk(g: Adjacency) {
    NoDup(g.nodes) && forall x :: x in g.adj <==> x in g.nodes
  }

  ghost predicate ListsOk(g: Adjacency) {
    forall u :: u in g.adj ==> NoDup(g.adj[u]) && forall v :: v in g.adj[u] ==> v in g.adj
  }

  /** An undirected graph stores every edge in both directions. */
  ghost predicate Symmetric(g: Adjacency) {
    forall u, v :: HasArc(g, u, v) ==> HasArc(g, v, u)
  }

  /** The neighbour list of `a`, empty for a node that is not there. */
  function Neighbours(g: Adjacency, a: Node): seq<Node> {
    if a in g.adj then g.adj[a] else []
  }

  /** The endpoints of an edge `u`-`v` that `g` does not hold yet, in the
      order networkx inserts them (u first). */
  function Unseen(g: Adjacency, u: Node, v: Node): seq<Node> {
    (if u in g.adj then [] else [u]) + (if v in g.adj || v == u then [] else [v])
  }

  /** `add_node(u)` on either graph class: a new node comes last and has no
      neighbours; an existing node keeps everything. */
  function AddNode(g: Adjacency, u: Node): (r: Adjacency)
    ensures forall x :: x in r.adj <==> x in g.adj || x == u
    ensures forall a :: a in r.adj ==> r.adj[a] == Neighbours(g, a)
    ensures r.nodes == g.nodes + (if u in g.adj then [] else [u])
  {
    if u in g.adj then g else Adjacency(g.nodes + [u], g.adj[u := []])
  }

  /** `DiGraph.add_edge(u, v)`: both endpoints become nodes (u first), `v` is
      appended to the successors of `u` unless already there, and no other
      successor list changes. */
  function AddArc(g: Adjacency, u: Node, v: Node): (r: Adjacency)
    ensures forall x :: x in r.adj <==> x in g.adj || x == u || x == v
    ensures forall a :: a in r.adj ==>
              r.adj[a] == if a == u then Append(Neighbours(g, u), v) else Neighbours(g, a)
    ensures r.nodes == g.nodes + Unseen(g, u, v)
  {
    var g0 := AddNode(g, u);
    var g1 := AddNode(g0, v);
    assert forall a :: a in g1.adj ==> g1.adj[a] == Neighbours(g, a);
    assert (v in g0.adj) == (v in g.adj || v == u);
    assert g1.nodes == g.nodes + (if u in g.adj then [] else [u]) + (if v in g0.adj then [] else [v]);
    assert g1.nodes == g.nodes + Unseen(g, u, v);
    g1.(adj := g1.adj[u := Append(g1.adj[u], v)])
  }

  /** The arcs after `AddArc` are the old ones plus `u`->`v`. */
  lemma AddArcArcs(g: Adjacency, u: Node, v: Node)
    ensures forall a, b :: HasArc(AddArc(g, u, v), a, b) <==> HasArc(g, a, b) || (a == u && b == v)
  {
  }

  /** An arc from a node `u` to a node `v` that is new: `v` comes last in
      the node order and in the successors of `u`, with no successors of
      its own. */
  lemma AddArcToNew(g: Adjacency, u: Node, v: Node)
    requires u in g.adj && v !in g.adj
    requires forall x :: x in g.adj[u] ==> x in g.adj
    ensures forall x :: x in AddArc(g, u, v).adj <==> x in g.adj || x == v
    ensures AddArc(g, u, v).nodes == g.nodes + [v]
    ensures AddArc(g, u, v).adj[u] == g.adj[u] + [v]
    ensures forall x :: x in AddArc(g, u, v).adj && x != u ==> AddArc(g, u, v).adj[x] == Neighbours(g, x)
  {
  }

  /** `Graph.add_edge(u, v)` stores the edge in both directions: it is the
      arc `u`->`v` followed by the arc `v`->`u` (after the first arc both
      endpoints are nodes, so the second adds none). */
  function AddEdge(g: Adjacency, u: Node, v: Node): (r: Adjacency)
    ensures forall x :: x in r.adj <==> x in g.adj || x == u || x == v
    ensures forall a, b :: HasArc(r, a, b) <==> HasArc(g, a, b) || (a == u && b == v) || (a == v && b == u)
    ensures r.nodes == g.nodes + Unseen(g, u, v)
  {
    var g1 := AddArc(g, u, v);
    AddArcArcs(g, u, v);
    AddArcArcs(g1, v, u);
    assert Unseen(g1, v, u) == [];
    AddArc(g1, v, u)
  }

  /** A self-loop `u,u` records `u` once among its own neighbours. */
  lemma AddEdgeSelfLoop(g: Adjacency, u: Node)
    ensures u in AddEdge(g, u, u).adj
    ensures AddEdge(g, u, u).adj[u] == Append(Neighbours(g, u), u)
  {
    var g1 := AddArc(g, u, u);
    assert g1.adj[u] == Append(Neighbours(g, u), u);
    assert Append(g1.adj[u], u) == g1.adj[u];
  }

  /** Inserting an edge only appends: every old neighbour list is a prefix
      of the new one. */
  lemma AddEdgeKeepsOrder(g: Adjacency, u: Node, v: Node)
    ensures forall a :: a in g.adj ==> g.adj[a] <= AddEdge(g, u, v).adj[a]
  {
    var g1 := AddArc(g, u, v);
    forall a | a in g.adj ensures g.adj[a] <= AddEdge(g, u, v).adj[a] {
      var m := g1.adj[a];
      assert g.adj[a] <= m;
      assert m <= AddEdge(g, u, v).adj[a];
      assert m[..|g.adj[a]|] == g.adj[a];
    }
  }

  /** An undirected graph stays undirected. */
  lemma AddEdgeSymmetric(g: Adjacency, u: Node, v: Node)
    requires Symmetric(g)
    ensures Symmetric(AddEdge(g, u, v))
  {
  }

  lemma NoDupConcat(s: seq<Node>, t: seq<Node>)
    requires NoDup(s) && NoDup(t) && forall x :: x in t ==> x !in s
    ensures NoDup(s + t)
  {
    forall i, j | 0 <= i < j < |s + t| ensures (s + t)[i] != (s + t)[j] {
      if j >= |s| && i < |s| { assert (s + t)[j] in t; }
    }
  }

  lemma NoDupConcatParts(s: seq<Node>, t: seq<Node>)
    requires NoDup(s + t)
    ensures NoDup(s) && NoDup(t) && forall x :: x in t ==> x !in s
  {
    forall i, j | 0 <= i < |s| && 0 <= j < |t| ensures s[i] != t[j] {
      assert (s + t)[i] == s[i] && (s + t)[|s| + j] == t[j];
    }
    forall i, j | 0 <= i < j < |t| ensures t[i] != t[j] {
      assert (s + t)[|s| + i] == t[i] && (s + t)[|s| + j] == t[j];
    }
    forall i, j | 0 <= i < j < |s| ensures s[i] != s[j] {
      assert (s + t)[i] == s[i] && (s + t)[j] == s[j];
    }
  }

  /** Inserting a node or an edge keeps networkx's dicts consistent. */
  lemma AddNodeWellFormed(g: Adjacency, u: Node)
    requires WellFormed(g)
    ensures WellFormed(AddNode(g, u))
  {
    NoDupConcat(g.nodes, if u in g.adj then [] else [u]);
  }

  lemma AddArcWellFormed(g: Adjacency, u: Node, v: Node)
    requires WellFormed(g)
    ensures WellFormed(AddArc(g, u, v))
  {
    AddArcNodesOk(g, u, v);
    AddArcListsOk(g, u, v);
  }

  lemma AddArcNodesOk(g: Adjacency, u: Node, v: Node)
    requires WellFormed(g)
    ensures NodesOk(AddArc(g, u, v))
  {
    NoDupConcat(g.nodes, Unseen(g, u, v));
  }

  lemma AddArcListsOk(g: Adjacency, u: Node, v: Node)
    requires WellFormed(g)
    ensures ListsOk(AddArc(g, u, v))
  {
    var r := AddArc(g, u, v);
    forall a | a in r.adj ensures NoDup(r.adj[a]) && forall b :: b in r.adj[a] ==> b in r.adj {
      var n := Neighbours(g, a);
      if a == u { assert r.adj[a] == Append(n, v); } else { assert r.adj[a] == n; }
    }
  }

  lemma AddEdgeWellFormed(g: Adjacency, u: Node, v: Node)
    requires WellFormed(g)
    ensures WellFormed(AddEdge(g, u, v))
  {
    AddArcWellFormed(g, u, v);
    AddArcWellFormed(AddArc(g, u, v), v, u);
  }

  /** Inserting an edge that is already there changes nothing: neither the
      node order nor any neighbour list. */
  lemma AddEdgeIdempotent(g: Adjacency, u: Node, v: Node)
    requires WellFormed(g) && Symmetric(g) && HasArc(g, u, v)
    ensures AddEdge(g, u, v) == g
  {
    assert v in g.adj && HasArc(g, v, u);
    var g1 := AddArc(g, u, v);
    assert g1.adj == g.adj[u := g.adj[u]];
    assert g1 == g;
  }

  /** Hence a repeated insertion is a no-op. */
  lemma AddEdgeTwice(g: Adjacency, u: Node, v: Node)
    requires WellFormed(g) && Symmetric(g)
    ensures AddEdge(AddEdge(g, u, v), u, v) == AddEdge(g, u, v)
  {
    AddEdgeWellFormed(g, u, v);
    AddEdgeSymmetric(g, u, v);
    AddEdgeIdempotent(AddEdge(g, u, v), u, v);
  }

  // Shape of the BFS tree T (a DiGraph).

  /** Every arc leads from an earlier-inserted node to a later-inserted one;
      in particular T has no cycle. */
  ghost predicate Ordered(t: Adjacency) {
    forall i, j :: 0 <= i < |t.nodes| && 0 <= j < |t.nodes| && HasArc(t, t.nodes[i], t.nodes[j]) ==> i < j
  }

  /** No node has two parents. */
  ghost predicate UniqueParent(t: Adjacency) {
    forall p, q, c :: HasArc(t, p, c) && HasArc(t, q, c) ==> p == q
  }

  /** Every node but the first has a parent. */
  ghost predicate Rooted(t: Adjacency) {
    forall j :: 0 < j < |t.nodes| ==> HasParent(t, t.nodes[j])
  }

  ghost predicate HasParent(t: Adjacency, x: Node) {
    exists p :: HasArc(t, p, x)
  }

  ghost predicate IsTree(t: Adjacency) {
    WellFormed(t) && Ordered(t) && UniqueParent(t) && Rooted(t)
  }

  /** An arc leads from an earlier to a later node. */
  lemma ParentEarlier(t: Adjacency, p: Node, x: Node)
    requires WellFormed(t) && Ordered(t) && HasArc(t, p, x)
    ensures p in t.nodes && x in t.nodes
    ensures FirstIndex(t.nodes, p) < FirstIndex(t.nodes, x)
  {
    var i, j := FirstIndex(t.nodes, p), FirstIndex(t.nodes, x);
    assert t.nodes[i] == p && t.nodes[j] == x;
  }

  /** How many arcs lead down from a parentless node to `x`. */
  ghost function Depth(t: Adjacency, x: Node): nat
    requires WellFormed(t) && Ordered(t)
    decreases if x in t.nodes then FirstIndex(t.nodes, x) else 0
  {
    if x in t.adj && HasParent(t, x) then
      var p :| HasArc(t, p, x);
      ParentEarlier(t, p, x);
      1 + Depth(t, p)
    else 0
  }

  /** A child is one level below its parent. */
  lemma DepthStep(t: Adjacency, p: Node, x: Node)
    requires WellFormed(t) && Ordered(t) && UniqueParent(t) && HasArc(t, p, x)
    ensures Depth(t, x) == Depth(t, p) + 1
  {
    assert x in t.adj && HasParent(t, x);
  }

  /** The first node is at depth 0. */
  lemma DepthOfRoot(t: Adjacency)
    requires WellFormed(t) && Ordered(t) && t.nodes != []
    ensures Depth(t, t.nodes[0]) == 0
  {
    var x := t.nodes[0];
    assert FirstIndex(t.nodes, x) == 0;
    if HasParent(t, x) {
      var p :| HasArc(t, p, x);
      ParentEarlier(t, p, x);
      assert false;
    }
  }

  /** The tree path from the root down to `x`: it starts at the first node,
      follows arcs, and has one node more than `x`'s depth. */
  ghost function TreePath(t: Adjacency, x: Node): (path: seq<Node>)
    requires IsTree(t) && x in t.adj
    ensures |path| == Depth(t, x) + 1 && path[0] == t.nodes[0] && path[|path| - 1] == x
    ensures forall i :: 0 <= i < |path| - 1 ==> HasArc(t, path[i], path[i + 1])
    decreases FirstIndex(t.nodes, x)
  {
    if HasParent(t, x) then
      var p :| HasArc(t, p, x);
      ParentEarlier(t, p, x);
      DepthStep(t, p, x);
      var above := TreePath(t, p);
      assert HasArc(t, above[|above| - 1], x);
      above + [x]
    else
      TreeParents(t, x);
      [x]
  }

  /** In a tree the first node has no parent and every other node has
      exactly one. */
  lemma TreeParents(t: Adjacency, x: Node)
    requires IsTree(t) && x in t.adj
    ensures x == t.nodes[0] <==> forall p :: !HasArc(t, p, x)
    ensures x != t.nodes[0] ==> exists p :: HasArc(t, p, x) && forall q :: HasArc(t, q, x) ==> q == p
  {
    var j :| 0 <= j < |t.nodes| && t.nodes[j] == x;
    if j == 0 {
      forall i | 0 <= i < |t.nodes| ensures !HasArc(t, t.nodes[i], t.nodes[0]) { }
    } else {
      assert t.nodes[0] != x;
      var p :| HasArc(t, p, t.nodes[j]);
    }
  }
}
