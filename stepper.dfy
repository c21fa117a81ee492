/** The explorer's state as a value, and what each of its three callbacks
    does to it: `add_edge` (edge text submitted), `run_bfs_step` (the
    "BFS Step" button) and `clear` (the "Clear All" button). */
module Stepper {
  import opened Graphs
  import opened Parsing

  /** `G`, `T`, the `visited` list and the `queue` deque. */
  datatype State = State(g: Adjacency, t: Adjacency, visited: seq<Node>, queue: seq<Node>)

  /** What `__init__` and `clear` leave behind. */
  const Initial: State := State(Empty, Empty, [], [])

  lemma FirstIndexPrefix(ns: seq<Node>, m: nat, x: Node)
    requires m <= |ns| && x in ns[..m]
    ensures FirstIndex(ns, x) == FirstIndex(ns[..m], x)
  {
    var i := FirstIndex(ns[..m], x);
    assert ns[i] == x;
    var k := FirstIndex(ns, x);
    assert k <= i;
    assert ns[..m][k] == x;
  }

  /** The nodes of `ns` that are not in `seen`, each once, in the order of
      their first occurrence in `ns`: the neighbours a BFS expansion
      discovers. */
  function Discover(ns: seq<Node>, seen: seq<Node>): seq<Node>
  {
    if ns == [] then []
    else
      var d := Discover(ns[..|ns| - 1], seen);
      var n := ns[|ns| - 1];
      if n in seen || n in d then d else d + [n]
  }

  /** `Discover` keeps exactly the unseen nodes of `ns`... */
  lemma {:induction false} DiscoverMembers(ns: seq<Node>, seen: seq<Node>)
    ensures forall x :: x in Discover(ns, seen) <==> x in ns && x !in seen
  {
    if ns != [] {
      var p := ns[..|ns| - 1];
      DiscoverMembers(p, seen);
      assert ns == p + [ns[|ns| - 1]];
    }
  }

  /** ... without repeats ... */
  lemma {:induction false} DiscoverNoDup(ns: seq<Node>, seen: seq<Node>)
    ensures NoDup(Discover(ns, seen))
  {
    if ns != [] {
      var p := ns[..|ns| - 1];
      DiscoverNoDup(p, seen);
      var d := Discover(p, seen);
      var n := ns[|ns| - 1];
      if !(n in seen || n in d) {
        NoDupConcat(d, [n]);
      }
    }
  }

  /** The nodes of `d` occur in `ns`, and first occur there in `d`'s order. */
  ghost predicate Ranked(ns: seq<Node>, d: seq<Node>) {
    && (forall x :: x in d ==> x in ns)
    && forall i, j :: 0 <= i < j < |d| ==> FirstIndex(ns, d[i]) < FirstIndex(ns, d[j])
  }

  /** ... and in the order of their first occurrence in `ns`. */
  lemma {:induction false} DiscoverOrder(ns: seq<Node>, seen: seq<Node>)
    ensures forall x :: x in Discover(ns, seen) ==> x in ns
    ensures Ranked(ns, Discover(ns, seen))
  {
    DiscoverMembers(ns, seen);
    if ns != [] {
      var p := ns[..|ns| - 1];
      var n := ns[|ns| - 1];
      DiscoverOrder(p, seen);
      DiscoverMembers(p, seen);
      var d := Discover(p, seen);
      RankedPrefix(ns, d);
      if n in seen || n in d {
        assert Discover(ns, seen) == d;
      } else {
        assert Discover(ns, seen) == d + [n];
        DiscoverOrderStep(ns, d, n);
      }
    }
  }

  /** An order of first occurrences in a prefix is one in the whole. */
  lemma RankedPrefix(ns: seq<Node>, d: seq<Node>)
    requires ns != [] && Ranked(ns[..|ns| - 1], d)
    ensures Ranked(ns, d)
    ensures forall i :: 0 <= i < |d| ==> FirstIndex(ns, d[i]) < |ns| - 1
  {
    forall i | 0 <= i < |d| ensures FirstIndex(ns, d[i]) == FirstIndex(ns[..|ns| - 1], d[i]) {
      assert d[i] in d;
      FirstIndexPrefix(ns, |ns| - 1, d[i]);
    }
  }

  lemma DiscoverOrderStep(ns: seq<Node>, d: seq<Node>, n: Node)
    requires ns != [] && ns[|ns| - 1] == n && n !in ns[..|ns| - 1]
    requires Ranked(ns, d)
    requires forall i :: 0 <= i < |d| ==> FirstIndex(ns, d[i]) < |ns| - 1
    ensures Ranked(ns, d + [n])
  {
    assert forall k :: 0 <= k < |ns| - 1 ==> ns[..|ns| - 1][k] == ns[k];
    assert FirstIndex(ns, n) == |ns| - 1;
    var d' := d + [n];
    forall i, j | 0 <= i < j < |d'| ensures FirstIndex(ns, d'[i]) < FirstIndex(ns, d'[j]) {
      assert d'[i] == d[i];
      if j < |d| {
        assert d'[j] == d[j];
      }
    }
  }

  /** The `for neighbor in self.G.neighbors(curr)` loop (simple.py:58-62):
      the tree and the queue after scanning `ns`, where `visited` already
      holds `curr`. */
  function Expand(curr: Node, ns: seq<Node>, visited: seq<Node>, t: Adjacency, queue: seq<Node>): (Adjacency, seq<Node>)
  {
    if ns == [] then (t, queue)
    else
      var (t1, q1) := Expand(curr, ns[..|ns| - 1], visited, t, queue);
      var n := ns[|ns| - 1];
      if n !in visited && n !in q1 then (AddArc(t1, curr, n), q1 + [n]) else (t1, q1)
  }

  /** The tree after `c`->`x` is inserted for each `x` of `ds` in turn. */
  function Hang(t: Adjacency, c: Node, ds: seq<Node>): Adjacency {
    if ds == [] then t else AddArc(Hang(t, c, ds[..|ds| - 1]), c, ds[|ds| - 1])
  }

  /** The loop appends the discovered neighbours to the queue... */
  lemma {:induction false} ExpandQueue(curr: Node, ns: seq<Node>, visited: seq<Node>, t: Adjacency, queue: seq<Node>)
    ensures Expand(curr, ns, visited, t, queue).1 == queue + Discover(ns, visited + queue)
  {
    if ns != [] {
      ExpandQueue(curr, ns[..|ns| - 1], visited, t, queue);
    }
  }

  /** ... and hangs them, in the same order, under `curr`. */
  lemma {:induction false} ExpandTree(curr: Node, ns: seq<Node>, visited: seq<Node>, t: Adjacency, queue: seq<Node>)
    ensures Expand(curr, ns, visited, t, queue).0 == Hang(t, curr, Discover(ns, visited + queue))
  {
    if ns != [] {
      var p := ns[..|ns| - 1];
      ExpandTree(curr, p, visited, t, queue);
      ExpandQueue(curr, p, visited, t, queue);
    }
  }

  /** `r` is `t` with the nodes `ds` appended to the node order and to the
      successors of `c`, and nothing else changed. */
  ghost predicate Hung(r: Adjacency, t: Adjacency, c: Node, ds: seq<Node>) {
    && r.nodes == t.nodes + ds
    && (forall x :: x in r.adj <==> x in t.adj || x in ds)
    && c in r.adj && r.adj[c] == Neighbours(t, c) + ds
    && (forall x :: x in r.adj && x != c ==> r.adj[x] == Neighbours(t, x))
  }

  /** Hanging new, distinct nodes under an existing node `c` appends them to
      the node order and to `c`'s successors and changes nothing else. */
  lemma {:induction false} HangSpec(t: Adjacency, c: Node, ds: seq<Node>)
    requires c in t.adj && NoDup(ds)
    requires forall x :: x in ds ==> x !in t.adj
    requires forall x :: x in t.adj[c] ==> x in t.adj
    ensures Hung(Hang(t, c, ds), t, c, ds)
  {
    if ds != [] {
      var p := ds[..|ds| - 1];
      var n := ds[|ds| - 1];
      assert ds == p + [n];
      NoDupConcatParts(p, [n]);
      HangSpec(t, c, p);
      var h := Hang(t, c, p);
      assert Hang(t, c, ds) == AddArc(h, c, n);
      HangSpecNext(t, c, p, n, h);
    }
  }

  lemma HangSpecNext(t: Adjacency, c: Node, p: seq<Node>, n: Node, h: Adjacency)
    requires c in t.adj && n !in t.adj && n !in p
    requires forall x :: x in t.adj[c] ==> x in t.adj
    requires Hung(h, t, c, p)
    ensures Hung(AddArc(h, c, n), t, c, p + [n])
  {
    assert n !in h.adj;
    assert forall x :: x in h.adj[c] ==> x in h.adj;
    AddArcToNew(h, c, n);
    HangStep(t, c, p, h, n, AddArc(h, c, n));
  }

  lemma HangStep(t: Adjacency, c: Node, p: seq<Node>, h: Adjacency, n: Node, r: Adjacency)
    requires Hung(h, t, c, p)
    requires forall x :: x in r.adj <==> x in h.adj || x == n
    requires r.nodes == h.nodes + [n] && r.adj[c] == h.adj[c] + [n]
    requires forall x :: x in r.adj && x != c ==> r.adj[x] == Neighbours(h, x)
    requires n !in t.adj && n !in p
    ensures Hung(r, t, c, p + [n])
  {
    var q := p + [n];
    assert r.nodes == t.nodes + q by {
      assert t.nodes + q == h.nodes + [n];
    }
    assert forall x :: x in r.adj <==> x in t.adj || x in q by {
      assert forall x :: x in q <==> x in p || x == n;
    }
    assert r.adj[c] == Neighbours(t, c) + q by {
      assert Neighbours(t, c) + q == h.adj[c] + [n];
    }
  }

  /** What the code needs to run a step without a networkx error: the graph
      is consistent and every queued node is a node of it. */
  ghost predicate Ready(s: State) {
    WellFormed(s.g) && forall x :: x in s.queue ==> x in s.g.adj
  }

  /** simple.py:48-51: on an idle state, queue the graph's first node as the
      root and make it the tree's first node. */
  function Seed(s: State): State {
    if s.queue == [] && s.visited == [] && s.g.nodes != [] then
      var start := s.g.nodes[0];
      s.(queue := s.queue + [start], t := AddNode(s.t, start))
    else s
  }

  /** simple.py:53-62: dequeue the front node and, unless it was visited
      already, visit it and scan its neighbours. */
  function Advance(s: State): State
    requires Ready(s)
  {
    if s.queue == [] then s
    else
      var curr := s.queue[0];
      var rest := s.queue[1..];
      if curr in s.visited then s.(queue := rest)
      else
        var visited := s.visited + [curr];
        var (t, queue) := Expand(curr, s.g.adj[curr], visited, s.t, rest);
        State(s.g, t, visited, queue)
  }

  /** `run_bfs_step`: seeding and the first dequeue happen in the same call. */
  function Step(s: State): State
    requires Ready(s)
  {
    Advance(Seed(s))
  }

  /** One more neighbour scanned: it is queued and hung below `curr`
      exactly when it is neither visited nor already queued. */
  lemma ExpandNext(curr: Node, ns: seq<Node>, n: Node, visited: seq<Node>, t: Adjacency, queue: seq<Node>, t1: Adjacency, q1: seq<Node>)
    requires Expand(curr, ns, visited, t, queue) == (t1, q1)
    ensures n !in visited && n !in q1 ==> Expand(curr, ns + [n], visited, t, queue) == (AddArc(t1, curr, n), q1 + [n])
    ensures n in visited || n in q1 ==> Expand(curr, ns + [n], visited, t, queue) == (t1, q1)
  {
    assert (ns + [n])[..|ns|] == ns;
  }

  /** Dequeuing a node not yet visited: it is visited and its neighbours
      scanned. */
  lemma AdvanceVisit(s: State, t: Adjacency, q: seq<Node>)
    requires Ready(s) && s.queue != [] && s.queue[0] !in s.visited
    requires Expand(s.queue[0], s.g.adj[s.queue[0]], s.visited + [s.queue[0]], s.t, s.queue[1..]) == (t, q)
    ensures Advance(s) == State(s.g, t, s.visited + [s.queue[0]], q)
  {
  }

  /** A state the seed leaves ready to step. */
  lemma SeedReady(s: State)
    requires Ready(s)
    ensures Ready(Seed(s))
  {
  }

  // The invariant every reachable state satisfies, in named parts.

  ghost predicate GraphOk(s: State) {
    WellFormed(s.g) && Symmetric(s.g)
  }

  /** `visited` and `queue` repeat nothing and share nothing. */
  ghost predicate FrontierOk(s: State) {
    && NoDup(s.visited) && NoDup(s.queue)
    && forall x :: x in s.visited ==> x !in s.queue
  }

  /** The tree's nodes are exactly the visited and the queued nodes, and all
      of them are graph nodes. */
  ghost predicate TreeSpans(s: State) {
    && (forall x :: x in s.t.adj <==> x in s.visited || x in s.queue)
    && (forall x :: x in s.t.adj ==> x in s.g.adj)
  }

  /** Every tree arc is a graph edge leaving a visited node. */
  ghost predicate ArcsOk(s: State) {
    forall u, c :: HasArc(s.t, u, c) ==> HasArc(s.g, u, c) && u in s.visited
  }

  /** The tree's root is the graph's first node. */
  ghost predicate RootOk(s: State) {
    s.t.nodes != [] ==> s.g.nodes != [] && s.t.nodes[0] == s.g.nodes[0]
  }

  ghost predicate Core(s: State) {
    GraphOk(s) && IsTree(s.t) && FrontierOk(s) && TreeSpans(s) && ArcsOk(s) && RootOk(s)
  }

  /** Nothing is ever queued without the root having been visited: seeding
      and the first dequeue happen in one call. */
  ghost predicate Inv(s: State) {
    Core(s) && (s.visited == [] ==> s.queue == [])
  }

  lemma InvReady(s: State)
    requires Core(s)
    ensures Ready(s)
  {
  }

  lemma InitialInv()
    ensures Inv(Initial)
  {
  }

  /** Seeding an idle state gives a consistent state whose queue holds just
      the graph's first node. */
  lemma SeedCore(s: State)
    requires Inv(s)
    ensures Core(Seed(s)) && Ready(Seed(s))
    ensures s.queue == [] && s.visited == [] && s.g.nodes != [] ==>
              Seed(s).queue == [s.g.nodes[0]] && Seed(s).t.nodes == [s.g.nodes[0]]
  {
    if s.queue == [] && s.visited == [] && s.g.nodes != [] {
      var root := s.g.nodes[0];
      var s1 := Seed(s);
      assert s.t.adj == map[];
      assert s.t.nodes == [];
      assert root in s.g.adj;
      assert s1.t == Adjacency([root], map[root := []]);
      assert IsTree(s1.t);
    }
  }

  /** `r` is `s` after its front node `curr` was dequeued and visited and
      the nodes `d` were discovered from it. */
  ghost predicate Dequeued(s: State, r: State, curr: Node, d: seq<Node>) {
    && s.queue != [] && curr == s.queue[0]
    && r.g == s.g
    && r.visited == s.visited + [curr]
    && r.queue == s.queue[1..] + d
    && Hung(r.t, s.t, curr, d)
  }

  /** One dequeue from a consistent state with a non-empty queue: the front
      node is visited and its unseen neighbours, in neighbour order, are
      appended to the queue and hung under it in the tree. */
  lemma AdvanceShape(s: State)
    requires Ready(s) && WellFormed(s.t) && s.queue != []
    requires s.queue[0] !in s.visited && s.queue[0] in s.t.adj
    requires forall x :: x in s.t.adj ==> x in s.visited || x in s.queue
    ensures Dequeued(s, Advance(s), s.queue[0], Discover(s.g.adj[s.queue[0]], s.visited + s.queue))
  {
    var curr := s.queue[0];
    var rest := s.queue[1..];
    var visited := s.visited + [curr];
    assert s.queue == [curr] + rest;
    assert visited + rest == s.visited + s.queue;
    var ns := s.g.adj[curr];
    var d := Discover(ns, s.visited + s.queue);
    ExpandQueue(curr, ns, visited, s.t, rest);
    ExpandTree(curr, ns, visited, s.t, rest);
    DiscoverMembers(ns, s.visited + s.queue);
    DiscoverNoDup(ns, s.visited + s.queue);
    HangSpec(s.t, curr, d);
    assert Advance(s) == State(s.g, Hang(s.t, curr, d), visited, rest + d);
  }

  /** The arcs after hanging: the old ones and one from `c` to each node of
      `ds`. */
  lemma HungArcs(r: Adjacency, t: Adjacency, c: Node, ds: seq<Node>)
    requires Hung(r, t, c, ds)
    ensures forall a, b :: HasArc(r, a, b) <==> HasArc(t, a, b) || (a == c && b in ds)
  {
    forall a, b ensures HasArc(r, a, b) <==> HasArc(t, a, b) || (a == c && b in ds) {
      if a == c {
        assert b in r.adj[c] <==> b in Neighbours(t, c) || b in ds;
      }
    }
  }

  lemma HungWellFormed(r: Adjacency, t: Adjacency, c: Node, ds: seq<Node>)
    requires Hung(r, t, c, ds) && WellFormed(t) && c in t.adj && NoDup(ds)
    requires forall x :: x in ds ==> x !in t.adj
    ensures WellFormed(r)
  {
    NoDupConcat(t.nodes, ds);
    assert NodesOk(r);
    forall a | a in r.adj ensures NoDup(r.adj[a]) && forall b :: b in r.adj[a] ==> b in r.adj {
      if a == c {
        NoDupConcat(t.adj[c], ds);
      } else {
        assert r.adj[a] == Neighbours(t, a);
      }
    }
  }

  /** Hanging new nodes under an existing tree node gives a tree. */
  lemma HungTree(r: Adjacency, t: Adjacency, c: Node, ds: seq<Node>)
    requires Hung(r, t, c, ds) && IsTree(t) && c in t.adj && NoDup(ds)
    requires forall x :: x in ds ==> x !in t.adj
    ensures IsTree(r)
  {
    HungWellFormed(r, t, c, ds);
    HungArcs(r, t, c, ds);
    HungOrdered(r, t, c, ds);
    HungUniqueParent(r, t, c, ds);
    HungRooted(r, t, c, ds);
  }

  lemma HungOrdered(r: Adjacency, t: Adjacency, c: Node, ds: seq<Node>)
    requires Hung(r, t, c, ds) && NodesOk(t) && Ordered(t) && c in t.adj
    requires forall x :: x in ds ==> x !in t.adj
    requires forall a, b :: HasArc(r, a, b) <==> HasArc(t, a, b) || (a == c && b in ds)
    requires forall a, b :: HasArc(t, a, b) ==> b in t.adj
    ensures Ordered(r)
  {
    var n := |t.nodes|;
    assert forall i :: 0 <= i < n ==> r.nodes[i] == t.nodes[i];
    assert forall i :: n <= i < |r.nodes| ==> r.nodes[i] == ds[i - n];
    forall i, j | 0 <= i < |r.nodes| && 0 <= j < |r.nodes| && HasArc(r, r.nodes[i], r.nodes[j]) ensures i < j {
      if HasArc(t, r.nodes[i], r.nodes[j]) {
        assert i < n && j < n;
      } else {
        assert r.nodes[i] == c && r.nodes[i] in t.adj;
        assert i < n;
      }
    }
  }

  lemma HungUniqueParent(r: Adjacency, t: Adjacency, c: Node, ds: seq<Node>)
    requires UniqueParent(t)
    requires forall x :: x in ds ==> x !in t.adj
    requires forall a, b :: HasArc(r, a, b) <==> HasArc(t, a, b) || (a == c && b in ds)
    requires forall a, b :: HasArc(t, a, b) ==> b in t.adj
    ensures UniqueParent(r)
  {
    forall p, q, x | HasArc(r, p, x) && HasArc(r, q, x) ensures p == q {
      if x in ds {
        assert !HasArc(t, p, x) && !HasArc(t, q, x);
      } else {
        assert HasArc(t, p, x) && HasArc(t, q, x);
      }
    }
  }

  lemma HungRooted(r: Adjacency, t: Adjacency, c: Node, ds: seq<Node>)
    requires Hung(r, t, c, ds) && Rooted(t)
    requires forall a, b :: HasArc(r, a, b) <==> HasArc(t, a, b) || (a == c && b in ds)
    ensures Rooted(r)
  {
    var n := |t.nodes|;
    forall j | 0 < j < |r.nodes| ensures HasParent(r, r.nodes[j]) {
      if j < n {
        assert r.nodes[j] == t.nodes[j];
        var q :| HasArc(t, q, t.nodes[j]);
        assert HasArc(r, q, r.nodes[j]);
      } else {
        assert r.nodes[j] == ds[j - n] && ds[j - n] in ds;
        assert HasArc(r, c, r.nodes[j]);
      }
    }
  }

  lemma DequeuedFrontier(s: State, r: State, c: Node, d: seq<Node>)
    requires FrontierOk(s) && Dequeued(s, r, c, d) && NoDup(d)
    requires forall x :: x in d ==> x !in s.visited && x !in s.queue
    ensures FrontierOk(r) && r.visited != []
  {
    var rest := s.queue[1..];
    assert s.queue == [c] + rest;
    NoDupConcatParts([c], rest);
    NoDupConcat(s.visited, [c]);
    NoDupConcat(rest, d);
  }

  lemma DequeuedSpans(s: State, r: State, c: Node, d: seq<Node>)
    requires TreeSpans(s) && RootOk(s) && NodesOk(s.t) && Dequeued(s, r, c, d)
    requires forall x :: x in d ==> x in s.g.adj
    ensures TreeSpans(r) && RootOk(r)
  {
    assert s.queue == [c] + s.queue[1..];
    assert c in s.t.adj;
  }

  lemma DequeuedArcsOk(s: State, r: State, c: Node, d: seq<Node>)
    requires ArcsOk(s) && Dequeued(s, r, c, d)
    requires forall x :: x in d ==> HasArc(s.g, c, x)
    ensures ArcsOk(r)
  {
    HungArcs(r.t, s.t, c, d);
  }

  /** A dequeue keeps the invariant. */
  lemma AdvanceInv(s: State)
    requires Core(s) && s.queue != []
    ensures Ready(s) && Inv(Advance(s))
  {
    var c := s.queue[0];
    var ns := s.g.adj[c];
    var d := Discover(ns, s.visited + s.queue);
    assert c in s.t.adj;
    AdvanceShape(s);
    var r := Advance(s);
    DiscoverMembers(ns, s.visited + s.queue);
    DiscoverNoDup(ns, s.visited + s.queue);
    assert forall x :: x in d ==> x !in s.t.adj;
    DequeuedFrontier(s, r, c, d);
    DequeuedSpans(s, r, c, d);
    DequeuedArcsOk(s, r, c, d);
    HungTree(r.t, s.t, c, d);
  }

  /** `run_bfs_step` keeps the invariant. */
  lemma StepInv(s: State)
    requires Inv(s)
    ensures Ready(s) && Inv(Step(s))
  {
    SeedCore(s);
    var s1 := Seed(s);
    if s1.queue == [] {
      assert s1 == s;
    } else {
      AdvanceInv(s1);
    }
  }

  /** The first step on an idle, non-empty graph seeds and expands at once:
      the graph's first node is visited, its neighbours are queued in
      neighbour order, and the tree is that node with them as its
      successors. */
  lemma StepFromIdle(s: State)
    requires Inv(s) && s.queue == [] && s.visited == [] && s.g.nodes != []
    ensures Ready(s)
    ensures var root := s.g.nodes[0];
            var d := Discover(s.g.adj[root], [root]);
            var r := Step(s);
            && r.g == s.g && r.visited == [root] && r.queue == d
            && Hung(r.t, Adjacency([root], map[root := []]), root, d)
  {
    SeedCore(s);
    var s1 := Seed(s);
    var root := s.g.nodes[0];
    assert s1.t == Adjacency([root], map[root := []]);
    assert s1.visited + s1.queue == [root];
    AdvanceShape(s1);
  }

  /** A step on a running search dequeues the front node `curr`, visits it,
      appends to the queue exactly those of its neighbours that are neither
      visited nor queued (in neighbour order), and adds the tree arcs from
      `curr` to those same nodes. */
  lemma StepRunning(s: State)
    requires Inv(s) && s.queue != []
    ensures Ready(s)
    ensures var curr := s.queue[0];
            Dequeued(s, Step(s), curr, Discover(s.g.adj[curr], s.visited + s.queue))
  {
    assert Seed(s) == s;
    assert s.queue[0] in s.t.adj;
    AdvanceShape(s);
  }

  /** A step on an empty graph or after the search is exhausted changes
      nothing. */
  lemma StepNoop(s: State)
    requires Inv(s) && s.queue == [] && (s.visited != [] || s.g.nodes == [])
    ensures Ready(s) && Step(s) == s
  {
  }

  /** What the tree promises: its first node is the graph's first node and
      the only node without a parent; every other node has exactly one
      parent, a visited node it is a graph neighbour of. */
  lemma TreeFacts(s: State, x: Node)
    requires Inv(s) && x in s.t.adj
    ensures x == s.g.nodes[0] <==> forall p :: !HasArc(s.t, p, x)
    ensures x != s.g.nodes[0] ==>
              exists p :: && HasArc(s.t, p, x) && p in s.visited && HasArc(s.g, p, x)
                          && forall q :: HasArc(s.t, q, x) ==> q == p
  {
    TreeParents(s.t, x);
  }

  // Coverage: a search left alone reaches the whole component of the root.

  /** Every graph neighbour of a visited node is visited or queued. Adding
      an edge at a visited node can break this, so it is not part of
      `Inv`. */
  ghost predicate Closed(s: State) {
    forall x, y :: x in s.visited && HasArc(s.g, x, y) ==> y in s.visited || y in s.queue
  }

  lemma DequeuedClosed(s: State, r: State, c: Node, d: seq<Node>)
    requires Closed(s) && Dequeued(s, r, c, d)
    requires forall y :: y in d <==> HasArc(s.g, c, y) && y !in s.visited && y !in s.queue
    ensures Closed(r)
  {
    assert s.queue == [c] + s.queue[1..];
    forall x, y | x in r.visited && HasArc(r.g, x, y) ensures y in r.visited || y in r.queue {
      if y !in s.visited && y !in s.queue {
        assert x == c;
        assert y in d;
      } else if y in s.queue && y != c {
        assert y in s.queue[1..];
      }
    }
  }

  /** A step keeps every neighbour of a visited node in sight. */
  lemma StepClosed(s: State)
    requires Inv(s) && Closed(s)
    ensures Ready(s) && Closed(Step(s))
  {
    SeedCore(s);
    var s1 := Seed(s);
    assert Closed(s1);
    if s1.queue != [] {
      var c := s1.queue[0];
      var ns := s1.g.adj[c];
      assert c in s1.t.adj;
      AdvanceShape(s1);
      DiscoverMembers(ns, s1.visited + s1.queue);
      DequeuedClosed(s1, Advance(s1), c, Discover(ns, s1.visited + s1.queue));
    }
  }

  /** A step never changes the graph. */
  lemma StepGraph(s: State)
    requires Ready(s)
    ensures Step(s).g == s.g
  {
    var s1 := Seed(s);
    if s1.queue != [] && s1.queue[0] !in s1.visited {
      var c := s1.queue[0];
      var e := Expand(c, s1.g.adj[c], s1.visited + [c], s1.t, s1.queue[1..]);
      AdvanceVisit(s1, e.0, e.1);
    }
  }

  /** Once the queue has run dry, every node reachable from the root along
      graph edges has been visited: `path` starts at the root and each of
      its nodes is a neighbour of the one before. */
  lemma {:induction false} ExhaustedComponent(s: State, path: seq<Node>)
    requires Inv(s) && Closed(s) && s.queue == [] && s.visited != []
    requires s.g.nodes != [] && path != [] && path[0] == s.g.nodes[0]
    requires forall i :: 0 <= i < |path| - 1 ==> HasArc(s.g, path[i], path[i + 1])
    ensures path[|path| - 1] in s.visited
  {
    if |path| == 1 {
      assert s.visited[0] in s.t.adj;
      assert s.t.nodes[0] in s.t.adj;
    } else {
      var p := path[..|path| - 1];
      ExhaustedComponent(s, p);
      assert HasArc(s.g, p[|p| - 1], path[|path| - 1]);
    }
  }

  // Levels: the search works down the tree one level at a time.

  /** Hanging new nodes leaves every node already in the tree at its
      depth. */
  lemma HungDepthOld(r: Adjacency, t: Adjacency, c: Node, ds: seq<Node>, x: Node)
    requires Hung(r, t, c, ds) && IsTree(t) && IsTree(r)
    requires forall y :: y in ds ==> y !in t.adj
    requires x in t.adj
    ensures Depth(r, x) == Depth(t, x)
    decreases FirstIndex(t.nodes, x)
  {
    HungArcs(r, t, c, ds);
    if HasParent(t, x) {
      var p :| HasArc(t, p, x);
      ParentEarlier(t, p, x);
      HungDepthOld(r, t, c, ds, p);
      DepthStep(t, p, x);
      DepthStep(r, p, x);
    } else {
      assert !HasParent(r, x);
    }
  }

  /** Each node hung under `c` is one level below it. */
  lemma HungDepthNew(r: Adjacency, t: Adjacency, c: Node, ds: seq<Node>, y: Node)
    requires Hung(r, t, c, ds) && IsTree(t) && IsTree(r) && c in t.adj
    requires forall z :: z in ds ==> z !in t.adj
    requires y in ds
    ensures Depth(r, y) == Depth(t, c) + 1
  {
    HungArcs(r, t, c, ds);
    HungDepthOld(r, t, c, ds, c);
    DepthStep(r, c, y);
  }

  /** The depth of each node of `w`, in order. */
  ghost function Depths(t: Adjacency, w: seq<Node>): (a: seq<nat>)
    requires WellFormed(t) && Ordered(t)
    ensures |a| == |w| && forall i :: 0 <= i < |w| ==> a[i] == Depth(t, w[i])
  {
    if w == [] then [] else Depths(t, w[..|w| - 1]) + [Depth(t, w[|w| - 1])]
  }

  lemma DepthsConcat(t: Adjacency, w: seq<Node>, d: seq<Node>)
    requires WellFormed(t) && Ordered(t)
    ensures Depths(t, w + d) == Depths(t, w) + Depths(t, d)
  {
    var a, b := Depths(t, w + d), Depths(t, w) + Depths(t, d);
    forall i | 0 <= i < |w + d| ensures a[i] == b[i] {
      if i < |w| {
        assert (w + d)[i] == w[i];
      } else {
        assert (w + d)[i] == d[i - |w|];
      }
    }
  }

  /** Two trees that put the visited and the queued nodes at the same
      depths give them the same depth list. */
  lemma DepthsKept(t: Adjacency, t': Adjacency, visited: seq<Node>, queue: seq<Node>)
    requires WellFormed(t) && Ordered(t) && WellFormed(t') && Ordered(t')
    requires forall x :: x in visited || x in queue ==> Depth(t', x) == Depth(t, x)
    ensures Depths(t', visited + queue) == Depths(t, visited + queue)
  {
    var w := visited + queue;
    forall i | 0 <= i < |w| ensures Depth(t', w[i]) == Depth(t, w[i]) {
      assert w[i] in visited || w[i] in queue;
    }
  }

  /** Levels `a` never decrease, and those from position `v` on are at most
      one above the one at `v`. */
  ghost predicate LevelOrder(a: seq<nat>, v: nat) {
    && (forall i, j :: 0 <= i < j < |a| ==> a[i] <= a[j])
    && (forall j :: v <= j < |a| ==> a[j] <= a[v] + 1)
  }

  /** Moving the front of the queue to `visited` and queueing nodes one
      level below it keeps the level order. */
  lemma LevelOrderDequeue(a: seq<nat>, v: nat, e: seq<nat>)
    requires LevelOrder(a, v) && v < |a|
    requires forall i :: 0 <= i < |e| ==> e[i] == a[v] + 1
    ensures LevelOrder(a + e, v + 1)
  {
    var a' := a + e;
    forall i, j | 0 <= i < j < |a'| ensures a'[i] <= a'[j] {
      if j >= |a| && i < |a| {
        assert a'[i] == a[i] <= a[v] + 1;
      }
    }
    if v + 1 < |a| {
      assert a[v] <= a[v + 1];
    }
  }

  /** Level order: read as one line, the visited and then the queued nodes
      never go back up the tree, and the queue spans at most two adjacent
      levels. */
  ghost predicate Levelled(s: State) {
    && WellFormed(s.t) && Ordered(s.t)
    && LevelOrder(Depths(s.t, s.visited + s.queue), |s.visited|)
  }

  /** Every graph neighbour of a visited node is in the tree, at most one
      level below it. Adding an edge at a visited node can break this, so it
      is not part of `Inv`. */
  ghost predicate Near(s: State) {
    && WellFormed(s.t) && Ordered(s.t)
    && forall x, y :: x in s.visited && HasArc(s.g, x, y) ==>
         y in s.t.adj && Depth(s.t, y) <= Depth(s.t, x) + 1
  }

  lemma DequeuedLevelled(s: State, r: State, c: Node, d: seq<Node>)
    requires Levelled(s) && s.queue != [] && c == s.queue[0]
    requires r.visited == s.visited + [c] && r.queue == s.queue[1..] + d
    requires WellFormed(r.t) && Ordered(r.t)
    requires forall x :: x in s.visited || x in s.queue ==> Depth(r.t, x) == Depth(s.t, x)
    requires forall y :: y in d ==> Depth(r.t, y) == Depth(s.t, c) + 1
    ensures Levelled(r)
  {
    var w := s.visited + s.queue;
    DequeuedLine(s.visited, s.queue, d);
    var a, e := Depths(s.t, w), Depths(r.t, d);
    assert w[|s.visited|] == c;
    DepthsKept(s.t, r.t, s.visited, s.queue);
    DepthsConcat(r.t, w, d);
    LevelOrderDequeue(a, |s.visited|, e);
    assert Depths(r.t, r.visited + r.queue) == a + e;
  }

  /** Dequeueing and queueing `d` leaves the visited-then-queued line as it
      was, with `d` at its end. */
  lemma DequeuedLine(visited: seq<Node>, queue: seq<Node>, d: seq<Node>)
    requires queue != []
    ensures (visited + [queue[0]]) + (queue[1..] + d) == (visited + queue) + d
  {
    assert queue == [queue[0]] + queue[1..];
  }

  lemma DequeuedNear(s: State, r: State, c: Node, d: seq<Node>)
    requires Near(s) && Levelled(s) && Dequeued(s, r, c, d) && WellFormed(r.t) && Ordered(r.t)
    requires forall x :: x in s.visited || x in s.queue ==> x in s.t.adj
    requires forall x :: x in s.t.adj ==> x in r.t.adj && Depth(r.t, x) == Depth(s.t, x)
    requires forall y :: y in d ==> y in r.t.adj && Depth(r.t, y) == Depth(s.t, c) + 1
    requires forall y :: y in d <==> HasArc(s.g, c, y) && y !in s.visited && y !in s.queue
    ensures Near(r)
  {
    forall x, y | x in r.visited && HasArc(r.g, x, y)
      ensures y in r.t.adj && Depth(r.t, y) <= Depth(r.t, x) + 1
    {
      if x !in s.visited && y !in d {
        assert x == c;
        FrontLevel(s, y);
      }
    }
  }

  /** In level order, every visited or queued node is at most one level
      below the front of the queue. */
  lemma FrontLevel(s: State, y: Node)
    requires Levelled(s) && s.queue != [] && (y in s.visited || y in s.queue)
    ensures Depth(s.t, y) <= Depth(s.t, s.queue[0]) + 1
  {
    var w := s.visited + s.queue;
    var a := Depths(s.t, w);
    assert w[|s.visited|] == s.queue[0];
    if y in s.visited {
      var i :| 0 <= i < |s.visited| && s.visited[i] == y;
      assert w[i] == y && a[i] <= a[|s.visited|];
    } else {
      var j :| 0 <= j < |s.queue| && s.queue[j] == y;
      assert w[|s.visited| + j] == y && a[|s.visited| + j] <= a[|s.visited|] + 1;
    }
  }

  /** A dequeue keeps the level order, and keeps every neighbour of a
      visited node at most one level below it. */
  lemma AdvanceLevels(s: State)
    requires Core(s) && Levelled(s) && s.queue != []
    ensures Ready(s) && Levelled(Advance(s))
    ensures Near(s) ==> Near(Advance(s))
  {
    var c := s.queue[0];
    var ns := s.g.adj[c];
    var d := Discover(ns, s.visited + s.queue);
    assert c in s.t.adj;
    AdvanceShape(s);
    var r := Advance(s);
    DiscoverMembers(ns, s.visited + s.queue);
    DiscoverNoDup(ns, s.visited + s.queue);
    assert forall x :: x in d ==> x !in s.t.adj;
    HungTree(r.t, s.t, c, d);
    forall x | x in s.t.adj ensures x in r.t.adj && Depth(r.t, x) == Depth(s.t, x) {
      HungDepthOld(r.t, s.t, c, d, x);
    }
    forall y | y in d ensures y in r.t.adj && Depth(r.t, y) == Depth(s.t, c) + 1 {
      HungDepthNew(r.t, s.t, c, d, y);
    }
    DequeuedLevelled(s, r, c, d);
    if Near(s) {
      DequeuedNear(s, r, c, d);
    }
  }

  /** `run_bfs_step` keeps the level order, and keeps every neighbour of a
      visited node at most one level below it. */
  lemma StepLevels(s: State)
    requires Inv(s) && Levelled(s)
    ensures Ready(s) && Levelled(Step(s))
    ensures Near(s) ==> Near(Step(s))
  {
    SeedCore(s);
    var s1 := Seed(s);
    if s1 != s {
      assert s1.visited + s1.queue == [s.g.nodes[0]];
    }
    assert Levelled(s1) && (Near(s) ==> Near(s1));
    if s1.queue != [] {
      AdvanceLevels(s1);
    }
  }

  /** Every tree node is reached from the root along graph edges by a path
      with as many edges as the node's tree depth. */
  lemma TreeRoute(s: State, x: Node) returns (path: seq<Node>)
    requires Inv(s) && x in s.t.adj
    ensures |path| == Depth(s.t, x) + 1 && path[0] == s.g.nodes[0] && path[|path| - 1] == x
    ensures forall i :: 0 <= i < |path| - 1 ==> HasArc(s.g, path[i], path[i + 1])
  {
    path := TreePath(s.t, x);
  }

  /** Once the queue has run dry in a state where every neighbour of a
      visited node is near, a graph path of `n` edges from the root ends at
      a visited node of tree depth at most `n`: with `TreeRoute`, the tree
      depth is the graph distance from the root. */
  lemma {:induction false} ExhaustedShortest(s: State, path: seq<Node>)
    requires Inv(s) && Near(s) && s.queue == [] && s.visited != []
    requires s.g.nodes != [] && path != [] && path[0] == s.g.nodes[0]
    requires forall i :: 0 <= i < |path| - 1 ==> HasArc(s.g, path[i], path[i + 1])
    ensures path[|path| - 1] in s.visited && Depth(s.t, path[|path| - 1]) <= |path| - 1
  {
    if |path| == 1 {
      assert s.visited[0] in s.t.adj;
      assert s.t.nodes[0] in s.t.adj;
      DepthOfRoot(s.t);
    } else {
      var p := path[..|path| - 1];
      ExhaustedShortest(s, p);
      assert HasArc(s.g, p[|p| - 1], path[|path| - 1]);
    }
  }

  /** `ss` is a run of steps and nothing else: each state is the step of
      the one before. */
  ghost predicate Stepped(ss: seq<State>) {
    forall i :: 0 <= i < |ss| - 1 ==> Ready(ss[i]) && ss[i + 1] == Step(ss[i])
  }

  /** A run of steps keeps the invariant, the level order and nearness. */
  lemma {:induction false} SteppedKeeps(ss: seq<State>)
    requires ss != [] && Inv(ss[0]) && Levelled(ss[0]) && Near(ss[0]) && Stepped(ss)
    ensures Inv(ss[|ss| - 1]) && Levelled(ss[|ss| - 1]) && Near(ss[|ss| - 1])
  {
    if |ss| > 1 {
      var p := ss[..|ss| - 1];
      forall i | 0 <= i < |p| - 1 ensures Ready(p[i]) && p[i + 1] == Step(p[i]) {
        assert p[i] == ss[i] && p[i + 1] == ss[i + 1];
      }
      SteppedKeeps(p);
      var s := p[|p| - 1];
      assert ss[|ss| - 1] == Step(s);
      StepInv(s);
      StepLevels(s);
    }
  }

  /** A search started from an idle state and then only stepped: once its
      queue has run dry, every node a graph path of `n` edges leads to from
      the root is visited, at tree depth at most `n`. */
  lemma StaticRunShortest(ss: seq<State>, path: seq<Node>)
    requires ss != [] && Inv(ss[0]) && ss[0].visited == [] && Stepped(ss)
    requires ss[|ss| - 1].queue == [] && ss[|ss| - 1].visited != [] && ss[|ss| - 1].g.nodes != []
    requires path != [] && path[0] == ss[|ss| - 1].g.nodes[0]
    requires forall i :: 0 <= i < |path| - 1 ==> HasArc(ss[|ss| - 1].g, path[i], path[i + 1])
    ensures Inv(ss[|ss| - 1]) && path[|path| - 1] in ss[|ss| - 1].visited
    ensures Depth(ss[|ss| - 1].t, path[|path| - 1]) <= |path| - 1
  {
    assert Levelled(ss[0]) && Near(ss[0]);
    SteppedKeeps(ss);
    ExhaustedShortest(ss[|ss| - 1], path);
  }

  /** In such a run, once the queue has run dry, `visited` is in order of
      graph distance from the root: every graph path from the root to a
      later visited node is at least as long as the tree depth of an
      earlier one, and that depth is the earlier node's distance
      (`TreeRoute`, `StaticRunShortest`). */
  lemma StaticRunVisitOrder(ss: seq<State>, i: nat, j: nat, path: seq<Node>)
    requires ss != [] && Inv(ss[0]) && ss[0].visited == [] && Stepped(ss)
    requires ss[|ss| - 1].queue == [] && i < j < |ss[|ss| - 1].visited| && ss[|ss| - 1].g.nodes != []
    requires path != [] && path[0] == ss[|ss| - 1].g.nodes[0] && path[|path| - 1] == ss[|ss| - 1].visited[j]
    requires forall k :: 0 <= k < |path| - 1 ==> HasArc(ss[|ss| - 1].g, path[k], path[k + 1])
    ensures Inv(ss[|ss| - 1])
    ensures Depth(ss[|ss| - 1].t, ss[|ss| - 1].visited[i]) <= |path| - 1
  {
    var s := ss[|ss| - 1];
    assert Levelled(ss[0]) && Near(ss[0]);
    SteppedKeeps(ss);
    ExhaustedShortest(s, path);
    var w := s.visited + s.queue;
    var a := Depths(s.t, w);
    assert w[i] == s.visited[i] && w[j] == s.visited[j];
    assert a[i] <= a[j];
  }

  /** A list without repeats is no longer than any list holding all its
      elements. */
  lemma {:induction false} NoDupShorter(a: seq<Node>, b: seq<Node>)
    requires NoDup(a) && NoDup(b) && forall x :: x in a ==> x in b
    ensures |a| <= |b|
  {
    if a != [] {
      var x := a[|a| - 1];
      assert x in a && x in b;
      var i :| 0 <= i < |b| && b[i] == x;
      var b' := b[..i] + b[i + 1..];
      var a' := a[..|a| - 1];
      assert b == b[..i] + [x] + b[i + 1..];
      NoDupConcatParts(b[..i] + [x], b[i + 1..]);
      NoDupConcatParts(b[..i], [x]);
      NoDupConcat(b[..i], b[i + 1..]);
      assert a == a' + [x];
      NoDupConcatParts(a', [x]);
      forall y | y in a' ensures y in b' {
        assert y in b && y != x;
      }
      NoDupShorter(a', b');
    }
  }

  /** Every graph node is visited or queued at most once, so a search does
      at most as many dequeues as the graph has nodes. */
  lemma FrontierBound(s: State)
    requires Inv(s)
    ensures |s.visited| + |s.queue| <= |s.g.nodes|
  {
    NoDupConcat(s.visited, s.queue);
    NoDupShorter(s.visited + s.queue, s.g.nodes);
  }

  /** `add_edge` on the state: the graph gains the parsed edge in both
      directions; text that does not parse leaves everything as it was.
      The search state is never touched. */
  function Submit(s: State, text: string): (r: State)
    ensures r.t == s.t && r.visited == s.visited && r.queue == s.queue
    ensures ParseEdge(text).FormatError? ==> r == s
  {
    match ParseEdge(text)
    case Edge(u, v) => s.(g := AddEdge(s.g, u, v))
    case FormatError => s
  }

  /** Adding an edge keeps the invariant. */
  lemma SubmitInv(s: State, text: string)
    requires Inv(s)
    ensures Inv(Submit(s, text))
  {
    if ParseEdge(text).Edge? {
      var u, v := ParseEdge(text).u, ParseEdge(text).v;
      AddEdgeWellFormed(s.g, u, v);
      AddEdgeSymmetric(s.g, u, v);
    }
  }

  /** Once the search has run out of nodes, adding edges does not restart
      it: a step stays a no-op until the state is cleared. */
  lemma ExhaustedStaysExhausted(s: State, text: string)
    requires Inv(s) && s.queue == [] && s.visited != []
    ensures Inv(Submit(s, text)) && Ready(Submit(s, text))
    ensures Step(Submit(s, text)) == Submit(s, text)
  {
    SubmitInv(s, text);
  }

  /** The three GUI callbacks. */
  datatype Event = EdgeText(text: string) | StepClick | ClearClick

  function Apply(s: State, e: Event): (r: State)
    requires Inv(s)
    ensures Inv(r)
  {
    match e
    case EdgeText(text) => SubmitInv(s, text); Submit(s, text)
    case StepClick => StepInv(s); Step(s)
    case ClearClick => InitialInv(); Initial
  }

  /** The state after a run of callbacks from start-up: whatever the user
      does, the invariant holds. */
  function Run(events: seq<Event>): (r: State)
    ensures Inv(r)
  {
    if events == [] then InitialInv(); Initial
    else Apply(Run(events[..|events| - 1]), events[|events| - 1])
  }

  /** Every callback keeps the level order. */
  lemma ApplyLevelled(s: State, e: Event)
    requires Inv(s) && Levelled(s)
    ensures Levelled(Apply(s, e))
  {
    if e.StepClick? {
      StepLevels(s);
    }
  }

  /** Whatever the user does, the visited and the queued nodes stay in
      level order. */
  lemma {:induction false} RunLevelled(events: seq<Event>)
    ensures Levelled(Run(events))
  {
    if events != [] {
      RunLevelled(events[..|events| - 1]);
      ApplyLevelled(Run(events[..|events| - 1]), events[|events| - 1]);
    }
  }
}
