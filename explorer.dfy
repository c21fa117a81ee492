/** The `BFSExplorer` object: the main graph `G`, the search tree `T`, the
    `visited` list and the `queue` deque, updated in place by the edge box
    and the two buttons. Each method is proved to move the object exactly as
    the corresponding function of `Stepper` moves a `State`, so everything
    proved there holds of the object. */
module Explorer {
  import opened Graphs
  import opened Stepper
  import opened Layout

  class BFSExplorer {
    var G: Adjacency
    var T: Adjacency
    var visited: seq<Node>
    var queue: seq<Node>

    /** The object's fields as a search state. */
    function Snapshot(): State
      reads this
    {
      State(G, T, visited, queue)
    }

    /** The invariant every reachable object keeps. */
    ghost predicate Valid()
      reads this
    {
      Inv(Snapshot())
    }

    /** `__init__`: an empty graph, an empty tree, nothing visited or
        queued. */
    constructor ()
      ensures Snapshot() == Initial
      ensures Valid()
    {
      G := Empty;
      T := Empty;
      visited := [];
      queue := [];
      new;
      InitialInv();
    }

    /** The edge box's callback: parse `u,v` and insert the edge, or report
        the format and change nothing. */
    method AddEdge(text: string)
      modifies this
      ensures Snapshot() == Submit(old(Snapshot()), text)
      ensures old(Valid()) ==> Valid()
    {
      ghost var s := Snapshot();
      var parsed := Parsing.ParseEdge(text);
      if parsed.Edge? {
        G := Graphs.AddEdge(G, parsed.u, parsed.v);
      }
      ghost var s' := Snapshot();
      assert s' == Submit(s, text);
      if Inv(s) {
        SubmitInv(s, text);
        assert Inv(s');
      }
    }

    /** The step button's callback: seed an idle search with the graph's
        first node, then dequeue the front node and, if it is new, visit it
        and queue each neighbour that is neither visited nor queued, hanging
        it below the node in the tree. */
    method RunBfsStep()
      requires Ready(Snapshot())
      modifies this
      ensures Snapshot() == Step(old(Snapshot()))
      ensures old(Valid()) ==> Valid()
    {
      ghost var s := Snapshot();
      SeedReady(s);
      ghost var s1 := Seed(s);
      if queue == [] && visited == [] && G.nodes != [] {
        var start := G.nodes[0];
        queue := queue + [start];
        T := AddNode(T, start);
      }
      assert Snapshot() == s1;
      if queue != [] {
        var curr := queue[0];
        queue := queue[1..];
        if curr !in visited {
          visited := visited + [curr];
          ScanNeighbours(curr);
          AdvanceVisit(s1, T, queue);
        }
      }
      ghost var s2 := Snapshot();
      assert s2 == Advance(s1);
      if Inv(s) {
        StepInv(s);
        assert Inv(s2);
      }
    }

    /** The loop over `G.neighbors(curr)`: each neighbour neither visited
        nor queued yet is queued and hung below `curr` in the tree, in
        neighbour order. */
    method ScanNeighbours(curr: Node)
      requires curr in G.adj
      modifies this
      ensures G == old(G) && visited == old(visited)
      ensures Expand(curr, G.adj[curr], visited, old(T), old(queue)) == (T, queue)
    {
      var ns := G.adj[curr];
      ghost var t0, q0 := T, queue;
      ghost var scanned: seq<Node> := [];
      var i := 0;
      while i < |ns|
        invariant 0 <= i <= |ns| && scanned == ns[..i]
        invariant G == old(G) && visited == old(visited)
        invariant Expand(curr, scanned, visited, t0, q0) == (T, queue)
      {
        var n := ns[i];
        ExpandNext(curr, scanned, n, visited, t0, q0, T, queue);
        if n !in visited && n !in queue {
          queue := queue + [n];
          T := AddArc(T, curr, n);
        }
        scanned := scanned + [n];
        i := i + 1;
      }
      assert scanned == ns;
    }

    /** The clear button's callback: everything back to empty, whatever
        came before. */
    method Clear()
      modifies this
      ensures Snapshot() == Initial
      ensures Valid()
    {
      G := Empty;
      T := Empty;
      visited := [];
      queue := [];
      InitialInv();
    }
  }

  /** What the tree panel draws, in the model: in every reachable state
      with a non-empty tree, the layout of `T` exists and places exactly the
      tree's nodes, the search's start node at (1/2, 0) and every node
      inside the unit strip. */
  lemma TreeLayout(s: State)
    requires Inv(s) && s.t.nodes != []
    ensures s.g.nodes != [] && HierarchyPos(s.t, None) == Some(Pos(s.t, s.g.nodes[0], 0.0, 1.0, 0))
    ensures s.g.nodes[0] in Pos(s.t, s.g.nodes[0], 0.0, 1.0, 0)
    ensures Pos(s.t, s.g.nodes[0], 0.0, 1.0, 0)[s.g.nodes[0]] == (0.5, 0.0)
    ensures forall x :: x in Pos(s.t, s.g.nodes[0], 0.0, 1.0, 0) <==> x in s.visited || x in s.queue
    ensures forall x :: x in Pos(s.t, s.g.nodes[0], 0.0, 1.0, 0) ==>
              0.0 <= Pos(s.t, s.g.nodes[0], 0.0, 1.0, 0)[x].0 <= 1.0 && Pos(s.t, s.g.nodes[0], 0.0, 1.0, 0)[x].1 <= 0.0
  {
    HierarchyPosTree(s.t);
  }
}
