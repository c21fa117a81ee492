/** `hierarchy_pos` and its inner `_pos`: drawing positions for the BFS tree
    by recursive subdivision of the unit interval. A node drawn on the
    interval [left, right] at depth `depth` sits at the interval's midpoint,
    `depth` below the top; its k successors split the interval into k equal
    slots, in successor order. Coordinates are exact reals. */
module Layout {
  import opened Graphs

  datatype Option<T> = None | Some(value: T)

  type Point = (real, real)

  /** What `_pos` needs to stop: every successor list leads to nodes that
      come later in the node order, so the recursion goes down a DAG. */
  ghost predicate Layable(t: Adjacency) {
    WellFormed(t) && Ordered(t)
  }

  /** The place of `x` in the node order. */
  function Rank(t: Adjacency, x: Node): nat
    requires NodesOk(t) && x in t.adj
  {
    FirstIndex(t.nodes, x)
  }

  /** Arcs lead to nodes of higher rank. */
  lemma RankGrows(t: Adjacency, p: Node, c: Node)
    requires Layable(t) && HasArc(t, p, c)
    ensures c in t.adj && Rank(t, p) < Rank(t, c) < |t.nodes|
  {
    var i, j := FirstIndex(t.nodes, p), FirstIndex(t.nodes, c);
    assert HasArc(t, t.nodes[i], t.nodes[j]);
  }

  /** `_pos(G, node, left, right, depth)`: `node` at the midpoint, then the
      children's subtrees on their slots; where two writes hit the same
      node the later one wins, as with the shared `pos` dict. */
  function Pos(t: Adjacency, node: Node, left: real, right: real, depth: nat): map<Node, Point>
    requires Layable(t) && node in t.adj
    decreases |t.nodes| - Rank(t, node), 1, 0
  {
    var children := t.adj[node];
    var here := map[node := ((left + right) / 2.0, -(depth as real))];
    if children == [] then here
    else here + Kids(t, node, 0, left, SlotWidth(left, right, |children|), depth + 1)
  }

  /** `(right - left) / len(children)`: the width of one of `k` equal slots. */
  function SlotWidth(left: real, right: real, k: nat): real
    requires k != 0
  {
    (right - left) / (k as real)
  }

  /** `left + i * width`: where slot `i` starts. */
  function SlotStart(left: real, width: real, i: nat): real {
    left + (i as real) * width
  }

  /** The `for i, child in enumerate(children)` loop from child `i` on,
      where `width` is one slot and `depth` is the children's depth. */
  function Kids(t: Adjacency, parent: Node, i: nat, left: real, width: real, depth: nat): map<Node, Point>
    requires Layable(t) && parent in t.adj && i <= |t.adj[parent]|
    decreases |t.nodes| - Rank(t, parent), 0, |t.adj[parent]| - i
  {
    if i == |t.adj[parent]| then map[]
    else
      var child := t.adj[parent][i];
      RankGrows(t, parent, child);
      Pos(t, child, SlotStart(left, width, i), SlotStart(left, width, i + 1), depth)
        + Kids(t, parent, i + 1, left, width, depth)
  }

  /** `hierarchy_pos(G, root)`: the layout from `root` on [0, 1] at depth
      0; without a root, from the first node. A missing root (or an empty
      graph with no root given) raises in the source, here `None`. */
  function HierarchyPos(t: Adjacency, root: Option<Node>): (r: Option<map<Node, Point>>)
    requires Layable(t)
    ensures r.Some? <==> if root.Some? then root.value in t.adj else t.nodes != []
  {
    var start := if root.Some? then root.value else if t.nodes != [] then t.nodes[0] else "";
    if (root.Some? || t.nodes != []) && start in t.adj then Some(Pos(t, start, 0.0, 1.0, 0)) else None
  }

  // The nodes a layout places: a reference definition by the same descent.

  /** `node` and everything below it. */
  ghost function Subtree(t: Adjacency, node: Node): set<Node>
    requires Layable(t) && node in t.adj
    decreases |t.nodes| - Rank(t, node), 1, 0
  {
    {node} + Forest(t, node, 0)
  }

  /** Everything below the children of `parent` from child `i` on. */
  ghost function Forest(t: Adjacency, parent: Node, i: nat): set<Node>
    requires Layable(t) && parent in t.adj && i <= |t.adj[parent]|
    decreases |t.nodes| - Rank(t, parent), 0, |t.adj[parent]| - i
  {
    if i == |t.adj[parent]| then {}
    else
      RankGrows(t, parent, t.adj[parent][i]);
      Subtree(t, t.adj[parent][i]) + Forest(t, parent, i + 1)
  }

  /** The child `i` of `parent`, for the lemmas. */
  function Child(t: Adjacency, parent: Node, i: nat): (c: Node)
    requires Layable(t) && parent in t.adj && i < |t.adj[parent]|
    ensures HasArc(t, parent, c) && c in t.adj && Rank(t, parent) < Rank(t, c)
  {
    RankGrows(t, parent, t.adj[parent][i]);
    t.adj[parent][i]
  }

  /** A forest is the union of the subtrees of its children. */
  lemma {:induction false} ForestMembers(t: Adjacency, parent: Node, i: nat, x: Node)
    requires Layable(t) && parent in t.adj && i <= |t.adj[parent]|
    ensures x in Forest(t, parent, i) <==>
              exists j :: i <= j < |t.adj[parent]| && x in Subtree(t, Child(t, parent, j))
    decreases |t.adj[parent]| - i
  {
    if i < |t.adj[parent]| {
      ForestMembers(t, parent, i + 1, x);
      assert Forest(t, parent, i) == Subtree(t, Child(t, parent, i)) + Forest(t, parent, i + 1);
    }
  }

  /** A layout places exactly the subtree below its node. */
  lemma {:induction false} PosKeys(t: Adjacency, node: Node, left: real, right: real, depth: nat)
    requires Layable(t) && node in t.adj
    ensures Pos(t, node, left, right, depth).Keys == Subtree(t, node)
    decreases |t.nodes| - Rank(t, node), 1, 0
  {
    var children := t.adj[node];
    if children != [] {
      KidsKeys(t, node, 0, left, SlotWidth(left, right, |children|), depth + 1);
    }
  }

  lemma {:induction false} KidsKeys(t: Adjacency, parent: Node, i: nat, left: real, width: real, depth: nat)
    requires Layable(t) && parent in t.adj && i <= |t.adj[parent]|
    ensures Kids(t, parent, i, left, width, depth).Keys == Forest(t, parent, i)
    decreases |t.nodes| - Rank(t, parent), 0, |t.adj[parent]| - i
  {
    if i < |t.adj[parent]| {
      var child := Child(t, parent, i);
      PosKeys(t, child, SlotStart(left, width, i), SlotStart(left, width, i + 1), depth);
      KidsKeys(t, parent, i + 1, left, width, depth);
    }
  }

  /** Every node below `node` is a node of higher rank. */
  lemma {:induction false} SubtreeRanks(t: Adjacency, node: Node)
    requires Layable(t) && node in t.adj
    ensures forall x :: x in Subtree(t, node) ==> x in t.adj && Rank(t, node) <= Rank(t, x)
    ensures forall x :: x in Forest(t, node, 0) ==> x in t.adj && Rank(t, node) < Rank(t, x)
    decreases |t.nodes| - Rank(t, node)
  {
    forall x | x in Forest(t, node, 0) ensures x in t.adj && Rank(t, node) < Rank(t, x) {
      ForestMembers(t, node, 0, x);
      var j :| 0 <= j < |t.adj[node]| && x in Subtree(t, Child(t, node, j));
      SubtreeRanks(t, Child(t, node, j));
    }
  }

  /** Every node below `node` other than `node` itself has its parent in the
      subtree. */
  lemma {:induction false} SubtreeParents(t: Adjacency, node: Node)
    requires Layable(t) && node in t.adj
    ensures forall x :: x in Subtree(t, node) && x != node ==>
              exists p :: p in Subtree(t, node) && HasArc(t, p, x)
    decreases |t.nodes| - Rank(t, node)
  {
    forall x | x in Subtree(t, node) && x != node
      ensures exists p :: p in Subtree(t, node) && HasArc(t, p, x)
    {
      ForestMembers(t, node, 0, x);
      var j :| 0 <= j < |t.adj[node]| && x in Subtree(t, Child(t, node, j));
      var c := Child(t, node, j);
      ForestMembers(t, node, 0, c);
      assert c in Subtree(t, node);
      if x == c {
        assert HasArc(t, node, x);
      } else {
        SubtreeParents(t, c);
        var p :| p in Subtree(t, c) && HasArc(t, p, x);
        ForestMembers(t, node, 0, p);
      }
    }
  }

  /** The subtree below `node` holds every successor of its members. */
  lemma {:induction false} SubtreeClosed(t: Adjacency, node: Node, x: Node, y: Node)
    requires Layable(t) && node in t.adj && x in Subtree(t, node) && HasArc(t, x, y)
    ensures y in Subtree(t, node)
    decreases |t.nodes| - Rank(t, node)
  {
    if x == node {
      var j :| 0 <= j < |t.adj[node]| && t.adj[node][j] == y;
      ForestMembers(t, node, 0, y);
      assert y in Subtree(t, Child(t, node, j));
    } else {
      ForestMembers(t, node, 0, x);
      var j :| 0 <= j < |t.adj[node]| && x in Subtree(t, Child(t, node, j));
      SubtreeClosed(t, Child(t, node, j), x, y);
      ForestMembers(t, node, 0, y);
    }
  }

  /** In a rooted tree, the subtree below the first node is every node. */
  lemma {:induction false} SubtreeOfRoot(t: Adjacency)
    requires IsTree(t) && t.nodes != []
    ensures forall x :: x in Subtree(t, t.nodes[0]) <==> x in t.adj
  {
    SubtreeRanks(t, t.nodes[0]);
    forall j | 0 <= j < |t.nodes| ensures t.nodes[j] in Subtree(t, t.nodes[0]) {
      RootReaches(t, j);
    }
  }

  lemma {:induction false} RootReaches(t: Adjacency, j: nat)
    requires IsTree(t) && j < |t.nodes|
    ensures t.nodes[j] in Subtree(t, t.nodes[0])
    decreases j
  {
    if j > 0 {
      assert HasParent(t, t.nodes[j]);
      var p :| HasArc(t, p, t.nodes[j]);
      var i := FirstIndex(t.nodes, p);
      assert HasArc(t, t.nodes[i], t.nodes[j]);
      RootReaches(t, i);
      SubtreeClosed(t, t.nodes[0], p, t.nodes[j]);
    }
  }

  /** With one parent per node, two subtrees that meet are nested. */
  lemma {:induction false} SubtreesNested(t: Adjacency, a: Node, b: Node, x: Node)
    requires Layable(t) && UniqueParent(t) && a in t.adj && b in t.adj && x in t.adj
    requires x in Subtree(t, a) && x in Subtree(t, b)
    ensures a in Subtree(t, b) || b in Subtree(t, a)
    decreases Rank(t, x)
  {
    SubtreeRanks(t, a);
    if x != a && x != b {
      SubtreeParents(t, a);
      SubtreeParents(t, b);
      var p :| p in Subtree(t, a) && HasArc(t, p, x);
      var q :| q in Subtree(t, b) && HasArc(t, q, x);
      assert p == q;
      RankGrows(t, p, x);
      SubtreesNested(t, a, b, p);
    }
  }

  /** With one parent per node, the subtrees of two different children are
      disjoint. */
  lemma SiblingsDisjoint(t: Adjacency, parent: Node, i: nat, j: nat, x: Node)
    requires Layable(t) && UniqueParent(t) && parent in t.adj
    requires i < |t.adj[parent]| && j < |t.adj[parent]| && i != j
    requires x in Subtree(t, Child(t, parent, i))
    ensures x !in Subtree(t, Child(t, parent, j))
  {
    var a, b := Child(t, parent, i), Child(t, parent, j);
    assert a != b;
    if x in Subtree(t, b) {
      SubtreeRanks(t, a);
      SubtreesNested(t, a, b, x);
      if a in Subtree(t, b) {
        NotBelowSibling(t, parent, b, a);
      } else {
        NotBelowSibling(t, parent, a, b);
      }
      assert false;
    }
  }

  /** A child of `parent` lies in no other child's subtree. */
  lemma NotBelowSibling(t: Adjacency, parent: Node, b: Node, a: Node)
    requires Layable(t) && UniqueParent(t) && HasArc(t, parent, a) && HasArc(t, parent, b) && a != b
    ensures b in t.adj && a !in Subtree(t, b)
  {
    RankGrows(t, parent, b);
    if a in Subtree(t, b) {
      SubtreeParents(t, b);
      SubtreeRanks(t, b);
      assert false;
    }
  }

  // Where the nodes go.

  /** A node is drawn at the midpoint of its interval, at minus its depth:
      nothing below it overwrites it. */
  lemma PosSelf(t: Adjacency, node: Node, left: real, right: real, depth: nat)
    requires Layable(t) && node in t.adj
    ensures node in Pos(t, node, left, right, depth)
    ensures Pos(t, node, left, right, depth)[node] == ((left + right) / 2.0, -(depth as real))
  {
    var children := t.adj[node];
    if children != [] {
      KidsKeys(t, node, 0, left, SlotWidth(left, right, |children|), depth + 1);
      SubtreeRanks(t, node);
    }
  }

  /** Below `node`, its layout is what its loop over the children wrote. */
  lemma PosBelow(t: Adjacency, node: Node, left: real, right: real, depth: nat, x: Node)
    requires Layable(t) && node in t.adj && t.adj[node] != [] && x != node
    ensures var kids := Kids(t, node, 0, left, SlotWidth(left, right, |t.adj[node]|), depth + 1);
            && (x in Pos(t, node, left, right, depth) <==> x in kids)
            && (x in kids ==> Pos(t, node, left, right, depth)[x] == kids[x])
  {
  }

  /** One turn of the loop: child `i`'s layout, then the rest of the loop
      writing over it. */
  lemma KidsAt(t: Adjacency, parent: Node, i: nat, left: real, width: real, depth: nat, x: Node)
    requires Layable(t) && parent in t.adj && i < |t.adj[parent]|
    ensures var here := Pos(t, Child(t, parent, i), SlotStart(left, width, i), SlotStart(left, width, i + 1), depth);
            var rest := Kids(t, parent, i + 1, left, width, depth);
            var all := Kids(t, parent, i, left, width, depth);
            && (x in all <==> x in here || x in rest)
            && (x in rest ==> all[x] == rest[x])
            && (x in here && x !in rest ==> all[x] == here[x])
  {
    var here := Pos(t, Child(t, parent, i), SlotStart(left, width, i), SlotStart(left, width, i + 1), depth);
    var rest := Kids(t, parent, i + 1, left, width, depth);
    assert Kids(t, parent, i, left, width, depth) == here + rest;
  }

  /** The loop from child `j` on places a node below child `i` (`j <= i`)
      where child `i`'s own layout puts it: later siblings' subtrees do not
      overwrite it, because they are disjoint from it. */
  lemma {:induction false} KidsValue(t: Adjacency, parent: Node, j: nat, left: real, width: real, depth: nat, i: nat, x: Node)
    requires Layable(t) && UniqueParent(t) && parent in t.adj
    requires j <= i < |t.adj[parent]| && x in Subtree(t, Child(t, parent, i))
    ensures x in Pos(t, Child(t, parent, i), SlotStart(left, width, i), SlotStart(left, width, i + 1), depth)
    ensures x in Kids(t, parent, j, left, width, depth)
    ensures Kids(t, parent, j, left, width, depth)[x] ==
              Pos(t, Child(t, parent, i), SlotStart(left, width, i), SlotStart(left, width, i + 1), depth)[x]
    decreases i - j
  {
    if j == i {
      KidsHead(t, parent, left, width, depth, i, x);
    } else {
      KidsValue(t, parent, j + 1, left, width, depth, i, x);
      var rest := Kids(t, parent, j + 1, left, width, depth);
      assert x in rest;
      KidsAt(t, parent, j, left, width, depth, x);
      assert Kids(t, parent, j, left, width, depth)[x] == rest[x];
    }
  }

  /** The turn for child `i` itself: nothing after it writes below it. */
  lemma KidsHead(t: Adjacency, parent: Node, left: real, width: real, depth: nat, i: nat, x: Node)
    requires Layable(t) && UniqueParent(t) && parent in t.adj
    requires i < |t.adj[parent]| && x in Subtree(t, Child(t, parent, i))
    ensures x in Pos(t, Child(t, parent, i), SlotStart(left, width, i), SlotStart(left, width, i + 1), depth)
    ensures x in Kids(t, parent, i, left, width, depth)
    ensures Kids(t, parent, i, left, width, depth)[x] ==
              Pos(t, Child(t, parent, i), SlotStart(left, width, i), SlotStart(left, width, i + 1), depth)[x]
  {
    var c := Child(t, parent, i);
    PosKeys(t, c, SlotStart(left, width, i), SlotStart(left, width, i + 1), depth);
    ForestMembers(t, parent, i + 1, x);
    forall m | i < m < |t.adj[parent]| ensures x !in Subtree(t, Child(t, parent, m)) {
      SiblingsDisjoint(t, parent, i, m, x);
    }
    KidsKeys(t, parent, i + 1, left, width, depth);
    assert x !in Kids(t, parent, i + 1, left, width, depth);
    KidsAt(t, parent, i, left, width, depth, x);
  }

  /** Subtree agreement: below child `i` of `k`, the layout of `node` on
      [left, right] is that child's own layout on slot `i`, one level
      deeper. */
  lemma PosBelowChild(t: Adjacency, node: Node, left: real, right: real, depth: nat, i: nat, x: Node)
    requires Layable(t) && UniqueParent(t) && node in t.adj
    requires i < |t.adj[node]| && x in Subtree(t, Child(t, node, i))
    ensures var w := SlotWidth(left, right, |t.adj[node]|);
            x in Pos(t, Child(t, node, i), SlotStart(left, w, i), SlotStart(left, w, i + 1), depth + 1)
    ensures x in Pos(t, node, left, right, depth)
    ensures var w := SlotWidth(left, right, |t.adj[node]|);
            Pos(t, node, left, right, depth)[x] ==
              Pos(t, Child(t, node, i), SlotStart(left, w, i), SlotStart(left, w, i + 1), depth + 1)[x]
  {
    var w := SlotWidth(left, right, |t.adj[node]|);
    var c := Child(t, node, i);
    KidsValue(t, node, 0, left, w, depth + 1, i, x);
    var kids := Kids(t, node, 0, left, w, depth + 1);
    var own := Pos(t, c, SlotStart(left, w, i), SlotStart(left, w, i + 1), depth + 1);
    assert x in kids && x in own && kids[x] == own[x];
    SubtreeRanks(t, c);
    assert x != node;
    PosBelow(t, node, left, right, depth, x);
  }

  /** Child `i` of `k` on [left, right] sits in the middle of slot `i`, one
      level down: at left + (2i+1)·w/2 with w = (right - left)/k. */
  lemma ChildPoint(t: Adjacency, node: Node, left: real, right: real, depth: nat, i: nat)
    requires Layable(t) && UniqueParent(t) && node in t.adj && i < |t.adj[node]|
    ensures Child(t, node, i) in Pos(t, node, left, right, depth)
    ensures Pos(t, node, left, right, depth)[Child(t, node, i)].0 ==
              left + ((2 * i + 1) as real) * SlotWidth(left, right, |t.adj[node]|) / 2.0
    ensures Pos(t, node, left, right, depth)[Child(t, node, i)].1 == -((depth + 1) as real)
  {
    var w := SlotWidth(left, right, |t.adj[node]|);
    var c := Child(t, node, i);
    var lo, hi := SlotStart(left, w, i), SlotStart(left, w, i + 1);
    var m := Pos(t, node, left, right, depth);
    var own := Pos(t, c, lo, hi, depth + 1);
    assert c in Subtree(t, c);
    PosBelowChild(t, node, left, right, depth, i, c);
    assert m[c] == own[c];
    PosSelf(t, c, lo, hi, depth + 1);
    assert own[c].0 == (lo + hi) / 2.0;
    SlotMiddle(left, w, i);
  }

  /** The midpoint of slot `i`. */
  lemma SlotMiddle(left: real, w: real, i: nat)
    ensures (SlotStart(left, w, i) + SlotStart(left, w, i + 1)) / 2.0 == left + ((2 * i + 1) as real) * w / 2.0
  {
    assert ((i + 1) as real) * w == (i as real) * w + w;
  }

  /** Slot `i` of `k` equal slots of [left, right] lies inside it. */
  lemma SlotInside(left: real, right: real, k: nat, i: nat)
    requires left <= right && i < k
    ensures var w := SlotWidth(left, right, k);
            left <= SlotStart(left, w, i) <= SlotStart(left, w, i + 1) <= right
  {
    var w := SlotWidth(left, right, k);
    assert w >= 0.0;
    assert (k as real) * w == right - left;
    assert ((i + 1) as real) * w == (i as real) * w + w;
    assert (i as real) * w >= 0.0;
    assert ((i + 1) as real) * w <= (k as real) * w;
  }

  /** Every node of a layout on [left, right] at depth `depth` gets an x
      inside the interval and a y no higher than minus the depth. */
  lemma {:induction false} PosBounds(t: Adjacency, node: Node, left: real, right: real, depth: nat)
    requires Layable(t) && node in t.adj && left <= right
    ensures forall x :: x in Pos(t, node, left, right, depth) ==>
              left <= Pos(t, node, left, right, depth)[x].0 <= right &&
              Pos(t, node, left, right, depth)[x].1 <= -(depth as real)
    decreases |t.nodes| - Rank(t, node), 1, 0
  {
    var k := |t.adj[node]|;
    var m := Pos(t, node, left, right, depth);
    PosSelf(t, node, left, right, depth);
    assert left <= (left + right) / 2.0 <= right;
    if k != 0 {
      KidsBounds(t, node, 0, left, right, depth + 1);
      forall x | x in m
        ensures left <= m[x].0 <= right && m[x].1 <= -(depth as real)
      {
        if x != node {
          PosBelow(t, node, left, right, depth, x);
        }
      }
    } else {
      assert m == map[node := ((left + right) / 2.0, -(depth as real))];
    }
  }

  lemma {:induction false} KidsBounds(t: Adjacency, parent: Node, i: nat, left: real, right: real, depth: nat)
    requires Layable(t) && parent in t.adj && i <= |t.adj[parent]| && |t.adj[parent]| != 0 && left <= right
    ensures var kids := Kids(t, parent, i, left, SlotWidth(left, right, |t.adj[parent]|), depth);
            forall x :: x in kids ==> left <= kids[x].0 <= right && kids[x].1 <= -(depth as real)
    decreases |t.nodes| - Rank(t, parent), 0, |t.adj[parent]| - i
  {
    var k := |t.adj[parent]|;
    var w := SlotWidth(left, right, k);
    if i < k {
      var c := Child(t, parent, i);
      var lo, hi := SlotStart(left, w, i), SlotStart(left, w, i + 1);
      SlotInside(left, right, k, i);
      PosBounds(t, c, lo, hi, depth);
      KidsBounds(t, parent, i + 1, left, right, depth);
      forall x | x in Kids(t, parent, i, left, w, depth)
        ensures left <= Kids(t, parent, i, left, w, depth)[x].0 <= right
        ensures Kids(t, parent, i, left, w, depth)[x].1 <= -(depth as real)
      {
        KidsAt(t, parent, i, left, w, depth, x);
      }
    }
  }

  /** The tree layout: the first node (the search's start) sits at
      (1/2, 0), every tree node is placed, and all of them inside the unit
      strip, x in [0, 1] and y <= 0. */
  lemma HierarchyPosTree(t: Adjacency)
    requires IsTree(t) && t.nodes != []
    ensures HierarchyPos(t, None) == Some(Pos(t, t.nodes[0], 0.0, 1.0, 0))
    ensures t.nodes[0] in Pos(t, t.nodes[0], 0.0, 1.0, 0)
    ensures Pos(t, t.nodes[0], 0.0, 1.0, 0)[t.nodes[0]] == (0.5, 0.0)
    ensures forall x :: x in Pos(t, t.nodes[0], 0.0, 1.0, 0) <==> x in t.adj
    ensures forall x :: x in Pos(t, t.nodes[0], 0.0, 1.0, 0) ==>
              0.0 <= Pos(t, t.nodes[0], 0.0, 1.0, 0)[x].0 <= 1.0 && Pos(t, t.nodes[0], 0.0, 1.0, 0)[x].1 <= 0.0
  {
    var root := t.nodes[0];
    PosSelf(t, root, 0.0, 1.0, 0);
    var p := Pos(t, root, 0.0, 1.0, 0)[root];
    assert p.0 == (0.0 + 1.0) / 2.0 == 0.5 && p.1 == -(0 as real) == 0.0;
    PosKeys(t, root, 0.0, 1.0, 0);
    SubtreeOfRoot(t);
    PosBounds(t, root, 0.0, 1.0, 0);
  }

  /** A root with three children A, B, C puts them at (1/6, -1), (1/2, -1)
      and (5/6, -1). */
  lemma ThreeChildren(t: Adjacency, root: Node, a: Node, b: Node, c: Node)
    requires Layable(t) && UniqueParent(t) && root in t.adj && t.adj[root] == [a, b, c]
    ensures HierarchyPos(t, Some(root)) == Some(Pos(t, root, 0.0, 1.0, 0))
    ensures a in Pos(t, root, 0.0, 1.0, 0) && Pos(t, root, 0.0, 1.0, 0)[a] == (1.0 / 6.0, -1.0)
    ensures b in Pos(t, root, 0.0, 1.0, 0) && Pos(t, root, 0.0, 1.0, 0)[b] == (0.5, -1.0)
    ensures c in Pos(t, root, 0.0, 1.0, 0) && Pos(t, root, 0.0, 1.0, 0)[c] == (5.0 / 6.0, -1.0)
  {
    ChildPoint(t, root, 0.0, 1.0, 0, 0);
    ChildPoint(t, root, 0.0, 1.0, 0, 1);
    ChildPoint(t, root, 0.0, 1.0, 0, 2);
    Sixths();
  }

  /** The midpoints of the three slots of [0, 1]. */
  lemma Sixths()
    ensures 0.0 + ((2 * 0 + 1) as real) * SlotWidth(0.0, 1.0, 3) / 2.0 == 1.0 / 6.0
    ensures 0.0 + ((2 * 1 + 1) as real) * SlotWidth(0.0, 1.0, 3) / 2.0 == 0.5
    ensures 0.0 + ((2 * 2 + 1) as real) * SlotWidth(0.0, 1.0, 3) / 2.0 == 5.0 / 6.0
  {
  }
}
