# BFS explorer, modelled and verified

This project models `simple.py`, an interactive breadth-first search (BFS)
visualiser. The user types edges `u,v` into a text box to build an
undirected graph `G`. Each press of *BFS Step* performs at most one dequeue
of the search. The search records a `visited` list, a FIFO `queue`, and a
directed BFS tree `T`. *Clear All* empties everything. The tree panel is
drawn with `hierarchy_pos`, a recursive layout that splits the unit
interval among each node's children.

The project has five modules, one per file:

- `graph.dfy` (`Graphs`) models the networkx behaviour the program relies
  on:
  - nodes are kept in insertion order;
  - each node's neighbour (or successor) list is kept in insertion order;
  - `Graph.add_edge` stores an edge in both directions;
  - what a BFS tree is (`Ordered`, `UniqueParent`, `Rooted`, combined in
    `IsTree`).
- `parsing.dfy` (`Parsing`) models `text.split(',')`, Python's `str.strip()`
  (using the `str.isspace` character set), and the unpacking into exactly
  two names.
- `stepper.dfy` (`Stepper`) models the search as a transition function on a
  `State` value.
  - It covers the seeding, the dequeue and the neighbour scan of
    `run_bfs_step`, and the edge insertion of `add_edge`.
  - The invariant `Inv` is proved to hold on every reachable state, along
    with the properties that follow from it.
  - Every reachable state is also in level order: along `visited` and then
    `queue`, tree depth never decreases, and the queue spans at most two
    adjacent levels (`Levelled`).
  - For a search that is only stepped from an idle state, every neighbour
    of a visited node stays in the tree at most one level below it
    (`Near`). So once the queue is empty, tree depth is graph distance from
    the root.
- `layout.dfy` (`Layout`) models `hierarchy_pos` and its inner `_pos` as two
  mutually recursive functions that return a map from nodes to points.
  Coordinates are exact `real`s.
- `explorer.dfy` (`Explorer`) models the `BFSExplorer` object: the class
  with fields `G`, `T`, `visited` and `queue`.
  - Its methods update those fields in place, just as the callbacks do.
    The neighbour loop is a `while` loop over `G.adj[curr]`.
  - Each method is proved to move the object exactly as the matching
    `Stepper` function moves a `State`.

Three behaviours of the code that a reader might not expect:

- **The first step seeds and dequeues in one call.** On an idle state the
  `if` at simple.py:48 falls through to the dequeue at simple.py:53.
  - So one call queues the root, visits it and queues its neighbours.
  - Afterwards `visited == [root]`, not `[]` (`Stepper.StepFromIdle`).
  - A consequence is `Inv`'s clause `visited == [] ==> queue == []`.
- **Empty names are accepted.** Any text with exactly one comma parses,
  including `",b"` or `" , "`, which give empty node names
  (`Parsing.ParseEdge`, `Parsing.ParseEdgeSides`).
- **Self-loops are accepted.** `u,u` is inserted, and `u` appears once
  among its own neighbours (`Graphs.AddEdgeSelfLoop`).

## Model

| member | source | states |
|---|---|---|
| Graphs.AddNode | simple.py:51 | `T.add_node(start)`: a new node comes last in the node order with no successors; an existing node leaves the graph as it was |
| Graphs.AddArc | simple.py:62 | `T.add_edge(curr, neighbor)`: both endpoints become nodes (u before v); v is appended to u's successors unless already there; every other list is unchanged |
| Graphs.AddArcArcs | simple.py:62 | the arcs after a directed insertion are exactly the old arcs plus u→v |
| Graphs.AddArcToNew | simple.py:62 | an arc to a node that is new: it comes last in the node order and last among u's successors; no other list changes |
| Graphs.AddEdge | simple.py:40 | `G.add_edge(u, v)`: the node set gains u and v; the arcs are the old ones plus u→v and v→u; the node order gains the unseen endpoints, u first |
| Graphs.AddEdgeKeepsOrder | simple.py:40 | an insertion only appends: each old neighbour list is a prefix of its new list, so the BFS order over existing neighbours is kept |
| Graphs.AddEdgeSymmetric | simple.py:40 | the undirected graph stays symmetric |
| Graphs.AddNodeWellFormed | simple.py:51 | adding a node keeps the dicts consistent (node list = keys, no repeats, neighbours are nodes) |
| Graphs.AddArcWellFormed | simple.py:62 | a directed insertion keeps the dicts consistent |
| Graphs.AddEdgeWellFormed | simple.py:40 | an undirected insertion keeps the dicts consistent |
| Graphs.AddEdgeIdempotent | simple.py:40 | inserting an edge that is already present changes neither the node order nor any neighbour list |
| Graphs.AddEdgeTwice | simple.py:40 | inserting the same edge twice is the same as inserting it once |
| Graphs.AddEdgeSelfLoop | simple.py:40 | a self-loop `u,u` puts u once among its own neighbours |
| Graphs.TreeParents | simple.py:51-62 | in a tree, the first node is exactly the node without a parent, and every other node has exactly one parent |
| Parsing.Strip | simple.py:39 | `x.strip()`: the result neither starts nor ends with a whitespace character |
| Parsing.StripCuts | simple.py:39 | the stripped token is a contiguous piece of the input, and everything cut off on either side is whitespace |
| Parsing.StripNoop | simple.py:39 | a token with no whitespace at either end is its own strip |
| Parsing.StripIdempotent | simple.py:39 | stripping twice is the same as stripping once |
| Parsing.Split | simple.py:39 | `text.split(',')`: one more token than the text has commas; no token contains a comma; joining the tokens with commas gives the text back |
| Parsing.SplitJoin | simple.py:39 | splitting the join of comma-free tokens gives the tokens back |
| Parsing.ParseEdge | simple.py:39 | the unpack succeeds if and only if the text contains exactly one comma |
| Parsing.ParseEdgeSides | simple.py:39 | `a,b` with no comma in either side parses to the two stripped sides; empty sides and self-loops are not rejected |
| Parsing.ParseEdgeRoundTrip | simple.py:39 | formatting two comma-free, already stripped names as `u,v` and parsing that text gives the names back |
| Stepper.Discover | simple.py:58-60 | the neighbours the loop queues, as a function of the neighbour list and the nodes already seen; it has no contract of its own and is specified by `DiscoverMembers`, `DiscoverNoDup` and `DiscoverOrder` |
| Stepper.Expand | simple.py:58-62 | the `for neighbor` loop as a function of the neighbour list; it is specified by `ExpandQueue`, `ExpandTree` and `ExpandNext` |
| Stepper.Hang | simple.py:62 | the tree after the loop's `T.add_edge(curr, neighbor)` calls, in order; it is specified by `HangSpec` |
| Stepper.DiscoverMembers | simple.py:58-60 | a neighbour is queued exactly when it is neither visited nor already queued |
| Stepper.DiscoverNoDup | simple.py:58-60 | the scan queues no node twice |
| Stepper.DiscoverOrder | simple.py:58-60 | the scan queues nodes in neighbour order |
| Stepper.ExpandQueue | simple.py:58-60 | after the neighbour loop, the queue is the old queue followed by exactly the discovered neighbours |
| Stepper.ExpandTree | simple.py:58-62 | after the neighbour loop, the tree is the old tree with an arc from `curr` to each discovered neighbour, in order |
| Stepper.HangSpec | simple.py:62 | hanging new nodes below `c`: they come last in the tree's node order and last among c's successors; nothing else changes |
| Stepper.ExpandNext | simple.py:59-62 | one more neighbour: it is queued and hung below `curr` exactly when it is in neither `visited` nor the queue |
| Stepper.Seed | simple.py:48-51 | the seeding `if` of `run_bfs_step`; it is specified by `SeedCore` and `SeedReady` |
| Stepper.Advance | simple.py:53-62 | the dequeue, the visit and the neighbour scan; it is specified by `AdvanceShape`, `AdvanceInv` and `AdvanceLevels` |
| Stepper.Step | simple.py:47-62 | `run_bfs_step` on the state: `Advance` after `Seed`; it is specified by `StepFromIdle`, `StepRunning`, `StepNoop`, `StepGraph`, `StepInv` and `StepLevels` |
| Stepper.SeedReady | simple.py:48-51 | seeding keeps a state ready to step: the graph stays consistent and every queued node, the seeded root included, is a graph node |
| Stepper.SeedCore | simple.py:48-51 | seeding an idle, non-empty graph queues just its first node and makes that node the whole tree; the invariant's core holds |
| Stepper.AdvanceShape | simple.py:53-62 | a dequeue visits the front node, appends its unseen neighbours to the queue in order, and hangs exactly those below it in the tree |
| Stepper.InitialInv | simple.py:9-12 | the start-up state satisfies the invariant |
| Stepper.StepInv | simple.py:47-62 | a step keeps the invariant: no repeats in visited or queue, the two are disjoint, the tree's nodes are exactly visited ∪ queue, tree arcs are graph edges leaving visited nodes, T is a tree rooted at G's first node |
| Stepper.StepFromIdle | simple.py:48-62 | on an idle, non-empty graph a single step visits the first node, queues its neighbours in order, and makes them its tree children |
| Stepper.StepRunning | simple.py:53-62 | with a non-empty queue, exactly the front node leaves the queue and is appended to `visited`; its unseen neighbours are appended to queue and tree |
| Stepper.StepNoop | simple.py:48-53 | with an empty queue and either a non-empty `visited` or an empty graph, a step changes nothing |
| Stepper.StepGraph | simple.py:47-62 | a step never changes the graph |
| Stepper.TreeFacts | simple.py:51-62 | the root (G's first node) is the only tree node without a parent; every other tree node has exactly one parent, which is visited and a graph neighbour |
| Stepper.FrontierBound | simple.py:55-60 | visited and queue together hold at most as many nodes as the graph |
| Stepper.StepClosed | simple.py:53-62 | a step keeps every graph neighbour of a visited node either visited or queued |
| Stepper.ExhaustedComponent | simple.py:53-62 | once the queue is empty, every node reachable from the root along graph edges is visited |
| Stepper.Submit | simple.py:37-45 | edge text never touches T, visited or queue; text that does not parse leaves the whole state unchanged |
| Stepper.SubmitInv | simple.py:37-45 | entering an edge keeps the invariant |
| Stepper.ExhaustedStaysExhausted | simple.py:48-53 | after the search has run dry, entering more edges does not restart it: the next step is a no-op |
| Stepper.Apply | simple.py:25-33 | each of the three callbacks keeps the invariant |
| Stepper.Run | simple.py:8-35 | every state reachable from start-up by any sequence of callbacks satisfies the invariant |
| Stepper.DequeuedClosed | simple.py:55-60 | a dequeue whose scan queues exactly the unseen neighbours of the visited node keeps every neighbour of a visited node in sight |
| Graphs.DepthStep | simple.py:62 | a node hung below `curr` by `T.add_edge(curr, neighbor)` is exactly one level deeper than `curr` |
| Graphs.DepthOfRoot | simple.py:49-51 | the tree's first node, the start node, is at depth 0 |
| Graphs.TreePath | simple.py:51-62 | the tree path down to a node starts at the first node, follows tree arcs, and has one node more than the node's depth |
| Stepper.HungDepthOld | simple.py:58-62 | hanging new nodes leaves every node already in the tree at its depth |
| Stepper.HungDepthNew | simple.py:58-62 | every neighbour hung below `curr` is one level below `curr` |
| Stepper.LevelOrderDequeue | simple.py:54-60 | moving the front of a level-ordered line to the visited part and appending nodes one level below it keeps the line level-ordered |
| Stepper.DequeuedLevelled | simple.py:54-62 | a dequeue whose new nodes sit one level below the visited node, with old depths unchanged, keeps `visited` then `queue` in level order |
| Stepper.FrontLevel | simple.py:54 | in level order, every visited or queued node is at most one level below the node `popleft` returns |
| Stepper.DequeuedNear | simple.py:55-62 | after a dequeue, every graph neighbour of a visited node is in the tree at most one level below it, if that held before |
| Stepper.AdvanceLevels | simple.py:53-62 | a dequeue keeps the level order, and keeps every neighbour of a visited node at most one level below it |
| Stepper.StepLevels | simple.py:47-62 | a step keeps the level order, and keeps every neighbour of a visited node at most one level below it |
| Stepper.ApplyLevelled | simple.py:25-33 | each of the three callbacks keeps the level order |
| Stepper.RunLevelled | simple.py:8-62 | in every reachable state, tree depth never decreases along `visited` then `queue`, and all queued nodes are at most one level below the front |
| Stepper.TreeRoute | simple.py:51-62 | every tree node is reached from G's first node along graph edges by a path with exactly as many edges as its tree depth |
| Stepper.ExhaustedShortest | simple.py:53-62 | once the queue is empty (with every neighbour of a visited node near), each node that a graph path of n edges from the root reaches is visited, at tree depth at most n |
| Stepper.SteppedKeeps | simple.py:47-62 | a run of steps keeps the invariant, the level order, and every neighbour of a visited node near |
| Stepper.StaticRunShortest | simple.py:47-62 | a search started idle and only stepped, once its queue is empty, has visited every node reachable from the root, each at tree depth at most the length of any graph path to it |
| Stepper.StaticRunVisitOrder | simple.py:47-62 | in a search started idle and only stepped, once the queue is empty, every graph path from the root to a later visited node is at least as long as the tree depth of an earlier one; with `TreeRoute` and `StaticRunShortest`, visits come in non-decreasing graph distance |
| Layout.RankGrows | simple.py:101 | a child comes later than its parent in T's node order, so the recursion terminates |
| Layout.Child | simple.py:101-104 | the i-th successor is a tree node with an arc from the parent and a later place in the node order |
| Layout.HierarchyPos | simple.py:93-108 | a layout exists exactly when the given root is a node of T, or, with no root given, when T is non-empty; otherwise the source raises |
| Layout.Pos | simple.py:98-106 | `_pos`: the node at the middle of its interval, then its children's layouts; it is specified by `PosKeys`, `PosSelf`, `PosBelowChild` and `PosBounds` |
| Layout.Kids | simple.py:104-105 | the `enumerate` loop over the children from child i on; it is specified by `KidsKeys` and `KidsValue` |
| Layout.SlotWidth | simple.py:103 | each child's equal share of the parent's interval; it is specified by `SlotMiddle` and `SlotInside` |
| Layout.SlotStart | simple.py:105 | the left end of child i's slot; it is specified by `SlotMiddle`, `SlotInside` and `ChildPoint` |
| Layout.PosKeys | simple.py:98-106 | `_pos` places exactly the nodes of the subtree below `node` |
| Layout.KidsKeys | simple.py:104-105 | the loop over the children places exactly the nodes of their subtrees |
| Layout.ForestMembers | simple.py:104-105 | a node lies below the children from i on exactly when it lies below one of them |
| Layout.SubtreeOfRoot | simple.py:95-96 | below T's first node lie all of T's nodes |
| Layout.SiblingsDisjoint | simple.py:104-105 | the subtrees of two different children share no node, so no child's loop overwrites another's positions |
| Layout.PosSelf | simple.py:100 | a node is drawn at the midpoint of its interval, at y = −depth |
| Layout.KidsValue | simple.py:104-105 | the loop places a node below child i where child i's own call puts it |
| Layout.PosBelowChild | simple.py:103-105 | below child i of k, the layout of [left, right] is that child's own layout on slot i, one level deeper |
| Layout.ChildPoint | simple.py:100-105 | child i of k on [left, right] is at x = left + (2i+1)·(right−left)/(2k), y = −(depth+1) |
| Layout.SlotMiddle | simple.py:100-105 | the midpoint of slot i is left + (2i+1)·width/2 |
| Layout.SlotInside | simple.py:103-105 | slot i of k equal slots of [left, right] lies inside [left, right] |
| Layout.PosBounds | simple.py:98-106 | every node placed on [left, right] at depth d gets left ≤ x ≤ right and y ≤ −d |
| Layout.HierarchyPosTree | simple.py:95-108 | for a non-empty tree, the layout places exactly T's nodes, the first node at (1/2, 0), and all nodes in 0 ≤ x ≤ 1, y ≤ 0 |
| Layout.ThreeChildren | simple.py:100-108 | a root with children A, B, C puts them at (1/6, −1), (1/2, −1), (5/6, −1) |
| Explorer.BFSExplorer.constructor | simple.py:8-12 | `__init__` yields the empty start-up state, which satisfies the invariant |
| Explorer.BFSExplorer.AddEdge | simple.py:37-45 | the fields after the call are `Submit` of the fields before; the invariant is kept |
| Explorer.BFSExplorer.RunBfsStep | simple.py:47-62 | the fields after the call are `Step` of the fields before; the invariant is kept |
| Explorer.BFSExplorer.ScanNeighbours | simple.py:58-62 | the `for neighbor` loop leaves `G` and `visited` alone and moves `T` and `queue` exactly as `Expand` says |
| Explorer.BFSExplorer.Clear | simple.py:86-90 | all four fields are empty afterwards, whatever came before, and the invariant holds |
| Explorer.TreeLayout | simple.py:77-79 | in every reachable state with a non-empty tree, the model's tree layout (which has no recursion limit) exists and places exactly visited ∪ queue, the start node at (1/2, 0), and all nodes in the unit strip |

## Left out

- **GUI construction and drawing.** This covers the figure, the axes, the
  `TextBox` and the `Button`s (simple.py:16-35), `update_plots` with its
  `nx.draw` and `plt.draw` calls (simple.py:65-84), `text_box.set_val`
  (simple.py:42) and `plt.show` (simple.py:111-113). They are UI and
  foreign-library calls. `Explorer.TreeLayout` states what `update_plots`
  relies on when it lays out the tree.
- **`nx.spring_layout` and the `pos_g` field** (simple.py:13, 41). This is a
  randomised floating-point layout of the main graph and does not affect
  the search.
- **`parent_map`** (simple.py:14) is never used.
- **Floating-point rounding** in `hierarchy_pos`. Coordinates are exact
  `real`s, so `ThreeChildren`'s 1/6 and 5/6 are exact values, not IEEE
  doubles.
- **The bare `except`** (simple.py:44). Only the parse failure is modelled,
  as "no change". The `except` also swallows errors raised after
  `G.add_edge` has already changed the graph (layout or drawing). No such
  error exists in the model. The `print` is output.
- **networkx internals.** Only the behaviour the code relies on is
  modelled: insertion-ordered node and neighbour enumeration, symmetric
  storage of undirected edges, and `successors` in arc-insertion order.
  The `deque` is a `seq`, and `popleft` takes its first element.
- Stepper.ExhaustedComponent: this assumes `Closed`. A step keeps
  `Closed` (`StepClosed`), and it holds while `visited` is empty. So for a
  search that is only stepped from an idle state, coverage holds with no
  assumption (`StaticRunShortest`, through the stronger `Near`). Entering
  an edge at a visited node after the search has started can break
  `Closed`. The source then leaves the new part unexplored
  (`ExhaustedStaysExhausted`).
- Stepper.StepRunning: two textbook BFS properties are not stated for all
  runs, because they are false once an edge is entered mid-search. The
  first is that nodes are visited in non-decreasing graph distance from
  the root. The second is that each node's tree depth equals its graph
  distance.
  - Enter `a,b` and `b,c`, then step twice: a and b are visited, and c is
    queued. Entering `a,c` now leaves c at tree depth 2, although it is at
    distance 1.
  - Enter `a,b`, `b,c` and `c,d`, step twice, then enter `a,d`. The
    search visits a, b, c, d, whose distances in the final graph are
    0, 1, 2, 1.
  - What is proved instead: every reachable state visits in non-decreasing
    *tree* depth (`RunLevelled`). For a search that is only stepped from
    an idle state, once the queue is empty, tree depth is graph distance:
    `TreeRoute` gives a graph path of that length, and `StaticRunShortest`
    shows no graph path is shorter. `StaticRunVisitOrder` then shows that
    such a search visits in non-decreasing distance: any graph path to a
    later visited node is at least as long as an earlier node's depth.
- Layout.HierarchyPos: this requires `Layable`: `T` is well formed and
  every arc goes forward in `T`'s node order.
  - That is an order-based form of acyclicity, and it is stronger than
    acyclicity. Nodes `[a, b]` with the single arc b→a have no cycle, and
    the source lays them out, but they are not `Layable`.
  - When `T` has a cycle reachable from the root, the source's recursion
    raises `RecursionError`. A cycle the root cannot reach is never
    visited: nodes `[a, b, c]` with arcs b→c and c→b give `{a: (0.5, 0)}`.
    The model does not represent that error.
  - Every reachable tree is `Layable` (`Inv` implies `IsTree`), so no
    state the program reaches is excluded.
- Explorer.TreeLayout: this states that the layout exists in the model,
  whose recursion has no depth bound. The source's `_pos` (simple.py:98-106)
  recurses once per tree level, so a tree deeper than Python's recursion
  limit raises `RecursionError` even though it is acyclic. The default
  limit is 1000 frames, minus the callback's own stack, and a path of
  about that many entered edges, stepped through, reaches it.
  - Raised under `add_edge` (simple.py:43), the error is swallowed by the
    bare `except` after `G` has already changed.
  - Raised under `run_bfs_step` (simple.py:63), it escapes the callback
    after the step's state change.
  - The model has no recursion limit and represents neither outcome.
- Explorer.BFSExplorer.RunBfsStep: this requires only that the graph is
  consistent and every queued node is a graph node. In the source,
  `G.neighbors(curr)` needs the same.
