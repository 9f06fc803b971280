# Partial-tree list of the MST program

This project models `app.PartialTreeList` of the MST program, which builds a minimum spanning
tree by merging partial trees. The class has three parts, all modelled here.

- **The list.** A circular singly-linked list of partial trees.
  - It is anchored at its last node `rear`, whose successor is the front, and it keeps a `size`.
  - Operations: `append`, `remove` (the front), `removeTreeContaining` (the tree whose root is the
    root of a given vertex), `size`, and an iterator without `remove`.
- **`initialize`.** Builds one single-vertex tree per vertex. Each tree's heap holds one arc per
  entry of the vertex's adjacency list.
- **`execute`.** While more than one tree is left:
  - take out the front tree, `temp`;
  - pull arcs from its heap, least weight first, until `removeTreeContaining` finds the tree in
    which the arc ends;
  - merge that tree into `temp`, record the arc and append `temp` again.

  A tree whose heap runs out is dropped.

How the model represents it:

- **Nodes and the list.**
  - `Node` and `PartialTreeList` are classes whose methods change their fields in place.
  - Ghost state records the nodes front to rear (`nodes`), the footprint (`Repr`) and each node's
    position (`index`).
  - `Valid()` is the ring invariant:
    - each node links to the next and the last links back to the first;
    - the nodes are distinct;
    - `size` is the number of nodes;
    - `rear` is the last node, and is null exactly when the list is empty.
  - `Trees()` gives the trees front to rear.
- **Vertices.** Vertices are the indices `0 .. n-1`. Their `parent` fields form a `parent` array,
  read as a union-find forest (module `Forests`).
  - A ghost ranking witnesses that the forest has no cycle, so chasing parent links terminates.
  - `Root` is the vertex that chasing stops at.
- **Partial trees.** A partial tree is a value `PartialTree(root, arcs)`. Its heap is a multiset of
  arcs (module `MinHeaps`).
- **The arcs `execute` records.** They are read as a union history (module `Spanning`):
  - start from the component labelling before `execute`;
  - each arc merges the component of its second endpoint into that of its first.

  `IsForest` says every arc joined two components that were still apart.
- **Invariants proved of `execute`.**
  - The list keeps one tree per component it holds (`OwnsComponents`):
    - every tree's root is a forest root;
    - every arc in a tree's heap starts in that tree's component;
    - no two trees share a root.
  - The recorded arcs form a forest.
  - Replaying them as unions from the initial forest gives the root of every vertex in the
    final forest.
  - Every recorded arc came out of a heap.
  - No arc is lost (`Settled`). Take an arc that started in a heap and has left the heaps, or
    one that starts in a component whose tree was dropped. It ends in its own component, or in a
    component that no listed tree holds.
  - Each round takes exactly one tree out of the list, so the loop terminates with one tree left,
    or none when there were none.
  - At most `size - 1` arcs are recorded.
- **Connected graphs** (`Connected`, module `Graphs`). A graph is connected when every set that
  holds one vertex, and with each vertex all of its neighbors, holds every vertex. On such a graph,
  `Settled` leaves no component without a tree. The one tree left at the end then holds every
  vertex, and the recorded arcs number exactly n - 1: they span the graph.

Points where the model follows particular details of the code:

- **`removeTreeContaining` recomputes the vertex's root at every node it visits**
  (src/app/PartialTreeList.java:188-192). The model's `Scan` calls `FindRoot` inside the loop.
- **Failures are `java.util.NoSuchElementException` with the messages "list is empty",
  "Empty list" and "no matching tree".** The iterator's `next` throws one without a message,
  modelled as an empty message.
- **The list holds at most one tree per component, not exactly one.** A tree whose heap runs out
  is dropped from the list, so its component then has no tree. `OwnsComponents` states the "at most
  one" form.
- **`merge` makes the other tree's root a child of `temp`'s root.** `structures.PartialTree.merge`
  is not part of this model; the model assumes this direction.

## Model

| member | source | states |
|---|---|---|
| PartialTreeLists.Node.constructor | src/app/PartialTreeList.java:40-43 | a new node holds the given tree and has no successor |
| PartialTreeLists.PartialTreeList.constructor | src/app/PartialTreeList.java:59-62 | the new list is valid and empty: no trees, `rear` null, `size` 0 |
| PartialTreeLists.PartialTreeList.Append | src/app/PartialTreeList.java:69-79 | the list stays a valid ring; its trees are the old trees followed by the new one; `size` grows by one; an empty list becomes a one-node self-loop; only fresh nodes join the footprint |
| PartialTreeLists.PartialTreeList.LinkAfterRear | src/app/PartialTreeList.java:70-77 | the new node becomes `rear`; alone it links to itself; otherwise it links to the old front, and the old rear links to it |
| PartialTreeLists.PartialTreeList.AddRear | src/app/PartialTreeList.java:69-79 | once the new node is linked after the old rear, the ghost node sequence gains it at the end and the list is valid again |
| PartialTreeLists.RingAppended | src/app/PartialTreeList.java:72-75 | linking a new node between the last node and the first node of a ring gives a ring with the new node at the end |
| PartialTreeLists.PartialTreeList.Remove | src/app/PartialTreeList.java:155-170 | on an empty list it fails with NoSuchElement("list is empty") and leaves the list unchanged; otherwise it returns the front tree, and the remaining trees are the others in their order; `size` drops by one; a one-tree list becomes empty with `rear` null |
| PartialTreeLists.PartialTreeList.BypassFront | src/app/PartialTreeList.java:162-166 | a rear linked to itself becomes null; otherwise `rear` stays and links to the node after the old front |
| PartialTreeLists.PartialTreeList.DropFront | src/app/PartialTreeList.java:161-167 | once the front is bypassed, the ghost node sequence drops its first node and the list is valid again |
| PartialTreeLists.PartialTreeList.RemoveTreeContaining | src/app/PartialTreeList.java:179-232 | empty list: NoSuchElement("Empty list"), list unchanged; no tree rooted at the vertex's root: NoSuchElement("no matching tree"), list and size unchanged; otherwise returns the first matching tree in scan order (rear first, then from the front); exactly that tree is taken out, the others stay in order, `size` drops by one, and the list stays a valid ring |
| PartialTreeLists.PartialTreeList.Scan | src/app/PartialTreeList.java:184-226 | the do-while scan from `rear` recomputes the root at each node; it stops at the first matching node in scan order, or returns null after a full turn when no tree matches |
| PartialTreeLists.ScanStep | src/app/PartialTreeList.java:223-226 | each node of the scan links to the next node to visit; the turn ends exactly when the scan comes back to `rear` after visiting every node once |
| PartialTreeLists.FirstMatchFrom | src/app/PartialTreeList.java:187-226 | a position it returns holds a tree with the root; when it returns none, no tree from that step of the scan on has the root |
| PartialTreeLists.FirstMatchSpec | src/app/PartialTreeList.java:187-226 | a match exists if and only if some tree has the root; the match is the rear tree if that one has the root, and otherwise the matching tree nearest the front |
| PartialTreeLists.PartialTreeList.FindPredecessor | src/app/PartialTreeList.java:196-201 | walking the ring from `ptr` ends at the node just before `ptr`, which links to `ptr` |
| PartialTreeLists.PartialTreeList.Splice | src/app/PartialTreeList.java:203-220 | in each of the three cases (one node, two nodes, three or more): a lone node empties the list; otherwise the predecessor links to the successor and `rear` moves to the predecessor when the removed node was `rear`; `size` drops by one and the removed node is detached |
| PartialTreeLists.PartialTreeList.Unlink | src/app/PartialTreeList.java:193-221 | unlinking the node at position p leaves a valid ring of the other nodes in their order, with `size` one less and the node detached |
| PartialTreeLists.RingWithout | src/app/PartialTreeList.java:203-218 | a ring with one node bypassed (its predecessor links to its successor) is a ring of the other nodes in their order |
| PartialTreeLists.RingBypassed | src/app/PartialTreeList.java:203-218 | the same, stated for the nodes as objects, so that it applies after the links changed in place |
| PartialTreeLists.PartialTreeList.Size | src/app/PartialTreeList.java:239-241 | `size` is the number of trees in the list |
| PartialTreeLists.PartialTreeList.Iterator | src/app/PartialTreeList.java:249-251 | a fresh iterator positioned before the first tree, whose elements are the list's trees front to rear |
| PartialTreeLists.PartialTreeListIterator.constructor | src/app/PartialTreeList.java:258-261 | `rest` is the list's `size`; `ptr` is the front node, `rear.next` (null when the list is empty) |
| PartialTreeLists.PartialTreeListIterator.Next | src/app/PartialTreeList.java:263-272 | yields the trees front to rear, one per call; after `size` calls it fails with NoSuchElement |
| PartialTreeLists.PartialTreeListIterator.HasNext | src/app/PartialTreeList.java:274-276 | true exactly when fewer than `size` trees have been yielded |
| PartialTreeLists.PartialTreeListIterator.Remove | src/app/PartialTreeList.java:278-281 | always fails with UnsupportedOperation |
| Forests.FindRoot | src/app/PartialTreeList.java:188-192 | on an acyclic forest the parent chase terminates at a self-parented vertex, namely the vertex's root; it does not change the forest, so every node of the scan gets the same root |
| Forests.Root | src/app/PartialTreeList.java:188-192 | the root is a vertex and is its own parent |
| Forests.RootOfParent | src/app/PartialTreeList.java:189-191 | one step of the chase keeps the root; a self-parented vertex is its own root |
| Forests.LinkRoots | src/app/PartialTreeList.java:132 | making one root a child of another keeps the forest acyclic; vertices under the child root move to the other root, and all other roots stay |
| Forests.AllSelfParented | src/app/PartialTreeList.java:92 | when every vertex is its own parent the forest is acyclic and every vertex is its own root |
| MinHeaps.MinimumExists | src/app/PartialTreeList.java:127 | every non-empty heap has an arc of least weight |
| MinHeaps.IsEmpty | src/app/PartialTreeList.java:126 | true exactly when the heap holds no arc |
| MinHeaps.DeleteMin | src/app/PartialTreeList.java:127 | on a non-empty heap, returns an arc of least weight and the heap minus one copy of it; on an empty heap it fails and the heap is unchanged |
| Graphs.OutgoingArcs | src/app/PartialTreeList.java:93-100 | one arc (v, neighbor, weight) per adjacency entry of v, in list order |
| PartialTrees.NewTree | src/app/PartialTreeList.java:92 | the new tree is rooted at v with an empty heap; v becomes its own parent and no other parent changes |
| PartialTrees.Merge | src/app/PartialTreeList.java:132 | the other tree's root becomes a child of temp's root, and the merged heap holds the arcs of both |
| PartialTrees.OwnsAfterLink | src/app/PartialTreeList.java:132 | a tree not involved in the merge keeps its component |
| PartialTrees.MergedOwns | src/app/PartialTreeList.java:132 | the merged tree owns the union of both components |
| PartialTrees.MergeOwnsComponents | src/app/PartialTreeList.java:129-134 | merging the found tree into temp and appending the result keeps one tree per component, and the two roots differ |
| PartialTrees.MergeJoinsLabels | src/app/PartialTreeList.java:132-133 | the arc joins two different components, and the labelling after the merge is the old one joined along the arc |
| PartialTrees.DropArc | src/app/PartialTreeList.java:127 | the arc taken from temp's heap starts in temp's component; the rest of the heap still owns it |
| PartialTrees.OwnsComponentsTail | src/app/PartialTreeList.java:126-142 | dropping temp, whose heap ran out, keeps one tree per component for the others |
| PartialTrees.MergeStep | src/app/PartialTreeList.java:129-134 | a successful step keeps one tree per component, keeps the recorded arcs a forest whose replay gives the root of every vertex in the new forest, and moves the arc from the heaps to the record |
| PartialTrees.MergeArcCount | src/app/PartialTreeList.java:132-134 | after the merge, the heaps plus the record hold exactly the old heaps plus the record plus the arc |
| PartialTrees.AllArcsWithout | src/app/PartialTreeList.java:193-221 | taking a tree out of the list takes out exactly its arcs |
| PartialTrees.AllArcsCons | src/app/PartialTreeList.java:122 | the arcs of the list are the front tree's arcs plus the rest's |
| PartialTrees.AllArcsAppend | src/app/PartialTreeList.java:134 | the arcs of two lists joined are the arcs of each |
| Spanning.ForestExtend | src/app/PartialTreeList.java:133 | recording an arc that joins two separate components keeps the record a forest and extends its replay by that union |
| Spanning.JoinClasses | src/app/PartialTreeList.java:132-133 | joining two different components removes exactly one component |
| Spanning.ForestClassCount | src/app/PartialTreeList.java:119-144 | each recorded arc of a forest removes one component |
| Spanning.ForestArcBound | src/app/PartialTreeList.java:113-147 | a forest over n > 0 vertices has at most n - 1 arcs |
| PartialTreeLists.Initialize | src/app/PartialTreeList.java:87-106 | a fresh valid list whose trees are, in vertex order, one per vertex with that vertex's arcs; `size` is the vertex count; every vertex is its own parent |
| PartialTreeLists.AddVertex | src/app/PartialTreeList.java:90-104 | one turn: v becomes its own parent (no other parent changes) and v's tree is appended after the earlier ones |
| PartialTreeLists.QueueArcs | src/app/PartialTreeList.java:93-101 | the heap receives exactly one arc per adjacency entry of v |
| PartialTreeLists.InitialTreesOwnComponents | src/app/PartialTreeList.java:87-106 | the initial trees own one single-vertex component each, and tree v is rooted at v |
| PartialTreeLists.InitializeThenExecute | src/app/Main.java:21-22 | the list `initialize` builds meets what `execute` requires; the result is a forest over one-vertex-per-component starting labels, its replay gives every vertex's final root, every arc was queued by `initialize`, and a non-empty graph yields at most n - 1 arcs with one tree left; on a connected graph exactly n - 1 arcs, and every vertex ends with the same root |
| PartialTreeLists.SpanningWhenConnected | src/app/PartialTreeList.java:115-147 | when `execute` ends on a connected non-empty graph, its arcs number exactly n - 1 and every vertex has the same root |
| PartialTreeLists.OneTree | src/app/PartialTreeList.java:119 | on a connected graph, the one tree left when the loop ends holds every vertex |
| PartialTreeLists.SettledCovers | src/app/PartialTreeList.java:115-147 | on a connected graph, while the arcs `initialize` queued stay settled, every vertex lies in the component of a listed tree |
| PartialTreeLists.UnlistedClosed | src/app/PartialTreeList.java:115-147 | while the arcs `initialize` queued are settled, no arc of the graph leads from a vertex whose component has no listed tree into one that has |
| PartialTreeLists.ConnectedMisses | src/app/PartialTreeList.java:115-147 | on a connected graph, a vertex set closed under the arcs that misses one vertex misses every vertex |
| PartialTreeLists.GraphArcQueued | src/app/PartialTreeList.java:93-100 | every adjacency entry of every vertex is queued as an arc by `initialize` |
| PartialTreeLists.OneComponentArcs | src/app/PartialTreeList.java:119-144 | a forest record that starts from one component per vertex and ends with every vertex under one root has exactly n - 1 arcs |
| PartialTreeLists.SingletonClasses | src/app/PartialTreeList.java:92 | when every vertex is its own component there are n components, namely the labels 0 .. n-1 |
| PartialTreeLists.SingletonRoots | src/app/PartialTreeList.java:92 | when every vertex is its own parent, every vertex is its own root |
| PartialTreeLists.InitialTreeOwns | src/app/PartialTreeList.java:92-100 | every arc queued in v's tree leaves v |
| PartialTreeLists.InitialArcCount | src/app/PartialTreeList.java:93-100 | tree v queues as many arcs as v has adjacency entries, so all trees together queue the sum of the adjacency-list lengths |
| PartialTreeLists.Execute | src/app/PartialTreeList.java:115-147 | terminates with one tree left (none if none); one tree per component throughout; a list of at most one tree is left untouched and no arc is recorded; the recorded arcs form a forest whose union replay from the initial forest gives the root of every vertex at the end; the record and the remaining heaps come from the initial heaps; arcs plus remaining trees never exceed the initial size; the initial heaps' arcs stay settled: none that left the heaps, or that starts in a dropped tree's component, ends in another listed tree's component |
| PartialTreeLists.Round | src/app/PartialTreeList.java:119-144 | one pass of the outer loop takes exactly one tree out of the list and keeps every invariant of `execute`, `Settled` included. Drop: no arc recorded, the list is the old list without its front, the forest is unchanged, and every arc of the front tree led nowhere. Merge: the recorded arc comes from the front heap and joins the front component to that of the tree at position p of the others; every other arc pulled before it led nowhere and weighs no more; the list is the others without that tree, then the merged tree with the arcs not pulled and the other tree's arcs; the only parent change links the other root under the front root |
| PartialTreeLists.GrowTree | src/app/PartialTreeList.java:122-142 | when no arc of temp's heap leads to a tree of the list, temp is dropped and nothing else changes; otherwise it records an arc that does lead to one, at position p, and every lighter arc of the heap led to none; every other arc pulled led nowhere; the new list is the old one without tree p, then temp with its unpulled arcs merged with tree p; the only parent change links tree p's root under temp's root; the list keeps its size |
| PartialTreeLists.FindArc | src/app/PartialTreeList.java:126-142 | pulls arcs least weight first: it returns the first arc whose far end lies in the component of a tree of the list, together with that tree (now taken out); temp keeps exactly the arcs not pulled, and every other arc pulled led nowhere and weighs no more; every lighter arc led nowhere; when the heap runs out, temp's heap is empty, every arc led nowhere and the list is unchanged |
| PartialTreeLists.TryArc | src/app/PartialTreeList.java:127-141 | one `deleteMin` and `removeTreeContaining`: the arc taken is a least one and the heap keeps exactly the others; the lookup fails exactly when the arc leads nowhere, and then the list is unchanged and the arc discarded; success takes out exactly the tree in whose component the arc ends |
| PartialTreeLists.MergeAppend | src/app/PartialTreeList.java:132-134 | merge then append: the list gains the merged tree at the rear, the found tree's root is re-parented, one tree per component, the record stays a forest matching the forest |
| PartialTreeLists.PullArc | src/app/PartialTreeList.java:126-141 | the least arc starts in temp's component; if it leads nowhere, discarding it keeps the record of discarded arcs; otherwise the tree found holds its far end and every lighter arc led nowhere |
| PartialTreeLists.DiscardArc | src/app/PartialTreeList.java:138-141 | an arc that leads to no tree is discarded and becomes the new weight floor |
| PartialTreeLists.ChosenArc | src/app/PartialTreeList.java:127-135 | the chosen arc is the lightest arc of the original heap that leads to a tree |
| PartialTrees.SettledInitially | src/app/PartialTreeList.java:115-119 | before the first round every arc is still queued and starts in a listed tree's component, so the arcs are settled |
| PartialTrees.SettledAfterDrop | src/app/PartialTreeList.java:122-142 | dropping the front tree, none of whose arcs leads to another listed tree, keeps the arcs settled |
| PartialTrees.SettledWithout | src/app/PartialTreeList.java:122-142 | taking out trees whose arcs all end outside the remaining trees keeps the arcs settled |
| PartialTrees.SettledAfterMerge | src/app/PartialTreeList.java:127-134 | merging tree p into the front tree along the arc found, after the other pulled arcs were discarded, keeps the arcs settled |
| PartialTrees.SettledAcrossLink | src/app/PartialTreeList.java:132-134 | linking root q under root r along an arc from r's component to q's keeps settled every arc that was, once the front heap's discarded arcs ended in r's component or in no listed tree's |
| PartialTrees.QueuedArcOwned | src/app/PartialTreeList.java:127 | an arc still queued starts in the component of a listed tree |
| PartialTrees.NowhereUnlisted | src/app/PartialTreeList.java:138-141 | an arc that leads nowhere ends in a component whose root is not listed |
| PartialTrees.ArcsUpToHas | src/app/PartialTreeList.java:93-104 | an arc is queued in the first n trees exactly when one of them holds it |
| PartialTrees.RootsAppend | src/app/PartialTreeList.java:134 | the roots of two lists joined are the roots of each |
| PartialTrees.RootsWithout | src/app/PartialTreeList.java:193-221 | taking a tree out of a list with distinct roots takes out its root and no other |
| PartialTrees.RootsWithoutShrink | src/app/PartialTreeList.java:193-221 | every root left after taking out tree p was listed and differs from tree p's root |
| PartialTrees.RootsWithoutKeep | src/app/PartialTreeList.java:193-221 | every other listed root stays listed after taking out tree p |
| PartialTrees.MergedRoots | src/app/PartialTreeList.java:132-134 | after the merge and append, the listed roots are the old ones less the merged-in tree's root, which differs from temp's |
| PartialTreeLists.AllDiscarded | src/app/PartialTreeList.java:126-142 | when the heap runs out, no arc of the original heap led to a tree |

## Left out

- The console input and output of `src/app/Main.java` (reading the graph file, summing and
  printing the weights) is not modelled; only its call `execute(initialize(graph))` is.
- The `System.out.println` inside `initialize` is not modelled: it is output only.
- `structures.Graph`, `Vertex`, `Arc`, `MinHeap` and `PartialTree` are not part of this model.
  - Vertices are indices; the `parent` fields are an array.
  - A heap is a multiset of arcs with an extract-minimum contract; ties are broken arbitrarily.
  - `new PartialTree(v)` is modelled as: the new tree's root becomes its own parent and its heap
    is empty. `merge` is modelled as: the other tree's root becomes a child of this tree's root
    and the heaps are unioned.
- Java `int` overflow of `size` and of arc weights is not modelled: integers are unbounded.
- Exceptions are modelled as `Result` values. The generic `catch` in `execute` becomes the
  `Err` branch of `removeTreeContaining`.
- PartialTreeLists.Execute: does not prove that the arcs have the least total weight. It proves
  that they form a forest, each arc joining two components that were apart, and that no arc is
  lost (`Settled`). On a connected graph, InitializeThenExecute proves from this that the arcs
  number exactly n - 1 and join every vertex into one component, i.e. that they span the graph;
  minimality is not proved.
- PartialTreeLists.Execute: a tree whose heap runs out is dropped, as the code does. On a
  disconnected graph the result is then a forest of fewer arcs; no error is raised.
- PartialTreeLists.PartialTreeListIterator.Next: the iterator's validity relies on the list's
  links being left alone while it is in use. Modification during iteration is not modelled.
- The Java methods were split into smaller Dafny methods that keep the same order of effects:
  - the scan, the predecessor walk and the splice of `removeTreeContaining` (Scan,
    FindPredecessor, Splice, Unlink);
  - one turn of the outer loop of `execute` (Round);
  - its inner loop (GrowTree, FindArc, TryArc);
  - the merge-and-append after the inner loop's `break` (MergeAppend).

  In `execute`, the merge and append happen after the loop that found the arc has ended, rather
  than inside it before `break`; no other effect lies between.
