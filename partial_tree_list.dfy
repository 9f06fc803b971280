/** `app.PartialTreeList`: the partial trees of the algorithm in a circular singly-linked list
    anchored at its last node `rear`, whose successor is the front; and the algorithm built on it,
    `initialize` and `execute`. */
module PartialTreeLists {
  import opened Wrappers
  import opened Graphs
  import opened Forests
  import opened MinHeaps
  import opened Spanning
  import opened PartialTrees

  /** A node of the circular list. Its tree is set once, by the constructor. */
  class Node {
    const tree: PartialTree
    var next: Node?

    constructor (tree: PartialTree)
      ensures this.tree == tree && next == null
    {
      this.tree := tree;
      next := null;
    }
  }

  /** ns, front to rear, are nodes each linked to the next, and the last back to the first. */
  ghost predicate Ring(ns: seq<Node>)
    reads ns
  {
    && (forall i {:trigger ns[i].next} :: 0 <= i < |ns| - 1 ==> ns[i].next == ns[i + 1])
    && (ns != [] ==> ns[|ns| - 1].next == ns[0])
  }

  /** index maps every node of ns to its position, so the nodes are distinct. */
  ghost predicate Indexed(ns: seq<Node>, index: map<Node, nat>)
  {
    forall i :: 0 <= i < |ns| ==> ns[i] in index && index[ns[i]] == i
  }

  /** The positions after removing the node at position p: those beyond p move down by one. */
  ghost function Reindexed(index: map<Node, nat>, p: nat): map<Node, nat>
  {
    map o | o in index :: if index[o] > p then index[o] - 1 else index[o]
  }

  lemma IndexedWithout(ns: seq<Node>, index: map<Node, nat>, p: nat)
    requires Indexed(ns, index) && p < |ns|
    ensures Indexed(Without(ns, p), Reindexed(index, p))
  {
  }

  /** Unlinking the node at position p from a ring of at least two nodes, by linking its
      predecessor to its successor, leaves a ring of the other nodes in their order. */
  lemma RingWithout(ns: seq<Node>, p: nat)
    requires |ns| >= 2 && p < |ns|
    requires forall i :: 0 <= i < |ns| && i != p && i != Pred(p, |ns|) ==> ns[i].next == ns[Succ(i, |ns|)]
    requires ns[Pred(p, |ns|)].next == ns[Succ(p, |ns|)]
    ensures Ring(Without(ns, p))
  {
    var n := |ns|;
    var r := Without(ns, p);
    forall i | 0 <= i < |r| - 1 ensures r[i].next == r[i + 1] {
      if i == p - 1 {
        assert r[i] == ns[Pred(p, n)] && r[i + 1] == ns[Succ(p, n)];
      } else if i < p {
        assert r[i] == ns[i] && r[i + 1] == ns[i + 1];
      } else {
        assert r[i] == ns[i + 1] && r[i + 1] == ns[i + 2];
      }
    }
    if p == n - 1 {
      assert r[|r| - 1] == ns[Pred(p, n)] && r[0] == ns[Succ(p, n)];
    } else if p == 0 {
      assert r[|r| - 1] == ns[Pred(p, n)] && r[0] == ns[Succ(p, n)];
    } else {
      assert r[|r| - 1] == ns[n - 1] && r[0] == ns[0];
    }
  }

  /** The neighbours of position p in a ring: p's next node is its successor, p is the next node
      of its predecessor, and the two neighbours are p itself only in a one-node ring and are one
      node only in a ring of at most two. */
  lemma RingNeighbours(ns: seq<Node>, index: map<Node, nat>, p: nat)
    requires Ring(ns) && Indexed(ns, index) && p < |ns|
    ensures ns[p].next == ns[Succ(p, |ns|)] && ns[Pred(p, |ns|)].next == ns[p]
    ensures ns[Pred(p, |ns|)] == ns[p] <==> |ns| == 1
    ensures ns[Pred(p, |ns|)] == ns[Succ(p, |ns|)] <==> |ns| <= 2
    ensures |ns| >= 2 ==> ns[Pred(p, |ns|)] != ns[p] && ns[Succ(p, |ns|)] != ns[p]
    ensures |ns| == 1 ==> ns[Succ(p, |ns|)] == ns[p]
  {
    var n := |ns|;
    if n == 2 {
      assert Pred(p, n) == Succ(p, n);
    }
  }

  lemma WithoutWithin(ns: seq<Node>, p: nat, repr: set<object>)
    requires p < |ns| && forall i :: 0 <= i < |ns| ==> ns[i] in repr
    ensures forall i :: 0 <= i < |ns| - 1 ==> Without(ns, p)[i] in repr
  {
  }

  /** After the node at position p of a ring of at least two nodes is bypassed (its predecessor
      now links to its successor, and every node other than p and its predecessor still links to
      its successor), the other nodes form a ring in their order. */
  lemma RingBypassed(ns: seq<Node>, index: map<Node, nat>, p: nat)
    requires Indexed(ns, index) && |ns| >= 2 && p < |ns|
    requires ns[Pred(p, |ns|)].next == ns[Succ(p, |ns|)]
    requires forall i :: 0 <= i < |ns| && ns[i] != ns[p] && ns[i] != ns[Pred(p, |ns|)] ==> ns[i].next == ns[Succ(i, |ns|)]
    ensures Ring(Without(ns, p))
  {
    var n := |ns|;
    forall i | 0 <= i < n && i != p && i != Pred(p, n) ensures ns[i].next == ns[Succ(i, n)] {
      assert ns[i] != ns[p] && ns[i] != ns[Pred(p, n)];
    }
    RingWithout(ns, p);
  }

  /** A node linked between the last node of a ring and the first extends the ring. */
  lemma RingAppended(ns: seq<Node>, node: Node)
    requires forall i :: 0 <= i < |ns| - 1 ==> ns[i].next == ns[i + 1]
    requires ns == [] ==> node.next == node
    requires ns != [] ==> ns[|ns| - 1].next == node && node.next == ns[0]
    ensures Ring(ns + [node])
  {
    var r := ns + [node];
    forall i | 0 <= i < |r| - 1 ensures r[i].next == r[i + 1] {
      assert r[i] == ns[i];
    }
  }

  lemma TreesOfAppend(ns: seq<Node>, node: Node)
    ensures TreesOf(ns + [node]) == TreesOf(ns) + [node.tree]
  {
  }

  lemma TreesOfFront(ns: seq<Node>)
    requires ns != []
    ensures TreesOf(ns) == [ns[0].tree] + TreesOf(Without(ns, 0))
  {
    assert TreesOf(ns) == [ns[0].tree] + TreesOf(Without(ns, 0));
  }

  lemma TreesOfWithout(ns: seq<Node>, p: nat)
    requires p < |ns|
    ensures TreesOf(Without(ns, p)) == Without(TreesOf(ns), p)
  {
  }

  function TreesOf(ns: seq<Node>): (trees: seq<PartialTree>)
    ensures |trees| == |ns|
    ensures forall i :: 0 <= i < |ns| ==> trees[i] == ns[i].tree
  {
    seq(|ns|, i requires 0 <= i < |ns| => ns[i].tree)
  }

  /** The node that removeTreeContaining's scan visits at step k of n: it starts at rear, the last
      position, then goes on from the front. */
  function ScanAt(n: nat, k: nat): (p: nat)
    requires k < n
    ensures p < n
  {
    if k == 0 then n - 1 else k - 1
  }

  /** One step of the scan: the node visited at step k links to the one visited at step k + 1,
      which is rear exactly when the turn is complete. */
  lemma ScanStep(ns: seq<Node>, index: map<Node, nat>, k: nat)
    requires Ring(ns) && Indexed(ns, index) && k < |ns|
    ensures k + 1 < |ns| ==> ns[ScanAt(|ns|, k)].next == ns[ScanAt(|ns|, k + 1)] != ns[|ns| - 1]
    ensures k + 1 == |ns| ==> ns[ScanAt(|ns|, k)].next == ns[|ns| - 1]
  {
    var n := |ns|;
    if k + 1 < n {
      assert index[ns[ScanAt(n, k + 1)]] == k && index[ns[n - 1]] == n - 1;
    }
  }

  /** The position of the first tree rooted at root in the scan order, from step k on. */
  function FirstMatchFrom(trees: seq<PartialTree>, root: nat, k: nat): (r: Option<nat>)
    requires k <= |trees|
    ensures r.Some? ==> r.value < |trees| && trees[r.value].root == root
    ensures r.None? ==> forall j :: k <= j < |trees| ==> trees[ScanAt(|trees|, j)].root != root
    decreases |trees| - k
  {
    if k == |trees| then None
    else if trees[ScanAt(|trees|, k)].root == root then Some(ScanAt(|trees|, k))
    else FirstMatchFrom(trees, root, k + 1)
  }

  /** The position of the tree removeTreeContaining removes, if any. */
  function FirstMatch(trees: seq<PartialTree>, root: nat): Option<nat>
  {
    FirstMatchFrom(trees, root, 0)
  }

  /** FirstMatch finds a tree exactly when some tree has the root. The one it finds is the rear
      tree if that matches, and otherwise the matching tree nearest the front. */
  lemma FirstMatchSpec(trees: seq<PartialTree>, root: nat)
    ensures FirstMatch(trees, root).None? <==> forall i :: 0 <= i < |trees| ==> trees[i].root != root
    ensures FirstMatch(trees, root).Some? ==>
      var p := FirstMatch(trees, root).value;
      && p < |trees| && trees[p].root == root
      && (p == |trees| - 1 || (trees[|trees| - 1].root != root && forall i :: 0 <= i < p ==> trees[i].root != root))
  {
    var n := |trees|;
    if FirstMatch(trees, root).None? {
      forall i | 0 <= i < n ensures trees[i].root != root {
        var k := if i == n - 1 then 0 else i + 1;
        assert ScanAt(n, k) == i;
      }
    } else {
      FirstMatchFromSpec(trees, root, 0);
    }
  }

  lemma {:induction false} FirstMatchFromSpec(trees: seq<PartialTree>, root: nat, k: nat)
    requires k <= |trees|
    requires forall j :: 0 <= j < k ==> trees[ScanAt(|trees|, j)].root != root
    requires FirstMatchFrom(trees, root, k).Some?
    ensures var p := FirstMatchFrom(trees, root, k).value;
      p == |trees| - 1 || (trees[|trees| - 1].root != root && forall i :: 0 <= i < p ==> trees[i].root != root)
    decreases |trees| - k
  {
    var n := |trees|;
    if trees[ScanAt(n, k)].root != root {
      FirstMatchFromSpec(trees, root, k + 1);
    } else if k > 0 {
      assert ScanAt(n, 0) == n - 1;
      forall i | 0 <= i < k - 1 ensures trees[i].root != root {
        assert ScanAt(n, i + 1) == i;
      }
    }
  }

  /** Position arithmetic on the ring of n nodes. */
  function Succ(p: nat, n: nat): nat
    requires p < n
  {
    if p == n - 1 then 0 else p + 1
  }

  function Pred(p: nat, n: nat): nat
    requires p < n
  {
    if p == 0 then n - 1 else p - 1
  }

  class PartialTreeList {
    /** The last node; its successor is the front. */
    var rear: Node?
    /** The number of nodes. */
    var size: nat

    /** The nodes from front to rear. */
    ghost var nodes: seq<Node>
    ghost var Repr: set<Node>
    /** The position of each node in nodes. */
    ghost var index: map<Node, nat>

    ghost predicate Valid()
      reads this, Repr
    {
      && (forall i :: 0 <= i < |nodes| ==> nodes[i] in Repr)
      && Ring(nodes)
      && Indexed(nodes, index)
      && size == |nodes|
      && (rear == null <==> nodes == [])
      && (nodes != [] ==> rear == nodes[|nodes| - 1])
    }

    /** The trees, front to rear. */
    ghost function Trees(): seq<PartialTree>
      reads this
    {
      TreesOf(nodes)
    }

    /** An empty list: no rear, size 0. */
    constructor ()
      ensures Valid() && fresh(Repr)
      ensures Trees() == [] && rear == null && size == 0
    {
      rear := null;
      size := 0;
      nodes := [];
      Repr := {};
      index := map[];
    }

    /** `append`: a new node after rear becomes the rear; an empty list becomes a one-node ring. */
    method Append(tree: PartialTree)
      requires Valid()
      modifies this, Repr
      ensures Valid() && fresh(Repr - old(Repr))
      ensures Trees() == old(Trees()) + [tree]
      ensures size == old(size) + 1
      ensures old(size) == 0 ==> rear != null && rear.next == rear
    {
      ghost var ns := nodes;
      var ptr := new Node(tree);
      LinkAfterRear(ptr);
      size := size + 1;
      AddRear(ns, ptr);
      TreesOfAppend(ns, ptr);
    }

    /** The links of `append`: ptr alone forms a ring, or goes between rear and the front; either
        way it becomes the rear. */
    method LinkAfterRear(ptr: Node)
      requires ptr != rear
      modifies this`rear, rear, ptr
      ensures rear == ptr
      ensures old(rear) == null ==> ptr.next == ptr
      ensures old(rear) != null ==> ptr.next == old(rear.next) && old(rear).next == ptr
    {
      if rear == null {
        ptr.next := ptr;
      } else {
        ptr.next := rear.next;
        rear.next := ptr;
      }
      rear := ptr;
    }

    /** The ghost bookkeeping once ptr is linked in as the new rear after the nodes ns: the node
        sequence, the index and the footprint take it in, and the list is valid again. */
    ghost method AddRear(ns: seq<Node>, ptr: Node)
      requires Indexed(ns, index) && (forall i :: 0 <= i < |ns| ==> ns[i] in Repr) && ptr !in Repr
      requires forall i :: 0 <= i < |ns| - 1 ==> ns[i].next == ns[i + 1]
      requires ns == [] ==> ptr.next == ptr
      requires ns != [] ==> ns[|ns| - 1].next == ptr && ptr.next == ns[0]
      requires rear == ptr && size == |ns| + 1
      modifies this`nodes, this`index, this`Repr
      ensures nodes == ns + [ptr] && Repr == old(Repr) + {ptr} && Valid()
    {
      index := index[ptr := |ns|];
      nodes := ns + [ptr];
      Repr := Repr + {ptr};
      RingAppended(ns, ptr);
    }

    /** `remove`: takes out and returns the front tree; fails on an empty list. */
    method Remove() returns (r: Result<PartialTree>)
      requires Valid()
      modifies this, Repr
      ensures Valid() && Repr == old(Repr)
      ensures old(Trees()) == [] ==> r == Err(NoSuchElement("list is empty")) && Trees() == old(Trees())
      ensures old(Trees()) != [] ==> r.Ok? && old(Trees()) == [r.value] + Trees()
      ensures size == if old(size) == 0 then 0 else old(size) - 1
      ensures old(size) == 1 ==> rear == null
    {
      if rear == null {
        return Err(NoSuchElement("list is empty"));
      }
      ghost var ns := nodes;
      ghost var oldIndex := index;
      RingNeighbours(ns, index, 0);
      var ret := rear.next.tree;
      BypassFront();
      size := size - 1;
      DropFront(ns, oldIndex);
      TreesOfFront(ns);
      return Ok(ret);
    }

    /** The links of `remove`: a one-node ring becomes empty; otherwise rear skips the front. */
    method BypassFront()
      requires rear != null && rear.next != null
      modifies this`rear, rear
      ensures old(rear.next) == old(rear) ==> rear == null
      ensures old(rear.next) != old(rear) ==> rear == old(rear) && rear.next == old(rear.next.next)
    {
      if rear.next == rear {
        rear := null;
      } else {
        rear.next := rear.next.next;
      }
    }

    /** The ghost bookkeeping once the front node of ns is bypassed: the node sequence and the
        index drop it, and the list is valid again. */
    ghost method DropFront(ns: seq<Node>, oldIndex: map<Node, nat>)
      requires ns != [] && Indexed(ns, oldIndex) && size == |ns| - 1
      requires forall i :: 0 <= i < |ns| ==> ns[i] in Repr
      requires |ns| == 1 ==> rear == null
      requires |ns| >= 2 ==> rear == ns[|ns| - 1] && rear.next == ns[1]
      requires forall i :: 0 < i < |ns| - 1 ==> ns[i].next == ns[i + 1]
      modifies this`nodes, this`index
      ensures nodes == Without(ns, 0) && index == Reindexed(oldIndex, 0) && Valid()
    {
      nodes, index := Without(ns, 0), Reindexed(oldIndex, 0);
      IndexedWithout(ns, oldIndex, 0);
      WithoutWithin(ns, 0, Repr);
      if |ns| >= 2 {
        RingWithout(ns, 0);
      }
    }

    /** `removeTreeContaining`: scans the ring from rear, computing the root of vertex at every
        node, and unlinks the first node whose tree has that root. Fails on an empty list, and
        when a full turn of the ring finds no match; the list is then unchanged. */
    method RemoveTreeContaining(vertex: nat, parent: array<nat>) returns (r: Result<PartialTree>)
      requires Valid() && Acyclic(parent[..]) && vertex < parent.Length
      modifies this, Repr
      ensures Valid() && Repr == old(Repr)
      ensures old(Trees()) == [] ==> r == Err(NoSuchElement("Empty list")) && Trees() == old(Trees())
      ensures old(Trees()) != [] && FirstMatch(old(Trees()), Root(old(parent[..]), vertex)).None? ==>
        r == Err(NoSuchElement("no matching tree")) && Trees() == old(Trees()) && size == old(size)
      ensures FirstMatch(old(Trees()), Root(old(parent[..]), vertex)).Some? ==>
        var p := FirstMatch(old(Trees()), Root(old(parent[..]), vertex)).value;
        && p < |old(Trees())|
        && r == Ok(old(Trees())[p])
        && Trees() == Without(old(Trees()), p)
        && size == old(size) - 1
    {
      if rear == null {
        return Err(NoSuchElement("Empty list"));
      }
      var tree: Option<PartialTree> := None;
      var ptr, p := Scan(vertex, parent);
      if ptr != null {
        tree := Some(ptr.tree);
        Unlink(ptr, p);
        TreesOfWithout(old(nodes), p);
      }
      if tree == None {
        return Err(NoSuchElement("no matching tree"));
      }
      return Ok(tree.value);
    }

    /** The scan of removeTreeContaining: from rear, then from the front, the first node whose
        tree's root is the root of vertex, computed afresh at every node; null after a full turn
        of the ring without a match. */
    method Scan(vertex: nat, parent: array<nat>) returns (ptr: Node?, ghost p: nat)
      requires Valid() && rear != null && Acyclic(parent[..]) && vertex < parent.Length
      ensures FirstMatch(Trees(), Root(parent[..], vertex)).None? ==> ptr == null
      ensures FirstMatch(Trees(), Root(parent[..], vertex)).Some? ==>
        p == FirstMatch(Trees(), Root(parent[..], vertex)).value && p < |nodes| && ptr == nodes[p]
    {
      ghost var n := |nodes|;
      ghost var trees := Trees();
      ghost var root := Root(parent[..], vertex);
      ptr := rear;
      ghost var k := 0;
      while true
        invariant 0 <= k < n && ptr == nodes[ScanAt(n, k)]
        invariant FirstMatchFrom(trees, root, k) == FirstMatch(trees, root)
        decreases n - k
      {
        var v := FindRoot(parent, vertex);
        if v == ptr.tree.root {
          p := ScanAt(n, k);
          return;
        }
        ScanStep(nodes, index, k);
        ptr := ptr.next;
        k := k + 1;
        if ptr == rear {
          return null, 0;
        }
      }
    }

    /** The predecessor search of removeTreeContaining: walks the ring from ptr until the node
        whose successor is ptr. */
    method FindPredecessor(ptr: Node, ghost p: nat) returns (prev: Node)
      requires Valid() && p < |nodes| && ptr == nodes[p]
      ensures prev == nodes[Pred(p, |nodes|)] && prev.next == ptr
    {
      ghost var n := |nodes|;
      prev := ptr;
      ghost var j := 0;
      while prev.next != ptr
        invariant 0 <= j < n && prev == nodes[if p + j < n then p + j else p + j - n]
        decreases n - 1 - j
      {
        ghost var q := if p + j < n then p + j else p + j - n;
        assert prev.next == nodes[Succ(q, n)];
        prev := prev.next;
        j := j + 1;
      }
      ghost var q := if p + j < n then p + j else p + j - n;
      assert prev.next == nodes[Succ(q, n)];
      assert Succ(q, n) == p;
    }

    /** The splice of removeTreeContaining, on the links: ptr is the node after prev and before
        next. A node linked to itself leaves an empty list; otherwise prev is linked to next
        (in a two-node ring prev and next are the one other node) and, when ptr was rear, rear
        moves to prev. ptr is detached and size drops by one. */
    method Splice(ptr: Node, prev: Node, next: Node)
      requires prev.next == ptr && ptr.next == next && size > 0
      modifies this`rear, this`size, prev, ptr
      ensures size == old(size) - 1 && ptr.next == null
      ensures prev == ptr ==> rear == null
      ensures prev != ptr ==> prev.next == next && rear == (if old(rear) == ptr then prev else old(rear))
    {
      if prev == ptr && next == ptr {
        rear := null;
      } else if prev == next {
        if ptr == rear {
          rear := rear.next;
        }
        ptr.next.next := ptr.next;
      } else {
        if ptr == rear {
          rear := prev;
        }
        prev.next := next;
      }
      size := size - 1;
      ptr.next := null;
    }

    /** Unlinks the node ptr at position p, keeping the other nodes in their order. */
    method Unlink(ptr: Node, ghost p: nat)
      requires Valid() && p < |nodes| && ptr == nodes[p]
      modifies this, Repr
      ensures Valid() && Repr == old(Repr)
      ensures nodes == Without(old(nodes), p)
      ensures size == old(size) - 1
      ensures ptr.next == null
    {
      ghost var n := |nodes|;
      ghost var ns := nodes;
      ghost var oldIndex := index;
      RingNeighbours(ns, index, p);
      var next := ptr.next;
      var prev := FindPredecessor(ptr, p);
      Splice(ptr, prev, next);
      nodes, index := Without(ns, p), Reindexed(oldIndex, p);
      assert Indexed(nodes, index) by {
        IndexedWithout(ns, oldIndex, p);
      }
      assert forall i :: 0 <= i < |nodes| ==> nodes[i] in Repr by {
        WithoutWithin(ns, p, Repr);
      }
      assert Ring(nodes) by {
        if n >= 2 {
          RingBypassed(ns, oldIndex, p);
        }
      }
    }

    /** `size` */
    method Size() returns (n: nat)
      requires Valid()
      ensures n == |Trees()|
    {
      return size;
    }

    /** `iterator`: a fresh iterator over the trees, front to rear. */
    method Iterator() returns (it: PartialTreeListIterator)
      requires Valid()
      ensures fresh(it) && it.Valid() && it.Elements() == Trees() && it.pos == 0
    {
      it := new PartialTreeListIterator(this);
    }
  }

  /** The tree `initialize` builds for vertex v: rooted at v, one queued arc per adjacency entry. */
  function InitialTree(g: Graph, v: nat): PartialTree
    requires v < |g.adjacency|
  {
    PartialTree(v, multiset(OutgoingArcs(g, v)))
  }

  function InitialTrees(g: Graph): (trees: seq<PartialTree>)
    ensures |trees| == |g.adjacency|
  {
    seq(|g.adjacency|, v requires 0 <= v < |g.adjacency| => InitialTree(g, v))
  }

  /** The number of adjacency entries of the first k vertices. */
  function Degrees(g: Graph, k: nat): nat
    requires k <= |g.adjacency|
  {
    if k == 0 then 0 else Degrees(g, k - 1) + |g.adjacency[k - 1]|
  }

  /** The initial trees own one component each: their own vertex, rooted at itself. */
  lemma InitialTreesOwnComponents(g: Graph, parent: seq<nat>)
    requires WellFormed(g) && |parent| == |g.adjacency|
    requires forall v :: 0 <= v < |parent| ==> parent[v] == v
    ensures OwnsComponents(InitialTrees(g), parent)
    ensures forall v :: 0 <= v < |g.adjacency| ==> InitialTrees(g)[v].root == v
  {
    AllSelfParented(parent);
    var trees := InitialTrees(g);
    forall v | 0 <= v < |trees| ensures Owns(trees[v], parent) {
      InitialTreeOwns(g, parent, v);
    }
    var pos := IdentityUpTo(|trees|);
    forall i | 0 <= i < |trees| ensures trees[i].root in pos && pos[trees[i].root] == i {
      assert trees[i].root == i;
    }
    assert RootsAt(trees, pos);
  }

  /** The map sending each vertex below n to itself. */
  function IdentityUpTo(n: nat): (m: map<nat, nat>)
    ensures forall v: nat :: v < n ==> v in m && m[v] == v
  {
    if n == 0 then map[] else IdentityUpTo(n - 1)[n - 1 := n - 1]
  }

  /** Each initial tree queues one arc per entry of its vertex's adjacency list, so together they
      queue every undirected edge twice. */
  lemma InitialArcCount(g: Graph)
    ensures forall v :: 0 <= v < |g.adjacency| ==> |InitialTrees(g)[v].arcs| == |g.adjacency[v]|
    ensures |AllArcs(InitialTrees(g))| == Degrees(g, |g.adjacency|)
  {
    AllArcsCount(g, |g.adjacency|);
  }

  /** The tree of vertex v owns v's one-vertex component: every arc it queues leaves v. */
  lemma InitialTreeOwns(g: Graph, parent: seq<nat>, v: nat)
    requires WellFormed(g) && |parent| == |g.adjacency| && v < |parent|
    requires forall u :: 0 <= u < |parent| ==> parent[u] == u
    requires Acyclic(parent)
    ensures Owns(InitialTrees(g)[v], parent)
  {
    var arcs := OutgoingArcs(g, v);
    assert InitialTrees(g)[v].arcs == multiset(arcs);
    forall a: Arc | a in multiset(arcs) ensures a.v1 < |parent| && a.v2 < |parent| && Root(parent, a.v1) == v {
      var j :| 0 <= j < |arcs| && arcs[j] == a;
      AllSelfParented(parent);
    }
  }

  lemma {:induction false} AllArcsCount(g: Graph, k: nat)
    requires k <= |g.adjacency|
    ensures |ArcsUpTo(InitialTrees(g), k)| == Degrees(g, k)
  {
    if k > 0 {
      AllArcsCount(g, k - 1);
      assert |InitialTrees(g)[k - 1].arcs| == |g.adjacency[k - 1]|;
    }
  }

  /** `initialize`: for each vertex in graph order, a single-vertex tree whose heap receives one
      arc per entry of the vertex's adjacency list, appended to a new list. Every vertex becomes
      its own parent. */
  method Initialize(g: Graph, parent: array<nat>) returns (list: PartialTreeList)
    requires WellFormed(g) && parent.Length == |g.adjacency|
    modifies parent
    ensures fresh(list) && fresh(list.Repr) && list.Valid()
    ensures list.Trees() == InitialTrees(g)
    ensures list.size == |g.adjacency|
    ensures forall v :: 0 <= v < parent.Length ==> parent[v] == v
  {
    list := new PartialTreeList();
    var i := 0;
    while i < |g.adjacency|
      invariant i <= |g.adjacency|
      invariant fresh(list) && fresh(list.Repr) && list.Valid()
      invariant list.Trees() == InitialTrees(g)[..i]
      invariant forall v :: 0 <= v < i ==> parent[v] == v
    {
      ghost var repr := list.Repr;
      label Add:
      AddVertex(g, parent, list, i);
      forall o | o in list.Repr ensures !old(allocated(o)) {
        if o !in repr {
          assert !old@Add(allocated(o));
        }
      }
      InitialTreesPrefix(g, i);
      i := i + 1;
    }
    assert InitialTrees(g)[..i] == InitialTrees(g);
  }

  /** One turn of `initialize`: vertex v becomes its own parent, and its tree, with its arcs
      queued, is appended to the list. */
  method AddVertex(g: Graph, parent: array<nat>, list: PartialTreeList, v: nat)
    requires list.Valid() && v < |g.adjacency| && v < parent.Length
    modifies parent, list, list.Repr
    ensures list.Valid() && fresh(list.Repr - old(list.Repr))
    ensures list.Trees() == old(list.Trees()) + [InitialTree(g, v)]
    ensures parent[v] == v && forall u :: 0 <= u < parent.Length && u != v ==> parent[u] == old(parent[u])
  {
    var tree := NewTree(parent, v);
    tree := QueueArcs(g, v, tree);
    list.Append(tree);
  }

  /** The inner loop of `initialize`: one arc from v per entry of v's adjacency list, inserted
      into the heap of v's new tree. */
  method QueueArcs(g: Graph, v: nat, tree: PartialTree) returns (t: PartialTree)
    requires v < |g.adjacency| && tree == PartialTree(v, multiset{})
    ensures t == InitialTree(g, v)
  {
    t := tree;
    var neighbors := g.adjacency[v];
    var ptr := 0;
    while ptr < |neighbors|
      invariant ptr <= |neighbors|
      invariant t == PartialTree(v, multiset(OutgoingArcs(g, v)[..ptr]))
    {
      assert OutgoingArcs(g, v)[..ptr + 1] == OutgoingArcs(g, v)[..ptr] + [OutgoingArcs(g, v)[ptr]];
      t := t.(arcs := t.arcs + multiset{Arc(v, neighbors[ptr].vertex, neighbors[ptr].weight)});
      ptr := ptr + 1;
    }
    assert OutgoingArcs(g, v)[..ptr] == OutgoingArcs(g, v);
  }

  lemma InitialTreesPrefix(g: Graph, i: nat)
    requires i < |g.adjacency|
    ensures InitialTrees(g)[..i + 1] == InitialTrees(g)[..i] + [InitialTree(g, i)]
  {
  }

  /** `execute`: while more than one tree is left, take out the front tree and pull arcs from its
      heap, least weight first, until one ends in the component of a tree still in the list;
      that tree is taken out and merged into it, the arc is recorded, and the merged tree goes to
      the rear. A tree whose heap runs out first is dropped. Every round takes one tree out of
      the list, so one is left at the end (none if there were none). The recorded arcs form a
      forest: each joined two components that were apart, and replaying them as unions from the
      initial components gives the root of every vertex at the end. Each came from a heap. No
      arc is lost on the way: every arc that started in a heap and is no longer queued, or that
      starts in a component without a listed tree, ends in its own component or in one without a
      listed tree (`Settled`). */
  method Execute(list: PartialTreeList, parent: array<nat>) returns (mst: seq<Arc>)
    requires list.Valid() && OwnsComponents(list.Trees(), parent[..])
    modifies list, list.Repr, parent
    ensures list.Valid() && fresh(list.Repr - old(list.Repr))
    ensures OwnsComponents(list.Trees(), parent[..]) && Settled(AllArcs(old(list.Trees())), list.Trees(), parent[..])
    ensures list.size == if old(list.size) == 0 then 0 else 1
    ensures old(list.size) <= 1 ==> mst == [] && list.Trees() == old(list.Trees()) && parent[..] == old(parent[..])
    ensures IsForest(RootLabels(old(parent[..])), mst)
    ensures Replay(RootLabels(old(parent[..])), mst) == RootLabels(parent[..])
    ensures multiset(mst) + AllArcs(list.Trees()) <= AllArcs(old(list.Trees()))
    ensures |mst| + list.size <= old(list.size)
  {
    ghost var labels0 := RootLabels(parent[..]);
    ghost var trees0 := list.Trees();
    SettledInitially(trees0, parent[..]);
    mst := [];
    while list.size > 1
      invariant list.Valid() && fresh(list.Repr - old(list.Repr))
      invariant OwnsComponents(list.Trees(), parent[..]) && Settled(AllArcs(trees0), list.Trees(), parent[..])
      invariant list.size == if old(list.size) == 0 then 0 else Max(1, list.size)
      invariant old(list.size) <= 1 ==> mst == [] && list.Trees() == trees0 && parent[..] == old(parent[..])
      invariant IsForest(labels0, mst) && Replay(labels0, mst) == RootLabels(parent[..])
      invariant multiset(mst) + AllArcs(list.Trees()) <= AllArcs(trees0)
      invariant |mst| + list.size <= |trees0|
      decreases list.size
    {
      ghost var repr := list.Repr;
      label Turn:
      ghost var added, p, kept;
      mst, added, p, kept := Round(list, parent, mst, labels0, AllArcs(trees0));
      forall o | o in list.Repr && o !in old(list.Repr) ensures !old(allocated(o)) {
        if o !in repr {
          assert !old@Turn(allocated(o));
        }
      }
    }
  }

  /** The labelling in which every vertex below n is its own component. */
  function Singletons(n: nat): (labels: seq<nat>)
    ensures |labels| == n && forall v :: 0 <= v < n ==> labels[v] == v
  {
    seq(n, v => v)
  }

  /** `execute(initialize(graph))`, as the program runs the algorithm: the initial list meets
      what `execute` requires, and the result is a forest over the graph's vertices, started from
      one component per vertex, of arcs queued by `initialize`, with at most n - 1 arcs. On a
      connected graph it has exactly n - 1 arcs and every vertex ends in one component, so the
      arcs span the graph. */
  method InitializeThenExecute(g: Graph, parent: array<nat>) returns (mst: seq<Arc>, list: PartialTreeList)
    requires WellFormed(g) && parent.Length == |g.adjacency|
    modifies parent
    ensures fresh(list) && list.Valid()
    ensures list.size == if |g.adjacency| == 0 then 0 else 1
    ensures IsForest(Singletons(|g.adjacency|), mst) && Acyclic(parent[..])
    ensures Replay(Singletons(|g.adjacency|), mst) == RootLabels(parent[..])
    ensures multiset(mst) <= AllArcs(InitialTrees(g))
    ensures |g.adjacency| > 0 ==> |mst| <= |g.adjacency| - 1
    ensures Connected(g) && |g.adjacency| > 0 ==>
      && |mst| == |g.adjacency| - 1
      && forall v :: 0 <= v < |g.adjacency| ==> Root(parent[..], v) == Root(parent[..], 0)
  {
    list := Initialize(g, parent);
    InitialTreesOwnComponents(g, parent[..]);
    SingletonRoots(parent[..]);
    ghost var queued := AllArcs(list.Trees());
    mst := Execute(list, parent);
    SpanningWhenConnected(g, list.Trees(), parent[..], mst, queued);
  }

  /** What is left when `execute` ends on a connected graph with one listed tree: that tree
      holds every vertex. */
  lemma OneTree(g: Graph, trees: seq<PartialTree>, parent: seq<nat>)
    requires WellFormed(g) && Connected(g) && |parent| == |g.adjacency| && |trees| == 1
    requires OwnsComponents(trees, parent) && Settled(AllArcs(InitialTrees(g)), trees, parent)
    ensures forall v :: 0 <= v < |parent| ==> Root(parent, v) == trees[0].root
  {
    SettledCovers(g, trees, parent);
    forall v | 0 <= v < |parent| ensures Root(parent, v) == trees[0].root {
      assert Root(parent, v) in Roots(trees);
    }
  }

  /** On a connected graph, the arcs `execute` records span it: n - 1 of them, and one
      component. */
  lemma SpanningWhenConnected(g: Graph, trees: seq<PartialTree>, parent: seq<nat>, mst: seq<Arc>, queued: Heap)
    requires WellFormed(g) && |parent| == |g.adjacency| && |trees| == if |parent| == 0 then 0 else 1
    requires queued == AllArcs(InitialTrees(g))
    requires OwnsComponents(trees, parent) && Settled(queued, trees, parent)
    requires IsForest(Singletons(|parent|), mst) && Replay(Singletons(|parent|), mst) == RootLabels(parent)
    ensures Connected(g) && |parent| > 0 ==>
      && |mst| == |parent| - 1
      && forall v :: 0 <= v < |parent| ==> Root(parent, v) == Root(parent, 0)
  {
    if Connected(g) && |parent| > 0 {
      OneTree(g, trees, parent);
      OneComponentArcs(parent, mst);
    }
  }

  /** Every arc of the graph is queued by `initialize`. */
  lemma GraphArcQueued(g: Graph, u: nat, j: nat)
    requires u < |g.adjacency| && j < |g.adjacency[u]|
    ensures Arc(u, g.adjacency[u][j].vertex, g.adjacency[u][j].weight) in AllArcs(InitialTrees(g))
  {
    var trees := InitialTrees(g);
    var b := Arc(u, g.adjacency[u][j].vertex, g.adjacency[u][j].weight);
    assert OutgoingArcs(g, u)[j] == b;
    assert b in trees[u].arcs;
    ArcsUpToHas(trees, |trees|, b);
  }

  /** On a connected graph, once the arcs `initialize` queued are settled, no component is
      left without a tree: the vertices whose component has none would be closed under the
      arcs, and they miss the listed roots. */
  lemma SettledCovers(g: Graph, trees: seq<PartialTree>, parent: seq<nat>)
    requires WellFormed(g) && Connected(g) && |parent| == |g.adjacency|
    requires OwnsComponents(trees, parent) && Settled(AllArcs(InitialTrees(g)), trees, parent) && |trees| > 0
    ensures forall v :: 0 <= v < |parent| ==> Root(parent, v) in Roots(trees)
  {
    var n, s := |parent|, Unlisted(trees, parent);
    UnlistedClosed(g, trees, parent);
    var r := trees[0].root;
    assert r < n && r !in s by {
      assert Owns(trees[0], parent);
      RootOfParent(parent, r);
    }
    ConnectedMisses(g, s, r);
    forall v | 0 <= v < n ensures Root(parent, v) in Roots(trees) {
      assert v !in s;
    }
  }

  /** The vertices whose component holds no listed tree. */
  ghost function Unlisted(trees: seq<PartialTree>, parent: seq<nat>): set<nat>
    requires Acyclic(parent)
  {
    set v | 0 <= v < |parent| && Root(parent, v) !in Roots(trees)
  }

  /** While the arcs `initialize` queued are settled, no arc of the graph leads from a vertex
      without a listed tree to one with a listed tree. */
  lemma UnlistedClosed(g: Graph, trees: seq<PartialTree>, parent: seq<nat>)
    requires WellFormed(g) && |parent| == |g.adjacency| && Settled(AllArcs(InitialTrees(g)), trees, parent)
    ensures ClosedUnderArcs(g, Unlisted(trees, parent))
  {
    var s := Unlisted(trees, parent);
    forall u, j | u in s && 0 <= u < |g.adjacency| && 0 <= j < |g.adjacency[u]| ensures g.adjacency[u][j].vertex in s {
      GraphArcQueued(g, u, j);
    }
  }

  /** On a connected graph, a set closed under the arcs that misses one vertex misses them all. */
  lemma ConnectedMisses(g: Graph, s: set<nat>, r: nat)
    requires Connected(g) && ClosedUnderArcs(g, s) && r < |g.adjacency| && r !in s
    ensures forall v :: 0 <= v < |g.adjacency| ==> v !in s
  {
    assert !(exists v :: 0 <= v < |g.adjacency| && v in s) by {
      assert !(forall v :: 0 <= v < |g.adjacency| ==> v in s);
    }
  }

  /** A forest history that starts from one component per vertex and ends with every vertex in
      one component has exactly n - 1 arcs. */
  lemma OneComponentArcs(parent: seq<nat>, mst: seq<Arc>)
    requires |parent| > 0 && Acyclic(parent)
    requires IsForest(Singletons(|parent|), mst) && Replay(Singletons(|parent|), mst) == RootLabels(parent)
    requires forall v :: 0 <= v < |parent| ==> Root(parent, v) == Root(parent, 0)
    ensures |mst| == |parent| - 1
  {
    var n, labels := |parent|, RootLabels(parent);
    ForestClassCount(Singletons(n), mst);
    assert Classes(labels) == {labels[0]} by {
      RootLabelsAt(parent);
    }
    SingletonClasses(n);
  }

  /** One label per vertex gives n classes. */
  lemma {:induction false} SingletonClasses(n: nat)
    ensures forall x :: x in Classes(Singletons(n)) <==> 0 <= x < n
    ensures |Classes(Singletons(n))| == n
  {
    forall x | 0 <= x < n ensures x in Classes(Singletons(n)) {
      assert Singletons(n)[x] == x;
    }
    if n > 0 {
      SingletonClasses(n - 1);
      assert Classes(Singletons(n)) == Classes(Singletons(n - 1)) + {n - 1};
    }
  }

  /** In a forest where every vertex is its own parent, every vertex is its own root. */
  lemma SingletonRoots(parent: seq<nat>)
    requires forall v :: 0 <= v < |parent| ==> parent[v] == v
    ensures Acyclic(parent) && RootLabels(parent) == Singletons(|parent|)
  {
    AllSelfParented(parent);
    RootLabelsAt(parent);
  }

  /** One pass of the outer loop of `execute`: the front tree is taken out and grown by one
      merge, or dropped when none of its arcs leads to a tree still in the list; the list loses
      one tree. On a merge the merged tree goes to the rear and the other trees keep their order. */
  method Round(list: PartialTreeList, parent: array<nat>, mst: seq<Arc>, ghost labels0: seq<nat>, ghost all: Heap)
      returns (result: seq<Arc>, ghost added: Option<Arc>, ghost p: nat, ghost kept: Heap)
    requires list.Valid() && list.size > 1 && OwnsComponents(list.Trees(), parent[..])
    requires |labels0| == parent.Length && IsForest(labels0, mst)
    requires Replay(labels0, mst) == RootLabels(parent[..])
    requires Settled(all, list.Trees(), parent[..])
    modifies list, list.Repr, parent
    ensures list.Valid() && fresh(list.Repr - old(list.Repr)) && list.size == old(list.size) - 1
    ensures OwnsComponents(list.Trees(), parent[..]) && Settled(all, list.Trees(), parent[..])
    ensures IsForest(labels0, result) && Replay(labels0, result) == RootLabels(parent[..])
    ensures multiset(result) + AllArcs(list.Trees()) <= multiset(mst) + AllArcs(old(list.Trees()))
    ensures |result| <= |mst| + 1
    ensures added.None? ==>
      var front, others := old(list.Trees())[0], old(list.Trees())[1..];
      && result == mst && list.Trees() == others && parent[..] == old(parent[..])
      && forall b :: b in front.arcs ==> LeadsNowhere(others, old(parent[..]), b)
    ensures added.Some? ==>
      var front, others := old(list.Trees())[0], old(list.Trees())[1..];
      var a := added.value;
      && p < |others| && others[p].root < parent.Length
      && result == mst + [a] && a in front.arcs
      && a.v1 < parent.Length && a.v2 < parent.Length
      && Root(old(parent[..]), a.v1) == front.root && others[p].root == Root(old(parent[..]), a.v2)
      && kept + multiset{a} <= front.arcs
      && Discarded(front.arcs, kept + multiset{a}, a.weight, others, old(parent[..]))
      && list.Trees() == Without(others, p) + [PartialTree(front.root, kept + others[p].arcs)]
      && parent[..] == old(parent[..])[others[p].root := front.root]
  {
    ghost var trees := list.Trees();
    var removed := list.Remove();
    var temp := removed.value;
    ghost var repr := list.Repr;
    ghost var others := list.Trees();
    ghost var forest := parent[..];
    AllArcsCons(temp, others);
    label Grow:
    result, added, p, kept := GrowTree(list, parent, temp, mst, labels0);
    if added.None? {
      SettledAfterDrop(all, temp, others, forest);
    } else {
      SettledAfterMerge(all, temp, others, p, added.value, kept, forest);
    }
    forall o | o in list.Repr && o !in old(list.Repr) ensures !old(allocated(o)) {
      assert o !in repr;
      assert !old@Grow(allocated(o));
    }
  }

  /** The inner loop of `execute` and what follows it: pulls arcs from temp's heap, least weight
      first, until one ends in the component of a tree of the list (FindArc); then that tree, at
      position p and already taken out, is merged into temp, the arc is recorded and temp, with
      the kept arcs of its heap and all of the other tree's, is appended; the only parent write
      makes the other tree's root a child of temp's root. If the heap runs out first, temp is
      dropped and nothing else changes. Either way the list has as many trees as before. */
  method GrowTree(list: PartialTreeList, parent: array<nat>, temp0: PartialTree, mst: seq<Arc>,
                  ghost labels0: seq<nat>) returns (result: seq<Arc>, added: Option<Arc>, ghost p: nat, ghost kept: Heap)
    requires list.Valid() && OwnsComponents([temp0] + list.Trees(), parent[..])
    requires |labels0| == parent.Length && IsForest(labels0, mst)
    requires Replay(labels0, mst) == RootLabels(parent[..])
    modifies list, list.Repr, parent
    ensures list.Valid() && fresh(list.Repr - old(list.Repr)) && list.size == old(list.size)
    ensures OwnsComponents(list.Trees(), parent[..])
    ensures IsForest(labels0, result) && Replay(labels0, result) == RootLabels(parent[..])
    ensures multiset(result) + AllArcs(list.Trees()) <= multiset(mst) + temp0.arcs + AllArcs(old(list.Trees()))
    ensures added.None? ==>
      && result == mst && list.Trees() == old(list.Trees()) && parent[..] == old(parent[..])
      && forall b :: b in temp0.arcs ==> LeadsNowhere(old(list.Trees()), old(parent[..]), b)
    ensures added.Some? ==>
      && result == mst + [added.value]
      && added.value in temp0.arcs && !LeadsNowhere(old(list.Trees()), old(parent[..]), added.value)
      && forall b :: b in temp0.arcs && b.weight < added.value.weight ==> LeadsNowhere(old(list.Trees()), old(parent[..]), b)
    ensures added.Some? ==> p < |old(list.Trees())|
    ensures added.Some? ==>
      var a := added.value;
      var tree2 := old(list.Trees())[p];
      && tree2.root < parent.Length
      && a.v1 < parent.Length && a.v2 < parent.Length
      && Root(old(parent[..]), a.v1) == temp0.root && tree2.root == Root(old(parent[..]), a.v2)
      && kept + multiset{a} <= temp0.arcs
      && Discarded(temp0.arcs, kept + multiset{a}, a.weight, old(list.Trees()), old(parent[..]))
      && list.Trees() == Without(old(list.Trees()), p) + [PartialTree(temp0.root, kept + tree2.arcs)]
      && parent[..] == old(parent[..])[tree2.root := temp0.root]
  {
    ghost var trees := list.Trees();
    ghost var forest := parent[..];
    var temp, chosen;
    temp, chosen, p := FindArc(list, parent, temp0);
    kept := temp.arcs;
    if chosen.Some? {
      var (min, tree2) := chosen.value;
      ghost var repr := list.Repr;
      label Merge:
      MergeAppend(list, parent, temp, min, tree2, trees, p, mst, labels0);
      result, added := mst + [min], Some(min);
      forall o | o in list.Repr && o !in old(list.Repr) ensures !old(allocated(o)) {
        assert o !in repr;
        assert !old@Merge(allocated(o));
      }
    } else {
      OwnsComponentsTail(temp0, trees, forest);
      result, added := mst, None;
    }
  }

  /** The inner loop of `execute`: pulls arcs from temp's heap, least weight first, and calls
      removeTreeContaining on the far end of each. An arc for which it fails ends in no tree's
      component and is discarded. The first for which it succeeds is returned with the tree it
      took out of the list, at position p; temp keeps exactly the arcs not yet pulled: every other
      arc pulled before it was discarded and weighs no more, and none left weighs less. If the
      heap runs out first, nothing is returned, temp's heap is empty and the list is as before. */
  method FindArc(list: PartialTreeList, parent: array<nat>, temp0: PartialTree)
      returns (temp: PartialTree, chosen: Option<(Arc, PartialTree)>, ghost p: nat)
    requires list.Valid() && OwnsComponents([temp0] + list.Trees(), parent[..])
    modifies list, list.Repr
    ensures list.Valid() && list.Repr == old(list.Repr) && list.size == old(list.size) - (if chosen.Some? then 1 else 0)
    ensures temp.root == temp0.root && OwnsComponents([temp] + old(list.Trees()), old(parent[..]))
    ensures chosen.None? ==>
      && list.Trees() == old(list.Trees()) && temp.arcs == multiset{}
      && forall b :: b in temp0.arcs ==> LeadsNowhere(old(list.Trees()), old(parent[..]), b)
    ensures chosen.Some? ==>
      var (a, tree2) := chosen.value;
      && temp.arcs + multiset{a} <= temp0.arcs
      && Discarded(temp0.arcs, temp.arcs + multiset{a}, a.weight, old(list.Trees()), old(parent[..]))
      && a.v1 < parent.Length && a.v2 < parent.Length && Root(old(parent[..]), a.v1) == temp0.root
      && p < |old(list.Trees())| && tree2 == old(list.Trees())[p]
      && tree2.root == Root(old(parent[..]), a.v2)
      && list.Trees() == Without(old(list.Trees()), p)
      && forall b :: b in temp0.arcs && b.weight < a.weight ==> LeadsNowhere(old(list.Trees()), old(parent[..]), b)
  {
    temp := temp0;
    ghost var trees := list.Trees();
    ghost var forest := parent[..];
    ghost var floor := 0;
    if temp0.arcs != multiset{} {
      MinimumExists(temp0.arcs);
      ghost var least :| IsMinimum(least, temp0.arcs);
      floor := least.weight;
    }
    while !IsEmpty(temp.arcs)
      invariant list.Valid() && list.Repr == old(list.Repr) && list.Trees() == trees && list.size == old(list.size)
      invariant temp.root == temp0.root && temp.arcs <= temp0.arcs
      invariant OwnsComponents([temp] + trees, forest)
      invariant Discarded(temp0.arcs, temp.arcs, floor, trees, forest)
      decreases |temp.arcs|
    {
      var min, found;
      ghost var q;
      ghost var before := temp.arcs;
      temp, min, found, q := TryArc(list, parent, temp0.arcs, temp, floor, trees, forest);
      assert temp.arcs + multiset{min} == before;
      if found.Ok? {
        p := q;
        chosen := Some((min, found.value));
        return;
      }
      floor := min.weight;
    }
    AllDiscarded(temp0.arcs, floor, trees, forest);
    chosen, p := None, 0;
  }

  /** One turn of the inner loop of `execute`: `temp.arcs.deleteMin()` takes out one copy of a
      least arc, and `removeTreeContaining` looks up the tree holding its far end; it fails
      exactly when the arc leads nowhere. If no tree is found the arc is discarded and becomes
      the new floor; otherwise the tree found is the one at position p, and every arc of the
      original heap lighter than this one was discarded. */
  method TryArc(list: PartialTreeList, parent: array<nat>, all: Heap, temp: PartialTree, ghost floor: int,
                ghost trees: seq<PartialTree>, ghost forest: seq<nat>)
      returns (rest: PartialTree, min: Arc, found: Result<PartialTree>, ghost p: nat)
    requires list.Valid() && list.Trees() == trees && parent[..] == forest
    requires temp.arcs != multiset{} && temp.arcs <= all
    requires OwnsComponents([temp] + trees, forest) && Discarded(all, temp.arcs, floor, trees, forest)
    modifies list, list.Repr
    ensures list.Valid() && list.Repr == old(list.Repr)
    ensures rest.root == temp.root && rest.arcs <= all && rest.arcs + multiset{min} <= all
    ensures IsMinimum(min, temp.arcs) && rest.arcs == temp.arcs - multiset{min} && |rest.arcs| < |temp.arcs|
    ensures found.Err? <==> LeadsNowhere(trees, forest, min)
    ensures OwnsComponents([rest] + trees, forest)
    ensures min.v1 < |forest| && min.v2 < |forest| && Root(forest, min.v1) == temp.root
    ensures found.Err? ==>
      && list.Trees() == trees && list.size == old(list.size)
      && Discarded(all, rest.arcs, min.weight, trees, forest)
    ensures found.Ok? ==>
      && p < |trees| && found.value == trees[p] && found.value.root == Root(forest, min.v2)
      && list.Trees() == Without(trees, p) && list.size == old(list.size) - 1
      && Discarded(all, temp.arcs, min.weight, trees, forest)
      && forall b :: b in all && b.weight < min.weight ==> LeadsNowhere(trees, forest, b)
  {
    var deleted, arcs := DeleteMin(temp.arcs);
    min := deleted.value;
    PullArc(all, floor, temp, min, trees, forest);
    rest := PartialTree(temp.root, arcs);
    found := list.RemoveTreeContaining(min.v2, parent);
    p := if found.Ok? then FirstMatch(trees, Root(forest, min.v2)).value else 0;
    FirstMatchSpec(trees, Root(forest, min.v2));
  }

  /** `temp.merge(tree2)` followed by `append(temp)`, where tree2 is the tree at position p of the
      list, already taken out, and a is the arc that led to it. Recording a keeps the recorded
      arcs a forest whose replay as unions gives the root of every vertex, the list keeps one
      tree per component, and a moves from the heaps to the record. */
  method MergeAppend(list: PartialTreeList, parent: array<nat>, temp: PartialTree, a: Arc, tree2: PartialTree,
                     ghost trees: seq<PartialTree>, ghost p: nat, ghost mst: seq<Arc>, ghost labels0: seq<nat>)
    requires list.Valid() && p < |trees| && tree2 == trees[p] && list.Trees() == Without(trees, p)
    requires OwnsComponents([temp] + trees, parent[..])
    requires a.v1 < parent.Length && a.v2 < parent.Length
    requires Root(parent[..], a.v1) == temp.root && tree2.root == Root(parent[..], a.v2)
    requires |labels0| == parent.Length && IsForest(labels0, mst) && Replay(labels0, mst) == RootLabels(parent[..])
    modifies list, list.Repr, parent
    ensures list.Valid() && fresh(list.Repr - old(list.Repr)) && list.size == old(list.size) + 1
    ensures list.Trees() == old(list.Trees()) + [PartialTree(temp.root, temp.arcs + tree2.arcs)]
    ensures parent[..] == old(parent[..])[tree2.root := temp.root]
    ensures OwnsComponents(list.Trees(), parent[..])
    ensures IsForest(labels0, mst + [a]) && Replay(labels0, mst + [a]) == RootLabels(parent[..])
    ensures multiset(mst + [a]) + AllArcs(list.Trees()) == multiset(mst) + multiset{a} + temp.arcs + AllArcs(trees)
  {
    ghost var forest := parent[..];
    var merged := Merge(parent, temp, tree2);
    ghost var repr := list.Repr;
    label Link:
    list.Append(merged);
    MergeStep(labels0, mst, temp, a, trees, p, forest, list.Trees(), parent[..]);
    forall o | o in list.Repr && o !in old(list.Repr) ensures !old(allocated(o)) {
      assert o !in repr;
      assert !old@Link(allocated(o));
    }
  }

  /** One pull from temp's heap, of its least arc min: min starts in temp's component, and the
      heap without min still owns it. If no tree's root is min's far root, discarding min keeps
      the record; otherwise the tree found is the one removeTreeContaining takes out, and every
      arc of the original heap lighter than min was discarded. */
  lemma PullArc(all: Heap, floor: int, temp: PartialTree, min: Arc, trees: seq<PartialTree>, parent: seq<nat>)
    requires OwnsComponents([temp] + trees, parent) && temp.arcs <= all
    requires Discarded(all, temp.arcs, floor, trees, parent) && IsMinimum(min, temp.arcs)
    ensures min.v1 < |parent| && min.v2 < |parent| && Root(parent, min.v1) == temp.root
    ensures temp.arcs - multiset{min} <= all && (temp.arcs - multiset{min}) + multiset{min} <= all
    ensures OwnsComponents([PartialTree(temp.root, temp.arcs - multiset{min})] + trees, parent)
    ensures FirstMatch(trees, Root(parent, min.v2)).None? ==>
      Discarded(all, temp.arcs - multiset{min}, min.weight, trees, parent)
    ensures FirstMatch(trees, Root(parent, min.v2)).Some? ==>
      && FirstMatch(trees, Root(parent, min.v2)).value < |trees|
      && trees[FirstMatch(trees, Root(parent, min.v2)).value].root == Root(parent, min.v2)
      && Discarded(all, temp.arcs, min.weight, trees, parent)
      && forall b :: b in all && b.weight < min.weight ==> LeadsNowhere(trees, parent, b)
  {
    DropArc(temp, trees, parent, min);
    FirstMatchSpec(trees, Root(parent, min.v2));
    if FirstMatch(trees, Root(parent, min.v2)).None? {
      DiscardArc(all, temp.arcs, floor, min, trees, parent);
    } else {
      ChosenArc(all, temp.arcs, floor, min, trees, parent);
    }
    assert temp.arcs == (temp.arcs - multiset{min}) + multiset{min};
  }

  /** Discarding the least arc, which ends in no tree's component, keeps the record, with that
      arc's weight as the new floor. */
  lemma DiscardArc(all: Heap, arcs: Heap, floor: int, min: Arc, trees: seq<PartialTree>, parent: seq<nat>)
    requires Discarded(all, arcs, floor, trees, parent) && IsMinimum(min, arcs) && LeadsNowhere(trees, parent, min)
    ensures Discarded(all, arcs - multiset{min}, min.weight, trees, parent)
  {
    forall b | b in all - (arcs - multiset{min})
      ensures LeadsNowhere(trees, parent, b) && b.weight <= min.weight
    {
      if b != min {
        assert b in all - arcs;
      }
    }
  }

  /** The least arc of the heap is, among all arcs of the original heap, the least one that ends
      in some tree's component: every lighter one was discarded, and the record holds with the
      least arc's weight as the floor. */
  lemma ChosenArc(all: Heap, arcs: Heap, floor: int, min: Arc, trees: seq<PartialTree>, parent: seq<nat>)
    requires Discarded(all, arcs, floor, trees, parent) && IsMinimum(min, arcs) && arcs <= all
    ensures min in all && Discarded(all, arcs, min.weight, trees, parent)
    ensures forall b :: b in all && b.weight < min.weight ==> LeadsNowhere(trees, parent, b)
  {
    forall b | b in all && b.weight < min.weight ensures LeadsNowhere(trees, parent, b) {
      assert b !in arcs;
      assert b in all - arcs;
    }
  }

  /** Once the heap is empty, every arc of the original heap ended in no tree's component. */
  lemma AllDiscarded(all: Heap, floor: int, trees: seq<PartialTree>, parent: seq<nat>)
    requires Discarded(all, multiset{}, floor, trees, parent)
    ensures forall b :: b in all ==> LeadsNowhere(trees, parent, b)
  {
  }

  /** `PartialTreeListIterator`: yields the trees front to rear, starting at rear.next, exactly
      `size` of them; removal is not supported. Valid while the list's links are left alone. */
  class PartialTreeListIterator {
    var ptr: Node?
    /** How many trees are still to come. */
    var rest: int

    /** The list's nodes when the iterator was made, and how many have been yielded. */
    ghost var nodes: seq<Node>
    ghost var pos: nat

    ghost predicate Valid()
      reads this, nodes
    {
      && Ring(nodes)
      && pos <= |nodes|
      && rest == |nodes| - pos
      && (pos < |nodes| ==> ptr == nodes[pos])
    }

    ghost function Elements(): seq<PartialTree>
      reads this
    {
      TreesOf(nodes)
    }

    constructor (target: PartialTreeList)
      requires target.Valid()
      ensures Valid() && nodes == target.nodes && pos == 0
      ensures rest == target.size
      ensures target.size == 0 ==> ptr == null
      ensures target.size > 0 ==> ptr == target.rear.next
    {
      rest := target.size;
      ptr := if target.size > 0 then target.rear.next else null;
      nodes := target.nodes;
      pos := 0;
    }

    /** `next`: the next tree, or NoSuchElement once all have been yielded. */
    method Next() returns (r: Result<PartialTree>)
      requires Valid()
      modifies this
      ensures Valid() && nodes == old(nodes)
      ensures old(pos) < |nodes| ==> r == Ok(Elements()[old(pos)]) && pos == old(pos) + 1
      ensures old(pos) == |nodes| ==> r == Err(NoSuchElement("")) && pos == old(pos)
    {
      if rest <= 0 {
        // `new NoSuchElementException()`, which carries no message
        return Err(NoSuchElement(""));
      }
      var ret := ptr.tree;
      ptr := ptr.next;
      rest := rest - 1;
      pos := pos + 1;
      return Ok(ret);
    }

    /** `hasNext`: whether trees remain, that is, fewer than `size` have been yielded. */
    method HasNext() returns (b: bool)
      requires Valid()
      ensures b <==> pos < |nodes|
    {
      b := rest != 0;
    }

    /** `remove` always fails. */
    method Remove() returns (r: Result<()>)
      ensures r == Err(UnsupportedOperation)
    {
      r := Err(UnsupportedOperation);
    }
  }
}
