/** The union-find forest formed by the `parent` fields of the vertices. Vertex v's parent is
    parent[v]; a root is a vertex that is its own parent. There is no path compression and no
    union by rank in the code; the ranking below is a proof device only, witnessing that parent
    links never form a cycle, so that chasing them terminates. */
module Forests {

  /** rank grows strictly along every parent link and is bounded by top. */
  datatype Ranking = Ranking(rank: seq<nat>, top: nat)

  ghost predicate Ranked(parent: seq<nat>, rk: Ranking)
  {
    && |rk.rank| == |parent|
    && (forall v {:trigger parent[v]} :: 0 <= v < |parent| ==> parent[v] < |parent| && rk.rank[v] <= rk.top)
    && (forall v {:trigger parent[v]} :: 0 <= v < |parent| && parent[v] != v ==> rk.rank[v] < rk.rank[parent[v]])
  }

  /** Every parent link stays inside the vertex range and no chain of links closes a cycle. */
  ghost predicate Acyclic(parent: seq<nat>)
  {
    exists rk :: Ranked(parent, rk)
  }

  /** The root reached from v by following parent links, using rk as the termination measure. */
  ghost function RootBy(parent: seq<nat>, rk: Ranking, v: nat): (r: nat)
    requires Ranked(parent, rk) && v < |parent|
    ensures r < |parent| && parent[r] == r
    decreases rk.top - rk.rank[v]
  {
    if parent[v] == v then v else RootBy(parent, rk, parent[v])
  }

  /** The root does not depend on which ranking witnesses acyclicity. */
  lemma {:induction false} RootByIndependent(parent: seq<nat>, rk1: Ranking, rk2: Ranking, v: nat)
    requires Ranked(parent, rk1) && Ranked(parent, rk2) && v < |parent|
    ensures RootBy(parent, rk1, v) == RootBy(parent, rk2, v)
    decreases rk1.top - rk1.rank[v]
  {
    if parent[v] != v {
      RootByIndependent(parent, rk1, rk2, parent[v]);
    }
  }

  /** find-root: the self-parented vertex that the parent chain from v ends at. */
  ghost function Root(parent: seq<nat>, v: nat): (r: nat)
    requires Acyclic(parent) && v < |parent|
    ensures r < |parent| && parent[r] == r
  {
    var rk :| Ranked(parent, rk);
    RootBy(parent, rk, v)
  }

  lemma RootIsRootBy(parent: seq<nat>, rk: Ranking, v: nat)
    requires Ranked(parent, rk) && v < |parent|
    ensures Root(parent, v) == RootBy(parent, rk, v)
  {
    var rk' :| Ranked(parent, rk') && Root(parent, v) == RootBy(parent, rk', v);
    RootByIndependent(parent, rk, rk', v);
  }

  /** A vertex and its parent have the same root; a root is its own root. */
  lemma RootOfParent(parent: seq<nat>, v: nat)
    requires Acyclic(parent) && v < |parent|
    ensures Root(parent, parent[v]) == Root(parent, v)
    ensures parent[v] == v ==> Root(parent, v) == v
  {
    var rk :| Ranked(parent, rk);
    RootIsRootBy(parent, rk, v);
    RootIsRootBy(parent, rk, parent[v]);
  }

  /** The root-chasing loop of removeTreeContaining: follows parent links from vertex until it
      reaches a vertex that is its own parent. It terminates because the forest is acyclic, and it
      reads the forest without changing it, so every call on the same forest gives the same root. */
  method FindRoot(parent: array<nat>, vertex: nat) returns (v: nat)
    requires Acyclic(parent[..]) && vertex < parent.Length
    ensures v < parent.Length && parent[v] == v
    ensures v == Root(parent[..], vertex)
  {
    ghost var rk :| Ranked(parent[..], rk);
    v := vertex;
    while parent[v] != v
      invariant v < parent.Length
      invariant Root(parent[..], v) == Root(parent[..], vertex)
      decreases rk.top - rk.rank[v]
    {
      RootOfParent(parent[..], v);
      v := parent[v];
    }
    RootOfParent(parent[..], v);
  }

  function Max(a: nat, b: nat): nat
  {
    if a < b then b else a
  }

  /** The ranking after root r2 is made a child of root r1. */
  function Link(rk: Ranking, r1: nat, r2: nat): Ranking
    requires r1 < |rk.rank| && r2 < |rk.rank|
  {
    Ranking(rk.rank[r1 := Max(rk.rank[r1], rk.rank[r2] + 1)], Max(rk.top, rk.rank[r2] + 1))
  }

  lemma LinkRanked(parent: seq<nat>, rk: Ranking, r1: nat, r2: nat)
    requires Ranked(parent, rk)
    requires r1 < |parent| && r2 < |parent| && r1 != r2 && parent[r1] == r1 && parent[r2] == r2
    ensures Ranked(parent[r2 := r1], Link(rk, r1, r2))
  {
  }

  lemma {:induction false} LinkRootBy(parent: seq<nat>, rk: Ranking, r1: nat, r2: nat, v: nat)
    requires Ranked(parent, rk)
    requires r1 < |parent| && r2 < |parent| && r1 != r2 && parent[r1] == r1 && parent[r2] == r2
    requires v < |parent|
    ensures Ranked(parent[r2 := r1], Link(rk, r1, r2))
    ensures RootBy(parent[r2 := r1], Link(rk, r1, r2), v)
         == if RootBy(parent, rk, v) == r2 then r1 else RootBy(parent, rk, v)
    decreases rk.top - rk.rank[v]
  {
    LinkRanked(parent, rk, r1, r2);
    if parent[v] != v {
      LinkRootBy(parent, rk, r1, r2, parent[v]);
    }
  }

  /** union: making root r2 a child of another root r1 keeps the forest acyclic, moves every vertex
      whose root was r2 under r1, and leaves the root of every other vertex as it was. */
  lemma LinkRoots(parent: seq<nat>, r1: nat, r2: nat)
    requires Acyclic(parent)
    requires r1 < |parent| && r2 < |parent| && r1 != r2 && parent[r1] == r1 && parent[r2] == r2
    ensures Acyclic(parent[r2 := r1])
    ensures forall v :: 0 <= v < |parent| ==>
      Root(parent[r2 := r1], v) == if Root(parent, v) == r2 then r1 else Root(parent, v)
  {
    var rk :| Ranked(parent, rk);
    LinkRanked(parent, rk, r1, r2);
    forall v | 0 <= v < |parent|
      ensures Root(parent[r2 := r1], v) == if Root(parent, v) == r2 then r1 else Root(parent, v)
    {
      LinkRootBy(parent, rk, r1, r2, v);
      RootIsRootBy(parent, rk, v);
      RootIsRootBy(parent[r2 := r1], Link(rk, r1, r2), v);
    }
  }

  /** A forest in which every vertex is its own parent is acyclic and every vertex is its own root. */
  lemma AllSelfParented(parent: seq<nat>)
    requires forall v :: 0 <= v < |parent| ==> parent[v] == v
    ensures Acyclic(parent)
    ensures forall v :: 0 <= v < |parent| ==> Root(parent, v) == v
  {
    var rk := Ranking(seq(|parent|, v => 0), 0);
    assert Ranked(parent, rk);
    forall v | 0 <= v < |parent| ensures Root(parent, v) == v {
      RootOfParent(parent, v);
    }
  }

  /** The root of every vertex, as a labelling of the vertices by component. */
  ghost function RootLabels(parent: seq<nat>): (labels: seq<nat>)
    requires Acyclic(parent)
    ensures |labels| == |parent|
  {
    seq(|parent|, v requires 0 <= v < |parent| => Root(parent, v))
  }

  lemma RootLabelsAt(parent: seq<nat>)
    requires Acyclic(parent)
    ensures forall v :: 0 <= v < |parent| ==> RootLabels(parent)[v] == Root(parent, v)
  {
  }
}
