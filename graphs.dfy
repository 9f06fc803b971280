/** The graph as the core sees it: vertices are the indices 0 .. n-1 of `adjacency`, each with the
    (neighbor, weight) entries of its adjacency list, in list order. */
module Graphs {

  /** An edge record (endpoint v1, endpoint v2, weight), as `structures.Arc`. */
  datatype Arc = Arc(v1: nat, v2: nat, weight: int)

  /** One entry of a vertex's adjacency list, as `Vertex.Neighbor`. */
  datatype Neighbor = Neighbor(vertex: nat, weight: int)

  datatype Graph = Graph(adjacency: seq<seq<Neighbor>>)

  /** Every neighbor names a vertex of the graph. */
  ghost predicate WellFormed(g: Graph)
  {
    forall v, j :: 0 <= v < |g.adjacency| && 0 <= j < |g.adjacency[v]| ==>
      g.adjacency[v][j].vertex < |g.adjacency|
  }

  /** The arcs `initialize` queues for vertex v: one Arc(v, neighbor, weight) per adjacency entry. */
  function OutgoingArcs(g: Graph, v: nat): (arcs: seq<Arc>)
    requires v < |g.adjacency|
    ensures |arcs| == |g.adjacency[v]|
    ensures forall j :: 0 <= j < |arcs| ==>
      arcs[j].v1 == v && arcs[j].v2 == g.adjacency[v][j].vertex && arcs[j].weight == g.adjacency[v][j].weight
  {
    seq(|g.adjacency[v]|, j requires 0 <= j < |g.adjacency[v]| =>
      Arc(v, g.adjacency[v][j].vertex, g.adjacency[v][j].weight))
  }

  /** Every neighbor of a vertex in s is in s. */
  ghost predicate ClosedUnderArcs(g: Graph, s: set<nat>)
  {
    forall u, j :: u in s && 0 <= u < |g.adjacency| && 0 <= j < |g.adjacency[u]| ==> g.adjacency[u][j].vertex in s
  }

  /** Every vertex reaches every other along the adjacency lists: a set that holds one vertex and,
      with each vertex, all its neighbors, holds every vertex. */
  ghost predicate Connected(g: Graph)
  {
    forall s: set<nat> {:trigger ClosedUnderArcs(g, s)} :: ClosedUnderArcs(g, s) && (exists v :: 0 <= v < |g.adjacency| && v in s) ==>
      forall v :: 0 <= v < |g.adjacency| ==> v in s
  }

  /** All endpoints of the arcs are vertices 0 .. n-1. */
  predicate ArcsWithin(arcs: seq<Arc>, n: nat)
  {
    forall i :: 0 <= i < |arcs| ==> arcs[i].v1 < n && arcs[i].v2 < n
  }
}
