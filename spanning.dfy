/** The arcs `execute` records, read as a union history. Start from a labelling of the vertices
    by component; each arc merges the component of its second endpoint into the component of its
    first. The arcs form a forest when every arc joins two components that were still apart. */
module Spanning {
  import opened Graphs

  /** The labelling after arc a merges the class of a.v2 into the class of a.v1. */
  function Join(labels: seq<nat>, a: Arc): (joined: seq<nat>)
    requires a.v1 < |labels| && a.v2 < |labels|
    ensures |joined| == |labels|
  {
    seq(|labels|, v requires 0 <= v < |labels| =>
      if labels[v] == labels[a.v2] then labels[a.v1] else labels[v])
  }

  /** The labelling after the arcs have been joined in order. */
  function Replay(labels: seq<nat>, arcs: seq<Arc>): (final: seq<nat>)
    requires ArcsWithin(arcs, |labels|)
    ensures |final| == |labels|
    decreases |arcs|
  {
    if arcs == [] then labels
    else Join(Replay(labels, arcs[..|arcs| - 1]), arcs[|arcs| - 1])
  }

  /** Every arc, when its turn comes, joins two classes that are still different: no arc closes
      a cycle among the arcs before it. */
  predicate IsForest(labels: seq<nat>, arcs: seq<Arc>)
    decreases |arcs|
  {
    && ArcsWithin(arcs, |labels|)
    && (arcs != [] ==>
          IsForest(labels, arcs[..|arcs| - 1])
          && var before := Replay(labels, arcs[..|arcs| - 1]);
             before[arcs[|arcs| - 1].v1] != before[arcs[|arcs| - 1].v2])
  }

  /** The distinct labels in use: one per component. */
  function Classes(labels: seq<nat>): set<nat>
  {
    set v | 0 <= v < |labels| :: labels[v]
  }

  /** Recording one more arc that joins two different classes keeps the history a forest. */
  lemma ForestExtend(labels: seq<nat>, arcs: seq<Arc>, a: Arc)
    requires IsForest(labels, arcs)
    requires a.v1 < |labels| && a.v2 < |labels|
    requires Replay(labels, arcs)[a.v1] != Replay(labels, arcs)[a.v2]
    ensures IsForest(labels, arcs + [a])
    ensures Replay(labels, arcs + [a]) == Join(Replay(labels, arcs), a)
  {
    assert (arcs + [a])[..|arcs|] == arcs;
  }

  /** Joining two different classes removes exactly the class of the second endpoint. */
  lemma JoinClasses(labels: seq<nat>, a: Arc)
    requires a.v1 < |labels| && a.v2 < |labels| && labels[a.v1] != labels[a.v2]
    ensures Classes(Join(labels, a)) == Classes(labels) - {labels[a.v2]}
    ensures |Classes(Join(labels, a))| == |Classes(labels)| - 1
  {
    var joined := Join(labels, a);
    forall x | x in Classes(labels) - {labels[a.v2]} ensures x in Classes(joined) {
      var v :| 0 <= v < |labels| && labels[v] == x;
      assert joined[v] == x;
    }
    forall x | x in Classes(joined) ensures x in Classes(labels) - {labels[a.v2]} {
      var v :| 0 <= v < |labels| && joined[v] == x;
      if labels[v] == labels[a.v2] {
        assert x == labels[a.v1];
      } else {
        assert x == labels[v];
      }
    }
    assert labels[a.v2] in Classes(labels);
  }

  /** Each arc of a forest history removes one class. */
  lemma {:induction false} ForestClassCount(labels: seq<nat>, arcs: seq<Arc>)
    requires IsForest(labels, arcs)
    ensures |Classes(Replay(labels, arcs))| + |arcs| == |Classes(labels)|
    decreases |arcs|
  {
    if arcs != [] {
      var init := arcs[..|arcs| - 1];
      ForestClassCount(labels, init);
      JoinClasses(Replay(labels, init), arcs[|arcs| - 1]);
    }
  }

  /** n vertices carry between 1 and n labels. */
  lemma {:induction false} ClassesBound(labels: seq<nat>)
    requires |labels| > 0
    ensures 1 <= |Classes(labels)| <= |labels|
    decreases |labels|
  {
    var n := |labels|;
    if n == 1 {
      assert Classes(labels) == {labels[0]};
    } else {
      var init := labels[..n - 1];
      ClassesBound(init);
      assert Classes(labels) == Classes(init) + {labels[n - 1]} by {
        forall x | x in Classes(labels) ensures x in Classes(init) + {labels[n - 1]} {
          var v :| 0 <= v < n && labels[v] == x;
          if v < n - 1 { assert init[v] == x; }
        }
        forall x | x in Classes(init) ensures x in Classes(labels) {
          var v :| 0 <= v < n - 1 && init[v] == x;
          assert labels[v] == x;
        }
      }
    }
  }

  /** A forest history over n > 0 vertices has at most n - 1 arcs; starting from c separate
      components it has at most c - 1. */
  lemma ForestArcBound(labels: seq<nat>, arcs: seq<Arc>)
    requires IsForest(labels, arcs) && |labels| > 0
    ensures |arcs| <= |Classes(labels)| - 1 <= |labels| - 1
  {
    ForestClassCount(labels, arcs);
    ClassesBound(Replay(labels, arcs));
    ClassesBound(labels);
  }
}
