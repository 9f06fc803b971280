/** `structures.PartialTree` as the core uses it: a root vertex and a heap of candidate arcs.
    The class itself is not part of this model. Its constructor is modelled as: the new tree's
    root becomes its own parent and its heap is empty; `merge` as: the other tree's root becomes
    a child of this tree's root and the heaps are unioned. */
module PartialTrees {
  import opened Graphs
  import opened Forests
  import opened MinHeaps
  import opened Spanning

  datatype PartialTree = PartialTree(root: nat, arcs: Heap)

  /** t's root is a root of the forest and every arc queued in t starts in t's component. */
  ghost predicate Owns(t: PartialTree, parent: seq<nat>)
    requires Acyclic(parent)
  {
    && t.root < |parent| && parent[t.root] == t.root
    && forall a :: a in t.arcs ==> a.v1 < |parent| && a.v2 < |parent| && Root(parent, a.v1) == t.root
  }

  /** pos sends the root of the tree at each position to that position, so no two trees share
      a root. */
  ghost predicate RootsAt(trees: seq<PartialTree>, pos: map<nat, nat>)
  {
    forall i :: 0 <= i < |trees| ==> trees[i].root in pos && pos[trees[i].root] == i
  }

  /** One tree per component: every tree owns its component and no two trees share a root. */
  ghost predicate OwnsComponents(trees: seq<PartialTree>, parent: seq<nat>)
  {
    && Acyclic(parent)
    && (forall i :: 0 <= i < |trees| ==> Owns(trees[i], parent))
    && exists pos :: RootsAt(trees, pos)
  }

  /** No tree of trees holds the component in which arc a ends. */
  ghost predicate LeadsNowhere(trees: seq<PartialTree>, parent: seq<nat>, a: Arc)
  {
    && Acyclic(parent) && a.v2 < |parent|
    && forall i :: 0 <= i < |trees| ==> trees[i].root != Root(parent, a.v2)
  }

  /** Every arc of all that is gone from arcs (counting copies) ended in no tree's component and
      weighs no more than floor, and no arc still queued weighs less than floor. */
  ghost predicate Discarded(all: Heap, arcs: Heap, floor: int, trees: seq<PartialTree>, parent: seq<nat>)
  {
    && (forall b :: b in all - arcs ==> LeadsNowhere(trees, parent, b) && b.weight <= floor)
    && (forall c :: c in arcs ==> floor <= c.weight)
  }

  /** s with the element at position p taken out, the others in their order. */
  function Without<T>(s: seq<T>, p: nat): (r: seq<T>)
    requires p < |s|
    decreases |s|
    ensures |r| == |s| - 1
    ensures forall i :: 0 <= i < p ==> r[i] == s[i]
    ensures forall i :: p <= i < |r| ==> r[i] == s[i + 1]
  {
    if p == |s| - 1 then s[..p] else Without(s[..|s| - 1], p) + [s[|s| - 1]]
  }

  /** All arcs queued in the trees' heaps. */
  function AllArcs(trees: seq<PartialTree>): Heap
  {
    ArcsUpTo(trees, |trees|)
  }

  /** All arcs queued in the heaps of the first n trees. */
  function ArcsUpTo(trees: seq<PartialTree>, n: nat): Heap
    requires n <= |trees|
  {
    if n == 0 then multiset{} else ArcsUpTo(trees, n - 1) + trees[n - 1].arcs
  }

  /** The arcs of the first n trees depend only on those trees. */
  lemma {:induction false} ArcsUpToPrefix(s: seq<PartialTree>, t: seq<PartialTree>, n: nat)
    requires n <= |s| && n <= |t| && forall i :: 0 <= i < n ==> s[i] == t[i]
    ensures ArcsUpTo(s, n) == ArcsUpTo(t, n)
  {
    if n > 0 {
      ArcsUpToPrefix(s, t, n - 1);
    }
  }

  /** A tree added at the end adds its arcs. */
  lemma AllArcsSnoc(s: seq<PartialTree>, t: PartialTree)
    ensures AllArcs(s + [t]) == AllArcs(s) + t.arcs
  {
    ArcsUpToPrefix(s + [t], s, |s|);
  }

  lemma AllArcsAppend(s: seq<PartialTree>, t: seq<PartialTree>)
    ensures AllArcs(s + t) == AllArcs(s) + AllArcs(t)
  {
    ArcsUpToAppend(s, t, |t|);
  }

  /** The arcs of the first |s| + k trees of s + t are those of s and of the first k of t. */
  lemma {:induction false} ArcsUpToAppend(s: seq<PartialTree>, t: seq<PartialTree>, k: nat)
    requires k <= |t|
    ensures ArcsUpTo(s + t, |s| + k) == ArcsUpTo(s, |s|) + ArcsUpTo(t, k)
    decreases k
  {
    if k == 0 {
      ArcsUpToPrefix(s + t, s, |s|);
    } else {
      ArcsUpToAppend(s, t, k - 1);
      assert (s + t)[|s| + k - 1] == t[k - 1];
    }
  }

  /** A list's arcs are its first tree's and the rest's. */
  lemma AllArcsCons(t: PartialTree, rest: seq<PartialTree>)
    ensures AllArcs([t] + rest) == t.arcs + AllArcs(rest)
  {
    AllArcsAppend([t], rest);
    AllArcsSingle(t);
  }

  lemma AllArcsSingle(t: PartialTree)
    ensures AllArcs([t]) == t.arcs
  {
    assert ArcsUpTo([t], 1) == multiset{} + t.arcs;
  }

  /** Taking out one tree takes out exactly its arcs. */
  lemma {:induction false} AllArcsWithout(s: seq<PartialTree>, p: nat)
    requires p < |s|
    ensures AllArcs(s) == AllArcs(Without(s, p)) + s[p].arcs
    decreases |s|
  {
    var init := s[..|s| - 1];
    ArcsUpToPrefix(s, init, |init|);
    if p < |s| - 1 {
      AllArcsWithout(init, p);
      AllArcsSnoc(Without(init, p), s[|s| - 1]);
    }
  }

  /** `new PartialTree(v)`: a single-vertex tree rooted at v, whose parent becomes v itself,
      with an empty heap. */
  method NewTree(parent: array<nat>, v: nat) returns (t: PartialTree)
    requires v < parent.Length
    modifies parent
    ensures parent[v] == v && forall u :: 0 <= u < parent.Length && u != v ==> parent[u] == old(parent[u])
    ensures t == PartialTree(v, multiset{})
  {
    parent[v] := v;
    t := PartialTree(v, multiset{});
  }

  /** `t.merge(other)`: other's root becomes a child of t's root and the merged tree's heap holds
      the arcs of both heaps, stale ones included. */
  method Merge(parent: array<nat>, t: PartialTree, other: PartialTree) returns (merged: PartialTree)
    requires other.root < parent.Length
    modifies parent
    ensures parent[..] == old(parent[..])[other.root := t.root]
    ensures merged == PartialTree(t.root, t.arcs + other.arcs)
  {
    parent[other.root] := t.root;
    merged := PartialTree(t.root, t.arcs + other.arcs);
  }

  /** A tree whose root is not the one being linked keeps its component through the link. */
  lemma OwnsAfterLink(t: PartialTree, parent: seq<nat>, r1: nat, r2: nat)
    requires Acyclic(parent) && Owns(t, parent)
    requires r1 < |parent| && r2 < |parent| && r1 != r2 && parent[r1] == r1 && parent[r2] == r2
    requires t.root != r2
    ensures Acyclic(parent[r2 := r1]) && Owns(t, parent[r2 := r1])
  {
    LinkRoots(parent, r1, r2);
  }

  /** The merged tree owns the union of the two components. */
  lemma MergedOwns(t: PartialTree, other: PartialTree, parent: seq<nat>)
    requires Acyclic(parent) && Owns(t, parent) && Owns(other, parent) && t.root != other.root
    ensures Acyclic(parent[other.root := t.root])
    ensures Owns(PartialTree(t.root, t.arcs + other.arcs), parent[other.root := t.root])
  {
    var r1, r2 := t.root, other.root;
    LinkRoots(parent, r1, r2);
    var parent' := parent[r2 := r1];
    forall a | a in t.arcs + other.arcs ensures Root(parent', a.v1) == r1 {
      if a in t.arcs {
        assert Root(parent, a.v1) == r1;
      } else {
        assert Root(parent, a.v1) == r2;
      }
    }
  }

  /** Merging the tree at position p of the list into temp (taken from the list before), and
      appending the result, keeps one tree per component. */
  lemma MergeOwnsComponents(temp: PartialTree, trees: seq<PartialTree>, p: nat, parent: seq<nat>)
    requires OwnsComponents([temp] + trees, parent) && p < |trees|
    ensures trees[p].root < |parent| && temp.root != trees[p].root
    ensures OwnsComponents(Without(trees, p) + [PartialTree(temp.root, temp.arcs + trees[p].arcs)],
                           parent[trees[p].root := temp.root])
  {
    var all := [temp] + trees;
    assert all[0] == temp && all[p + 1] == trees[p];
    OwnedPair(all, parent, 0, p + 1);
    MergedOwns(temp, trees[p], parent);
    var merged := PartialTree(temp.root, temp.arcs + trees[p].arcs);
    var parent' := parent[trees[p].root := temp.root];
    var rest := Without(trees, p);
    var result := rest + [merged];
    var pos :| RootsAt(all, pos);
    var pos' := MergedPositions(pos, temp.root, p, |trees|);
    forall i | 0 <= i < |result|
      ensures Owns(result[i], parent') && result[i].root in pos' && pos'[result[i].root] == i
    {
      if i < |rest| {
        assert result[i] == rest[i];
        OtherPlaceAfterMerge(temp, trees, p, parent, pos, i);
      } else {
        assert result[i] == merged && all[0].root == temp.root;
      }
    }
    assert RootsAt(result, pos');
  }

  /** The tree at position i of the others keeps its component through the merge, and its root
      goes to position i. */
  lemma OtherPlaceAfterMerge(temp: PartialTree, trees: seq<PartialTree>, p: nat, parent: seq<nat>,
                             pos: map<nat, nat>, i: nat)
    requires OwnsComponents([temp] + trees, parent) && RootsAt([temp] + trees, pos)
    requires p < |trees| && i < |trees| - 1
    ensures trees[p].root < |parent|
    ensures var t := Without(trees, p)[i]; var pos' := MergedPositions(pos, temp.root, p, |trees|);
      && Acyclic(parent[trees[p].root := temp.root]) && Owns(t, parent[trees[p].root := temp.root])
      && t.root in pos' && pos'[t.root] == i
  {
    var all := [temp] + trees;
    var k := if i < p then i else i + 1;
    assert Without(trees, p)[i] == trees[k] == all[k + 1];
    OtherOwnsAfterMerge(temp, trees, p, parent, k);
  }

  /** Where the roots sit once the tree at position p is merged into the first tree and the
      result moves to the end: the first tree's root goes last, the others close up. */
  function MergedPositions(pos: map<nat, nat>, first: nat, p: nat, n: nat): (pos': map<nat, nat>)
    requires n > 0
    ensures pos'.Keys == pos.Keys
    ensures first in pos ==> pos'[first] == n - 1
    ensures forall r :: r in pos && r != first && 1 <= pos[r] <= p ==> pos'[r] == pos[r] - 1
    ensures forall r :: r in pos && r != first && pos[r] > p + 1 ==> pos'[r] == pos[r] - 2
  {
    map r | r in pos :: if r == first then n - 1 else if pos[r] > p + 1 then pos[r] - 2
                        else if pos[r] >= 1 then pos[r] - 1 else 0
  }

  /** A tree of the list other than the merged one keeps its component through the merge. */
  lemma OtherOwnsAfterMerge(temp: PartialTree, trees: seq<PartialTree>, p: nat, parent: seq<nat>, k: nat)
    requires OwnsComponents([temp] + trees, parent) && p < |trees| && k < |trees| && k != p
    ensures trees[k].root != temp.root && trees[k].root != trees[p].root && trees[p].root < |parent|
    ensures Acyclic(parent[trees[p].root := temp.root]) && Owns(trees[k], parent[trees[p].root := temp.root])
  {
    var all := [temp] + trees;
    assert all[0] == temp && all[p + 1] == trees[p] && all[k + 1] == trees[k];
    OwnedPair(all, parent, 0, k + 1);
    OwnedPair(all, parent, k + 1, p + 1);
    OwnsAfterLink(trees[k], parent, temp.root, trees[p].root);
  }

  /** Two trees at different positions own their components and have different roots. */
  lemma OwnedPair(trees: seq<PartialTree>, parent: seq<nat>, i: nat, j: nat)
    requires OwnsComponents(trees, parent) && i < |trees| && j < |trees| && i != j
    ensures Owns(trees[i], parent) && Owns(trees[j], parent) && trees[i].root != trees[j].root
  {
    var pos :| RootsAt(trees, pos);
  }

  /** The component labelling after the merge is the labelling before it, joined along an arc
      from temp's component to the other tree's component. */
  lemma MergeJoinsLabels(parent: seq<nat>, r1: nat, r2: nat, a: Arc)
    requires Acyclic(parent)
    requires r1 < |parent| && r2 < |parent| && r1 != r2 && parent[r1] == r1 && parent[r2] == r2
    requires a.v1 < |parent| && a.v2 < |parent| && Root(parent, a.v1) == r1 && Root(parent, a.v2) == r2
    ensures Acyclic(parent[r2 := r1])
    ensures RootLabels(parent)[a.v1] != RootLabels(parent)[a.v2]
    ensures RootLabels(parent[r2 := r1]) == Join(RootLabels(parent), a)
  {
    LinkRoots(parent, r1, r2);
    RootLabelsAt(parent);
    RootLabelsAt(parent[r2 := r1]);
  }

  /** Taking an arc out of the first tree's heap keeps one tree per component; the arc starts in
      that tree's component and ends at a vertex. */
  lemma DropArc(temp: PartialTree, trees: seq<PartialTree>, parent: seq<nat>, a: Arc)
    requires OwnsComponents([temp] + trees, parent) && a in temp.arcs
    ensures a.v1 < |parent| && a.v2 < |parent| && Root(parent, a.v1) == temp.root
    ensures OwnsComponents([PartialTree(temp.root, temp.arcs - multiset{a})] + trees, parent)
  {
    var all := [temp] + trees;
    var all' := [PartialTree(temp.root, temp.arcs - multiset{a})] + trees;
    assert all[0] == temp;
    var pos :| RootsAt(all, pos);
    forall i | 0 <= i < |all'| ensures Owns(all'[i], parent) && all'[i].root == all[i].root {
      if i > 0 {
        assert all'[i] == all[i];
      }
    }
    assert RootsAt(all', pos);
  }

  /** The trees after the first keep owning their components. */
  lemma OwnsComponentsTail(temp: PartialTree, trees: seq<PartialTree>, parent: seq<nat>)
    requires OwnsComponents([temp] + trees, parent)
    ensures OwnsComponents(trees, parent)
  {
    var all := [temp] + trees;
    var pos :| RootsAt(all, pos);
    var pos' := map r | r in pos :: if pos[r] >= 1 then pos[r] - 1 else 0;
    forall i | 0 <= i < |trees| ensures trees[i] == all[i + 1] {
    }
    assert RootsAt(trees, pos');
  }

  /** One step of `execute` that succeeds: arc a, taken from temp's heap, starts in temp's
      component and ends in the component of the tree at position p. Merging that tree into temp
      (giving parent') and putting the result at the end of the others (giving trees') keeps one
      tree per component, keeps the recorded arcs a forest whose replay as unions gives the root
      of every vertex, and moves a from the heaps to the record. */
  lemma MergeStep(labels0: seq<nat>, mst: seq<Arc>, temp: PartialTree, a: Arc,
                  trees: seq<PartialTree>, p: nat, parent: seq<nat>,
                  trees': seq<PartialTree>, parent': seq<nat>)
    requires OwnsComponents([temp] + trees, parent)
    requires a.v1 < |parent| && a.v2 < |parent| && Root(parent, a.v1) == temp.root
    requires p < |trees| && trees[p].root == Root(parent, a.v2)
    requires |labels0| == |parent| && IsForest(labels0, mst)
    requires Replay(labels0, mst) == RootLabels(parent)
    requires trees' == Without(trees, p) + [PartialTree(temp.root, temp.arcs + trees[p].arcs)]
    requires parent' == parent[trees[p].root := temp.root]
    ensures temp.root != trees[p].root
    ensures OwnsComponents(trees', parent')
    ensures IsForest(labels0, mst + [a]) && Replay(labels0, mst + [a]) == RootLabels(parent')
    ensures multiset(mst + [a]) + AllArcs(trees') == multiset(mst) + multiset{a} + temp.arcs + AllArcs(trees)
  {
    assert temp.root != trees[p].root && OwnsComponents(trees', parent') by {
      MergeOwnsComponents(temp, trees, p, parent);
    }
    assert IsForest(labels0, mst + [a]) && Replay(labels0, mst + [a]) == RootLabels(parent') by {
      MergeJoinsLabels(parent, temp.root, trees[p].root, a);
      ForestExtend(labels0, mst, a);
    }
    MergeArcCount(mst, temp, a, trees, p);
  }

  lemma MergeArcCount(mst: seq<Arc>, temp: PartialTree, a: Arc, trees: seq<PartialTree>, p: nat)
    requires p < |trees|
    ensures multiset(mst + [a]) + AllArcs(Without(trees, p) + [PartialTree(temp.root, temp.arcs + trees[p].arcs)])
            == multiset(mst) + multiset{a} + temp.arcs + AllArcs(trees)
  {
    var merged := PartialTree(temp.root, temp.arcs + trees[p].arcs);
    AllArcsWithout(trees, p);
    AllArcsAppend(Without(trees, p), [merged]);
    AllArcsSingle(merged);
  }

  /** The roots of the listed trees. */
  function Roots(trees: seq<PartialTree>): set<nat>
  {
    set i | 0 <= i < |trees| :: trees[i].root
  }

  /** No arc of all escapes the listed trees unaccounted for: every arc that is no longer queued,
      or that starts in a component no listed tree holds, ends in its own component or in a
      component no listed tree holds. A component loses its tree only when none of its arcs
      leads to another listed tree, so the components left without a tree are closed under the
      arcs. */
  ghost predicate Settled(all: Heap, trees: seq<PartialTree>, parent: seq<nat>)
  {
    && Acyclic(parent)
    && forall b :: b in all ==>
         && b.v1 < |parent| && b.v2 < |parent|
         && (b !in AllArcs(trees) || Root(parent, b.v1) !in Roots(trees) ==>
               Root(parent, b.v2) == Root(parent, b.v1) || Root(parent, b.v2) !in Roots(trees))
  }

  /** An arc is queued in the first n trees exactly when it is queued in one of them. */
  lemma {:induction false} ArcsUpToHas(trees: seq<PartialTree>, n: nat, b: Arc)
    requires n <= |trees|
    ensures b in ArcsUpTo(trees, n) <==> exists i :: 0 <= i < n && b in trees[i].arcs
    decreases n
  {
    if n > 0 {
      ArcsUpToHas(trees, n - 1, b);
    }
  }

  /** A queued arc starts in the component of a listed tree. */
  lemma QueuedArcOwned(trees: seq<PartialTree>, parent: seq<nat>, b: Arc)
    requires OwnsComponents(trees, parent) && b in AllArcs(trees)
    ensures b.v1 < |parent| && b.v2 < |parent| && Root(parent, b.v1) in Roots(trees)
  {
    ArcsUpToHas(trees, |trees|, b);
    var i :| 0 <= i < |trees| && b in trees[i].arcs;
    assert Owns(trees[i], parent);
  }

  /** Before any tree is taken out, every arc is queued and starts in a listed tree's component,
      so the arcs the trees hold are settled. */
  lemma SettledInitially(trees: seq<PartialTree>, parent: seq<nat>)
    requires OwnsComponents(trees, parent)
    ensures Settled(AllArcs(trees), trees, parent)
  {
    forall b | b in AllArcs(trees)
      ensures b.v1 < |parent| && b.v2 < |parent| && Root(parent, b.v1) in Roots(trees)
    {
      QueuedArcOwned(trees, parent, b);
    }
  }

  /** A listed root that no arc's far end reaches is not listed: LeadsNowhere in terms of Roots. */
  lemma NowhereUnlisted(trees: seq<PartialTree>, parent: seq<nat>, b: Arc)
    requires LeadsNowhere(trees, parent, b)
    ensures Root(parent, b.v2) !in Roots(trees)
  {
  }

  /** Dropping the front tree, none of whose arcs leads to another listed tree, keeps the arcs
      settled. */
  lemma SettledAfterDrop(all: Heap, front: PartialTree, others: seq<PartialTree>, parent: seq<nat>)
    requires OwnsComponents([front] + others, parent) && Settled(all, [front] + others, parent)
    requires forall b :: b in front.arcs ==> LeadsNowhere(others, parent, b)
    ensures Settled(all, others, parent)
  {
    var trees := [front] + others;
    AllArcsCons(front, others);
    OwnsComponentsTail(front, others, parent);
    RootsAppend([front], others);
    forall b | b in AllArcs(others) ensures b.v1 < |parent| && Root(parent, b.v1) in Roots(others) {
      QueuedArcOwned(others, parent, b);
    }
    forall b | b in front.arcs ensures b.v2 < |parent| && Root(parent, b.v2) !in Roots(others) {
      NowhereUnlisted(others, parent, b);
    }
    SettledWithout(all, trees, others, front.arcs, parent);
  }

  /** The step of SettledAfterDrop on the arcs alone: taking out trees whose arcs all end outside
      the remaining trees, when every arc still queued starts in a remaining tree. */
  lemma SettledWithout(all: Heap, trees: seq<PartialTree>, others: seq<PartialTree>, gone: Heap, parent: seq<nat>)
    requires Settled(all, trees, parent) && Roots(others) <= Roots(trees)
    requires AllArcs(trees) == gone + AllArcs(others)
    requires forall b :: b in AllArcs(others) ==> b.v1 < |parent| && Root(parent, b.v1) in Roots(others)
    requires forall b :: b in gone ==> b.v2 < |parent| && Root(parent, b.v2) !in Roots(others)
    ensures Settled(all, others, parent)
  {
  }

  /** Merging the tree at position p into the front tree along arc a, after the front tree's
      other pulled arcs were discarded, keeps the arcs settled. */
  lemma SettledAfterMerge(all: Heap, front: PartialTree, others: seq<PartialTree>, p: nat, a: Arc,
                          kept: Heap, parent: seq<nat>)
    requires OwnsComponents([front] + others, parent) && Settled(all, [front] + others, parent)
    requires p < |others| && a.v1 < |parent| && a.v2 < |parent|
    requires Root(parent, a.v1) == front.root && others[p].root == Root(parent, a.v2)
    requires kept + multiset{a} <= front.arcs && Discarded(front.arcs, kept + multiset{a}, a.weight, others, parent)
    ensures others[p].root < |parent|
    ensures Settled(all, Without(others, p) + [PartialTree(front.root, kept + others[p].arcs)],
                    parent[others[p].root := front.root])
  {
    var trees := [front] + others;
    var r, q := front.root, others[p].root;
    var trees' := Without(others, p) + [PartialTree(r, kept + others[p].arcs)];
    assert trees[0] == front && trees[p + 1] == others[p];
    OwnedPair(trees, parent, 0, p + 1);
    LinkRoots(parent, r, q);
    var pos :| RootsAt(trees, pos);
    MergedRoots(front, others, p, kept, pos);
    assert AllArcs(trees') == AllArcs(others) + kept by {
      AllArcsWithout(others, p);
      AllArcsSnoc(Without(others, p), PartialTree(r, kept + others[p].arcs));
    }
    AllArcsCons(front, others);
    RootsAppend([front], others);
    forall b | b in front.arcs - (kept + multiset{a})
      ensures b.v2 < |parent| && (Root(parent, b.v2) == r || Root(parent, b.v2) !in Roots(trees))
    {
      NowhereUnlisted(others, parent, b);
    }
    SettledAcrossLink(all, trees, trees', front.arcs, kept, AllArcs(others), a, parent, r, q);
  }

  /** The step of SettledAfterMerge on the arcs alone: root q is linked under root r, arc a leads
      from r's component to q's, the front heap's arcs start in r's component, and those pulled
      from it other than a ended in r's component or in no listed tree's. */
  lemma SettledAcrossLink(all: Heap, trees: seq<PartialTree>, trees': seq<PartialTree>, front: Heap,
                          kept: Heap, rest: Heap, a: Arc, parent: seq<nat>, r: nat, q: nat)
    requires Settled(all, trees, parent)
    requires r < |parent| && q < |parent| && r != q && parent[r] == r && parent[q] == q
    requires r in Roots(trees) && q in Roots(trees) && Roots(trees') == Roots(trees) - {q}
    requires AllArcs(trees) == front + rest && AllArcs(trees') == rest + kept
    requires a in front && a.v2 < |parent| && Root(parent, a.v2) == q
    requires forall b :: b in front ==> b.v1 < |parent| && Root(parent, b.v1) == r
    requires forall b :: b in front - (kept + multiset{a}) ==>
      b.v2 < |parent| && (Root(parent, b.v2) == r || Root(parent, b.v2) !in Roots(trees))
    ensures Settled(all, trees', parent[q := r])
  {
    var parent' := parent[q := r];
    LinkRoots(parent, r, q);
    forall b | b in all && (b !in AllArcs(trees') || Root(parent', b.v1) !in Roots(trees'))
      ensures Root(parent', b.v2) == Root(parent', b.v1) || Root(parent', b.v2) !in Roots(trees')
    {
      if b in front && b != a && b !in kept {
        assert b in front - (kept + multiset{a});
      }
    }
  }

  /** The roots of two lists put together. */
  lemma RootsAppend(s: seq<PartialTree>, t: seq<PartialTree>)
    ensures Roots(s + t) == Roots(s) + Roots(t)
  {
    forall x | x in Roots(s) ensures x in Roots(s + t) {
      var i :| 0 <= i < |s| && s[i].root == x;
      assert (s + t)[i] == s[i];
    }
    forall x | x in Roots(t) ensures x in Roots(s + t) {
      var i :| 0 <= i < |t| && t[i].root == x;
      assert (s + t)[|s| + i] == t[i];
    }
  }

  /** Taking out a tree takes out its root, and no other, when no two trees share a root. */
  lemma RootsWithout(s: seq<PartialTree>, p: nat, pos: map<nat, nat>)
    requires p < |s| && RootsAt(s, pos)
    ensures Roots(Without(s, p)) == Roots(s) - {s[p].root}
  {
    RootsWithoutShrink(s, p, pos);
    RootsWithoutKeep(s, p);
  }

  /** The roots left after taking out tree p were listed, and differ from its root. */
  lemma RootsWithoutShrink(s: seq<PartialTree>, p: nat, pos: map<nat, nat>)
    requires p < |s| && RootsAt(s, pos)
    ensures Roots(Without(s, p)) <= Roots(s) - {s[p].root}
  {
    var w := Without(s, p);
    forall x | x in Roots(w) ensures x in Roots(s) - {s[p].root} {
      var i :| 0 <= i < |w| && w[i].root == x;
      var k := if i < p then i else i + 1;
      assert w[i] == s[k];
      assert pos[s[k].root] == k != p == pos[s[p].root];
      RootListed(s, k);
    }
  }

  /** Every other listed root stays listed after taking out tree p. */
  lemma RootsWithoutKeep(s: seq<PartialTree>, p: nat)
    requires p < |s|
    ensures Roots(s) - {s[p].root} <= Roots(Without(s, p))
  {
    var w := Without(s, p);
    forall x | x in Roots(s) - {s[p].root} ensures x in Roots(w) {
      var k :| 0 <= k < |s| && s[k].root == x;
      if k < p {
        assert w[k] == s[k];
        RootListed(w, k);
      } else {
        assert k != p && w[k - 1] == s[k];
        RootListed(w, k - 1);
      }
    }
  }

  /** The root of a listed tree is a listed root. */
  lemma RootListed(s: seq<PartialTree>, k: nat)
    requires k < |s|
    ensures s[k].root in Roots(s)
  {
  }

  /** After the merge the listed roots are the old ones less the merged tree's root. */
  lemma MergedRoots(front: PartialTree, others: seq<PartialTree>, p: nat, kept: Heap, pos: map<nat, nat>)
    requires RootsAt([front] + others, pos) && p < |others|
    ensures front.root != others[p].root
    ensures front.root in Roots([front] + others) && others[p].root in Roots([front] + others)
    ensures Roots(Without(others, p) + [PartialTree(front.root, kept + others[p].arcs)])
         == Roots([front] + others) - {others[p].root}
  {
    var trees := [front] + others;
    assert trees[0] == front && trees[p + 1] == others[p];
    var merged := PartialTree(front.root, kept + others[p].arcs);
    var rest := Roots(others);
    assert Roots(Without(others, p) + [merged]) == (rest - {others[p].root}) + {front.root} by {
      var pos' := RootsAtTail(front, others, pos);
      RootsWithout(others, p, pos');
      RootsAppend(Without(others, p), [merged]);
      RootsSingle(merged);
    }
    assert Roots(trees) == {front.root} + rest by {
      RootsAppend([front], others);
      RootsSingle(front);
    }
    RelinkedSet(rest, front.root, others[p].root);
  }

  /** The trees after the first keep distinct roots. */
  lemma RootsAtTail(front: PartialTree, others: seq<PartialTree>, pos: map<nat, nat>) returns (pos': map<nat, nat>)
    requires RootsAt([front] + others, pos)
    ensures RootsAt(others, pos')
  {
    var trees := [front] + others;
    pos' := map r | r in pos :: if pos[r] >= 1 then pos[r] - 1 else 0;
    forall i | 0 <= i < |others| ensures others[i].root in pos' && pos'[others[i].root] == i {
      assert trees[i + 1] == others[i];
    }
  }

  /** The roots of a one-tree list. */
  lemma RootsSingle(t: PartialTree)
    ensures Roots([t]) == {t.root}
  {
    assert [t][0] == t;
  }

  /** Set arithmetic for MergedRoots: adding r and taking out q commute when they differ. */
  lemma RelinkedSet(s: set<nat>, r: nat, q: nat)
    requires r != q
    ensures (s - {q}) + {r} == ({r} + s) - {q}
  {
  }
}
