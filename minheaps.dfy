/** `structures.MinHeap<Arc>` is not part of this model; its contract is: a heap holds a multiset of
    arcs, `isEmpty` tests for the empty multiset and `deleteMin` removes and returns an arc of least
    weight (ties broken arbitrarily). */
module MinHeaps {
  import opened Wrappers
  import opened Graphs

  type Heap = multiset<Arc>

  /** a is in h and no arc of h weighs less. */
  predicate IsMinimum(a: Arc, h: Heap)
  {
    a in h && forall b :: b in h ==> a.weight <= b.weight
  }

  /** Every non-empty heap has a least-weight arc. */
  lemma {:induction false} MinimumExists(h: Heap)
    requires h != multiset{}
    ensures exists a :: IsMinimum(a, h)
    decreases |h|
  {
    var x :| x in h;
    var rest := h - multiset{x};
    assert h == rest + multiset{x};
    if rest == multiset{} {
      assert IsMinimum(x, h);
    } else {
      MinimumExists(rest);
      var m :| IsMinimum(m, rest);
      if x.weight <= m.weight {
        assert IsMinimum(x, h);
      } else {
        assert IsMinimum(m, h);
      }
    }
  }

  /** `isEmpty` */
  function IsEmpty(h: Heap): (b: bool)
    ensures b <==> |h| == 0
  {
    h == multiset{}
  }

  /** `deleteMin`: on a non-empty heap, a least-weight arc and the heap without one copy of it;
      on an empty heap, EmptyQueue and the heap unchanged. */
  method DeleteMin(h: Heap) returns (r: Result<Arc>, rest: Heap)
    ensures h == multiset{} ==> r == Err(EmptyQueue) && rest == h
    ensures h != multiset{} ==> r.Ok? && IsMinimum(r.value, h) && rest == h - multiset{r.value}
    ensures |rest| == if h == multiset{} then 0 else |h| - 1
  {
    if h == multiset{} {
      return Err(EmptyQueue), h;
    }
    MinimumExists(h);
    var a :| IsMinimum(a, h);
    r, rest := Ok(a), h - multiset{a};
  }
}
