/**
 The consistency check, on links that may be arbitrary.

 The check walks along `next` from its start and compares with no element but the start. That
 it ends at all, on any finite closed graph, is a consequence of the assertions it makes on
 the way: as long as they hold, the walk cannot run into itself anywhere but at the start.
 */
module RingCheck {
  import L = Links
  import opened RingLaws
  import opened Rings

  /** Both neighbours of x point back at x. */
  ghost predicate Consistent<T>(g: L.Graph<T>, x: T)
    requires g.Closed() && x in g.next
  {
    g.Prev(g.Next(x)) == x && g.Next(g.Prev(x)) == x
  }

  /** The walk has passed seen, and arrived at here. */
  ghost predicate Walk<T>(g: L.Graph<T>, start: T, seen: seq<T>, here: T)
    requires g.Closed()
  {
    && Chain(g, seen) && here in g.next
    && (seen == [] ==> here == start)
    && (seen != [] ==> seen[0] == start && here == g.Next(seen[|seen| - 1]) && g.Prev(here) == seen[|seen| - 1])
  }

  /** There is a cycle through x. */
  ghost predicate OnCycle<T>(g: L.Graph<T>, x: T)
    requires g.Closed()
  {
    exists c :: Cycle(g, c) && c[0] == x
  }

  lemma InsideChain<T>(g: L.Graph<T>, c: seq<T>, j: nat)
    requires g.Closed() && Chain(g, c) && j < |c|
    ensures j == 0 || g.Prev(c[j]) == c[j - 1]
  {
  }

  /** The first element met again can only be the start. */
  lemma WalkIsFresh<T>(g: L.Graph<T>, start: T, seen: seq<T>, here: T)
    requires g.Closed() && Walk(g, start, seen, here)
    ensures here in seen ==> here == start
  {
    if here in seen {
      var j :| 0 <= j < |seen| && seen[j] == here;
      InsideChain(g, seen, j);
    }
  }

  lemma WalkExtends<T>(g: L.Graph<T>, start: T, seen: seq<T>, here: T)
    requires g.Closed() && Walk(g, start, seen, here) && here !in seen && Consistent(g, here)
    ensures Walk(g, start, seen + [here], g.Next(here))
  {
  }

  lemma WalkCloses<T>(g: L.Graph<T>, start: T, seen: seq<T>)
    requires g.Closed() && Walk(g, start, seen, start) && seen != []
    ensures Cycle(g, seen)
  {
  }

  /** A walk stays on the cycle it started on. */
  lemma {:induction false} WalkFollowsCycle<T>(g: L.Graph<T>, start: T, seen: seq<T>, here: T, c: seq<T>)
    requires g.Closed() && Walk(g, start, seen, here) && Cycle(g, c) && c[0] == start
    requires seen == [] || here != start
    ensures |seen| < |c| && c[|seen|] == here
    decreases |seen|
  {
    if seen != [] {
      var n := |seen| - 1;
      assert n > 0 ==> seen[n] != seen[0] && g.Next(seen[n - 1]) == seen[n] && g.Prev(seen[n]) == seen[n - 1];
      WalkFollowsCycle(g, start, seen[..n], seen[n], c);
      assert n < |c| - 1 ==> g.Next(c[n]) == c[n + 1];
    }
  }

  lemma OnCycleIsConsistent<T>(g: L.Graph<T>, c: seq<T>, i: nat)
    requires g.Closed() && Cycle(g, c) && i < |c|
    ensures Consistent(g, c[i])
  {
    assert i < |c| - 1 ==> g.Prev(c[i + 1]) == c[i];
    assert i > 0 ==> g.Next(c[i - 1]) == c[i];
  }

  lemma FailureMeansNoCycle<T>(g: L.Graph<T>, start: T, seen: seq<T>, here: T)
    requires g.Closed() && Walk(g, start, seen, here) && !Consistent(g, here)
    requires seen == [] || here != start
    ensures !OnCycle(g, start)
  {
    forall c | Cycle(g, c) && c[0] == start ensures false {
      WalkFollowsCycle(g, start, seen, here, c);
      OnCycleIsConsistent(g, c, |seen|);
    }
  }

  lemma {:induction false} DistinctFits<T>(c: seq<T>, S: set<T>)
    requires Distinct(c) && forall i :: 0 <= i < |c| ==> c[i] in S
    ensures |c| <= |S|
  {
    if c != [] {
      var x := c[|c| - 1];
      DistinctFits(c[..|c| - 1], S - {x});
    }
  }

  /**
   APR_RING_CHECK_ELEM_CONSISTENCY. The result is false where one of the macro's asserts would
   fail, and here is then the element that fails it: it was reached over seen, and every element
   of seen has passed both asserts. The result is true exactly if the start is on a well-formed
   ring, and then seen is that ring.
   */
  method CheckElemConsistency<D>(ep: Elem<D>, ghost S: set<Elem<D>>)
    returns (ok: bool, seen: seq<Elem<D>>, here: Elem<D>)
    requires Closed(S) && ep in S
    ensures ok <==> OnCycle(Fields(S), ep)
    ensures ok ==> Cycle(Fields(S), seen) && seen[0] == ep && |seen| <= |S| && here == ep
    ensures !ok ==> here in S && Walk(Fields(S), ep, seen, here) && !Consistent(Fields(S), here) && |seen| < |S|
    ensures forall i :: 0 <= i < |seen| ==> seen[i] in S && Consistent(Fields(S), seen[i])
  {
    hide Fields, Consistent, Walk, Cycle;
    Reads(ep, S);
    var start := ep;
    here := start;
    seen := [];
    WalkStarts(Fields(S), ep);
    while true
      invariant here in S && Walk(Fields(S), start, seen, here)
      invariant seen != [] ==> here != start
      invariant forall i :: 0 <= i < |seen| ==> seen[i] in S && Consistent(Fields(S), seen[i])
      decreases |S| - |seen|
    {
      WalkIsFresh(Fields(S), start, seen, here);
      WalkFits(Fields(S), start, seen, here);
      Reads(here, S);
      Reads(here.next, S);
      Reads(here.prev, S);
      ConsistentMeans(here, S);
      if here.next.prev != here {
        FailureMeansNoCycle(Fields(S), start, seen, here);
        return false, seen, here;
      }
      if here.prev.next != here {
        FailureMeansNoCycle(Fields(S), start, seen, here);
        return false, seen, here;
      }
      WalkExtends(Fields(S), start, seen, here);
      seen := seen + [here];
      here := here.next;
      if here == start {
        WalkCloses(Fields(S), start, seen);
        WalkStartsAt(Fields(S), start, seen, here);
        return true, seen, here;
      }
    }
  }

  lemma ConsistentMeans<D>(here: Elem<D>, S: set<Elem<D>>)
    requires Closed(S) && here in S
    ensures here in Fields(S).next
    ensures Consistent(Fields(S), here) <==> here.next.prev == here && here.prev.next == here
  {
  }

  lemma WalkStarts<T>(g: L.Graph<T>, start: T)
    requires g.Closed() && start in g.next
    ensures Walk(g, start, [], start)
  {
  }

  lemma WalkStartsAt<T>(g: L.Graph<T>, start: T, seen: seq<T>, here: T)
    requires g.Closed() && Walk(g, start, seen, here) && seen != []
    ensures seen[0] == start
  {
  }

  lemma WalkFits<T>(g: L.Graph<T>, start: T, seen: seq<T>, here: T)
    requires g.Closed() && Walk(g, start, seen, here) && here !in seen
    ensures |seen| < |g.next.Keys|
  {
    DistinctFits(seen + [here], g.next.Keys);
  }

  /** Every well-formed ring passes, whichever of its elements the check starts at. */
  lemma RingPassesFromAnywhere<T>(g: L.Graph<T>, h: T, s: seq<T>, i: nat)
    requires g.Closed() && Ring(g, h, s) && i <= |s|
    ensures OnCycle(g, ([h] + s)[i])
  {
    var c := [h] + s;
    assert c[..i] + c[i..] == c;
    Rotate(g, c[..i], c[i..]);
    assert (c[i..] + c[..i])[0] == c[i];
  }
}
