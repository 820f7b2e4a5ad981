/**
 Iterating over a ring with a body that moves elements to the tail of another ring.
 */
module RingMoves {
  import L = Links
  import opened RingLaws
  import opened Rings

  /** What one turn leaves of the second ring. */
  ghost function Gained<T>(keep: bool, t: seq<T>, x: T): seq<T> {
    if keep then t else t + [x]
  }

  /** Both rings, sharing nothing. */
  ghost predicate TwoRings<T>(g: L.Graph<T>, h1: T, s: seq<T>, h2: T, t: seq<T>) {
    g.Closed() && Ring(g, h1, s) && Ring(g, h2, t) && Apart(h1, s, h2, t)
  }

  lemma SplitUp<T>(hp: T, a: seq<T>, x: T, b: seq<T>)
    ensures (a + [x] + b)[|a|] == x && (a + [x] + b)[..|a|] == a && (a + [x] + b)[|a| + 1..] == b
    ensures Members(hp, a + [x] + b) == Members(hp, a + b) + {x}
  {
    assert ([hp] + (a + [x] + b))[|a| + 1] == x;
    assert forall i :: 0 <= i < |a + b| ==> (a + b)[i] == (a + [x] + b)[if i < |a| then i else i + 1];
  }

  /** The element leaves the first ring; it is then on neither. */
  lemma MoveOut<T>(g: L.Graph<T>, h1: T, a: seq<T>, x: T, b: seq<T>, h2: T, t: seq<T>)
    requires TwoRings(g, h1, a + [x] + b, h2, t)
    ensures x in g.next && x !in Members(h1, a + b) && x !in Members(h2, t)
    ensures var g' := L.Unsplice(g, x, x);
            TwoRings(g', h1, a + b, h2, t) && Untouched(g, g', Members(h1, a + [x] + b))
  {
    hide L.Unsplice, Ring, Members;
    SplitUp(h1, a, x, b);
    var s, k := a + [x] + b, |a| + 1;
    RemoveOne(g, h1, s, k);
    RingFrame(g, L.Unsplice(g, x, x), h2, t, Members(h1, s));
    TakenOnce(g, h1, a, x, b);
  }

  lemma TakenOnce<T>(g: L.Graph<T>, hp: T, a: seq<T>, x: T, b: seq<T>)
    requires g.Closed() && Ring(g, hp, a + [x] + b)
    ensures x !in Members(hp, a + b)
  {
    var c, d := [hp] + (a + [x] + b), [hp] + (a + b);
    assert c[|a| + 1] == x;
    forall i | 0 <= i < |d| ensures d[i] != x {
      assert d[i] == c[if i <= |a| then i else i + 1];
    }
  }

  /** An element on neither ring goes to the tail of the second. */
  lemma MoveIn<T>(g: L.Graph<T>, h1: T, s: seq<T>, h2: T, t: seq<T>, x: T)
    requires TwoRings(g, h1, s, h2, t) && x in g.next && x !in Members(h1, s) && x !in Members(h2, t)
    ensures h2 in g.next
    ensures var g' := L.SpliceBefore(g, h2, x, x);
            TwoRings(g', h1, s, h2, t + [x]) && Untouched(g, g', Members(h2, t) + {x})
    ensures Members(h2, t + [x]) == Members(h2, t) + {x}
  {
    hide L.SpliceBefore, Ring, Spliced, Cycle;
    RingChain(g, h2, t);
    assert ([h2] + t)[0] == h2;
    SpliceBeforeAt(g, h2, t, 0, [x]);
    SpliceBeforeStores(g, h2, x, x);
    NeighboursAreMembers(g, h2, t, 0);
    var g' := L.SpliceBefore(g, h2, x, x);
    SplicedTouches(g, g', g.Prev(h2), h2, x, x, Members(h2, t) + {x});
    RingFrame(g, g', h1, s, Members(h2, t) + {x});
  }

  /** The body of the loop: REMOVE and INSERT_TAIL, unless the element is kept. */
  method MoveOne<D>(ep: Elem<D>, keep: bool, h2: Elem<D>, ghost S: set<Elem<D>>,
                    ghost h1: Elem<D>, ghost a: seq<Elem<D>>, ghost b: seq<Elem<D>>, ghost t: seq<Elem<D>>)
    requires Closed(S) && TwoRings(Fields(S), h1, a + [ep] + b, h2, t)
    modifies S`next, S`prev
    ensures Closed(S) && TwoRings(Fields(S), h1, Left(keep, a, ep, b), h2, Gained(keep, t, ep))
    ensures Untouched(old(Fields(S)), Fields(S), Members(h1, a + [ep] + b) + Members(h2, t))
    ensures Members(h1, Left(keep, a, ep, b)) + Members(h2, Gained(keep, t, ep))
         == Members(h1, a + [ep] + b) + Members(h2, t)
  {
    hide Ring, L.Unsplice, L.SpliceBefore, Members, Apart, Untouched;
    if keep {
      UntouchedNot(Fields(S), Members(h1, a + [ep] + b) + Members(h2, t));
      return;
    }
    ghost var g0 := Fields(S);
    MoveOut(g0, h1, a, ep, b, h2, t);
    SplitUp(h1, a, ep, b);
    Reads(ep, S);
    Remove(ep, S);
    ghost var g1 := Fields(S);
    MoveIn(g1, h1, a + b, h2, t, ep);
    MembersAt(h2, t);
    Reads(h2, S);
    InsertTail(h2, ep, S, t);
    UntouchedTwice(g0, g1, Fields(S), Members(h1, a + [ep] + b), Members(h2, t) + {ep},
                   Members(h1, a + [ep] + b) + Members(h2, t));
  }

  lemma MoveStep<T>(s: seq<T>, keep: T -> bool, i: nat, t: seq<T>, a: seq<T>, x: T, b: seq<T>, k: bool)
    requires i < |s| && a == Kept(s[..i], keep) && x == s[i] && b == s[i + 1..] && k == keep(x)
    ensures a + s[i..] == a + [x] + b
    ensures Kept(s[..i + 1], keep) + s[i + 1..] == Left(k, a, x, b)
    ensures t + Dropped(s[..i + 1], keep) == Gained(k, t + Dropped(s[..i], keep), x)
  {
    KeptStep(s, keep, i, a, x, b, k);
    assert s[..i + 1][..i] == s[..i];
  }

  lemma MoveStart<T>(s: seq<T>, keep: T -> bool, t: seq<T>)
    ensures Kept(s[..0], keep) + s[0..] == s && t + Dropped(s[..0], keep) == t
  {
  }

  lemma MoveEnd<T>(s: seq<T>, keep: T -> bool)
    ensures Kept(s[..|s|], keep) + s[|s|..] == Kept(s, keep) && Dropped(s[..|s|], keep) == Dropped(s, keep)
  {
    assert s[..|s|] == s;
  }

  /**
   APR_RING_FOREACH_SAFE with a body that moves the current element to the tail of the ring of
   h2 unless keep holds of it: the first ring is left with the kept elements, the second gains
   the others, each ring in the order of the first.
   */
  method ForeachMove<D>(h1: Elem<D>, h2: Elem<D>, keep: Elem<D> -> bool,
                        ghost S: set<Elem<D>>, ghost s: seq<Elem<D>>, ghost t: seq<Elem<D>>)
    requires Closed(S) && TwoRings(Fields(S), h1, s, h2, t)
    modifies S`next, S`prev
    ensures Closed(S) && TwoRings(Fields(S), h1, Kept(s, keep), h2, t + Dropped(s, keep))
    ensures Untouched(old(Fields(S)), Fields(S), Members(h1, s) + Members(h2, t))
  {
    hide Ring, Kept, Dropped, Left, Gained, At, Members, Apart, Fields, Untouched, TwoRings;
    ghost var g0, all := Fields(S), Members(h1, s) + Members(h2, t);
    FirstOfTwo(g0, h1, s, h2, t);
    RingIsIn(h1, S, s);
    UntouchedNot(g0, all);
    MoveStart(s, keep, t);
    CursorSteps(g0, h1, s, 0);
    Reads(h1, S);
    var ep1 := h1.next;
    Reads(ep1, S);
    var ep2 := ep1.next;
    ghost var i: nat := 0;
    while ep1 != h1
      invariant Closed(S) && i <= |s|
      invariant TwoRings(Fields(S), h1, Kept(s[..i], keep) + s[i..], h2, t + Dropped(s[..i], keep))
      invariant Members(h1, Kept(s[..i], keep) + s[i..]) + Members(h2, t + Dropped(s[..i], keep)) == all
      invariant ep1 == At(h1, s, i) && ep1 in S && ep2 == ep1.next
      invariant Untouched(g0, Fields(S), all)
      decreases |s| - i
    {
      ghost var g := Fields(S);
      CursorMeans(h1, s, i);
      ghost var a, b, d := Kept(s[..i], keep), s[i + 1..], t + Dropped(s[..i], keep);
      var kept := keep(ep1);
      MoveStep(s, keep, i, t, a, ep1, b, kept);
      FirstOfTwo(g, h1, a + [ep1] + b, h2, d);
      assert ep2 == At(h1, s, i + 1) && ep2 in S by {
        CurrentElement(g, h1, a, ep1, b);
        CursorTail(h1, s, i);
        Reads(ep1, S);
      }
      MoveOne(ep1, kept, h2, S, h1, a, b, d);
      UntouchedTwice(g0, g, Fields(S), all, all, all);
      ep1 := ep2;
      Reads(ep1, S);
      ep2 := ep1.next;
      i := i + 1;
    }
    CursorMeans(h1, s, i);
    MoveEnd(s, keep);
  }

  lemma FirstOfTwo<T>(g: L.Graph<T>, h1: T, s: seq<T>, h2: T, t: seq<T>)
    requires TwoRings(g, h1, s, h2, t)
    ensures g.Closed() && Ring(g, h1, s) && h1 !in s
  {
    RingChain(g, h1, s);
  }
}
