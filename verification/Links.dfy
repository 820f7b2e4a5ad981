/**
 The link fields of a set of ring elements, as a value.

 A `Graph` is a snapshot of the `next` and `prev` fields of every element in some set.
 Each ring macro is a function on graphs that makes the macro's stores, one by one and in
 the macro's order; an argument of a macro that is itself an expression over the fields is
 read again at every place where the macro text repeats it.
 */
module Links {

  datatype Graph<T> = Graph(next: map<T, T>, prev: map<T, T>) {

    /** APR_RING_NEXT, and APR_RING_FIRST for a head. */
    ghost function Next(x: T): T
      requires x in next
    {
      next[x]
    }

    /** APR_RING_PREV, and APR_RING_LAST for a head. */
    ghost function Prev(x: T): T
      requires x in prev
    {
      prev[x]
    }

    /** Every element has both fields, and no field points outside the graph. */
    ghost predicate Closed() {
      && next.Keys == prev.Keys
      && (forall x {:trigger Next(x)} {:trigger Prev(x)} | x in next :: Next(x) in next && Prev(x) in next)
    }

    ghost function SetNext(x: T, y: T): (g: Graph<T>)
      requires Closed() && x in next && y in next
      ensures g.Closed() && g.next.Keys == next.Keys && g.prev == prev
      ensures forall z {:trigger g.Next(z)} | z in next :: g.Next(z) == if z == x then y else Next(z)
      ensures forall z {:trigger g.Prev(z)} | z in next :: g.Prev(z) == Prev(z)
    {
      var g := Graph(next[x := y], prev);
      assert forall z {:trigger g.Next(z)} | z in next :: g.Next(z) == if z == x then y else Next(z);
      assert forall z {:trigger g.Prev(z)} | z in next :: g.Prev(z) == Prev(z);
      g
    }

    ghost function SetPrev(x: T, y: T): (g: Graph<T>)
      requires Closed() && x in next && y in next
      ensures g.Closed() && g.next == next && g.prev.Keys == prev.Keys
      ensures forall z {:trigger g.Prev(z)} | z in next :: g.Prev(z) == if z == x then y else Prev(z)
      ensures forall z {:trigger g.Next(z)} | z in next :: g.Next(z) == Next(z)
    {
      var g := Graph(next, prev[x := y]);
      assert forall z {:trigger g.Prev(z)} | z in next :: g.Prev(z) == if z == x then y else Prev(z);
      assert forall z {:trigger g.Next(z)} | z in next :: g.Next(z) == Next(z);
      g
    }
  }

  /** APR_RING_INIT, and APR_RING_ELEM_INIT for a single element: both fields point to `x`. */
  ghost function SelfLink<T>(g: Graph<T>, x: T): (g': Graph<T>)
    requires g.Closed() && x in g.next
    ensures g'.Closed() && g'.next.Keys == g.next.Keys
  {
    g.SetNext(x, x).SetPrev(x, x)
  }

  /** APR_RING_SPLICE_BEFORE */
  ghost function SpliceBefore<T>(g: Graph<T>, lep: T, ep1: T, epN: T): (g': Graph<T>)
    requires g.Closed() && lep in g.next && ep1 in g.next && epN in g.next
    ensures g'.Closed() && g'.next.Keys == g.next.Keys
  {
    var g1 := g.SetNext(epN, lep);
    var g2 := g1.SetPrev(ep1, g1.Prev(lep));
    var g3 := g2.SetNext(g2.Prev(lep), ep1);
    g3.SetPrev(lep, epN)
  }

  /** APR_RING_SPLICE_AFTER */
  ghost function SpliceAfter<T>(g: Graph<T>, lep: T, ep1: T, epN: T): (g': Graph<T>)
    requires g.Closed() && lep in g.next && ep1 in g.next && epN in g.next
    ensures g'.Closed() && g'.next.Keys == g.next.Keys
  {
    var g1 := g.SetPrev(ep1, lep);
    var g2 := g1.SetNext(epN, g1.Next(lep));
    var g3 := g2.SetPrev(g2.Next(lep), epN);
    g3.SetNext(lep, ep1)
  }

  /** APR_RING_UNSPLICE; APR_RING_REMOVE is the case ep1 == epN. */
  ghost function Unsplice<T>(g: Graph<T>, ep1: T, epN: T): (g': Graph<T>)
    requires g.Closed() && ep1 in g.next && epN in g.next
    ensures g'.Closed() && g'.next.Keys == g.next.Keys
  {
    var g1 := g.SetNext(g.Prev(ep1), g.Next(epN));
    g1.SetPrev(g1.Next(epN), g1.Prev(ep1))
  }

  /** APR_RING_CONCAT: the first and last element of h2 are read from h2 in every store. */
  ghost function Concat<T>(g: Graph<T>, h1: T, h2: T): (g': Graph<T>)
    requires g.Closed() && h1 in g.next && h2 in g.next
    ensures g'.Closed() && g'.next.Keys == g.next.Keys
  {
    if g.Next(h2) == h2 then g
    else
      var g1 := g.SetNext(g.Prev(h2), h1);
      var g2 := g1.SetPrev(g1.Next(h2), g1.Prev(h1));
      var g3 := g2.SetNext(g2.Prev(h1), g2.Next(h2));
      var g4 := g3.SetPrev(h1, g3.Prev(h2));
      SelfLink(g4, h2)
  }

  /** APR_RING_PREPEND */
  ghost function Prepend<T>(g: Graph<T>, h1: T, h2: T): (g': Graph<T>)
    requires g.Closed() && h1 in g.next && h2 in g.next
    ensures g'.Closed() && g'.next.Keys == g.next.Keys
  {
    if g.Next(h2) == h2 then g
    else
      var g1 := g.SetPrev(g.Next(h2), h1);
      var g2 := g1.SetNext(g1.Prev(h2), g1.Next(h1));
      var g3 := g2.SetPrev(g2.Next(h1), g2.Prev(h2));
      var g4 := g3.SetNext(h1, g3.Next(h2));
      SelfLink(g4, h2)
  }
}
