/**
 Rings in memory: the macros as in-place updates of `next` and `prev` fields.

 A head is an element as well: the address arithmetic of APR_RING_SENTINEL makes FIRST(hp) and
 NEXT(sentinel) the same field, so the element `hp` below is head and sentinel in one.

 Each method takes a ghost set `S` of elements that contains everything the links reach. Its
 contract says what becomes of the fields of all of `S`, in terms of the functions of `Links`.
 */
module Rings {
  import L = Links
  import opened RingLaws

  class Elem<D> {
    var next: Elem<D>
    var prev: Elem<D>
    const data: D

    constructor (data: D)
      ensures next == this && prev == this && this.data == data
    {
      next, prev := this, this;
      this.data := data;
    }
  }

  /** The fields of all elements of S. */
  ghost function Fields<D>(S: set<Elem<D>>): L.Graph<Elem<D>>
    reads S
  {
    L.Graph(map e | e in S :: e.next, map e | e in S :: e.prev)
  }

  /** No link leads out of S. */
  ghost predicate Closed<D>(S: set<Elem<D>>)
    reads S
  {
    Fields(S).Closed()
  }

  /** One store, and what it does to the fields of S. */
  method StoreNext<D>(x: Elem<D>, y: Elem<D>, ghost S: set<Elem<D>>)
    requires Closed(S) && x in S && y in S
    modifies x`next
    ensures Closed(S) && Fields(S) == old(Fields(S)).SetNext(x, y)
    ensures x.next == y
  {
    x.next := y;
    assert Fields(S) == old(Fields(S)).SetNext(x, y);
  }

  method StorePrev<D>(x: Elem<D>, y: Elem<D>, ghost S: set<Elem<D>>)
    requires Closed(S) && x in S && y in S
    modifies x`prev
    ensures Closed(S) && Fields(S) == old(Fields(S)).SetPrev(x, y)
    ensures x.prev == y
  {
    x.prev := y;
    assert Fields(S) == old(Fields(S)).SetPrev(x, y);
  }

  lemma Reads<D>(x: Elem<D>, S: set<Elem<D>>)
    requires Closed(S) && x in S
    ensures x.next == Fields(S).Next(x) && x.prev == Fields(S).Prev(x)
    ensures x.next in S && x.prev in S
    ensures Fields(S).next.Keys == S
  {
  }

  /** APR_RING_INIT and APR_RING_ELEM_INIT */
  method Init<D>(hp: Elem<D>, ghost S: set<Elem<D>>)
    requires Closed(S) && hp in S
    modifies hp`next, hp`prev
    ensures Closed(S) && Fields(S) == L.SelfLink(old(Fields(S)), hp)
    ensures SelfLinked(old(Fields(S)), Fields(S), hp)
  {
    SelfLinkStores(Fields(S), hp);
    StoreNext(hp, hp, S);
    StorePrev(hp, hp, S);
  }

  predicate Empty<D>(hp: Elem<D>)
    reads hp
  {
    hp.next == hp
  }

  lemma SpliceBeforeInMemory<D>(lep: Elem<D>, ep1: Elem<D>, epN: Elem<D>, S: set<Elem<D>>)
    requires Closed(S) && lep in S && ep1 in S && epN in S
    ensures Spliced(Fields(S), L.SpliceBefore(Fields(S), lep, ep1, epN), lep.prev, lep, ep1, epN)
  {
    Reads(lep, S);
    SpliceBeforeStores(Fields(S), lep, ep1, epN);
  }

  lemma SpliceAfterInMemory<D>(lep: Elem<D>, ep1: Elem<D>, epN: Elem<D>, S: set<Elem<D>>)
    requires Closed(S) && lep in S && ep1 in S && epN in S
    ensures Spliced(Fields(S), L.SpliceAfter(Fields(S), lep, ep1, epN), lep, lep.next, ep1, epN)
  {
    Reads(lep, S);
    SpliceAfterStores(Fields(S), lep, ep1, epN);
  }

  lemma UnspliceInMemory<D>(ep1: Elem<D>, epN: Elem<D>, S: set<Elem<D>>)
    requires Closed(S) && ep1 in S && epN in S
    ensures Bypassed(Fields(S), L.Unsplice(Fields(S), ep1, epN), ep1.prev, epN.next)
  {
    Reads(ep1, S);
    Reads(epN, S);
    UnspliceStores(Fields(S), ep1, epN);
  }

  /** APR_RING_SPLICE_BEFORE, for any lep, the sentinel included, and any aliasing. */
  method SpliceBefore<D>(lep: Elem<D>, ep1: Elem<D>, epN: Elem<D>, ghost S: set<Elem<D>>)
    requires Closed(S) && lep in S && ep1 in S && epN in S
    modifies epN`next, ep1`prev, lep.prev`next, lep`prev
    ensures Closed(S) && Fields(S) == L.SpliceBefore(old(Fields(S)), lep, ep1, epN)
    ensures Spliced(old(Fields(S)), Fields(S), old(lep.prev), lep, ep1, epN)
    ensures InsertedBeforeOn(old(Fields(S)), Fields(S), lep, ep1, epN)
  {
    SpliceBeforeOn(Fields(S), lep, ep1, epN);
    SpliceBeforeInMemory(lep, ep1, epN, S);
    hide Closed, Fields, Spliced, InsertedBeforeOn, InsertedAfterOn;
    StoreNext(epN, lep, S);
    Reads(lep, S);
    StorePrev(ep1, lep.prev, S);
    Reads(lep, S);
    StoreNext(lep.prev, ep1, S);
    StorePrev(lep, epN, S);
  }

  /** APR_RING_SPLICE_AFTER, for any lep, the sentinel included, and any aliasing. */
  method SpliceAfter<D>(lep: Elem<D>, ep1: Elem<D>, epN: Elem<D>, ghost S: set<Elem<D>>)
    requires Closed(S) && lep in S && ep1 in S && epN in S
    modifies ep1`prev, epN`next, lep.next`prev, lep`next
    ensures Closed(S) && Fields(S) == L.SpliceAfter(old(Fields(S)), lep, ep1, epN)
    ensures Spliced(old(Fields(S)), Fields(S), lep, old(lep.next), ep1, epN)
    ensures InsertedAfterOn(old(Fields(S)), Fields(S), lep, ep1, epN)
  {
    SpliceAfterOn(Fields(S), lep, ep1, epN);
    SpliceAfterInMemory(lep, ep1, epN, S);
    hide Closed, Fields, Spliced, InsertedBeforeOn, InsertedAfterOn;
    StorePrev(ep1, lep, S);
    Reads(lep, S);
    StoreNext(epN, lep.next, S);
    Reads(lep, S);
    StorePrev(lep.next, epN, S);
    StoreNext(lep, ep1, S);
  }

  method InsertBefore<D>(lep: Elem<D>, nep: Elem<D>, ghost S: set<Elem<D>>)
    requires Closed(S) && lep in S && nep in S
    modifies nep`next, nep`prev, lep.prev`next, lep`prev
    ensures Closed(S) && Fields(S) == L.SpliceBefore(old(Fields(S)), lep, nep, nep)
    ensures InsertedBeforeOn(old(Fields(S)), Fields(S), lep, nep, nep)
  {
    SpliceBefore(lep, nep, nep, S);
  }

  method InsertAfter<D>(lep: Elem<D>, nep: Elem<D>, ghost S: set<Elem<D>>)
    requires Closed(S) && lep in S && nep in S
    modifies nep`next, nep`prev, lep.next`prev, lep`next
    ensures Closed(S) && Fields(S) == L.SpliceAfter(old(Fields(S)), lep, nep, nep)
    ensures InsertedAfterOn(old(Fields(S)), Fields(S), lep, nep, nep)
  {
    SpliceAfter(lep, nep, nep, S);
  }

  method SpliceHead<D>(hp: Elem<D>, ep1: Elem<D>, epN: Elem<D>, ghost S: set<Elem<D>>)
    requires Closed(S) && hp in S && ep1 in S && epN in S
    modifies ep1`prev, epN`next, hp.next`prev, hp`next
    ensures Closed(S) && Fields(S) == L.SpliceAfter(old(Fields(S)), hp, ep1, epN)
    ensures InsertedAfterOn(old(Fields(S)), Fields(S), hp, ep1, epN)
  {
    SpliceAfter(hp, ep1, epN, S);
  }

  method SpliceTail<D>(hp: Elem<D>, ep1: Elem<D>, epN: Elem<D>, ghost S: set<Elem<D>>)
    requires Closed(S) && hp in S && ep1 in S && epN in S
    modifies epN`next, ep1`prev, hp.prev`next, hp`prev
    ensures Closed(S) && Fields(S) == L.SpliceBefore(old(Fields(S)), hp, ep1, epN)
    ensures InsertedBeforeOn(old(Fields(S)), Fields(S), hp, ep1, epN)
  {
    SpliceBefore(hp, ep1, epN, S);
  }

  /** INSERT_HEAD on a ring: the new element comes first, and the ring's heap is otherwise as before. */
  method InsertHead<D>(hp: Elem<D>, nep: Elem<D>, ghost S: set<Elem<D>>, ghost s: seq<Elem<D>>)
    requires Closed(S) && nep in S && Ring(Fields(S), hp, s) && nep !in [hp] + s
    modifies nep`next, nep`prev, hp.next`prev, hp`next
    ensures Closed(S) && Fields(S) == L.SpliceAfter(old(Fields(S)), hp, nep, nep)
    ensures Ring(Fields(S), hp, [nep] + s)
  {
    hide Ring, L.SpliceAfter, InsertedAfterOn;
    ghost var g := Fields(S);
    RingHead(g, hp, s);
    SpliceHead(hp, nep, nep, S);
    InsertedMeans(g, Fields(S), hp, s, 0, [nep]);
    assert s[..0] + [nep] + s[0..] == [nep] + s;
  }

  /** INSERT_TAIL on a ring: the new element comes last. */
  method InsertTail<D>(hp: Elem<D>, nep: Elem<D>, ghost S: set<Elem<D>>, ghost s: seq<Elem<D>>)
    requires Closed(S) && nep in S && Ring(Fields(S), hp, s) && nep !in [hp] + s
    modifies nep`next, nep`prev, hp.prev`next, hp`prev
    ensures Closed(S) && Fields(S) == L.SpliceBefore(old(Fields(S)), hp, nep, nep)
    ensures Ring(Fields(S), hp, s + [nep])
  {
    hide Ring, L.SpliceBefore, InsertedBeforeOn;
    ghost var g := Fields(S);
    RingHead(g, hp, s);
    SpliceTail(hp, nep, nep, S);
    InsertedMeans(g, Fields(S), hp, s, 0, [nep]);
  }

  lemma RingHead<D>(g: L.Graph<Elem<D>>, hp: Elem<D>, s: seq<Elem<D>>)
    requires g.Closed() && Ring(g, hp, s)
    ensures hp in g.next && ([hp] + s)[0] == hp
  {
  }

  /** APR_RING_UNSPLICE */
  method Unsplice<D>(ep1: Elem<D>, epN: Elem<D>, ghost S: set<Elem<D>>)
    requires Closed(S) && ep1 in S && epN in S
    modifies ep1.prev`next, epN.next`prev
    ensures Closed(S) && Fields(S) == L.Unsplice(old(Fields(S)), ep1, epN)
    ensures Bypassed(old(Fields(S)), Fields(S), old(ep1.prev), old(epN.next))
    ensures TakenOutOn(old(Fields(S)), Fields(S), ep1, epN)
  {
    UnspliceOn(Fields(S), ep1, epN);
    UnspliceInMemory(ep1, epN, S);
    hide Closed, Fields, Bypassed, TakenOutOn;
    Reads(ep1, S);
    Reads(epN, S);
    ghost var n := epN.next;
    StoreNext(ep1.prev, epN.next, S);
    Reads(ep1, S);
    Reads(epN, S);
    assert epN.next == n;
    StorePrev(epN.next, ep1.prev, S);
  }

  method Remove<D>(ep: Elem<D>, ghost S: set<Elem<D>>)
    requires Closed(S) && ep in S
    modifies ep.prev`next, ep.next`prev
    ensures Closed(S) && Fields(S) == L.Unsplice(old(Fields(S)), ep, ep)
    ensures TakenOutOn(old(Fields(S)), Fields(S), ep, ep)
  {
    Unsplice(ep, ep, S);
  }

  /** APR_RING_CONCAT: FIRST(h2) and LAST(h2) are read again for every store that names them. */
  method Concat<D>(h1: Elem<D>, h2: Elem<D>, ghost S: set<Elem<D>>)
    requires Closed(S) && h1 in S && h2 in S
    modifies S`next, S`prev
    ensures Closed(S) && Fields(S) == L.Concat(old(Fields(S)), h1, h2)
    ensures ConcatenatedOn(old(Fields(S)), Fields(S), h1, h2)
  {
    ConcatOn(Fields(S), h1, h2);
    hide Closed, Fields, ConcatenatedOn, PrependedOn;
    Reads(h2, S);
    if !Empty(h2) {
      StoreNext(h2.prev, h1, S);
      Reads(h1, S);
      Reads(h2, S);
      StorePrev(h2.next, h1.prev, S);
      Reads(h1, S);
      Reads(h2, S);
      StoreNext(h1.prev, h2.next, S);
      Reads(h2, S);
      StorePrev(h1, h2.prev, S);
      Init(h2, S);
    }
  }

  method Prepend<D>(h1: Elem<D>, h2: Elem<D>, ghost S: set<Elem<D>>)
    requires Closed(S) && h1 in S && h2 in S
    modifies S`next, S`prev
    ensures Closed(S) && Fields(S) == L.Prepend(old(Fields(S)), h1, h2)
    ensures PrependedOn(old(Fields(S)), Fields(S), h1, h2)
  {
    PrependOn(Fields(S), h1, h2);
    hide Closed, Fields, ConcatenatedOn, PrependedOn;
    Reads(h2, S);
    if !Empty(h2) {
      StorePrev(h2.next, h1, S);
      Reads(h1, S);
      Reads(h2, S);
      StoreNext(h2.prev, h1.next, S);
      Reads(h1, S);
      Reads(h2, S);
      StorePrev(h1.next, h2.prev, S);
      Reads(h2, S);
      StoreNext(h1, h2.next, S);
      Init(h2, S);
    }
  }

  lemma CursorSteps<T>(g: L.Graph<T>, hp: T, s: seq<T>, i: nat)
    requires g.Closed() && Ring(g, hp, s) && i <= |s|
    ensures At(hp, s, i) in g.next && (At(hp, s, i) == hp <==> i == |s|)
    ensures i < |s| ==> g.Next(At(hp, s, i)) == At(hp, s, i + 1)
    ensures hp in g.next && g.Next(hp) == At(hp, s, 0)
  {
    var c := [hp] + s;
    assert i < |s| ==> c[i + 1] == s[i];
    assert i + 1 < |s| ==> g.Next(c[i + 1]) == c[i + 2];
    assert c[0] == hp && g.Next(c[0]) == if s == [] then c[0] else c[1];
  }

  lemma CursorMeans<T>(hp: T, s: seq<T>, i: nat)
    requires i <= |s| && hp !in s
    ensures At(hp, s, i) == hp <==> i == |s|
    ensures i < |s| ==> At(hp, s, i) == s[i]
  {
  }

  lemma CursorTail<T>(hp: T, s: seq<T>, i: nat)
    requires i < |s|
    ensures At(hp, s[i + 1..], 0) == At(hp, s, i + 1)
  {
  }

  lemma RingIsIn<D>(hp: Elem<D>, S: set<Elem<D>>, s: seq<Elem<D>>)
    requires Closed(S) && Ring(Fields(S), hp, s)
    ensures hp in S
    ensures Untouched(Fields(S), Fields(S), Members(hp, s))
  {
  }

  /** APR_RING_FOREACH with a body that leaves the links alone. */
  method Foreach<D>(hp: Elem<D>, ghost S: set<Elem<D>>, ghost s: seq<Elem<D>>) returns (visited: seq<Elem<D>>)
    requires Closed(S) && Ring(Fields(S), hp, s)
    ensures visited == s
  {
    hide Ring;
    visited := [];
    CursorSteps(Fields(S), hp, s, 0);
    var ep := hp.next;
    while ep != hp
      invariant |visited| <= |s| && visited == s[..|visited|] && ep == At(hp, s, |visited|)
      decreases |s| - |visited|
    {
      CursorSteps(Fields(S), hp, s, |visited|);
      Reads(ep, S);
      visited := visited + [ep];
      ep := ep.next;
    }
    CursorSteps(Fields(S), hp, s, |visited|);
  }

  /** The elements of s that satisfy keep, in order. */
  ghost function Kept<T>(s: seq<T>, keep: T -> bool): seq<T> {
    if s == [] then []
    else
      var last := s[|s| - 1];
      Kept(s[..|s| - 1], keep) + if keep(last) then [last] else []
  }

  lemma {:induction false} KeptExactly<T>(s: seq<T>, keep: T -> bool)
    ensures forall e :: e in Kept(s, keep) <==> e in s && keep(e)
    ensures forall i :: 0 <= i < |Kept(s, keep)| ==> Kept(s, keep)[i] in s
  {
    if s != [] {
      KeptExactly(s[..|s| - 1], keep);
      assert s == s[..|s| - 1] + [s[|s| - 1]];
    }
  }

  /** The elements of s that do not satisfy keep, in order. */
  ghost function Dropped<T>(s: seq<T>, keep: T -> bool): seq<T> {
    if s == [] then []
    else
      var last := s[|s| - 1];
      Dropped(s[..|s| - 1], keep) + if keep(last) then [] else [last]
  }

  lemma {:induction false} DroppedExactly<T>(s: seq<T>, keep: T -> bool)
    ensures forall e :: e in Dropped(s, keep) <==> e in s && !keep(e)
  {
    if s != [] {
      DroppedExactly(s[..|s| - 1], keep);
      assert s == s[..|s| - 1] + [s[|s| - 1]];
    }
  }

  /** A removed element may be freed: nothing is known about its fields from then on. */
  method Overwrite<D>(e: Elem<D>, next: Elem<D>, prev: Elem<D>, ghost S: set<Elem<D>>)
    requires Closed(S) && e in S && next in S && prev in S
    modifies e`next, e`prev
    ensures Closed(S) && Untouched(old(Fields(S)), Fields(S), {e})
  {
    StoreNext(e, next, S);
    StorePrev(e, prev, S);
  }

  /** Where the cursors stand when element |a| of the ring is current. */
  lemma CurrentElement<T>(g: L.Graph<T>, hp: T, a: seq<T>, x: T, b: seq<T>)
    requires g.Closed() && Ring(g, hp, a + [x] + b)
    ensures x in g.next && x != hp && g.Next(x) == At(hp, b, 0) && g.Next(x) != x
  {
    var c := [hp] + (a + [x] + b);
    assert c[|a| + 1] == x && c[0] == hp;
    assert b != [] ==> c[|a| + 2] == b[0];
  }

  /** Taking x out, whatever becomes of its own fields. */
  lemma DropsOne<T>(g: L.Graph<T>, g': L.Graph<T>, hp: T, a: seq<T>, x: T, b: seq<T>)
    requires g.Closed() && Ring(g, hp, a + [x] + b) && x in g.next
    requires Untouched(L.Unsplice(g, x, x), g', {x})
    ensures Ring(g', hp, a + b) && Untouched(g, g', Members(hp, a + [x] + b))
  {
    hide L.Unsplice, Ring;
    var s, k := a + [x] + b, |a|;
    RemoveOne(g, hp, s, k + 1);
    assert s[..k] + s[k + 1..] == a + b && s[k] == x;
    RingChain(g, hp, s);
    assert x !in a + b && x != hp by {
      assert forall i :: 0 <= i < |a + b| ==> (a + b)[i] == s[if i < k then i else i + 1];
    }
    RingFrame(L.Unsplice(g, x, x), g', hp, a + b, {x});
    MembersAt(hp, s);
    UntouchedTwice(g, L.Unsplice(g, x, x), g', Members(hp, s), {x}, Members(hp, s));
  }

  /** What one turn of the loop leaves of the ring a + [x] + b. */
  ghost function Left<T>(keep: bool, a: seq<T>, x: T, b: seq<T>): seq<T> {
    if keep then a + [x] + b else a + b
  }

  /**
   A loop body: unless it keeps the current element, it removes the element, whose memory is
   then overwritten with the arbitrary pointer junk.
   */
  method Visit<D>(ep: Elem<D>, keep: bool, junk: Elem<D>, ghost S: set<Elem<D>>,
                  ghost hp: Elem<D>, ghost a: seq<Elem<D>>, ghost b: seq<Elem<D>>)
    requires Closed(S) && ep in S && junk in S && Ring(Fields(S), hp, a + [ep] + b)
    modifies S`next, S`prev
    ensures Closed(S) && Ring(Fields(S), hp, Left(keep, a, ep, b))
    ensures Untouched(old(Fields(S)), Fields(S), Members(hp, a + [ep] + b))
  {
    hide Ring, L.Unsplice;
    if keep {
      return;
    }
    ghost var g := Fields(S);
    Reads(ep, S);
    Remove(ep, S);
    Overwrite(ep, junk, junk, S);
    DropsOne(g, Fields(S), hp, a, ep, b);
  }

  lemma KeptStep<T>(s: seq<T>, keep: T -> bool, i: nat, a: seq<T>, x: T, b: seq<T>, k: bool)
    requires i < |s| && a == Kept(s[..i], keep) && x == s[i] && b == s[i + 1..] && k == keep(x)
    ensures s[..i + 1] == s[..i] + [x]
    ensures a + s[i..] == a + [x] + b
    ensures Kept(s[..i + 1], keep) + s[i + 1..] == Left(k, a, x, b)
  {
    assert s[..i + 1][..i] == s[..i];
  }

  lemma LoopStart<T>(s: seq<T>, keep: T -> bool)
    ensures Kept(s[..0], keep) + s[0..] == s
  {
  }

  lemma LoopEnd<T>(s: seq<T>, keep: T -> bool)
    ensures s[..|s|] == s && Kept(s[..|s|], keep) + s[|s|..] == Kept(s, keep)
  {
  }

  lemma LoopMembers<T>(hp: T, s: seq<T>, keep: T -> bool, i: nat)
    requires i <= |s|
    ensures Members(hp, Kept(s[..i], keep) + s[i..]) <= Members(hp, s)
  {
    KeptExactly(s[..i], keep);
  }

  /**
   APR_RING_FOREACH_SAFE with a body that takes out the current element unless keep holds of it.
   The memory of an element taken out is overwritten at once with the arbitrary pointers junk,
   so nothing that holds afterwards can depend on its links.
   */
  method ForeachSafe<D>(hp: Elem<D>, keep: Elem<D> -> bool, junk: Elem<D> -> Elem<D>,
                        ghost S: set<Elem<D>>, ghost s: seq<Elem<D>>)
    returns (visited: seq<Elem<D>>)
    requires Closed(S) && Ring(Fields(S), hp, s) && (forall e | e in S :: junk(e) in S)
    modifies S`next, S`prev
    ensures visited == s
    ensures Closed(S) && Ring(Fields(S), hp, Kept(s, keep))
    ensures Untouched(old(Fields(S)), Fields(S), Members(hp, s))
  {
    hide Ring, Kept, Left, At, Members, Fields, Untouched;
    visited := [];
    ghost var g0 := Fields(S);
    RingIsIn(hp, S, s);
    LoopStart(s, keep);
    RingChain(g0, hp, s);
    CursorSteps(g0, hp, s, 0);
    Reads(hp, S);
    var ep1 := hp.next;
    Reads(ep1, S);
    var ep2 := ep1.next;
    ghost var i: nat := 0;
    while ep1 != hp
      invariant Closed(S) && i <= |s| && visited == s[..i]
      invariant Ring(Fields(S), hp, Kept(s[..i], keep) + s[i..])
      invariant ep1 == At(hp, s, i) && ep1 in S && ep2 == ep1.next
      invariant Untouched(g0, Fields(S), Members(hp, s))
      decreases |s| - i
    {
      ghost var g := Fields(S);
      CursorMeans(hp, s, i);
      ghost var a, b := Kept(s[..i], keep), s[i + 1..];
      var kept := keep(ep1);
      KeptStep(s, keep, i, a, ep1, b, kept);
      assert ep2 == At(hp, s, i + 1) && ep2 in S by {
        CurrentElement(g, hp, a, ep1, b);
        CursorTail(hp, s, i);
        Reads(ep1, S);
      }
      LoopMembers(hp, s, keep, i);
      visited := visited + [ep1];
      Visit(ep1, kept, junk(ep1), S, hp, a, b);
      UntouchedTwice(g0, g, Fields(S), Members(hp, s), Members(hp, a + [ep1] + b), Members(hp, s));
      ep1 := ep2;
      Reads(ep1, S);
      ep2 := ep1.next;
      i := i + 1;
    }
    CursorMeans(hp, s, i);
    LoopEnd(s, keep);
  }
}
