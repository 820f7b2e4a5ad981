/**
 Brigades in memory: rings of buckets, with the deletion of buckets and the operations that
 the brigade macros make up.
 */
module Brigades {
  import L = Links
  import opened RingLaws
  import opened RingTails
  import opened Rings
  import opened RingCheck
  import opened Buckets

  /** The check that the brigade macros make when they are compiled for debugging, on links that may be arbitrary. */
  method CheckConsistency(b: Elem<Bucket>, ghost S: set<Elem<Bucket>>) returns (ok: bool)
    requires Closed(S) && b in S
    ensures ok <==> OnCycle(Fields(S), b)
  {
    var seen, here;
    ok, seen, here := CheckElemConsistency(b, S);
  }

  /** On a well-formed brigade the check passes. */
  lemma BrigadePasses(b: Elem<Bucket>, S: set<Elem<Bucket>>, s: seq<Elem<Bucket>>)
    requires Closed(S) && Ring(Fields(S), b, s)
    ensures b in S && OnCycle(Fields(S), b)
  {
    hide Ring;
    RingIsIn(b, S, s);
    RingPassesFromAnywhere(Fields(S), b, s, 0);
    assert ([b] + s)[0] == b;
  }

  /** APR_BRIGADE_INSERT_HEAD; the check it ends with always passes. */
  method InsertFirst(b: Elem<Bucket>, e: Elem<Bucket>, ghost S: set<Elem<Bucket>>, ghost s: seq<Elem<Bucket>>)
    returns (ok: bool)
    requires Closed(S) && e in S && Ring(Fields(S), b, s) && e !in [b] + s
    modifies e`next, e`prev, b.next`prev, b`next
    ensures Closed(S) && Ring(Fields(S), b, [e] + s) && ok
  {
    hide Ring, L.SpliceAfter;
    InsertHead(b, e, S, s);
    BrigadePasses(b, S, [e] + s);
    ok := CheckConsistency(b, S);
  }

  /** APR_BRIGADE_INSERT_TAIL */
  method InsertLast(b: Elem<Bucket>, e: Elem<Bucket>, ghost S: set<Elem<Bucket>>, ghost s: seq<Elem<Bucket>>)
    returns (ok: bool)
    requires Closed(S) && e in S && Ring(Fields(S), b, s) && e !in [b] + s
    modifies e`next, e`prev, b.prev`next, b`prev
    ensures Closed(S) && Ring(Fields(S), b, s + [e]) && ok
  {
    hide Ring, L.SpliceBefore;
    InsertTail(b, e, S, s);
    BrigadePasses(b, S, s + [e]);
    ok := CheckConsistency(b, S);
  }

  /** APR_BRIGADE_CONCAT */
  method ConcatBrigades(a: Elem<Bucket>, b: Elem<Bucket>,
                        ghost S: set<Elem<Bucket>>, ghost s: seq<Elem<Bucket>>, ghost t: seq<Elem<Bucket>>)
    returns (ok: bool)
    requires Closed(S) && Ring(Fields(S), a, s) && Ring(Fields(S), b, t) && Apart(a, s, b, t)
    modifies S`next, S`prev
    ensures Closed(S) && Ring(Fields(S), a, s + t) && Ring(Fields(S), b, []) && ok
    ensures Untouched(old(Fields(S)), Fields(S), Members(a, s) + Members(b, t))
  {
    hide Ring, L.Concat;
    RingIsIn(a, S, s);
    RingIsIn(b, S, t);
    ConcatJoins(Fields(S), a, s, b, t);
    Concat(a, b, S);
    BrigadePasses(a, S, s + t);
    ok := CheckConsistency(a, S);
  }

  /** APR_BRIGADE_PREPEND */
  method PrependBrigades(a: Elem<Bucket>, b: Elem<Bucket>,
                         ghost S: set<Elem<Bucket>>, ghost s: seq<Elem<Bucket>>, ghost t: seq<Elem<Bucket>>)
    returns (ok: bool)
    requires Closed(S) && Ring(Fields(S), a, s) && Ring(Fields(S), b, t) && Apart(a, s, b, t)
    modifies S`next, S`prev
    ensures Closed(S) && Ring(Fields(S), a, t + s) && Ring(Fields(S), b, []) && ok
    ensures Untouched(old(Fields(S)), Fields(S), Members(a, s) + Members(b, t))
  {
    hide Ring, L.Prepend;
    RingIsIn(a, S, s);
    RingIsIn(b, S, t);
    PrependJoins(Fields(S), a, s, b, t);
    Prepend(a, b, S);
    BrigadePasses(a, S, t + s);
    ok := CheckConsistency(a, S);
  }

  /** The calls made through the function pointers of a bucket. */
  datatype Event = DestroyCall(data: nat) | FreeCall(e: Elem<Bucket>)

  class Calls {
    var log: seq<Event>

    constructor ()
      ensures log == []
    {
      log := [];
    }
  }

  /** Every bucket destroyed and then freed, in order. */
  ghost function Teardown(s: seq<Elem<Bucket>>): seq<Event> {
    if s == [] then []
    else
      var e := s[|s| - 1];
      Teardown(s[..|s| - 1]) + [DestroyCall(e.data.data), FreeCall(e)]
  }

  /** How often an event happens. */
  ghost function Count(log: seq<Event>, event: Event): nat {
    multiset(log)[event]
  }

  /** Tearing down distinct buckets frees each of them once, and nothing else. */
  lemma {:induction false} TeardownFreesOnce(s: seq<Elem<Bucket>>, e: Elem<Bucket>)
    requires Distinct(s)
    ensures Count(Teardown(s), FreeCall(e)) == if e in s then 1 else 0
  {
    if s != [] {
      var n := |s| - 1;
      assert s == s[..n] + [s[n]];
      TeardownFreesOnce(s[..n], e);
      var last := [DestroyCall(s[n].data.data), FreeCall(s[n])];
      assert multiset(Teardown(s[..n]) + last) == multiset(Teardown(s[..n])) + multiset(last);
      assert multiset(last) == multiset{DestroyCall(s[n].data.data), FreeCall(s[n])};
    }
  }

  /** The i-th bucket is destroyed and freed i-th, destroyed first. */
  lemma {:induction false} TeardownInOrder(s: seq<Elem<Bucket>>, i: nat)
    requires i < |s|
    ensures |Teardown(s)| == 2 * |s|
    ensures Teardown(s)[2 * i] == DestroyCall(s[i].data.data) && Teardown(s)[2 * i + 1] == FreeCall(s[i])
  {
    var n := |s| - 1;
    if n > 0 {
      TeardownInOrder(s[..n], if i < n then i else 0);
    }
  }

  lemma TeardownStep(s: seq<Elem<Bucket>>, i: nat)
    requires i < |s|
    ensures Teardown(s[..i + 1]) == Teardown(s[..i]) + [DestroyCall(s[i].data.data), FreeCall(s[i])]
    ensures s[i..] == [s[i]] + s[i + 1..]
  {
    assert s[..i + 1][..i] == s[..i];
  }

  /** apr_bucket_destroy: the data first, then the bucket, whose memory may hold anything afterwards. */
  method BucketDestroy(e: Elem<Bucket>, junk: Elem<Bucket>, calls: Calls, ghost S: set<Elem<Bucket>>)
    requires Closed(S) && e in S && junk in S
    modifies calls, e`next, e`prev
    ensures Closed(S) && Untouched(old(Fields(S)), Fields(S), {e})
    ensures calls.log == old(calls.log) + [DestroyCall(e.data.data), FreeCall(e)]
  {
    calls.log := calls.log + [DestroyCall(e.data.data)];
    calls.log := calls.log + [FreeCall(e)];
    Overwrite(e, junk, junk, S);
  }

  /**
   apr_bucket_delete: out of its brigade, if it is in one, then destroyed. Where the neighbours
   bypass the bucket already, no other bucket changes; that includes a bucket on no brigade,
   which is linked to itself.
   */
  method BucketDelete(e: Elem<Bucket>, junk: Elem<Bucket>, calls: Calls, ghost S: set<Elem<Bucket>>)
    requires Closed(S) && e in S && junk in S
    modifies calls, e.prev`next, e.next`prev, e`next, e`prev
    ensures Closed(S) && Untouched(L.Unsplice(old(Fields(S)), e, e), Fields(S), {e})
    ensures old(e.prev.next == e.next && e.next.prev == e.prev) ==> Untouched(old(Fields(S)), Fields(S), {e})
    ensures calls.log == old(calls.log) + [DestroyCall(e.data.data), FreeCall(e)]
  {
    hide L.Unsplice;
    Reads(e, S);
    Reads(e.prev, S);
    Reads(e.next, S);
    UnspliceIsNoOpIff(Fields(S), e, e);
    Remove(e, S);
    BucketDestroy(e, junk, calls, S);
  }

  /** Taking and deleting the first bucket until the brigade is empty. */
  method Cleanup(b: Elem<Bucket>, junk: Elem<Bucket>, calls: Calls,
                 ghost S: set<Elem<Bucket>>, ghost s: seq<Elem<Bucket>>)
    requires Closed(S) && junk in S && Ring(Fields(S), b, s)
    modifies calls, S`next, S`prev
    ensures Closed(S) && Ring(Fields(S), b, [])
    ensures calls.log == old(calls.log) + Teardown(s)
    ensures Untouched(old(Fields(S)), Fields(S), Members(b, s))
  {
    hide Ring, Fields, Untouched, Teardown, Members, L.Unsplice;
    ghost var g0, i: nat := Fields(S), 0;
    RingIsIn(b, S, s);
    TeardownStart(s);
    while !Empty(b)
      invariant Closed(S) && b in S && i <= |s| && Ring(Fields(S), b, s[i..])
      invariant calls.log == old(calls.log) + Teardown(s[..i])
      invariant Untouched(g0, Fields(S), Members(b, s))
      decreases |s| - i
    {
      ghost var g := Fields(S);
      FirstOf(b, S, s, i);
      var e := b.next;
      Reads(b, S);
      Reads(e, S);
      TeardownStep(s, i);
      TailMembers(b, s, i);
      BucketDelete(e, junk, calls, S);
      DropsOne(g, Fields(S), b, [], e, s[i + 1..]);
      assert [] + s[i + 1..] == s[i + 1..];
      UntouchedTwice(g0, g, Fields(S), Members(b, s), Members(b, [] + [e] + s[i + 1..]), Members(b, s));
      i := i + 1;
    }
    EmptyMeans(b, S, s[i..]);
    assert s[..|s|] == s;
  }

  lemma TeardownStart(s: seq<Elem<Bucket>>)
    ensures s[0..] == s && Teardown(s[..0]) == []
  {
  }

  lemma EmptyMeans(b: Elem<Bucket>, S: set<Elem<Bucket>>, s: seq<Elem<Bucket>>)
    requires Closed(S) && b in S && Ring(Fields(S), b, s)
    ensures Empty(b) <==> s == []
  {
    RingChain(Fields(S), b, s);
    Reads(b, S);
  }

  lemma FirstOf(b: Elem<Bucket>, S: set<Elem<Bucket>>, s: seq<Elem<Bucket>>, i: nat)
    requires Closed(S) && b in S && i <= |s| && Ring(Fields(S), b, s[i..]) && !Empty(b)
    ensures i < |s| && b.next == s[i] && s[i..] == [] + [s[i]] + s[i + 1..]
  {
    RingChain(Fields(S), b, s[i..]);
    Reads(b, S);
  }

  lemma TailMembers(b: Elem<Bucket>, s: seq<Elem<Bucket>>, i: nat)
    requires i < |s|
    ensures Members(b, [] + [s[i]] + s[i + 1..]) <= Members(b, s)
  {
  }

  /**
   The contract of apr_brigade_split_ex, met with ring macros: a is cleared, and the buckets
   from e to the last one move from b to a; e may be the sentinel, and then none move.
   */
  method SplitTail(b: Elem<Bucket>, e: Elem<Bucket>, a: Elem<Bucket>, junk: Elem<Bucket>, calls: Calls,
                   ghost S: set<Elem<Bucket>>, ghost s: seq<Elem<Bucket>>, ghost k: nat, ghost t: seq<Elem<Bucket>>)
    requires Closed(S) && junk in S && Ring(Fields(S), b, s) && Ring(Fields(S), a, t) && Apart(b, s, a, t)
    requires k <= |s| && e == At(b, s, k)
    modifies calls, S`next, S`prev
    ensures Closed(S) && Ring(Fields(S), b, s[..k]) && Ring(Fields(S), a, s[k..])
    ensures Untouched(old(Fields(S)), Fields(S), Members(b, s) + Members(a, t))
    ensures calls.log == old(calls.log) + Teardown(t)
  {
    hide Ring, Fields, Untouched, Members, Apart, At, L.Unsplice, L.SpliceBefore;
    ghost var g := Fields(S);
    RingIsIn(b, S, s);
    RingIsIn(a, S, t);
    Cleanup(a, junk, calls, S, t);
    ghost var g1 := Fields(S);
    StillThere(g, g1, b, s, a, t);
    CutTailSplits(g1, b, s, k, a);
    AtIsMember(g1, b, s, k);
    Reads(b, S);
    if e != b {
      var f := b.prev;
      Reads(e, S);
      Reads(f, S);
      Unsplice(e, f, S);
      Reads(a, S);
      SpliceTail(a, e, f, S);
    }
    assert Fields(S) == CutTail(g1, b, e, a);
    UntouchedTwice(g, g1, Fields(S), Members(a, t), Members(b, s) + Members(a, []), Members(b, s) + Members(a, t)) by {
      EmptyIsLess(a, t);
    }
  }

  lemma CycleInLarger<T>(g: L.Graph<T>, g': L.Graph<T>, c: seq<T>)
    requires g.Closed() && g'.Closed() && g.next.Keys <= g'.next.Keys && Cycle(g, c)
    requires forall x {:trigger g'.Next(x)} {:trigger g'.Prev(x)} | x in g.next ::
               g'.Next(x) == g.Next(x) && g'.Prev(x) == g.Prev(x)
    ensures Cycle(g', c)
  {
  }

  lemma FieldsOfLarger(r: Elem<Bucket>, S: set<Elem<Bucket>>)
    requires Closed(S) && r !in S && r.next == r && r.prev == r
    ensures Closed(S + {r}) && Fields(S).next.Keys <= Fields(S + {r}).next.Keys && r in Fields(S + {r}).next
    ensures Fields(S + {r}).Next(r) == r && Fields(S + {r}).Prev(r) == r
    ensures forall x {:trigger Fields(S + {r}).Next(x)} {:trigger Fields(S + {r}).Prev(x)} | x in Fields(S).next ::
              Fields(S + {r}).Next(x) == Fields(S).Next(x) && Fields(S + {r}).Prev(x) == Fields(S).Prev(x)
  {
    var g, g' := Fields(S), Fields(S + {r});
    forall x | x in g'.next ensures g'.Next(x) in g'.next && g'.Prev(x) in g'.next {
      if x in S {
        Reads(x, S);
      }
    }
  }

  /** A new element outside S, linked to itself, is an empty ring beside the rings in S. */
  lemma NewRingBeside(r: Elem<Bucket>, S: set<Elem<Bucket>>, b: Elem<Bucket>, s: seq<Elem<Bucket>>)
    requires Closed(S) && r !in S && r.next == r && r.prev == r && Ring(Fields(S), b, s)
    ensures Closed(S + {r}) && Ring(Fields(S + {r}), b, s) && Ring(Fields(S + {r}), r, []) && Apart(b, s, r, [])
  {
    hide Cycle, Chain;
    FieldsOfLarger(r, S);
    CycleInLarger(Fields(S), Fields(S + {r}), [b] + s);
    SelfLinkMakesEmptyRing(Fields(S + {r}), Fields(S + {r}), r);
    RingChain(Fields(S), b, s);
    RingInSet(Fields(S), b, s);
    assert forall x | x in Members(b, s) :: x in S;
  }

  lemma RingInSet<T>(g: L.Graph<T>, b: T, s: seq<T>)
    requires g.Closed() && Ring(g, b, s)
    ensures Members(b, s) <= g.next.Keys
  {
  }

  /** Outside the two rings, the fields in memory are as before. */
  lemma FrameInMemory(g: L.Graph<Elem<Bucket>>, S: set<Elem<Bucket>>, touched: set<Elem<Bucket>>, x: Elem<Bucket>)
    requires Closed(S) && Untouched(g, Fields(S), touched) && x in S && x !in touched
    ensures x.next == g.Next(x) && x.prev == g.Prev(x)
  {
    Reads(x, S);
  }

  /**
   apr_brigade_split_ex: where no brigade is given for the result, a new one is created; a head
   has a payload in this model, which nothing reads.
   */
  method SplitEx(b: Elem<Bucket>, e: Elem<Bucket>, a: Elem?<Bucket>, payload: Bucket, junk: Elem<Bucket>, calls: Calls,
                 ghost S: set<Elem<Bucket>>, ghost s: seq<Elem<Bucket>>, ghost k: nat, ghost t: seq<Elem<Bucket>>)
    returns (r: Elem<Bucket>, ghost S': set<Elem<Bucket>>)
    requires Closed(S) && junk in S && Ring(Fields(S), b, s) && k <= |s| && e == At(b, s, k)
    requires if a == null then t == [] else Ring<Elem<Bucket>>(Fields(S), a, t) && Apart<Elem<Bucket>>(b, s, a, t)
    modifies calls, S`next, S`prev
    ensures if a == null then fresh(r) && S' == S + {r} else r == a && S' == S
    ensures Closed(S') && Ring(Fields(S'), b, s[..k]) && Ring(Fields(S'), r, s[k..])
    ensures calls.log == old(calls.log) + Teardown(t)
    ensures forall x | x in S && x !in Members(b, s) + Members(r, t) :: x.next == old(x.next) && x.prev == old(x.prev)
  {
    hide Ring, Members, Apart, At, Teardown;
    if a == null {
      r := new Elem(payload);
      S' := S + {r};
      NewRingBeside(r, S, b, s);
    } else {
      r, S' := a, S;
    }
    ghost var g := Fields(S');
    SplitTail(b, e, r, junk, calls, S', s, k, t);
    forall x | x in S && x !in Members(b, s) + Members(r, t) ensures x.next == old(x.next) && x.prev == old(x.prev) {
      FrameInMemory(g, S', Members(b, s) + Members(r, t), x);
    }
  }

  lemma EmptyIsLess<T>(a: T, t: seq<T>)
    ensures Members(a, []) <= Members(a, t)
  {
  }

  lemma StillThere<T>(g: L.Graph<T>, g1: L.Graph<T>, b: T, s: seq<T>, a: T, t: seq<T>)
    requires Untouched(g, g1, Members(a, t)) && Ring(g, b, s) && Apart(b, s, a, t) && Ring(g1, a, [])
    ensures Ring(g1, b, s) && Apart(b, s, a, [])
    ensures a in g1.next && b in g1.next
  {
  }

  /** The buckets of a brigade, as values. */
  ghost function Datas(s: seq<Elem<Bucket>>): (bs: seq<Bucket>)
    ensures |bs| == |s| && forall i :: 0 <= i < |s| ==> bs[i] == s[i].data
  {
    seq(|s|, i requires 0 <= i < |s| => s[i].data)
  }

  /** The calls that one turn of a sweep makes. */
  ghost function CallsFor(keep: bool, e: Elem<Bucket>): seq<Event> {
    if keep then [] else [DestroyCall(e.data.data), FreeCall(e)]
  }

  lemma DroppedStep(s: seq<Elem<Bucket>>, keep: Elem<Bucket> -> bool, i: nat, x: Elem<Bucket>, k: bool)
    requires i < |s| && x == s[i] && k == keep(x)
    ensures Teardown(Dropped(s[..i + 1], keep)) == Teardown(Dropped(s[..i], keep)) + CallsFor(k, x)
  {
    assert s[..i + 1][..i] == s[..i];
    var d := Dropped(s[..i], keep);
    assert Dropped(s[..i + 1], keep) == if k then d else d + [x];
    assert (d + [x])[..|d|] == d;
  }

  /** Which buckets are kept, position by position. */
  ghost function KeptAt(s: seq<Elem<Bucket>>, keep: Elem<Bucket> -> bool): (ks: seq<bool>)
    ensures |ks| == |s| && forall i :: 0 <= i < |s| ==> ks[i] == keep(s[i])
  {
    seq(|s|, i requires 0 <= i < |s| => keep(s[i]))
  }

  /** What a removal-safe iteration leaves is what the sweep of the values leaves. */
  lemma {:induction false} KeptIsSweep(s: seq<Elem<Bucket>>, keep: Elem<Bucket> -> bool)
    ensures Datas(Kept(s, keep)) == Sweep(Datas(s), KeptAt(s, keep))
  {
    if s != [] {
      var front, last := s[..|s| - 1], s[|s| - 1];
      KeptIsSweep(front, keep);
      assert Datas(s) == Datas(front) + [last.data];
      assert KeptAt(s, keep) == KeptAt(front, keep) + [keep(last)];
      SweepAppend(Datas(front), KeptAt(front, keep), last.data, keep(last));
    }
  }

  /** The buckets that are kept say what all the buckets said. */
  ghost predicate SameStream(mem: Memory, s: seq<Elem<Bucket>>, keep: Elem<Bucket> -> bool) {
    && AllInMemory(mem, Datas(s)) && AllInMemory(mem, Datas(Kept(s, keep)))
    && Stream(mem, Datas(Kept(s, keep))) == Stream(mem, Datas(s))
  }

  ghost predicate OnlySilentDropped(s: seq<Elem<Bucket>>, keep: Elem<Bucket> -> bool) {
    forall i :: 0 <= i < |s| && !keep(s[i]) ==> Silent(s[i].data)
  }

  /** The stream is the same after a sweep exactly if all deleted buckets are empty and no metadata. */
  lemma KeptStreamIff(mem: Memory, s: seq<Elem<Bucket>>, keep: Elem<Bucket> -> bool)
    requires AllInMemory(mem, Datas(s))
    ensures AllInMemory(mem, Datas(Kept(s, keep)))
    ensures SameStream(mem, s, keep) <==> OnlySilentDropped(s, keep)
  {
    KeptIsSweep(s, keep);
    SweepIsUnobservableIff(mem, Datas(s), KeptAt(s, keep));
    if OnlySilentDropped(s, keep) {
      assert forall i :: 0 <= i < |s| && !KeptAt(s, keep)[i] ==> Silent(Datas(s)[i]);
    } else {
      var i :| 0 <= i < |s| && !keep(s[i]) && !Silent(s[i].data);
      assert !KeptAt(s, keep)[i] && !Silent(Datas(s)[i]);
    }
  }

  /** One turn of a sweep: the bucket is deleted unless it is kept. */
  method SweepOne(e: Elem<Bucket>, keep: bool, junk: Elem<Bucket>, calls: Calls, ghost S: set<Elem<Bucket>>,
                  ghost b: Elem<Bucket>, ghost before: seq<Elem<Bucket>>, ghost after: seq<Elem<Bucket>>)
    requires Closed(S) && e in S && junk in S && Ring(Fields(S), b, before + [e] + after)
    modifies calls, S`next, S`prev
    ensures Closed(S) && Ring(Fields(S), b, Left(keep, before, e, after))
    ensures calls.log == old(calls.log) + CallsFor(keep, e)
    ensures Untouched(old(Fields(S)), Fields(S), Members(b, before + [e] + after))
  {
    hide Ring, L.Unsplice;
    if keep {
      return;
    }
    ghost var g := Fields(S);
    Reads(e, S);
    BucketDelete(e, junk, calls, S);
    DropsOne(g, Fields(S), b, before, e, after);
  }

  /**
   Deleting buckets while iterating: the buckets that keep does not hold of are taken out,
   destroyed and freed, in order. The stream is unchanged exactly if all of them were empty
   data buckets.
   */
  method SweepBrigade(b: Elem<Bucket>, keep: Elem<Bucket> -> bool, junk: Elem<Bucket>, calls: Calls,
                      ghost S: set<Elem<Bucket>>, ghost s: seq<Elem<Bucket>>, ghost mem: Memory)
    requires Closed(S) && junk in S && Ring(Fields(S), b, s) && AllInMemory(mem, Datas(s))
    modifies calls, S`next, S`prev
    ensures Closed(S) && Ring(Fields(S), b, Kept(s, keep))
    ensures Untouched(old(Fields(S)), Fields(S), Members(b, s))
    ensures calls.log == old(calls.log) + Teardown(Dropped(s, keep))
    ensures SameStream(mem, s, keep) <==> OnlySilentDropped(s, keep)
  {
    hide Ring, Kept, Left, Dropped, CallsFor, Teardown, At, Members, Fields, Untouched, SameStream, OnlySilentDropped,
         Chain, AllInMemory, Datas;
    KeptStreamIff(mem, s, keep);
    ghost var g0 := Fields(S);
    RingIsIn(b, S, s);
    LoopStart(s, keep);
    DroppedStart(s, keep);
    RingChain(g0, b, s);
    CursorSteps(g0, b, s, 0);
    Reads(b, S);
    var ep1 := b.next;
    Reads(ep1, S);
    var ep2 := ep1.next;
    ghost var i: nat := 0;
    while ep1 != b
      invariant Closed(S) && i <= |s|
      invariant Ring(Fields(S), b, Kept(s[..i], keep) + s[i..])
      invariant ep1 == At(b, s, i) && ep1 in S && ep2 == ep1.next
      invariant Untouched(g0, Fields(S), Members(b, s))
      invariant calls.log == old(calls.log) + Teardown(Dropped(s[..i], keep))
      decreases |s| - i
    {
      ghost var g := Fields(S);
      CursorMeans(b, s, i);
      ghost var before, after := Kept(s[..i], keep), s[i + 1..];
      var kept := keep(ep1);
      SweepTurn(s, keep, i, before, ep1, after, kept);
      assert ep2 == At(b, s, i + 1) && ep2 in S by {
        CurrentElement(g, b, before, ep1, after);
        CursorTail(b, s, i);
        Reads(ep1, S);
      }
      LoopMembers(b, s, keep, i);
      SweepOne(ep1, kept, junk, calls, S, b, before, after);
      UntouchedTwice(g0, g, Fields(S), Members(b, s), Members(b, before + [ep1] + after), Members(b, s));
      LogGrows(old(calls.log), Teardown(Dropped(s[..i], keep)), CallsFor(kept, ep1));
      ep1 := ep2;
      Reads(ep1, S);
      ep2 := ep1.next;
      i := i + 1;
    }
    CursorMeans(b, s, i);
    LoopEnd(s, keep);
  }

  lemma SweepTurn(s: seq<Elem<Bucket>>, keep: Elem<Bucket> -> bool, i: nat,
                  a: seq<Elem<Bucket>>, x: Elem<Bucket>, b: seq<Elem<Bucket>>, k: bool)
    requires i < |s| && a == Kept(s[..i], keep) && x == s[i] && b == s[i + 1..] && k == keep(x)
    ensures a + s[i..] == a + [x] + b
    ensures Kept(s[..i + 1], keep) + s[i + 1..] == Left(k, a, x, b)
    ensures Teardown(Dropped(s[..i + 1], keep)) == Teardown(Dropped(s[..i], keep)) + CallsFor(k, x)
  {
    KeptStep(s, keep, i, a, x, b, k);
    DroppedStep(s, keep, i, x, k);
  }

  lemma LogGrows(log: seq<Event>, before: seq<Event>, more: seq<Event>)
    ensures log + before + more == log + (before + more)
  {
  }

  lemma DroppedStart(s: seq<Elem<Bucket>>, keep: Elem<Bucket> -> bool)
    ensures Teardown(Dropped(s[..0], keep)) == []
  {
  }
}
