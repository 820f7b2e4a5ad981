/**
 What clearing and sweeping a brigade in memory releases: the calls that they log, taken as
 calls of the shared destroy function, on buckets of which others may share the data.
 */
module Clearing {
  import opened RingLaws
  import opened Rings
  import opened Buckets
  import opened Brigades
  import Shared = SharedBuckets

  /** The identifier of every bucket in memory. */
  type Ids = map<Elem<Bucket>, nat>

  /** The live buckets are those named by ids, each under its own number. */
  ghost predicate Numbered(live: map<nat, Bucket>, ids: Ids) {
    && (forall e, f | e in ids && f in ids && e != f :: ids[e] != ids[f])
    && (forall b :: b in live <==> exists e | e in ids :: ids[e] == b)
    && (forall e | e in ids :: ids[e] in live && live[ids[e]] == e.data)
  }

  /** The state st of the reference counts is that of the buckets named by ids. */
  ghost predicate Records(st: Shared.State, ids: Ids) {
    Shared.Inv(st) && Numbered(st.live, ids)
  }

  /** Before the first bucket is made. */
  lemma RecordsStart()
    ensures Records(Shared.EMPTY, map[])
  {
  }

  lemma NumberedMore(live: map<nat, Bucket>, ids: Ids, e: Elem<Bucket>, c: nat)
    requires Numbered(live, ids) && e !in ids && c !in live
    ensures Numbered(live[c := e.data], ids[e := c])
  {
    var ids' := ids[e := c];
    forall b | b in live ensures exists f | f in ids' :: ids'[f] == b {
      var f: Elem<Bucket> :| f in ids && ids[f] == b;
      assert ids'[f] == b;
    }
    assert ids'[e] == c;
  }

  /** A bucket e that is made, or is a copy of one that is known, becomes known. */
  lemma RecordsMore(st: Shared.State, ids: Ids, call: Shared.Call, st': Shared.State, e: Elem<Bucket>, c: nat)
    requires Records(st, ids) && Shared.Step(st, call, st') && call.result == Shared.Success && e !in ids
    requires call.op == Shared.Make(c, e.data)
          || (call.op.Copy? && call.op.c == c && st.live[call.op.a] == e.data)
    ensures Records(st', ids[e := c])
  {
    Shared.StepKeepsInv(st, call, st');
    hide Shared.Inv, Numbered;
    NumberedMore(st.live, ids, e, c);
  }

  /** Equivalently, a part of the elements that the account knows, as multisets. */
  lemma KnownIff(s: seq<Elem<Bucket>>, all: seq<Elem<Bucket>>, ids: Ids)
    requires Distinct(all) && Elements(all) == ids.Keys
    ensures Known(s, ids) <==> multiset(s) <= multiset(all)
  {
    ChosenIsPart(all, s);
    assert forall e :: e in all <==> e in Elements(all);
  }

  lemma NumberedFewer(live: map<nat, Bucket>, ids: Ids, s: seq<Elem<Bucket>>, fewer: map<nat, Bucket>)
    requires Numbered(live, ids) && Known(s, ids)
    requires forall b :: b in fewer <==> b in live && b !in IdsOf(s, ids)
    requires forall b :: b in fewer ==> fewer[b] == live[b]
    ensures Numbered(fewer, ids - Elements(s))
  {
    var bs, ids' := IdsOf(s, ids), ids - Elements(s);
    forall e | e in ids ensures ids[e] in bs <==> e in s {
      if i: nat :| i < |s| && s[i] == e {
        assert bs[i] == ids[e];
      }
    }
    forall b | b in fewer ensures exists e | e in ids' :: ids'[e] == b {
      var e: Elem<Bucket> :| e in ids && ids[e] == b;
      assert e in ids' && ids'[e] == b;
    }
  }

  /** Buckets that have been destroyed are known no longer. */
  lemma RecordsFewer(st: Shared.State, ids: Ids, s: seq<Elem<Bucket>>, ss: seq<Shared.State>, calls: seq<Shared.Call>)
    requires Records(st, ids) && Known(s, ids)
    requires Shared.Run(ss, calls) && ss[0] == st && Shared.Clears(calls, IdsOf(s, ids))
    ensures Records(ss[|calls|], ids - Elements(s))
  {
    hide Shared.Inv, Shared.Step, Numbered;
    Shared.RunKeepsInv(ss, calls, |calls|);
    var bs := IdsOf(s, ids);
    Shared.ClearingRemoves(ss, calls, bs, |calls|);
    assert bs[..|calls|] == bs;
    NumberedFewer(st.live, ids, s, ss[|calls|].live);
  }

  /** The refcounts after the calls in a log. */
  ghost function CountsAfter(count: map<nat, int>, log: seq<Event>): map<nat, int> {
    if log == [] then count
    else
      var c := CountsAfter(count, log[..|log| - 1]);
      match log[|log| - 1]
      case DestroyCall(d) => if d in c then c[d := c[d] - 1] else c
      case FreeCall(_) => c
  }

  /** How often the calls in a log bring the refcount of d down to zero, so that d is released. */
  ghost function Released(count: map<nat, int>, log: seq<Event>, d: nat): nat {
    if log == [] then 0
    else
      var before := log[..|log| - 1];
      var c := CountsAfter(count, before);
      Released(count, before, d)
      + if log[|log| - 1] == DestroyCall(d) && d in c && c[d] - 1 == 0 then 1 else 0
  }

  lemma AfterOneEvent(count: map<nat, int>, log: seq<Event>, event: Event, d: nat)
    ensures var c, log' := CountsAfter(count, log), log + [event];
            && CountsAfter(count, log')
            == (if event.DestroyCall? && event.data in c then c[event.data := c[event.data] - 1] else c)
            && Released(count, log', d)
            == Released(count, log, d) + if event == DestroyCall(d) && d in c && c[d] - 1 == 0 then 1 else 0
  {
    assert (log + [event])[..|log|] == log;
  }

  lemma AfterOneMore(count: map<nat, int>, log: seq<Event>, x: nat, e: Elem<Bucket>, d: nat)
    ensures var c, log' := CountsAfter(count, log), log + [DestroyCall(x), FreeCall(e)];
            && CountsAfter(count, log') == (if x in c then c[x := c[x] - 1] else c)
            && Released(count, log', d) == Released(count, log, d) + if x == d && d in c && c[d] - 1 == 0 then 1 else 0
  {
    hide CountsAfter, Released;
    AfterOneEvent(count, log, DestroyCall(x), d);
    AfterOneEvent(count, log + [DestroyCall(x)], FreeCall(e), d);
    assert log + [DestroyCall(x)] + [FreeCall(e)] == log + [DestroyCall(x), FreeCall(e)];
  }

  ghost function IdsOf(s: seq<Elem<Bucket>>, ids: Ids): (bs: seq<nat>)
    requires forall i :: 0 <= i < |s| ==> s[i] in ids
    ensures |bs| == |s| && forall i :: 0 <= i < |s| ==> bs[i] == ids[s[i]]
  {
    seq(|s|, i requires 0 <= i < |s| => ids[s[i]])
  }

  /** Buckets that the account knows, each once. */
  ghost predicate Known(s: seq<Elem<Bucket>>, ids: Ids) {
    Distinct(s) && forall i :: 0 <= i < |s| ==> s[i] in ids
  }

  /** A live bucket can be destroyed. */
  lemma DestroyLive(st: Shared.State, b: nat) returns (call: Shared.Call, next: Shared.State)
    requires Shared.Inv(st) && b in st.live
    ensures call.op == Shared.Destroy(b) && Shared.Step(st, call, next)
  {
    Shared.LiveDataIsCounted(st, b);
    var d := st.live[b].data;
    call := Shared.Call(Shared.Destroy(b), if st.count[d] - 1 == 0 then Shared.True else Shared.False);
    next := st.(count := st.count[d := st.count[d] - 1], live := st.live - {b});
  }

  lemma ExtendRun(ss: seq<Shared.State>, calls: seq<Shared.Call>, bs: seq<nat>, call: Shared.Call, next: Shared.State)
    requires Shared.Run(ss, calls) && Shared.Step(ss[|calls|], call, next)
    requires bs != [] && Shared.Clears(calls, bs[..|bs| - 1]) && call.op == Shared.Destroy(bs[|bs| - 1])
    ensures Shared.Run(ss + [next], calls + [call]) && (ss + [next])[0] == ss[0]
    ensures Shared.Clears(calls + [call], bs)
  {
    hide Shared.Step;
    Shared.RunOneMore(ss, calls, call, next);
  }

  /** Live buckets, each once, can be destroyed one after the other. */
  lemma {:induction false} ClearingRun(st: Shared.State, bs: seq<nat>)
    returns (ss: seq<Shared.State>, calls: seq<Shared.Call>)
    requires Shared.Inv(st) && Distinct(bs) && forall i :: 0 <= i < |bs| ==> bs[i] in st.live
    ensures Shared.Run(ss, calls) && ss[0] == st && Shared.Clears(calls, bs)
  {
    hide Shared.Step, Shared.Inv;
    if bs == [] {
      ss, calls := [st], [];
    } else {
      var n := |bs| - 1;
      ss, calls := ClearingRun(st, bs[..n]);
      Shared.ClearingRemoves(ss, calls, bs[..n], n);
      Shared.RunKeepsInv(ss, calls, n);
      assert bs[n] !in bs[..n][..n];
      var call, next := DestroyLive(ss[n], bs[n]);
      ExtendRun(ss, calls, bs, call, next);
      ss, calls := ss + [next], calls + [call];
    }
  }

  lemma DestroyCounts(st: Shared.State, call: Shared.Call, next: Shared.State, b: nat, d: nat)
    requires Shared.Step(st, call, next) && call.op == Shared.Destroy(b)
    ensures b in st.live && st.live[b].data in st.count
    ensures var x := st.live[b].data;
            && next.count == st.count[x := st.count[x] - 1]
            && (Shared.Releases(st, call, d) <==> x == d && st.count[d] - 1 == 0)
  {
  }

  /** The n-th bucket of a clearing is as it was until it is destroyed. */
  lemma NthDestroy(st: Shared.State, ids: Ids, s: seq<Elem<Bucket>>,
                   ss: seq<Shared.State>, calls: seq<Shared.Call>, n: nat, d: nat)
    requires Records(st, ids) && Known(s, ids) && n < |s|
    requires Shared.Run(ss, calls) && ss[0] == st && Shared.Clears(calls, IdsOf(s, ids))
    ensures var x := s[n].data.data;
            && x in ss[n].count && ss[n + 1].count == ss[n].count[x := ss[n].count[x] - 1]
            && (Shared.Releases(ss[n], calls[n], d) <==> x == d && ss[n].count[d] - 1 == 0)
  {
    hide Shared.Step, Shared.Inv, Shared.Releases;
    Shared.ClearingRemoves(ss, calls, IdsOf(s, ids), n);
    assert Shared.Step(ss[n], calls[n], ss[n + 1]);
    DestroyCounts(ss[n], calls[n], ss[n + 1], ids[s[n]], d);
  }

  /** The calls of a teardown do to the refcounts what the machine does when it destroys the buckets. */
  lemma {:induction false} TeardownIsRun(st: Shared.State, ids: Ids, s: seq<Elem<Bucket>>,
                                         ss: seq<Shared.State>, calls: seq<Shared.Call>, n: nat, d: nat)
    requires Records(st, ids) && Known(s, ids) && n <= |s|
    requires Shared.Run(ss, calls) && ss[0] == st && Shared.Clears(calls, IdsOf(s, ids))
    ensures CountsAfter(st.count, Teardown(s[..n])) == ss[n].count
    ensures Released(st.count, Teardown(s[..n]), d) == Shared.ReleaseCount(ss, calls, d, n)
  {
    hide Shared.Run, Shared.Clears, Shared.Releases, Records, Known, Teardown, CountsAfter, Released;
    assert |ss| == |calls| + 1 && |calls| == |s| by {
      LengthsAgree(s, ids, ss, calls);
    }
    if n == 0 {
      NothingReleased(st.count, s, d);
    } else {
      TeardownIsRun(st, ids, s, ss, calls, n - 1, d);
      var e := s[n - 1];
      TeardownStep(s, n - 1);
      AfterOneMore(st.count, Teardown(s[..n - 1]), e.data.data, e, d);
      NthDestroy(st, ids, s, ss, calls, n - 1, d);
    }
  }

  lemma LengthsAgree(s: seq<Elem<Bucket>>, ids: Ids, ss: seq<Shared.State>, calls: seq<Shared.Call>)
    requires Known(s, ids) && Shared.Run(ss, calls) && Shared.Clears(calls, IdsOf(s, ids))
    ensures |ss| == |calls| + 1 && |calls| == |s|
  {
  }

  lemma NothingReleased(count: map<nat, int>, s: seq<Elem<Bucket>>, d: nat)
    ensures CountsAfter(count, Teardown(s[..0])) == count && Released(count, Teardown(s[..0]), d) == 0
  {
  }

  /** The buckets in memory that refer to d. */
  ghost function Users(ids: Ids, d: nat): set<Elem<Bucket>> {
    set e | e in ids && e.data.data == d
  }

  /**
   Tearing down buckets releases exactly the data that some of them refer to and no bucket
   outside of them does, each once.
   */
  lemma TeardownReleases(st: Shared.State, ids: Ids, s: seq<Elem<Bucket>>, d: nat)
    requires Records(st, ids) && Known(s, ids)
    ensures Released(st.count, Teardown(s), d)
         == if Users(ids, d) != {} && Users(ids, d) <= Elements(s) then 1 else 0
  {
    hide Shared.Run, Shared.Inv, Teardown, CountsAfter, Released;
    var bs := IdsOf(s, ids);
    var ss, calls := ClearingRun(st, bs);
    assert |ss| == |calls| + 1 && |calls| == |s| by {
      LengthsAgree(s, ids, ss, calls);
    }
    TeardownIsRun(st, ids, s, ss, calls, |s|, d);
    assert s[..|s|] == s;
    UsersAreRefs(st, ids, s, d);
    if Users(ids, d) != {} {
      Shared.ClearingReleases(ss, calls, bs, d);
    } else {
      Shared.ReleasedWhenAbandoned(ss, calls, d, |calls|);
      Shared.ClearingRemoves(ss, calls, bs, |calls|);
    }
  }

  lemma UsersAreRefs(st: Shared.State, ids: Ids, s: seq<Elem<Bucket>>, d: nat)
    requires Records(st, ids) && Known(s, ids)
    ensures Users(ids, d) != {} ==> d in st.count
    ensures Users(ids, d) == {} <==> Shared.Refs(st.live, d) == {}
    ensures Users(ids, d) <= Elements(s) <==> forall b :: b in Shared.Refs(st.live, d) ==> b in IdsOf(s, ids)
  {
    var bs := IdsOf(s, ids);
    forall e | e in ids ensures e in Users(ids, d) <==> ids[e] in Shared.Refs(st.live, d) {
    }
    forall b | b in Shared.Refs(st.live, d) ensures exists e | e in Users(ids, d) :: ids[e] == b {
      var e :| e in ids && ids[e] == b;
    }
    if e :| e in Users(ids, d) {
      Shared.LiveDataIsCounted(st, ids[e]);
    }
    if Users(ids, d) <= Elements(s) {
      forall b | b in Shared.Refs(st.live, d) ensures b in bs {
        var e :| e in ids && ids[e] == b;
        assert e in Elements(s);
        var i :| 0 <= i < |s| && s[i] == e;
        assert bs[i] == b;
      }
    } else {
      var e :| e in Users(ids, d) && e !in s;
      assert ids[e] in Shared.Refs(st.live, d) && ids[e] !in bs;
    }
  }

  lemma {:induction false} DroppedIsKnown(s: seq<Elem<Bucket>>, keep: Elem<Bucket> -> bool, ids: Ids)
    requires Known(s, ids)
    ensures Known(Dropped(s, keep), ids)
  {
    if s != [] {
      var n := |s| - 1;
      DroppedIsKnown(s[..n], keep, ids);
      DroppedExactly(s[..n], keep);
      assert forall i :: 0 <= i < n ==> s[..n][i] == s[i];
      assert s[n] !in s[..n];
      assert forall i :: 0 <= i < |Dropped(s[..n], keep)| ==> Dropped(s[..n], keep)[i] in Dropped(s[..n], keep);
    }
  }

  /** The logged calls release d once if the buckets s, and they alone, refer to it, and else not at all. */
  ghost predicate ReleasesOwn(st: Shared.State, ids: Ids, log: seq<Event>, s: seq<Elem<Bucket>>) {
    forall d: nat :: Released(st.count, log, d) == if Users(ids, d) != {} && Users(ids, d) <= Elements(s) then 1 else 0
  }

  /** Clearing a brigade. */
  method CleanupShared(b: Elem<Bucket>, junk: Elem<Bucket>, calls: Calls, ghost S: set<Elem<Bucket>>,
                       ghost s: seq<Elem<Bucket>>, ghost st: Shared.State, ghost ids: Ids)
    requires Closed(S) && junk in S && Ring(Fields(S), b, s) && Records(st, ids) && Known(s, ids)
    modifies calls, S`next, S`prev
    ensures Closed(S) && Ring(Fields(S), b, [])
    ensures old(calls.log) <= calls.log && ReleasesOwn(st, ids, calls.log[|old(calls.log)|..], s)
  {
    hide Ring, Records, Known, Teardown, Released;
    Cleanup(b, junk, calls, S, s);
    forall d: nat ensures Released(st.count, Teardown(s), d)
                       == if Users(ids, d) != {} && Users(ids, d) <= Elements(s) then 1 else 0
    {
      TeardownReleases(st, ids, s, d);
    }
  }

  /** Sweeping a brigade. */
  method SweepShared(b: Elem<Bucket>, keep: Elem<Bucket> -> bool, junk: Elem<Bucket>, calls: Calls,
                     ghost S: set<Elem<Bucket>>, ghost s: seq<Elem<Bucket>>, ghost mem: Memory,
                     ghost st: Shared.State, ghost ids: Ids)
    requires Closed(S) && junk in S && Ring(Fields(S), b, s) && AllInMemory(mem, Datas(s))
    requires Records(st, ids) && Known(s, ids)
    modifies calls, S`next, S`prev
    ensures Closed(S) && Ring(Fields(S), b, Kept(s, keep))
    ensures old(calls.log) <= calls.log && ReleasesOwn(st, ids, calls.log[|old(calls.log)|..], Dropped(s, keep))
  {
    hide Ring, Records, Known, Teardown, Released, Kept, Dropped, SameStream, OnlySilentDropped;
    DroppedIsKnown(s, keep, ids);
    ghost var dropped := Dropped(s, keep);
    SweepBrigade(b, keep, junk, calls, S, s, mem);
    forall d: nat ensures Released(st.count, Teardown(dropped), d)
                       == if Users(ids, d) != {} && Users(ids, d) <= Elements(dropped) then 1 else 0
    {
      TeardownReleases(st, ids, dropped, d);
    }
  }
}
