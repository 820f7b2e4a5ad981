/**
 Taking segments out and putting them back.

 UNSPLICE leaves the fields of the segment's ends as they were. The pointer left dangling in
 the `next` field of the last element therefore still says where the segment belongs, and
 SPLICE_BEFORE at that pointer is the inverse of UNSPLICE.
 */
module RingUndo {
  import opened Links
  import opened RingLaws

  datatype Cut<T> = Cut(ep1: T, epN: T)

  ghost predicate InGraph<T>(g: Graph<T>, cut: Cut<T>) {
    g.Closed() && cut.ep1 in g.next && cut.epN in g.next
  }

  /** The neighbours on both sides point back at the segment. */
  ghost predicate Mirrored<T>(g: Graph<T>, cut: Cut<T>)
    requires InGraph(g, cut)
  {
    g.Next(g.Prev(cut.ep1)) == cut.ep1 && g.Prev(g.Next(cut.epN)) == cut.epN
  }

  ghost function TakeOut<T>(g: Graph<T>, cut: Cut<T>): (g': Graph<T>)
    requires InGraph(g, cut)
    ensures g'.Closed() && g'.next.Keys == g.next.Keys
  {
    Unsplice(g, cut.ep1, cut.epN)
  }

  ghost function PutBack<T>(g: Graph<T>, cut: Cut<T>): (g': Graph<T>)
    requires InGraph(g, cut)
    ensures g'.Closed() && g'.next.Keys == g.next.Keys
  {
    SpliceBefore(g, g.Next(cut.epN), cut.ep1, cut.epN)
  }

  lemma TakeOutStores<T>(g: Graph<T>, cut: Cut<T>)
    requires InGraph(g, cut)
    ensures Bypassed(g, TakeOut(g, cut), g.Prev(cut.ep1), g.Next(cut.epN))
  {
    UnspliceStores(g, cut.ep1, cut.epN);
  }

  lemma PutBackStores<T>(g: Graph<T>, cut: Cut<T>)
    requires InGraph(g, cut)
    ensures Spliced(g, PutBack(g, cut), g.Prev(g.Next(cut.epN)), g.Next(cut.epN), cut.ep1, cut.epN)
  {
    SpliceBeforeStores(g, g.Next(cut.epN), cut.ep1, cut.epN);
  }

  /** One cut is undone, in every field of every element, exactly when its ends were mirrored. */
  lemma PutBackUndoesTakeOut<T>(g: Graph<T>, cut: Cut<T>)
    requires InGraph(g, cut)
    ensures PutBack(TakeOut(g, cut), cut) == g <==> Mirrored(g, cut)
  {
    var g1 := TakeOut(g, cut);
    var p, n := g.Prev(cut.ep1), g.Next(cut.epN);
    hide TakeOut, PutBack;
    TakeOutStores(g, cut);
    assert g1.Next(cut.epN) == n && g1.Prev(n) == p;
    PutBackStores(g1, cut);
    var g2 := PutBack(g1, cut);
    assert g2.Next(p) == cut.ep1 && g2.Prev(n) == cut.epN;
    if Mirrored(g, cut) {
      SplicedOverBypassed(g, g1, g2, p, n, cut);
      SameGraph(g, g2);
    }
  }

  lemma SplicedOverBypassed<T>(g: Graph<T>, g1: Graph<T>, g2: Graph<T>, p: T, n: T, cut: Cut<T>)
    requires InGraph(g, cut) && Mirrored(g, cut) && p == g.Prev(cut.ep1) && n == g.Next(cut.epN)
    requires Bypassed(g, g1, p, n) && Spliced(g1, g2, p, n, cut.ep1, cut.epN)
    ensures Untouched(g, g2, {})
  {
  }

  ghost predicate AllIn<T>(nodes: set<T>, cuts: seq<Cut<T>>) {
    forall i :: 0 <= i < |cuts| ==> cuts[i].ep1 in nodes && cuts[i].epN in nodes
  }

  ghost function TakeOutAll<T>(g: Graph<T>, cuts: seq<Cut<T>>): (g': Graph<T>)
    requires g.Closed() && AllIn(g.next.Keys, cuts)
    ensures g'.Closed() && g'.next.Keys == g.next.Keys
    decreases |cuts|
  {
    if cuts == [] then g else TakeOutAll(TakeOut(g, cuts[0]), cuts[1..])
  }

  /** The cuts are undone last to first. */
  ghost function PutBackAll<T>(g: Graph<T>, cuts: seq<Cut<T>>): (g': Graph<T>)
    requires g.Closed() && AllIn(g.next.Keys, cuts)
    ensures g'.Closed() && g'.next.Keys == g.next.Keys
    decreases |cuts|
  {
    if cuts == [] then g else PutBack(PutBackAll(g, cuts[1..]), cuts[0])
  }

  /** Each cut is mirrored at the moment it is made. */
  ghost predicate MirroredAll<T>(g: Graph<T>, cuts: seq<Cut<T>>)
    requires g.Closed() && AllIn(g.next.Keys, cuts)
    decreases |cuts|
  {
    cuts != [] ==> Mirrored(g, cuts[0]) && MirroredAll(TakeOut(g, cuts[0]), cuts[1..])
  }

  lemma {:induction false} StackRestores<T>(g: Graph<T>, cuts: seq<Cut<T>>)
    requires g.Closed() && AllIn(g.next.Keys, cuts)
    requires MirroredAll(g, cuts)
    ensures PutBackAll(TakeOutAll(g, cuts), cuts) == g
    decreases |cuts|
  {
    if cuts != [] {
      StackRestores(TakeOut(g, cuts[0]), cuts[1..]);
      PutBackUndoesTakeOut(g, cuts[0]);
    }
  }

  /** Elements lo..hi of what is left of a ring. */
  datatype Span = Span(lo: nat, hi: nat)

  ghost predicate Fits(n: nat, spans: seq<Span>)
    decreases |spans|
  {
    spans != [] ==>
      && spans[0].lo < spans[0].hi <= n
      && Fits(n - (spans[0].hi - spans[0].lo), spans[1..])
  }

  /** How many elements the spans take out. */
  ghost function Taken(spans: seq<Span>): int {
    if spans == [] then 0 else spans[0].hi - spans[0].lo + Taken(spans[1..])
  }

  /** Spans fit exactly if each lies in what those before it leave. */
  lemma {:induction false} FitsIff(n: nat, spans: seq<Span>)
    ensures Fits(n, spans)
       <==> forall k :: 0 <= k < |spans| ==> spans[k].lo < spans[k].hi <= n - Taken(spans[..k])
    decreases |spans|
  {
    if spans != [] {
      var rest := spans[1..];
      forall k | 0 <= k < |rest|
        ensures rest[k] == spans[k + 1] && Taken(spans[..k + 1]) == spans[0].hi - spans[0].lo + Taken(rest[..k])
      {
        assert spans[..k + 1][1..] == rest[..k];
      }
      assert Taken(spans[..0]) == 0;
      if spans[0].lo < spans[0].hi <= n {
        FitsIff(n - (spans[0].hi - spans[0].lo), rest);
        assert forall k :: 0 < k < |spans| ==> spans[k] == rest[k - 1];
        assert forall k :: 0 < k < |spans| ==> spans[..k] == spans[..k - 1 + 1];
      }
    }
  }

  /** What a stack of cuts leaves of s. */
  ghost function Remaining<T>(s: seq<T>, spans: seq<Span>): seq<T>
    requires Fits(|s|, spans)
    decreases |spans|
  {
    if spans == [] then s else Remaining(Without(s, spans[0].lo, spans[0].hi), spans[1..])
  }

  ghost function CutsOf<T>(s: seq<T>, spans: seq<Span>): (cuts: seq<Cut<T>>)
    requires Fits(|s|, spans)
    ensures |cuts| == |spans|
    decreases |spans|
  {
    if spans == [] then []
    else [Cut(s[spans[0].lo], s[spans[0].hi - 1])] + CutsOf(Without(s, spans[0].lo, spans[0].hi), spans[1..])
  }

  /**
   Any number of segments, adjacent or not and down to the empty ring, can be taken out of a
   ring. What is left is the ring of the remaining elements, and undoing the cuts in reverse
   restores every field of every element in the graph.
   */
  lemma {:induction false} UnspliceStackRestoresRing<T>(g: Graph<T>, h: T, s: seq<T>, spans: seq<Span>)
    requires g.Closed() && Ring(g, h, s) && Fits(|s|, spans)
    ensures AllIn(g.next.Keys, CutsOf(s, spans))
    ensures var g' := TakeOutAll(g, CutsOf(s, spans));
            Ring(g', h, Remaining(s, spans)) && PutBackAll(g', CutsOf(s, spans)) == g
  {
    RingCutsAreMirrored(g, h, s, spans);
    StackRestores(g, CutsOf(s, spans));
  }

  lemma {:induction false} RingCutsAreMirrored<T>(g: Graph<T>, h: T, s: seq<T>, spans: seq<Span>)
    requires g.Closed() && Ring(g, h, s) && Fits(|s|, spans)
    ensures AllIn(g.next.Keys, CutsOf(s, spans))
    ensures MirroredAll(g, CutsOf(s, spans))
    ensures Ring(TakeOutAll(g, CutsOf(s, spans)), h, Remaining(s, spans))
    decreases |spans|
  {
    hide TakeOut, Ring;
    if spans != [] {
      var cut := Cut(s[spans[0].lo], s[spans[0].hi - 1]);
      RingCutOnce(g, h, s, spans[0]);
      RingCutsAreMirrored(TakeOut(g, cut), h, Without(s, spans[0].lo, spans[0].hi), spans[1..]);
      assert CutsOf(s, spans)[1..] == CutsOf(Without(s, spans[0].lo, spans[0].hi), spans[1..]);
    }
  }

  lemma RingCutOnce<T>(g: Graph<T>, h: T, s: seq<T>, span: Span)
    requires g.Closed() && Ring(g, h, s) && span.lo < span.hi <= |s|
    ensures var cut := Cut(s[span.lo], s[span.hi - 1]);
            InGraph(g, cut) && Mirrored(g, cut) && Ring(TakeOut(g, cut), h, Without(s, span.lo, span.hi))
  {
    hide Unsplice;
    SegmentIsMirrored(g, h, s, span);
    UnspliceCuts(g, h, s, span.lo, span.hi);
  }

  lemma SegmentIsMirrored<T>(g: Graph<T>, h: T, s: seq<T>, span: Span)
    requires g.Closed() && Ring(g, h, s) && span.lo < span.hi <= |s|
    ensures InGraph(g, Cut(s[span.lo], s[span.hi - 1]))
    ensures Mirrored(g, Cut(s[span.lo], s[span.hi - 1]))
  {
    var c := [h] + s;
    var i, j := span.lo + 1, span.hi;
    assert c[i] == s[span.lo] && c[j] == s[span.hi - 1];
    assert g.Prev(c[i]) == c[i - 1] && g.Next(c[i - 1]) == c[i];
    assert j < |s| ==> g.Next(c[j]) == c[j + 1] && g.Prev(c[j + 1]) == c[j];
  }

  /** What undoing two cuts first to last gives. */
  ghost function FirstToLast<T>(g: Graph<T>, a: Cut<T>, b: Cut<T>): (g': Graph<T>)
    requires InGraph(g, a) && InGraph(g, b)
    ensures g'.Closed() && g'.next.Keys == g.next.Keys
  {
    PutBack(PutBack(TakeOut(TakeOut(g, a), b), a), b)
  }

  /** Two different segments, each with both neighbours pointing back at it and neighbours of its own. */
  ghost predicate TwoSegments<T>(g: Graph<T>, a: Cut<T>, b: Cut<T>) {
    && InGraph(g, a) && InGraph(g, b) && Mirrored(g, a) && Mirrored(g, b)
    && a.ep1 != b.ep1 && a.epN != b.epN
    && g.Prev(a.ep1) != a.epN && g.Prev(b.ep1) != b.epN
  }

  /** b stands right after a. */
  ghost predicate Follows<T>(g: Graph<T>, a: Cut<T>, b: Cut<T>)
    requires InGraph(g, a) && InGraph(g, b)
  {
    g.Prev(b.ep1) == a.epN
  }

  /**
   Cuts undone in the order they were made are undone in every field exactly if the segments
   were not adjacent.
   */
  lemma FirstToLastRestoresIff<T>(g: Graph<T>, a: Cut<T>, b: Cut<T>)
    requires TwoSegments(g, a, b)
    ensures FirstToLast(g, a, b) == g <==> !Follows(g, a, b) && !Follows(g, b, a)
  {
    hide TakeOut, PutBack;
    var g1 := TakeOut(g, a);
    TakeOutStores(g, a);
    var g2 := TakeOut(g1, b);
    TakeOutStores(g1, b);
    var g3 := PutBack(g2, a);
    PutBackStores(g2, a);
    var g4 := PutBack(g3, b);
    PutBackStores(g3, b);
    if Follows(g, a, b) {
      assert g4.Next(g.Prev(a.ep1)) == b.ep1;
    } else if Follows(g, b, a) {
      assert g4.Next(a.epN) == b.ep1;
    } else {
      assert Untouched(g, g4, {});
      SameGraph(g, g4);
    }
  }

  ghost function CutAt<T>(s: seq<T>, span: Span): Cut<T>
    requires span.lo < span.hi <= |s|
  {
    Cut(s[span.lo], s[span.hi - 1])
  }

  /** Two spans of a ring, in either order, undone first to last. */
  lemma SpansFirstToLastRestoreIff<T>(g: Graph<T>, h: T, s: seq<T>, x: Span, y: Span)
    requires g.Closed() && Ring(g, h, s)
    requires x.lo < x.hi <= |s| && y.lo < y.hi <= |s| && (x.hi <= y.lo || y.hi <= x.lo)
    ensures InGraph(g, CutAt(s, x)) && InGraph(g, CutAt(s, y))
    ensures FirstToLast(g, CutAt(s, x), CutAt(s, y)) == g <==> x.hi != y.lo && y.hi != x.lo
  {
    hide FirstToLast;
    SegmentIsMirrored(g, h, s, x);
    SegmentIsMirrored(g, h, s, y);
    SpanPlaces(g, h, s, x, y);
    SpanPlaces(g, h, s, y, x);
    FirstToLastRestoresIff(g, CutAt(s, x), CutAt(s, y));
  }

  lemma SpanPlaces<T>(g: Graph<T>, h: T, s: seq<T>, x: Span, y: Span)
    requires g.Closed() && Ring(g, h, s)
    requires x.lo < x.hi <= |s| && y.lo < y.hi <= |s| && (x.hi <= y.lo || y.hi <= x.lo)
    ensures s[x.lo] in g.next && s[x.lo] != s[y.lo] && s[x.hi - 1] != s[y.hi - 1]
    ensures g.Prev(s[x.lo]) != s[x.hi - 1]
    ensures g.Prev(s[x.lo]) == s[y.hi - 1] <==> y.hi == x.lo
  {
    var c := [h] + s;
    CycleNeighbours(g, c, x.lo + 1);
    assert c[x.lo + 1] == s[x.lo] && c[y.lo + 1] == s[y.lo] && c[x.hi] == s[x.hi - 1] && c[y.hi] == s[y.hi - 1];
  }

  /** In particular, two removals are undone first to last exactly if the elements were not adjacent. */
  lemma RemovalsFirstToLastRestoreIff<T>(g: Graph<T>, h: T, s: seq<T>, i: nat, j: nat)
    requires g.Closed() && Ring(g, h, s) && i < |s| && j < |s| && i != j
    ensures InGraph(g, Cut(s[i], s[i])) && InGraph(g, Cut(s[j], s[j]))
    ensures FirstToLast(g, Cut(s[i], s[i]), Cut(s[j], s[j])) == g <==> i + 1 != j && j + 1 != i
  {
    hide FirstToLast;
    SpansFirstToLastRestoreIff(g, h, s, Span(i, i + 1), Span(j, j + 1));
  }

  /** The failing case, in both orders of removal. */
  lemma FirstToLastDoesNotRestore<T>(g: Graph<T>, h: T, s: seq<T>, i: nat)
    requires g.Closed() && Ring(g, h, s) && i + 1 < |s|
    ensures var a, b := Cut(s[i], s[i]), Cut(s[i + 1], s[i + 1]);
            InGraph(g, a) && InGraph(g, b) && FirstToLast(g, a, b) != g && FirstToLast(g, b, a) != g
  {
    hide FirstToLast;
    RemovalsFirstToLastRestoreIff(g, h, s, i, i + 1);
    RemovalsFirstToLastRestoreIff(g, h, s, i + 1, i);
  }
}
