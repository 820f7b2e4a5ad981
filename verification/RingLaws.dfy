/**
 What a well-formed ring is, and what each ring macro does to it.

 A ring is one cycle of elements on which `next` and `prev` are mutual inverses. A headed
 ring with elements `s` is the cycle `[h] + s`, where `h` stands for the sentinel.
 */
module RingLaws {
  import opened Links

  ghost predicate Distinct<T>(c: seq<T>) {
    forall i, j :: 0 <= i < j < |c| ==> c[i] != c[j]
  }

  ghost predicate Disjoint<T>(c: seq<T>, d: seq<T>) {
    forall i, j :: 0 <= i < |c| && 0 <= j < |d| ==> c[i] != d[j]
  }

  ghost function Elements<T>(s: seq<T>): set<T> {
    set x | x in s
  }

  /** No element occurs twice exactly if each occurs once at most. */
  lemma {:induction false} DistinctCounts<T>(c: seq<T>)
    ensures Distinct(c) <==> forall x | x in c :: multiset(c)[x] == 1
  {
    if c != [] {
      var n := |c| - 1;
      var d, y := c[..n], c[n];
      DistinctCounts(d);
      assert c == d + [y] && multiset(c) == multiset(d) + multiset{y};
      if Distinct(c) {
        assert Distinct(d) && y !in d;
      } else if Distinct(d) {
        assert y in d;
        assert multiset(c)[y] == 2;
      } else {
        var x :| x in d && multiset(d)[x] != 1;
        assert x in multiset(d) && multiset(c)[x] >= multiset(d)[x];
      }
    }
  }

  /** Elements are chosen from distinct ones, each once, exactly if they are a part of them. */
  lemma ChosenIsPart<T>(s: seq<T>, xs: seq<T>)
    requires Distinct(s)
    ensures multiset(xs) <= multiset(s) <==> Distinct(xs) && forall j :: 0 <= j < |xs| ==> xs[j] in s
  {
    DistinctCounts(s);
    DistinctCounts(xs);
    if multiset(xs) <= multiset(s) {
      forall x | x in xs ensures x in s && multiset(xs)[x] == 1 {
        assert x in multiset(xs);
        assert x in multiset(s);
      }
    }
    if Distinct(xs) && forall j :: 0 <= j < |xs| ==> xs[j] in s {
      forall x | x in multiset(xs) ensures multiset(xs)[x] <= multiset(s)[x] {
        assert x in xs;
      }
    }
  }

  /** Distinct elements, neighbours linked in both directions; the two ends are free. */
  ghost predicate Chain<T>(g: Graph<T>, older c: seq<T>)
    requires g.Closed()
  {
    && Distinct(c)
    && (forall i :: 0 <= i < |c| ==> c[i] in g.next)
    && (forall i :: 0 <= i < |c| - 1 ==> g.Next(c[i]) == c[i + 1])
    && (forall i :: 0 < i < |c| ==> g.Prev(c[i]) == c[i - 1])
  }

  ghost predicate Cycle<T>(g: Graph<T>, older c: seq<T>)
    requires g.Closed()
  {
    && c != []
    && Chain(g, c)
    && g.Next(c[|c| - 1]) == c[0]
    && g.Prev(c[0]) == c[|c| - 1]
  }

  /** Only the fields of elements of `touched` may differ. */
  ghost predicate Untouched<T>(g: Graph<T>, g': Graph<T>, touched: set<T>) {
    && g.Closed() && g'.Closed() && g.next.Keys == g'.next.Keys
    && (forall x {:trigger g'.Next(x)} {:trigger g'.Prev(x)} | x in g.next && x !in touched ::
          g'.Next(x) == g.Next(x) && g'.Prev(x) == g.Prev(x))
  }

  lemma CycleFrame<T>(g: Graph<T>, g': Graph<T>, c: seq<T>, touched: set<T>)
    requires Untouched(g, g', touched) && (forall i :: 0 <= i < |c| ==> c[i] !in touched)
    ensures Cycle(g, c) ==> Cycle(g', c)
    ensures Chain(g, c) ==> Chain(g', c)
  {
  }

  /** A cycle has no first element. */
  lemma Rotate<T>(g: Graph<T>, a: seq<T>, b: seq<T>)
    requires g.Closed() && Cycle(g, a + b)
    ensures Cycle(g, b + a)
  {
    if a == [] {
      assert b + a == a + b;
    } else if b == [] {
      assert b + a == a + b;
    } else {
      var c, d := a + b, b + a;
      forall i | 0 <= i < |d|
        ensures d[i] == if i < |b| then c[i + |a|] else c[i - |b|]
      {
      }
    }
  }

  /** g' is g with ep1..epN put between p and q, and no other field changed. */
  ghost predicate Spliced<T>(g: Graph<T>, g': Graph<T>, p: T, q: T, ep1: T, epN: T) {
    && g.Closed() && g'.Closed() && g.next.Keys == g'.next.Keys
    && (forall x {:trigger g'.Next(x)} | x in g.next ::
          g'.Next(x) == if x == p then ep1 else if x == epN then q else g.Next(x))
    && (forall x {:trigger g'.Prev(x)} | x in g.next ::
          g'.Prev(x) == if x == q then epN else if x == ep1 then p else g.Prev(x))
  }

  /** The net effect of the four stores, for any aliasing of the arguments. */
  lemma SpliceBeforeStores<T>(g: Graph<T>, lep: T, ep1: T, epN: T)
    requires g.Closed() && lep in g.next && ep1 in g.next && epN in g.next
    ensures Spliced(g, SpliceBefore(g, lep, ep1, epN), g.Prev(lep), lep, ep1, epN)
  {
  }

  lemma SpliceAfterStores<T>(g: Graph<T>, lep: T, ep1: T, epN: T)
    requires g.Closed() && lep in g.next && ep1 in g.next && epN in g.next
    ensures Spliced(g, SpliceAfter(g, lep, ep1, epN), lep, g.Next(lep), ep1, epN)
  {
  }

  lemma SplicedTouches<T>(g: Graph<T>, g': Graph<T>, p: T, q: T, ep1: T, epN: T, touched: set<T>)
    requires Spliced(g, g', p, q, ep1, epN) && {p, q, ep1, epN} <= touched
    ensures Untouched(g, g', touched)
  {
  }

  /** Putting a linked segment between the last and first element of a cycle lengthens the cycle. */
  lemma SplicedAppends<T>(g: Graph<T>, g': Graph<T>, c: seq<T>, seg: seq<T>)
    requires g.Closed() && Cycle(g, c) && Chain(g, seg) && Disjoint(c, seg) && seg != []
    requires Spliced(g, g', c[|c| - 1], c[0], seg[0], seg[|seg| - 1])
    ensures Cycle(g', c + seg)
  {
  }

  /** SPLICE_AFTER refines sequence insertion, also when lep is a sentinel. */
  lemma SpliceAfterInserts<T>(g: Graph<T>, a: seq<T>, b: seq<T>, seg: seq<T>)
    requires g.Closed() && a != [] && seg != []
    requires Cycle(g, a + b) && Chain(g, seg) && Disjoint(a + b, seg)
    ensures a[|a| - 1] in g.next && seg[0] in g.next && seg[|seg| - 1] in g.next
    ensures var g' := SpliceAfter(g, a[|a| - 1], seg[0], seg[|seg| - 1]);
            Cycle(g', a + seg + b)
  {
    Rotate(g, a, b);
    var c := b + a;
    assert c[|c| - 1] == a[|a| - 1] && c[|c| - 1] in g.next && seg[0] in g.next && seg[|seg| - 1] in g.next;
    var g' := SpliceAfter(g, a[|a| - 1], seg[0], seg[|seg| - 1]);
    SpliceAfterStores(g, a[|a| - 1], seg[0], seg[|seg| - 1]);
    SplicedClosesUp(g, g', a, b, seg);
  }

  lemma SplicedClosesUp<T>(g: Graph<T>, g': Graph<T>, a: seq<T>, b: seq<T>, seg: seq<T>)
    requires g.Closed() && seg != [] && Cycle(g, b + a) && Chain(g, seg) && Disjoint(a + b, seg)
    requires Spliced(g, g', (b + a)[|b + a| - 1], (b + a)[0], seg[0], seg[|seg| - 1])
    ensures Cycle(g', a + seg + b)
  {
    var c := b + a;
    forall i, j | 0 <= i < |c| && 0 <= j < |seg| ensures c[i] != seg[j] {
      assert c[i] == (a + b)[if i < |b| then i + |a| else i - |b|];
    }
    SplicedAppends(g, g', c, seg);
    assert c + seg == b + (a + seg);
    Rotate(g', b, a + seg);
    assert a + seg + b == (a + seg) + b;
  }

  /** Graphs are equal when all their fields are. */
  lemma SameGraph<T>(g: Graph<T>, g': Graph<T>)
    requires Untouched(g, g', {})
    ensures g == g'
  {
    forall x | x in g.next ensures g.next[x] == g'.next[x] && g.prev[x] == g'.prev[x] {
      assert g.Next(x) == g'.Next(x) && g.Prev(x) == g'.Prev(x);
    }
  }

  /** The two splices are one operation, described from either side of the gap. */
  lemma SpliceBeforeIsSpliceAfter<T>(g: Graph<T>, lep: T, ep1: T, epN: T)
    requires g.Closed() && lep in g.next && ep1 in g.next && epN in g.next
    requires g.Next(g.Prev(lep)) == lep
    ensures SpliceBefore(g, lep, ep1, epN) == SpliceAfter(g, g.Prev(lep), ep1, epN)
  {
    SpliceBeforeStores(g, lep, ep1, epN);
    SpliceAfterStores(g, g.Prev(lep), ep1, epN);
    SameGraph(SpliceBefore(g, lep, ep1, epN), SpliceAfter(g, g.Prev(lep), ep1, epN));
  }

  /** The ring headed by h holds exactly the elements s, in that order. */
  ghost predicate Ring<T>(g: Graph<T>, older h: T, older s: seq<T>)
    requires g.Closed()
  {
    assert ([h] + s)[0] == h && ([h] + s)[1..] == s;
    Cycle(g, [h] + s)
  }

  ghost predicate SelfLinked<T>(g: Graph<T>, g': Graph<T>, h: T) {
    Untouched(g, g', {h}) && h in g.next && g'.Next(h) == h && g'.Prev(h) == h
  }

  lemma SelfLinkStores<T>(g: Graph<T>, h: T)
    requires g.Closed() && h in g.next
    ensures SelfLinked(g, SelfLink(g, h), h)
  {
  }

  /** INIT makes an empty ring and leaves every ring that does not hold h alone. */
  lemma SelfLinkMakesEmptyRing<T>(g: Graph<T>, g': Graph<T>, h: T)
    requires SelfLinked(g, g', h)
    ensures Ring(g', h, [])
    ensures forall c {:trigger Cycle(g, c)} {:trigger Cycle(g', c)} :: Cycle(g, c) && h !in c ==> Cycle(g', c)
  {
    assert [h] + [] == [h];
    forall c | Cycle(g, c) && h !in c ensures Cycle(g', c) {
      CycleFrame(g, g', c, {h});
    }
  }

  lemma CutIn<T>(h: T, s: seq<T>, k: nat, seg: seq<T>)
    requires k <= |s|
    ensures ([h] + s)[..k + 1] + ([h] + s)[k + 1..] == [h] + s
    ensures ([h] + s)[..k + 1][k] == ([h] + s)[k]
    ensures ([h] + s)[..k + 1] + seg + ([h] + s)[k + 1..] == [h] + (s[..k] + seg + s[k..])
  {
  }

  /** SPLICE_AFTER refines sequence insertion. Position 0 of a ring is its sentinel. */
  lemma SpliceAfterAt<T>(g: Graph<T>, h: T, s: seq<T>, k: nat, seg: seq<T>)
    requires g.Closed() && Ring(g, h, s) && Chain(g, seg) && Disjoint([h] + s, seg)
    requires k <= |s| && seg != []
    ensures ([h] + s)[k] in g.next && seg[0] in g.next && seg[|seg| - 1] in g.next
    ensures var g' := SpliceAfter(g, ([h] + s)[k], seg[0], seg[|seg| - 1]);
            var s' := s[..k] + seg + s[k..];
            Ring(g', h, s')
  {
    hide Cycle, Chain, SpliceAfter;
    var c := [h] + s;
    CutIn(h, s, k, seg);
    SpliceAfterInserts(g, c[..k + 1], c[k + 1..], seg);
  }

  /** SPLICE_BEFORE refines sequence insertion; before the sentinel means at the tail. */
  lemma SpliceBeforeAt<T>(g: Graph<T>, h: T, s: seq<T>, k: nat, seg: seq<T>)
    requires g.Closed() && Ring(g, h, s) && Chain(g, seg) && Disjoint([h] + s, seg)
    requires k <= |s| && seg != []
    ensures ([h] + s)[k] in g.next && seg[0] in g.next && seg[|seg| - 1] in g.next
    ensures var g' := SpliceBefore(g, ([h] + s)[k], seg[0], seg[|seg| - 1]);
            Ring(g', h, if k == 0 then s + seg else s[..k - 1] + seg + s[k - 1..])
  {
    var j := if k == 0 then |s| else k - 1;
    var c := [h] + s;
    assert c[k] in g.next && seg[0] in g.next && seg[|seg| - 1] in g.next;
    assert g.Prev(c[k]) == c[j] && g.Next(c[j]) == c[k];
    SpliceBeforeIsSpliceAfter(g, c[k], seg[0], seg[|seg| - 1]);
    SpliceAfterAt(g, h, s, j, seg);
    assert k == 0 ==> s[..j] + seg + s[j..] == s + seg;
  }

  /** The element at position k, or the sentinel after the last one. */
  ghost function At<T>(b: T, s: seq<T>, k: nat): T
    requires k <= |s|
  {
    (s + [b])[k]
  }

  ghost function Without<T>(s: seq<T>, i: nat, j: nat): seq<T>
    requires i <= j <= |s|
  {
    s[..i] + s[j..]
  }

  /** Both fields that name the segment from outside now bypass it. */
  ghost predicate Bypassed<T>(g: Graph<T>, g': Graph<T>, p: T, q: T) {
    && g.Closed() && g'.Closed() && g.next.Keys == g'.next.Keys
    && (forall x {:trigger g'.Next(x)} | x in g.next :: g'.Next(x) == if x == p then q else g.Next(x))
    && (forall x {:trigger g'.Prev(x)} | x in g.next :: g'.Prev(x) == if x == q then p else g.Prev(x))
  }

  lemma UnspliceStores<T>(g: Graph<T>, ep1: T, epN: T)
    requires g.Closed() && ep1 in g.next && epN in g.next
    ensures Bypassed(g, Unsplice(g, ep1, epN), g.Prev(ep1), g.Next(epN))
  {
  }

  lemma CycleNeighbours<T>(g: Graph<T>, c: seq<T>, i: nat)
    requires g.Closed() && Cycle(g, c) && i < |c|
    ensures c[i] in g.next
    ensures g.Next(c[i]) == c[if i == |c| - 1 then 0 else i + 1]
    ensures g.Prev(c[i]) == c[if i == 0 then |c| - 1 else i - 1]
  {
  }

  /**
   UNSPLICE changes nothing exactly if the outer neighbours bypass the segment already. That
   is so for a singleton linked to itself, and for a segment taken out before, as long as
   nothing was put into the gap.
   */
  lemma UnspliceIsNoOpIff<T>(g: Graph<T>, ep1: T, epN: T)
    requires g.Closed() && ep1 in g.next && epN in g.next
    ensures Unsplice(g, ep1, epN) == g
       <==> g.Next(g.Prev(ep1)) == g.Next(epN) && g.Prev(g.Next(epN)) == g.Prev(ep1)
  {
    hide Unsplice;
    UnspliceStores(g, ep1, epN);
    var g' := Unsplice(g, ep1, epN);
    assert g'.Next(g.Prev(ep1)) == g.Next(epN) && g'.Prev(g.Next(epN)) == g.Prev(ep1);
    if g.Next(g.Prev(ep1)) == g.Next(epN) && g.Prev(g.Next(epN)) == g.Prev(ep1) {
      assert Untouched(g, g', {});
      SameGraph(g, g');
    }
  }

  /** Taking the same segment out twice in a row is taking it out once. */
  lemma UnspliceTwice<T>(g: Graph<T>, ep1: T, epN: T)
    requires g.Closed() && ep1 in g.next && epN in g.next
    ensures Unsplice(Unsplice(g, ep1, epN), ep1, epN) == Unsplice(g, ep1, epN)
  {
    hide Unsplice;
    UnspliceStores(g, ep1, epN);
    UnspliceIsNoOpIff(Unsplice(g, ep1, epN), ep1, epN);
  }

  /** UNSPLICE depends on the outer neighbours only, whatever lies between them. */
  lemma UnspliceByNeighbours<T>(g: Graph<T>, ep1: T, epN: T, m1: T, mN: T)
    requires g.Closed() && ep1 in g.next && epN in g.next && m1 in g.next && mN in g.next
    requires g.Prev(m1) == g.Prev(ep1) && g.Next(mN) == g.Next(epN)
    ensures Unsplice(g, ep1, epN) == Unsplice(g, m1, mN)
  {
    hide Unsplice;
    UnspliceStores(g, ep1, epN);
    UnspliceStores(g, m1, mN);
    SameGraph(Unsplice(g, ep1, epN), Unsplice(g, m1, mN));
  }

  /** Bypassing c[i..j] leaves the rest a cycle and the cut-out part linked as before, ends included. */
  lemma BypassedCuts<T>(g: Graph<T>, g': Graph<T>, c: seq<T>, i: nat, j: nat)
    requires g.Closed() && Cycle(g, c) && 0 < i < j <= |c|
    requires Bypassed(g, g', c[i - 1], if j == |c| then c[0] else c[j])
    ensures Cycle(g', c[..i] + c[j..]) && Chain(g', c[i..j])
    ensures g'.Prev(c[i]) == c[i - 1] && g'.Next(c[j - 1]) == if j == |c| then c[0] else c[j]
  {
    var d, seg := c[..i] + c[j..], c[i..j];
    forall k | 0 <= k < |d| ensures d[k] == c[if k < i then k else k + j - i] {
    }
    forall k | 0 <= k < |seg| ensures seg[k] == c[i + k] {
    }
    assert d[i - 1] == c[i - 1] && (j < |c| ==> d[i] == c[j]) && d[0] == c[0];
    assert Distinct(d);
    forall k | 0 <= k < |d| - 1 ensures g'.Next(d[k]) == d[k + 1] {
      if k != i - 1 {
        assert g.Next(d[k]) == d[k + 1];
      }
    }
    forall k | 0 < k < |d| ensures g'.Prev(d[k]) == d[k - 1] {
      if k != i {
        assert g.Prev(d[k]) == d[k - 1];
      }
    }
    assert Distinct(seg);
  }

  lemma CutOut<T>(h: T, s: seq<T>, i: nat, j: nat)
    requires i < j <= |s|
    ensures ([h] + s)[..i + 1] + ([h] + s)[j + 1..] == [h] + (s[..i] + s[j..])
    ensures ([h] + s)[i + 1..j + 1] == s[i..j]
  {
  }

  /** UNSPLICE takes s[i..j] out; the segment stays linked and its ends keep pointing at the gap. */
  lemma UnspliceCuts<T>(g: Graph<T>, h: T, s: seq<T>, i: nat, j: nat)
    requires g.Closed() && Ring(g, h, s) && i < j <= |s|
    ensures s[i] in g.next && s[j - 1] in g.next
    ensures var g' := Unsplice(g, s[i], s[j - 1]);
            && Ring(g', h, s[..i] + s[j..]) && Chain(g', s[i..j])
            && g'.Prev(s[i]) == ([h] + s)[i]
            && g'.Next(s[j - 1]) == ([h] + s + [h])[j + 1]
  {
    hide Unsplice, Cycle, Chain;
    var c := [h] + s;
    CycleNeighbours(g, c, i + 1);
    CycleNeighbours(g, c, j);
    assert c[i + 1] == s[i] && c[j] == s[j - 1];
    var g' := Unsplice(g, s[i], s[j - 1]);
    UnspliceStores(g, s[i], s[j - 1]);
    var q := if j == |s| then c[0] else c[j + 1];
    assert g.Prev(c[i + 1]) == c[i] && g.Next(c[j]) == q;
    BypassedCuts(g, g', c, i + 1, j + 1);
    CutOut(h, s, i, j);
    assert ([h] + s + [h])[j + 1] == q;
  }

  /** The elements of a ring, with its sentinel. */
  ghost function Members<T>(h: T, s: seq<T>): set<T> {
    set x | x in [h] + s
  }

  /** The fields inside a ring are determined by its sequence. */
  lemma RingDeterminesFields<T>(g: Graph<T>, g': Graph<T>, h: T, s: seq<T>, touched: set<T>)
    requires Untouched(g, g', Members(h, s) + touched) && Ring(g, h, s) && Ring(g', h, s)
    ensures Untouched(g, g', touched)
  {
    var c := [h] + s;
    forall x | x in g.next && x !in touched ensures g.Next(x) == g'.Next(x) && g.Prev(x) == g'.Prev(x) {
      if x in Members(h, s) {
        var i :| 0 <= i < |c| && c[i] == x;
        assert g.Next(c[i]) == g'.Next(c[i]) by {
          assert i < |c| - 1 ==> g.Next(c[i]) == c[i + 1] && g'.Next(c[i]) == c[i + 1];
        }
        assert g.Prev(c[i]) == g'.Prev(c[i]) by {
          assert i > 0 ==> g.Prev(c[i]) == c[i - 1] && g'.Prev(c[i]) == c[i - 1];
        }
      }
    }
  }

  /**
   CONCAT passes FIRST(h2) and LAST(h2) unevaluated to the splice. As long as h2 is not linked
   to itself, none of the stores changes either before its last use.
   */
  lemma ConcatIsSpliceByValue<T>(g: Graph<T>, h1: T, h2: T)
    requires g.Closed() && h1 in g.next && h2 in g.next
    requires g.Next(h2) != h2 && g.Prev(h2) != h2
    ensures Concat(g, h1, h2) == SelfLink(SpliceBefore(g, h1, g.Next(h2), g.Prev(h2)), h2)
    ensures Prepend(g, h1, h2) == SelfLink(SpliceAfter(g, h1, g.Next(h2), g.Prev(h2)), h2)
  {
  }

  ghost predicate Apart<T>(h1: T, s1: seq<T>, h2: T, s2: seq<T>) {
    Members(h1, s1) !! Members(h2, s2)
  }

  lemma MembersAt<T>(h: T, s: seq<T>)
    ensures h in Members(h, s)
    ensures forall i :: 0 <= i < |s| ==> s[i] in Members(h, s)
  {
  }

  /** Rings that avoid the touched elements survive. */
  lemma RingFrame<T>(g: Graph<T>, g': Graph<T>, h: T, s: seq<T>, touched: set<T>)
    requires Untouched(g, g', touched) && Ring(g, h, s) && Members(h, s) !! touched
    ensures Ring(g', h, s)
  {
  }

  lemma UntouchedTwice<T>(g: Graph<T>, g1: Graph<T>, g2: Graph<T>, u1: set<T>, u2: set<T>, u: set<T>)
    requires Untouched(g, g1, u1) && Untouched(g1, g2, u2) && u1 <= u && u2 <= u
    ensures Untouched(g, g2, u)
  {
  }

  lemma NeighboursAreMembers<T>(g: Graph<T>, h: T, s: seq<T>, k: nat)
    requires g.Closed() && Ring(g, h, s) && k <= |s|
    ensures ([h] + s)[k] in g.next
    ensures g.Next(([h] + s)[k]) in Members(h, s) && g.Prev(([h] + s)[k]) in Members(h, s)
  {
    var c := [h] + s;
    assert g.Next(c[k]) == c[if k == |s| then 0 else k + 1];
    assert g.Prev(c[k]) == c[if k == 0 then |s| else k - 1];
  }

  /** UNSPLICE of s[i..j] touches no field outside the ring. */
  lemma UnspliceStays<T>(g: Graph<T>, h: T, s: seq<T>, i: nat, j: nat)
    requires g.Closed() && Ring(g, h, s) && i < j <= |s|
    ensures s[i] in g.next && s[j - 1] in g.next
    ensures Untouched(g, Unsplice(g, s[i], s[j - 1]), Members(h, s))
  {
    hide Unsplice, Ring;
    NeighboursAreMembers(g, h, s, i + 1);
    NeighboursAreMembers(g, h, s, j);
    assert ([h] + s)[i + 1] == s[i] && ([h] + s)[j] == s[j - 1];
    UnspliceStores(g, s[i], s[j - 1]);
  }

  lemma GapClosed<T>(g: Graph<T>, h: T, s: seq<T>, i: nat, j: nat)
    requires g.Closed() && Ring(g, h, s) && i < j <= |s|
    ensures s[i] in g.next && s[j - 1] in g.next && ([h] + s)[i] in g.next
    ensures Unsplice(g, s[i], s[j - 1]).Next(([h] + s)[i]) == ([h] + s + [h])[j + 1]
  {
    hide Unsplice;
    var c := [h] + s;
    CycleNeighbours(g, c, i + 1);
    CycleNeighbours(g, c, j);
    assert c[i + 1] == s[i] && c[j] == s[j - 1];
    assert ([h] + s + [h])[j + 1] == if j == |s| then c[0] else c[j + 1];
    UnspliceStores(g, s[i], s[j - 1]);
  }

  lemma GapIsClear<T>(g: Graph<T>, h: T, s: seq<T>, i: nat, j: nat, t: seq<T>)
    requires g.Closed() && Chain(g, t) && t != [] && Disjoint([h] + s, t) && i < j <= |s|
    ensures t[0] in g.next && t[|t| - 1] in g.next
    ensures Disjoint([h] + (s[..i] + s[j..]), t) && ([h] + (s[..i] + s[j..]))[i] == ([h] + s)[i]
    ensures forall k :: 0 <= k < |t| ==> t[k] !in Members(h, s)
  {
    var c, d := [h] + s, [h] + (s[..i] + s[j..]);
    forall k, l | 0 <= k < |d| && 0 <= l < |t| ensures d[k] != t[l] {
      assert d[k] == c[if k <= i then k else k + j - i];
    }
  }

  /** Put into a gap, t lies between the neighbours that the segment taken out still names. */
  lemma GapFilled<T>(g: Graph<T>, g1: Graph<T>, g2: Graph<T>, h: T, s: seq<T>, i: nat, j: nat, t: seq<T>)
    requires g.Closed() && Ring(g, h, s) && i < j <= |s| && t != []
    requires g1.Closed() && s[i] in g1.next && s[j - 1] in g1.next && t[0] in g1.next && t[|t| - 1] in g1.next
    requires g1.Prev(s[i]) == ([h] + s)[i] && g1.Next(s[j - 1]) == ([h] + s + [h])[j + 1]
    requires Disjoint([h] + s, t)
    requires Spliced(g1, g2, ([h] + s)[i], ([h] + s + [h])[j + 1], t[0], t[|t| - 1])
    ensures g2.Prev(s[i]) == g2.Prev(t[0]) && g2.Next(s[j - 1]) == g2.Next(t[|t| - 1])
  {
    var c := [h] + s;
    assert c[i + 1] == s[i] && c[j] == s[j - 1];
    assert ([h] + s + [h])[j + 1] == if j == |s| then c[0] else c[j + 1];
  }

  lemma TakesMiddle<T>(g: Graph<T>, h: T, a: seq<T>, t: seq<T>, b: seq<T>)
    requires g.Closed() && Ring(g, h, a + t + b) && t != []
    ensures t[0] in g.next && t[|t| - 1] in g.next
    ensures var g' := Unsplice(g, t[0], t[|t| - 1]);
            Ring(g', h, a + b) && Chain(g', t)
  {
    hide Unsplice, Ring, Chain;
    var s, i, j := a + t + b, |a|, |a| + |t|;
    assert s[i] == t[0] && s[j - 1] == t[|t| - 1];
    assert s[..i] == a && s[j..] == b && s[i..j] == t;
    UnspliceCuts(g, h, s, i, j);
  }

  /**
   A segment is taken out, t is put into the gap, and the segment is taken out once more: that
   takes out t instead.
   */
  lemma StaleUnspliceTakesGap<T>(g: Graph<T>, h: T, s: seq<T>, i: nat, j: nat, t: seq<T>)
    requires g.Closed() && Ring(g, h, s) && i < j <= |s|
    requires Chain(g, t) && t != [] && Disjoint([h] + s, t)
    ensures s[i] in g.next && s[j - 1] in g.next && ([h] + s)[i] in g.next && t[0] in g.next && t[|t| - 1] in g.next
    ensures var g1 := Unsplice(g, s[i], s[j - 1]);
            var g2 := SpliceAfter(g1, ([h] + s)[i], t[0], t[|t| - 1]);
            var g3 := Unsplice(g2, s[i], s[j - 1]);
            && Ring(g2, h, s[..i] + t + s[j..])
            && Ring(g3, h, s[..i] + s[j..]) && Chain(g3, t)
  {
    hide Unsplice, SpliceAfter, Ring, Chain, Disjoint, Members, Spliced;
    GapIsClear(g, h, s, i, j, t);
    UnspliceCuts(g, h, s, i, j);
    var g1 := Unsplice(g, s[i], s[j - 1]);
    GapClosed(g, h, s, i, j);
    UnspliceStays(g, h, s, i, j);
    CycleFrame(g, g1, t, Members(h, s));
    var rest := s[..i] + s[j..];
    SpliceAfterAt(g1, h, rest, i, t);
    var g2 := SpliceAfter(g1, ([h] + s)[i], t[0], t[|t| - 1]);
    SpliceAfterStores(g1, ([h] + s)[i], t[0], t[|t| - 1]);
    GapFilled(g, g1, g2, h, s, i, j, t);
    UnspliceByNeighbours(g2, s[i], s[j - 1], t[0], t[|t| - 1]);
    assert rest[..i] == s[..i] && rest[i..] == s[j..];
    TakesMiddle(g2, h, s[..i], t, s[j..]);
  }

  lemma RemoveOne<T>(g: Graph<T>, h: T, s: seq<T>, k: nat)
    requires g.Closed() && Ring(g, h, s) && 0 < k <= |s|
    ensures s[k - 1] in g.next
    ensures var g' := Unsplice(g, s[k - 1], s[k - 1]);
            Untouched(g, g', Members(h, s)) && Ring(g', h, s[..k - 1] + s[k..])
  {
    hide Unsplice, Ring;
    UnspliceCuts(g, h, s, k - 1, k);
    UnspliceStays(g, h, s, k - 1, k);
  }

  /** The elements of a headed ring form a chain of their own. */
  lemma RingChain<T>(g: Graph<T>, h: T, s: seq<T>)
    requires g.Closed() && Ring(g, h, s)
    ensures Chain(g, s) && h in g.next && h !in s
    ensures g.Next(h) == ([h] + s + [h])[1] && g.Prev(h) == ([h] + s)[|s|]
    ensures g.Next(h) == h <==> s == []
    ensures g.Prev(h) == h <==> s == []
  {
    var c := [h] + s;
    assert c[0] == h;
    forall i | 0 <= i < |s| ensures s[i] == c[i + 1] && s[i] in g.next && s[i] != h {
    }
    assert Distinct(s);
    forall i | 0 <= i < |s| - 1 ensures g.Next(s[i]) == s[i + 1] {
      assert g.Next(c[i + 1]) == c[i + 2];
    }
    forall i | 0 < i < |s| ensures g.Prev(s[i]) == s[i - 1] {
      assert g.Prev(c[i + 1]) == c[i];
    }
  }

  lemma ApartMembers<T>(h1: T, s1: seq<T>, h2: T, s2: seq<T>)
    requires Apart(h1, s1, h2, s2)
    ensures Disjoint([h1] + s1, s2) && h1 != h2 && h2 !in [h1] + s1
    ensures h1 in Members(h1, s1) && h2 in Members(h2, s2)
    ensures forall i :: 0 <= i < |s1| ==> s1[i] in Members(h1, s1)
    ensures forall i :: 0 <= i < |s2| ==> s2[i] in Members(h2, s2)
    ensures ([h1] + s1)[|s1|] in Members(h1, s1) && ([h1] + s1 + [h1])[1] in Members(h1, s1)
  {
    MembersAt(h1, s1);
    MembersAt(h2, s2);
    forall i, j | 0 <= i < |[h1] + s1| && 0 <= j < |s2| ensures ([h1] + s1)[i] != s2[j] {
      assert ([h1] + s1)[i] in Members(h1, s1);
    }
  }

  /** The splice of s2 into the ring of h1, followed by the INIT of h2. */
  lemma SplicedAndEmptied<T>(g: Graph<T>, g1: Graph<T>, g2: Graph<T>,
                             h1: T, s1: seq<T>, h2: T, s2: seq<T>, p: T, q: T, s: seq<T>)
    requires s2 != [] && Apart(h1, s1, h2, s2) && p in Members(h1, s1) && q in Members(h1, s1)
    requires Spliced(g, g1, p, q, s2[0], s2[|s2| - 1]) && SelfLinked(g1, g2, h2)
    requires Ring(g1, h1, s) && h2 !in [h1] + s
    ensures Ring(g2, h1, s) && Ring(g2, h2, [])
    ensures Untouched(g, g2, Members(h1, s1) + Members(h2, s2))
  {
  }

  lemma ConcatStores<T>(g: Graph<T>, g1: Graph<T>, g2: Graph<T>, h1: T, s1: seq<T>, h2: T, s2: seq<T>)
    requires g.Closed() && Ring(g, h1, s1) && Ring(g, h2, s2) && Apart(h1, s1, h2, s2) && s2 != []
    requires h1 in g.next && s2[0] in g.next && s2[|s2| - 1] in g.next
    requires g1 == SpliceBefore(g, h1, s2[0], s2[|s2| - 1]) && SelfLinked(g1, g2, h2)
    ensures Ring(g2, h1, s1 + s2) && Ring(g2, h2, [])
    ensures Untouched(g, g2, Members(h1, s1) + Members(h2, s2))
  {
    RingChain(g, h1, s1);
    RingChain(g, h2, s2);
    ApartMembers(h1, s1, h2, s2);
    assert ([h1] + s1)[0] == h1;
    SpliceBeforeAt(g, h1, s1, 0, s2);
    SpliceBeforeStores(g, h1, s2[0], s2[|s2| - 1]);
    SplicedAndEmptied(g, g1, g2, h1, s1, h2, s2, g.Prev(h1), h1, s1 + s2);
  }

  lemma InsertAtFront<T>(s: seq<T>, seg: seq<T>)
    ensures s[..0] + seg + s[0..] == seg + s
  {
  }

  lemma PrependStores<T>(g: Graph<T>, g1: Graph<T>, g2: Graph<T>, h1: T, s1: seq<T>, h2: T, s2: seq<T>)
    requires g.Closed() && Ring(g, h1, s1) && Ring(g, h2, s2) && Apart(h1, s1, h2, s2) && s2 != []
    requires h1 in g.next && s2[0] in g.next && s2[|s2| - 1] in g.next
    requires g1 == SpliceAfter(g, h1, s2[0], s2[|s2| - 1]) && SelfLinked(g1, g2, h2)
    ensures Ring(g2, h1, s2 + s1) && Ring(g2, h2, [])
    ensures Untouched(g, g2, Members(h1, s1) + Members(h2, s2))
  {
    RingChain(g, h1, s1);
    RingChain(g, h2, s2);
    ApartMembers(h1, s1, h2, s2);
    assert ([h1] + s1)[0] == h1;
    SpliceAfterAt(g, h1, s1, 0, s2);
    InsertAtFront(s1, s2);
    SpliceAfterStores(g, h1, s2[0], s2[|s2| - 1]);
    SplicedAndEmptied(g, g1, g2, h1, s1, h2, s2, h1, g.Next(h1), s2 + s1);
  }

  lemma ConcatOfNonEmpty<T>(g: Graph<T>, h1: T, s1: seq<T>, h2: T, s2: seq<T>)
    requires g.Closed() && Ring(g, h1, s1) && Ring(g, h2, s2) && Apart(h1, s1, h2, s2) && s2 != []
    ensures h1 in g.next && h2 in g.next
    ensures var g' := Concat(g, h1, h2);
            && Ring(g', h1, s1 + s2) && Ring(g', h2, [])
            && Untouched(g, g', Members(h1, s1) + Members(h2, s2))
  {
    hide Concat, SpliceBefore, SelfLink, Ring, Apart, Members, Untouched;
    RingChain(g, h1, s1);
    RingChain(g, h2, s2);
    ConcatIsSpliceByValue(g, h1, h2);
    var g1 := SpliceBefore(g, h1, s2[0], s2[|s2| - 1]);
    SelfLinkStores(g1, h2);
    ConcatStores(g, g1, SelfLink(g1, h2), h1, s1, h2, s2);
  }

  lemma PrependOfNonEmpty<T>(g: Graph<T>, h1: T, s1: seq<T>, h2: T, s2: seq<T>)
    requires g.Closed() && Ring(g, h1, s1) && Ring(g, h2, s2) && Apart(h1, s1, h2, s2) && s2 != []
    ensures h1 in g.next && h2 in g.next
    ensures var g' := Prepend(g, h1, h2);
            && Ring(g', h1, s2 + s1) && Ring(g', h2, [])
            && Untouched(g, g', Members(h1, s1) + Members(h2, s2))
  {
    hide Prepend, SpliceAfter, SelfLink, Ring, Apart, Members, Untouched;
    RingChain(g, h1, s1);
    RingChain(g, h2, s2);
    ConcatIsSpliceByValue(g, h1, h2);
    var g1 := SpliceAfter(g, h1, s2[0], s2[|s2| - 1]);
    SelfLinkStores(g1, h2);
    PrependStores(g, g1, SelfLink(g1, h2), h1, s1, h2, s2);
  }

  lemma UntouchedNot<T>(g: Graph<T>, touched: set<T>)
    requires g.Closed()
    ensures Untouched(g, g, touched)
  {
  }

  lemma JoinOfEmpty<T>(g: Graph<T>, h1: T, h2: T)
    requires g.Closed() && h1 in g.next && h2 in g.next && g.Next(h2) == h2
    ensures Concat(g, h1, h2) == g && Prepend(g, h1, h2) == g
  {
  }

  /** CONCAT and PREPEND, in all four cases of empty and non-empty rings. */
  lemma ConcatJoins<T>(g: Graph<T>, h1: T, s1: seq<T>, h2: T, s2: seq<T>)
    requires g.Closed() && Ring(g, h1, s1) && Ring(g, h2, s2) && Apart(h1, s1, h2, s2)
    ensures h1 in g.next && h2 in g.next
    ensures var g' := Concat(g, h1, h2);
            && Ring(g', h1, s1 + s2) && Ring(g', h2, [])
            && Untouched(g, g', Members(h1, s1) + Members(h2, s2))
  {
    hide Concat, Ring, Apart, Members, Untouched;
    RingChain(g, h1, s1);
    RingChain(g, h2, s2);
    if s2 == [] {
      JoinOfEmpty(g, h1, h2);
      assert s1 + s2 == s1;
      UntouchedNot(g, Members(h1, s1) + Members(h2, s2));
    } else {
      ConcatOfNonEmpty(g, h1, s1, h2, s2);
    }
  }

  lemma PrependJoins<T>(g: Graph<T>, h1: T, s1: seq<T>, h2: T, s2: seq<T>)
    requires g.Closed() && Ring(g, h1, s1) && Ring(g, h2, s2) && Apart(h1, s1, h2, s2)
    ensures h1 in g.next && h2 in g.next
    ensures var g' := Prepend(g, h1, h2);
            && Ring(g', h1, s2 + s1) && Ring(g', h2, [])
            && Untouched(g, g', Members(h1, s1) + Members(h2, s2))
  {
    hide Prepend, Ring, Apart, Members, Untouched;
    RingChain(g, h1, s1);
    RingChain(g, h2, s2);
    if s2 == [] {
      JoinOfEmpty(g, h1, h2);
      assert s2 + s1 == s1;
      UntouchedNot(g, Members(h1, s1) + Members(h2, s2));
    } else {
      PrependOfNonEmpty(g, h1, s1, h2, s2);
    }
  }

  /**
   CONCAT or PREPEND of a non-empty ring onto itself: the head ends up empty, and the elements
   are left as a cycle that no head is on.
   */
  lemma JoinOntoItselfLosesElements<T>(g: Graph<T>, h: T, s: seq<T>)
    requires g.Closed() && Ring(g, h, s) && s != []
    ensures h in g.next
    ensures Ring(Concat(g, h, h), h, []) && Cycle(Concat(g, h, h), s)
    ensures Ring(Prepend(g, h, h), h, []) && Cycle(Prepend(g, h, h), s)
  {
    hide SpliceBefore, SpliceAfter, SelfLink, Concat, Prepend, Cycle;
    RingChain(g, h, s);
    ConcatIsSpliceByValue(g, h, h);
    var first, last := s[0], s[|s| - 1];
    SpliceBeforeStores(g, h, first, last);
    SpliceAfterStores(g, h, first, last);
    var g1, g2 := SpliceBefore(g, h, first, last), SpliceAfter(g, h, first, last);
    SelfLinkStores(g1, h);
    SelfLinkStores(g2, h);
    Detached(g, g1, SelfLink(g1, h), h, s, last, h);
    Detached(g, g2, SelfLink(g2, h), h, s, h, first);
  }

  lemma Detached<T>(g: Graph<T>, g1: Graph<T>, g2: Graph<T>, h: T, s: seq<T>, p: T, q: T)
    requires g.Closed() && Chain(g, s) && s != [] && h !in s && h in g.next
    requires (p, q) == (s[|s| - 1], h) || (p, q) == (h, s[0])
    requires Spliced(g, g1, p, q, s[0], s[|s| - 1]) && SelfLinked(g1, g2, h)
    ensures Ring(g2, h, []) && Cycle(g2, s)
  {
    assert [h] + [] == [h];
  }

  /** A walk along `next` from a given element meets one cycle only. */
  lemma {:induction false} CycleIsUnique<T>(g: Graph<T>, c: seq<T>, d: seq<T>)
    requires g.Closed() && Cycle(g, c) && Cycle(g, d) && c[0] == d[0]
    ensures c == d
  {
    PrefixesAgree(g, c, d, if |c| <= |d| then |c| else |d|);
  }

  lemma {:induction false} PrefixesAgree<T>(g: Graph<T>, c: seq<T>, d: seq<T>, n: nat)
    requires g.Closed() && Cycle(g, c) && Cycle(g, d) && c[0] == d[0]
    requires 0 < n <= |c| && n <= |d|
    ensures c[..n] == d[..n]
  {
    if n > 1 {
      PrefixesAgree(g, c, d, n - 1);
      assert c[..n - 1][n - 2] == c[n - 2] && d[..n - 1][n - 2] == d[n - 2];
      assert g.Next(c[n - 2]) == c[n - 1] && g.Next(d[n - 2]) == d[n - 1];
      assert c[..n] == c[..n - 1] + [c[n - 1]] && d[..n] == d[..n - 1] + [d[n - 1]];
    }
  }

  // What a call did to the rings, for whichever ring its arguments were on.

  ghost predicate InsertedAfterOn<T>(g: Graph<T>, g': Graph<T>, lep: T, ep1: T, epN: T)
    requires g.Closed() && g'.Closed()
  {
    forall h, s, k, seg | Ring(g, h, s) && Chain(g, seg) && Fitting(h, s, k, lep, seg, ep1, epN) ::
      Ring(g', h, s[..k] + seg + s[k..])
  }

  ghost predicate InsertedBeforeOn<T>(g: Graph<T>, g': Graph<T>, lep: T, ep1: T, epN: T)
    requires g.Closed() && g'.Closed()
  {
    forall h, s, k, seg | Ring(g, h, s) && Chain(g, seg) && Fitting(h, s, k, lep, seg, ep1, epN) ::
      Ring(g', h, if k == 0 then s + seg else s[..k - 1] + seg + s[k - 1..])
  }

  /** lep stands at position k, and seg is a segment ep1..epN off the ring. */
  ghost predicate Fitting<T>(h: T, s: seq<T>, k: int, lep: T, seg: seq<T>, ep1: T, epN: T) {
    && 0 <= k <= |s| && ([h] + s)[k] == lep
    && seg != [] && seg[0] == ep1 && seg[|seg| - 1] == epN && Disjoint([h] + s, seg)
  }

  ghost predicate TakenOutOn<T>(g: Graph<T>, g': Graph<T>, ep1: T, epN: T)
    requires g.Closed() && g'.Closed()
  {
    forall h, s, i, j | Ring(g, h, s) && Spans(s, i, j, ep1, epN) :: Ring(g', h, s[..i] + s[j..]) && Chain(g', s[i..j])
  }

  /** s[i..j] is the segment ep1..epN. */
  ghost predicate Spans<T>(s: seq<T>, i: int, j: int, ep1: T, epN: T) {
    0 <= i < j <= |s| && s[i] == ep1 && s[j - 1] == epN
  }

  lemma SpliceAfterOn<T>(g: Graph<T>, lep: T, ep1: T, epN: T)
    requires g.Closed() && lep in g.next && ep1 in g.next && epN in g.next
    ensures InsertedAfterOn(g, SpliceAfter(g, lep, ep1, epN), lep, ep1, epN)
  {
    hide SpliceAfter, Ring, Chain;
    forall h, s, k, seg | Ring(g, h, s) && Chain(g, seg) && Fitting(h, s, k, lep, seg, ep1, epN)
      ensures Ring(SpliceAfter(g, lep, ep1, epN), h, s[..k] + seg + s[k..])
    {
      SpliceAfterAt(g, h, s, k, seg);
    }
  }

  lemma SpliceBeforeOn<T>(g: Graph<T>, lep: T, ep1: T, epN: T)
    requires g.Closed() && lep in g.next && ep1 in g.next && epN in g.next
    ensures InsertedBeforeOn(g, SpliceBefore(g, lep, ep1, epN), lep, ep1, epN)
  {
    hide SpliceBefore, Ring, Chain;
    forall h, s, k, seg | Ring(g, h, s) && Chain(g, seg) && Fitting(h, s, k, lep, seg, ep1, epN)
      ensures Ring(SpliceBefore(g, lep, ep1, epN), h, if k == 0 then s + seg else s[..k - 1] + seg + s[k - 1..])
    {
      SpliceBeforeAt(g, h, s, k, seg);
    }
  }

  lemma UnspliceOn<T>(g: Graph<T>, ep1: T, epN: T)
    requires g.Closed() && ep1 in g.next && epN in g.next
    ensures TakenOutOn(g, Unsplice(g, ep1, epN), ep1, epN)
  {
    hide Unsplice, Ring, Chain;
    forall h, s, i, j | Ring(g, h, s) && Spans(s, i, j, ep1, epN)
      ensures Ring(Unsplice(g, ep1, epN), h, s[..i] + s[j..]) && Chain(Unsplice(g, ep1, epN), s[i..j])
    {
      UnspliceCuts(g, h, s, i, j);
    }
  }

  ghost predicate ConcatenatedOn<T>(g: Graph<T>, g': Graph<T>, h1: T, h2: T)
    requires g.Closed() && g'.Closed()
  {
    forall s, t | Ring(g, h1, s) && Ring(g, h2, t) && Apart(h1, s, h2, t) :: Ring(g', h1, s + t) && Ring(g', h2, [])
  }

  ghost predicate PrependedOn<T>(g: Graph<T>, g': Graph<T>, h1: T, h2: T)
    requires g.Closed() && g'.Closed()
  {
    forall s, t | Ring(g, h1, s) && Ring(g, h2, t) && Apart(h1, s, h2, t) :: Ring(g', h1, t + s) && Ring(g', h2, [])
  }

  lemma ConcatOn<T>(g: Graph<T>, h1: T, h2: T)
    requires g.Closed() && h1 in g.next && h2 in g.next
    ensures ConcatenatedOn(g, Concat(g, h1, h2), h1, h2)
  {
    hide Concat, Ring, Apart;
    forall s, t | Ring(g, h1, s) && Ring(g, h2, t) && Apart(h1, s, h2, t)
      ensures Ring(Concat(g, h1, h2), h1, s + t) && Ring(Concat(g, h1, h2), h2, [])
    {
      ConcatJoins(g, h1, s, h2, t);
    }
  }

  lemma PrependOn<T>(g: Graph<T>, h1: T, h2: T)
    requires g.Closed() && h1 in g.next && h2 in g.next
    ensures PrependedOn(g, Prepend(g, h1, h2), h1, h2)
  {
    hide Prepend, Ring, Apart;
    forall s, t | Ring(g, h1, s) && Ring(g, h2, t) && Apart(h1, s, h2, t)
      ensures Ring(Prepend(g, h1, h2), h1, t + s) && Ring(Prepend(g, h1, h2), h2, [])
    {
      PrependJoins(g, h1, s, h2, t);
    }
  }

  /** The ring on which a segment was inserted after position k. */
  lemma InsertedMeans<T>(g: Graph<T>, g': Graph<T>, h: T, s: seq<T>, k: nat, seg: seq<T>)
    requires g.Closed() && g'.Closed() && Ring(g, h, s) && k <= |s|
    requires seg != [] && Chain(g, seg) && Disjoint([h] + s, seg)
    ensures InsertedAfterOn(g, g', ([h] + s)[k], seg[0], seg[|seg| - 1]) ==> Ring(g', h, s[..k] + seg + s[k..])
    ensures InsertedBeforeOn(g, g', ([h] + s)[k], seg[0], seg[|seg| - 1]) ==>
              Ring(g', h, if k == 0 then s + seg else s[..k - 1] + seg + s[k - 1..])
  {
    hide Ring, Chain, Disjoint;
    assert Fitting(h, s, k, ([h] + s)[k], seg, seg[0], seg[|seg| - 1]);
  }

  /** The ring from which a segment was taken. */
  lemma TakenOutMeans<T>(g: Graph<T>, g': Graph<T>, h: T, s: seq<T>, i: nat, j: nat)
    requires g.Closed() && g'.Closed() && Ring(g, h, s) && i < j <= |s|
    ensures TakenOutOn(g, g', s[i], s[j - 1]) ==> Ring(g', h, s[..i] + s[j..]) && Chain(g', s[i..j])
  {
    hide Ring, Chain;
    assert Spans(s, i, j, s[i], s[j - 1]);
  }

  /** The two rings that were joined. */
  lemma JoinedMeans<T>(g: Graph<T>, g': Graph<T>, h1: T, s: seq<T>, h2: T, t: seq<T>)
    requires g.Closed() && g'.Closed() && Ring(g, h1, s) && Ring(g, h2, t) && Apart(h1, s, h2, t)
    ensures ConcatenatedOn(g, g', h1, h2) ==> Ring(g', h1, s + t) && Ring(g', h2, [])
    ensures PrependedOn(g, g', h1, h2) ==> Ring(g', h1, t + s) && Ring(g', h2, [])
  {
    hide Ring, Apart;
  }
}
