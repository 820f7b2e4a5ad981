/**
 Which operations a run may make, and exactly what each of them leaves: the rings, the heads
 and the loose segments.
 */
module RingSteps {
  import opened Links
  import opened RingLaws
  import opened RingRuns
  import opened RingJoins

  /** Before the first ring is made. */
  lemma StartIsWellFormed<T>(g: Graph<T>)
    requires g.Closed()
    ensures WellFormed(g, State(map[], {}, {}))
  {
  }

  lemma MembersInGraph<T>(g: Graph<T>, r: RingMap<T>, h: T)
    requires RingsWellFormed(g, r) && h in r
    ensures Members(h, r[h]) <= g.next.Keys
  {
  }

  /** INIT is for a loose element, which becomes a head, or for a head. */
  lemma InitStep<T>(g: Graph<T>, st: State<T>, h: T)
    requires WellFormed(g, st)
    ensures Allowed(st, Init(h)) <==> Loose(st.rings, h) || h in st.heads
    ensures h in g.next ==> Applies(Init(h), g.next.Keys)
    ensures Allowed(st, Init(h)) ==>
              var st' := Step(st, Init(h));
              && st'.rings == st.rings[h := []] && st'.heads == st.heads + {h}
              && (h in st.rings && st.rings[h] != [] ==> st.rings[h] in st'.chains)
  {
    hide RingsWellFormed, ChainsWellFormed;
    HeadsOnNoRing(g, st);
    KeyOrLoose(st.rings, h);
  }

  /** ELEM_INIT is for a loose element, or for one that a cycle without head is entered under. */
  lemma ElemInitStep<T>(g: Graph<T>, st: State<T>, e: T)
    requires WellFormed(g, st)
    ensures Allowed(st, ElemInit(e)) <==> Loose(st.rings, e) || IsHeadless(st, e)
    ensures e in g.next ==> Applies(ElemInit(e), g.next.Keys)
    ensures Allowed(st, ElemInit(e)) ==>
              var st' := Step(st, ElemInit(e));
              && st'.rings == st.rings[e := []] && st'.heads == st.heads
              && (e in st.rings && st.rings[e] != [] ==> st.rings[e] in st'.chains)
  {
    hide ChainsWellFormed;
    HeadsOnNoRing(g, st);
    KeyOrLoose(st.rings, e);
    if IsHeadless(st, e) {
      forall k | k in st.rings ensures e !in st.rings[k] {
        HeadOnNoRing(g, st.rings, e, k);
      }
    }
  }

  lemma KeyOrLoose<T>(r: RingMap<T>, x: T)
    ensures Loose(r, x) ==> x !in r && forall k | k in r :: x !in r[k]
    ensures !Loose(r, x) && (forall k | k in r :: x !in r[k]) ==> x in r
  {
    if Loose(r, x) {
      assert !On(r, x, x);
      forall k | k in r ensures x !in r[k] {
        assert !On(r, k, x);
      }
    }
  }

  /** Using a part of a loose segment leaves what stood before and after it as segments. */
  lemma UsedIs<T>(g: Graph<T>, r: RingMap<T>, cs: set<seq<T>>, c: seq<T>, i: nat, j: nat)
    requires g.Closed() && ChainsWellFormed(g, r, cs) && c in cs && i < j <= |c|
    ensures IsLinked(cs, c[i..j])
    ensures Used(cs, c[i..j]) == cs - {c} + Piece(c[..i]) + Piece(c[j..])
  {
    var seg := c[i..j];
    assert PartAt(seg, c, i);
    assert PartOf(seg, c);
    var d := ChainWith(cs, seg);
    var o := Offset(seg, d);
    assert d[o] == seg[0] == c[i];
    assert d != c ==> Disjoint(d, c);
    assert d == c && o == i;
  }

  lemma PartMeets<T>(seg: seq<T>, c: seq<T>)
    requires seg != []
    ensures PartOf(seg, c) ==> seg[0] in c
  {
    if i: nat :| PartAt(seg, c, i) {
      assert c[i] == seg[0];
    }
  }

  lemma PartIsLoose<T>(r: RingMap<T>, c: seq<T>, i: nat, j: nat)
    requires AllLoose(r, c) && i <= j <= |c|
    ensures AllLoose(r, c[i..j])
  {
  }

  /** Any part of a loose segment can go before or after anything on a ring. */
  lemma InsertStep<T>(g: Graph<T>, st: State<T>, h: T, k: nat, c: seq<T>, i: nat, j: nat)
    requires WellFormed(g, st) && h in st.rings && k <= |st.rings[h]| && c in st.chains && i < j <= |c|
    ensures var lep, seg, s := ([h] + st.rings[h])[k], c[i..j], st.rings[h];
            var before, after := InsertSegBefore(lep, seg), InsertSegAfter(lep, seg);
            var rest := st.chains - {c} + Piece(c[..i]) + Piece(c[j..]);
            && Applies(before, g.next.Keys) && Applies(after, g.next.Keys)
            && Allowed(st, before) && Allowed(st, after)
            && Step(st, after) == State(st.rings[h := s[..k] + seg + s[k..]], st.heads, rest)
            && Step(st, before)
            == State(st.rings[h := if k == 0 then s + seg else s[..k - 1] + seg + s[k - 1..]], st.heads, rest)
  {
    var lep, seg := ([h] + st.rings[h])[k], c[i..j];
    assert g.Closed();
    UsedIs(g, st.rings, st.chains, c, i, j);
    assert Chain(g, c) && AllLoose(st.rings, c);
    assert Elements(seg) <= g.next.Keys;
    PartIsLoose(st.rings, c, i, j);
    hide RingsWellFormed, ChainsWellFormed, Chain, Used, AllLoose, IsLinked;
    FoundAt(g, st.rings, h, k);
    PositionIsMember(h, st.rings[h], k);
    MembersInGraph(g, st.rings, h);
  }

  /** So can a single element that is on no ring and in no loose segment. */
  lemma InsertSingleStep<T>(g: Graph<T>, st: State<T>, h: T, k: nat, e: T)
    requires WellFormed(g, st) && h in st.rings && k <= |st.rings[h]| && e in g.next
    requires Loose(st.rings, e) && forall c | c in st.chains :: e !in c
    ensures var lep, s := ([h] + st.rings[h])[k], st.rings[h];
            var before, after := InsertBefore(lep, e), InsertAfter(lep, e);
            && Applies(before, g.next.Keys) && Applies(after, g.next.Keys)
            && Allowed(st, before) && Allowed(st, after)
            && Step(st, after) == State(st.rings[h := s[..k] + [e] + s[k..]], st.heads, st.chains)
            && Step(st, before)
            == State(st.rings[h := if k == 0 then s + [e] else s[..k - 1] + [e] + s[k - 1..]], st.heads, st.chains)
  {
    hide RingsWellFormed, ChainsWellFormed;
    FoundAt(g, st.rings, h, k);
    PositionIsMember(h, st.rings[h], k);
    MembersInGraph(g, st.rings, h);
    forall c | c in st.chains ensures !PartOf([e], c) {
      PartMeets([e], c);
    }
  }

  lemma SegmentFoundAt<T>(g: Graph<T>, r: RingMap<T>, h: T, i: nat, j: nat)
    requires RingsWellFormed(g, r) && h in r && i < j <= |r[h]|
    ensures var seg := r[h][i..j];
            OnRing(r, seg) && Holder(r, seg) == h && Offset(seg, r[h]) == i && Elements(seg) <= g.next.Keys
  {
    hide RingsWellFormed, Members, PartAt, PartOf, OnRing, Position, Loose;
    SegmentIsOn(r, h, i, j);
    SegmentInGraph(g, r, h, i, j);
    var seg := r[h][i..j];
    var h' := Holder(r, seg);
    var o := Offset(seg, r[h']);
    PartStarts(seg, r[h'], o);
    OnePlace(g, r, h, i + 1, h', o + 1);
  }

  lemma SegmentIsOn<T>(r: RingMap<T>, h: T, i: nat, j: nat)
    requires h in r && i < j <= |r[h]|
    ensures OnRing(r, r[h][i..j]) && PartOf(r[h][i..j], r[h])
  {
    assert PartAt(r[h][i..j], r[h], i);
    assert PartOf(r[h][i..j], r[h]);
  }

  lemma SegmentInGraph<T>(g: Graph<T>, r: RingMap<T>, h: T, i: nat, j: nat)
    requires RingsWellFormed(g, r) && h in r && i < j <= |r[h]|
    ensures Elements(r[h][i..j]) <= g.next.Keys
  {
    MembersInGraph(g, r, h);
    hide RingsWellFormed;
    MembersAt(h, r[h]);
    forall x | x in r[h][i..j] ensures x in g.next {
      assert x in r[h];
    }
  }

  lemma PartStarts<T>(seg: seq<T>, c: seq<T>, o: nat)
    requires seg != [] && PartAt(seg, c, o)
    ensures o < |c| && c[o] == seg[0]
  {
  }

  /** Any segment of a ring can be taken out. */
  lemma TakeSegStep<T>(g: Graph<T>, st: State<T>, h: T, i: nat, j: nat)
    requires WellFormed(g, st) && h in st.rings && i < j <= |st.rings[h]|
    ensures var s := st.rings[h];
            var op := TakeSeg(s[i..j]);
            && Applies(op, g.next.Keys) && Allowed(st, op)
            && Step(st, op) == State(st.rings[h := s[..i] + s[j..]], st.heads, st.chains + {s[i..j]})
  {
    hide RingsWellFormed, ChainsWellFormed, OnRing;
    SegmentFoundAt(g, st.rings, h, i, j);
  }

  /** UNSPLICE of a whole cycle without head is allowed, and leaves everything as it is. */
  lemma TakeWholeStep<T>(g: Graph<T>, st: State<T>, b: T)
    requires WellFormed(g, st) && IsHeadless(st, b)
    ensures var op := TakeSeg([b] + st.rings[b]);
            Applies(op, g.next.Keys) && Allowed(st, op) && Step(st, op) == st && Exec(g, op) == g
  {
    hide RingsWellFormed, ChainsWellFormed;
    var seg := [b] + st.rings[b];
    assert seg[0] == b && IsWhole(st, seg);
    MembersInGraph(g, st.rings, b);
    TakeWholeKeeps(g, st, seg);
  }

  /** The inside of a loose segment can be taken out of it, and what stood around it closes up. */
  lemma TakeInsideStep<T>(g: Graph<T>, st: State<T>, c: seq<T>, i: nat, j: nat)
    requires WellFormed(g, st) && c in st.chains && 0 < i < j < |c|
    ensures var op := TakeSeg(c[i..j]);
            && Applies(op, g.next.Keys) && Allowed(st, op)
            && Step(st, op) == State(st.rings, st.heads, st.chains - {c} + {c[..i] + c[j..], c[i..j]})
  {
    var seg := c[i..j];
    assert Chain(g, c) && AllLoose(st.rings, c);
    assert InsideAt(seg, c, i) by {
      assert PartAt(seg, c, i);
    }
    assert Loose(st.rings, c[i]) && seg[0] == c[i];
    KeyOrLoose(st.rings, c[i]);
    forall h | h in st.rings ensures !PartOf(seg, st.rings[h]) {
      PartMeets(seg, st.rings[h]);
    }
    InsideIsUnique(g, st.rings, st.chains, seg, c, i);
  }

  lemma InsideIsUnique<T>(g: Graph<T>, r: RingMap<T>, cs: set<seq<T>>, seg: seq<T>, c: seq<T>, i: nat)
    requires g.Closed() && ChainsWellFormed(g, r, cs) && c in cs && seg != [] && InsideAt(seg, c, i)
    ensures InsideChain(cs, seg) && TakenInside(cs, seg) == cs - {c} + {Without(c, i, i + |seg|), seg}
  {
    forall d, o: nat | d in cs && InsideAt(seg, d, o) ensures d == c && o == i {
      assert d[o] == seg[0] == c[i];
      assert d != c ==> Disjoint(d, c);
    }
  }

  /** A run may join two heads exactly if the macro keeps every element on the ring of some head. */
  lemma JoinAllowedIff<T>(g: Graph<T>, st: State<T>, h1: T, h2: T)
    requires WellFormed(g, st) && h1 in st.heads && h2 in st.heads
    ensures Applies(ConcatOnto(h1, h2), g.next.Keys) && Applies(PrependOnto(h1, h2), g.next.Keys)
    ensures Allowed(st, ConcatOnto(h1, h2)) <==> AllHeld(Concat(g, h1, h2), st.rings)
    ensures Allowed(st, PrependOnto(h1, h2)) <==> AllHeld(Prepend(g, h1, h2), st.rings)
  {
    hide RingsWellFormed, ChainsWellFormed, AllHeld, Concat, Prepend;
    JoinKeepsElementsIff(g, st.rings, h1, h2);
  }

  /** Any two heads can be joined; one list goes behind or before the other, and nothing else changes. */
  lemma JoinStep<T>(g: Graph<T>, st: State<T>, h1: T, h2: T)
    requires WellFormed(g, st) && h1 in st.heads && h2 in st.heads && h1 != h2
    ensures var r := st.rings;
            && Allowed(st, ConcatOnto(h1, h2)) && Allowed(st, PrependOnto(h1, h2))
            && Step(st, ConcatOnto(h1, h2)) == State(r[h1 := r[h1] + r[h2]][h2 := []], st.heads, st.chains)
            && Step(st, PrependOnto(h1, h2)) == State(r[h1 := r[h2] + r[h1]][h2 := []], st.heads, st.chains)
  {
  }

  /** A cycle without head can be entered under any of its elements. */
  lemma EnterUnderStep<T>(g: Graph<T>, st: State<T>, b: T, i: nat)
    requires WellFormed(g, st) && IsHeadless(st, b) && i < |st.rings[b]|
    ensures var e, s := st.rings[b][i], st.rings[b];
            && Applies(EnterUnder(e), g.next.Keys) && Allowed(st, EnterUnder(e))
            && Step(st, EnterUnder(e))
            == State((st.rings - {b})[e := s[i + 1..] + [b] + s[..i]], st.heads, st.chains)
  {
    hide RingsWellFormed, ChainsWellFormed, Members, Loose;
    var r, e := st.rings, st.rings[b][i];
    assert e in r[b];
    ListIsMembers(b, r[b], e);
    var b' := Base(st, e);
    ListIsMembers(b', r[b'], e);
    OneHolder(g, r, b, b', e);
    OnePlace(g, r, b, i + 1, b, Index(r[b], e) + 1);
    MembersInGraph(g, r, b);
  }

  lemma ListIsMembers<T>(h: T, s: seq<T>, x: T)
    requires x in s
    ensures x in Members(h, s)
  {
  }

  /** A cycle without head can be regarded as a loose segment. */
  lemma EnterAsSegmentStep<T>(g: Graph<T>, st: State<T>, e: T)
    requires WellFormed(g, st) && IsHeadless(st, e)
    ensures Applies(EnterAsSegment(e), g.next.Keys) && Allowed(st, EnterAsSegment(e))
    ensures Step(st, EnterAsSegment(e)) == State(st.rings - {e}, st.heads, st.chains + {[e] + st.rings[e]})
  {
    MembersInGraph(g, st.rings, e);
  }

  /** A loose segment that shares nothing with the arguments of an operation stays spliceable. */
  lemma OthersStayLinked<T>(g: Graph<T>, st: State<T>, op: Op<T>, c: seq<T>)
    requires WellFormed(g, st) && Allowed(st, op) && c in st.chains && Elements(c) !! Arguments(op)
    ensures c in Step(st, op).chains
  {
    assert c != [];
    match op
    case Init(h) => UnusedStays(st.chains, c, [h]);
    case ElemInit(e) => UnusedStays(st.chains, c, [e]);
    case InsertSegBefore(_, seg) => UnusedStays(st.chains, c, seg);
    case InsertSegAfter(_, seg) => UnusedStays(st.chains, c, seg);
    case TakeSeg(seg) => UntakenStays(st, c, seg);
    case ConcatOnto(_, _) =>
    case PrependOnto(_, _) =>
    case EnterUnder(_) =>
    case EnterAsSegment(_) =>
  }

  lemma UnusedStays<T>(cs: set<seq<T>>, c: seq<T>, seg: seq<T>)
    requires c in cs && c != [] && seg != [] && Elements(c) !! Elements(seg)
    ensures c in Used(cs, seg)
  {
    if exists d | d in cs :: PartOf(seg, d) {
      var d := ChainWith(cs, seg);
      assert seg[0] == d[Offset(seg, d)] && seg[0] in Elements(seg);
      assert c != d;
    }
  }

  lemma UntakenStays<T>(st: State<T>, c: seq<T>, seg: seq<T>)
    requires c in st.chains && c != [] && Allowed(st, TakeSeg(seg)) && Elements(c) !! Elements(seg)
    ensures c in Step(st, TakeSeg(seg)).chains
  {
    if !OnRing(st.rings, seg) && !IsWhole(st, seg) {
      forall d, i: nat | d in st.chains && InsideAt(seg, d, i) ensures d != c {
        assert d[i] == seg[0] && seg[0] in Elements(seg);
      }
    }
  }

  /** An element is linked if it is on the list of a ring, or names a cycle without head. */
  lemma LinkedIff<T>(g: Graph<T>, st: State<T>, x: T)
    requires WellFormed(g, st)
    ensures Linked(st, x) <==> IsHeadless(st, x) || exists h | h in st.rings :: x in st.rings[h]
  {
    hide RingsWellFormed, ChainsWellFormed;
    HeadsOnNoRing(g, st);
    KeyOrLoose(st.rings, x);
    if IsHeadless(st, x) {
      assert On(st.rings, x, x);
    }
    if h :| h in st.rings && x in st.rings[h] {
      assert On(st.rings, h, x);
    }
  }

  lemma RunOfNothing<T>(g: Graph<T>, st: State<T>)
    requires g.Closed()
    ensures AllowedRun(st, g.next.Keys, []) && Run(st, g.next.Keys, []) == st && ExecAll(g, []) == g
  {
  }

  /** The operations of a run are made one after the other: one more is made on what the others left. */
  lemma {:induction false} RunOneMore<T>(g: Graph<T>, st: State<T>, ops: seq<Op<T>>, op: Op<T>)
    requires g.Closed() && AllowedRun(st, g.next.Keys, ops)
    ensures var nodes, last := g.next.Keys, Run(st, g.next.Keys, ops);
            && (AllowedRun(st, nodes, ops + [op]) <==> Applies(op, nodes) && Allowed(last, op))
            && (AllowedRun(st, nodes, ops + [op]) ==> Run(st, nodes, ops + [op]) == Step(last, op))
    ensures forall i :: 0 <= i < |ops| ==> Applies(ops[i], g.next.Keys)
    ensures Applies(op, g.next.Keys) ==> ExecAll(g, ops + [op]) == Exec(ExecAll(g, ops), op)
    decreases |ops|
  {
    hide Step, Exec, Allowed, Applies;
    AllowedApplies(st, g.next.Keys, ops);
    var all := ops + [op];
    if ops == [] {
      assert all[1..] == [] && all[0] == op;
    } else {
      assert all[0] == ops[0] && all[1..] == ops[1..] + [op];
      RunOneMore(Exec(g, ops[0]), Step(st, ops[0]), ops[1..], op);
    }
  }

  /** An element on no ring and in no loose segment keeps its fields unless it is an argument. */
  lemma StrangersStay<T>(g: Graph<T>, st: State<T>, op: Op<T>, x: T)
    requires WellFormed(g, st) && Applies(op, g.next.Keys) && Allowed(st, op) && x in g.next && x !in Arguments(op)
    requires Loose(st.rings, x) && forall c | c in st.chains :: x !in c
    ensures Exec(g, op).Next(x) == g.Next(x) && Exec(g, op).Prev(x) == g.Prev(x)
  {
    hide RingsWellFormed, ChainsWellFormed, SelfLink, SpliceBefore, SpliceAfter, Unsplice, Concat, Prepend;
    var r := st.rings;
    assert g.Closed() by { WellFormedIsClosed(g, r); }
    match op
    case Init(h) => SelfLinkStores(g, h);
    case ElemInit(e) => SelfLinkStores(g, e);
    case InsertSegBefore(lep, seg) => InsertTouches(g, st, lep, seg, x);
    case InsertSegAfter(lep, seg) => InsertTouches(g, st, lep, seg, x);
    case TakeSeg(seg) => TakeTouches(g, st, seg, x);
    case ConcatOnto(h1, h2) => JoinTouches(g, r, h1, h2, x);
    case PrependOnto(h1, h2) => JoinTouches(g, r, h1, h2, x);
    case EnterUnder(_) =>
    case EnterAsSegment(_) =>
  }

  lemma InsertTouches<T>(g: Graph<T>, st: State<T>, lep: T, seg: seq<T>, x: T)
    requires WellFormed(g, st) && {lep} + Elements(seg) <= g.next.Keys && seg != [] && x in g.next && x !in seg
    requires !Loose(st.rings, lep) && AllLoose(st.rings, seg) && IsLinked(st.chains, seg) && Loose(st.rings, x)
    ensures lep in g.next && seg[0] in g.next && seg[|seg| - 1] in g.next
    ensures var g' := SpliceBefore(g, lep, seg[0], seg[|seg| - 1]); g'.Next(x) == g.Next(x) && g'.Prev(x) == g.Prev(x)
    ensures var g' := SpliceAfter(g, lep, seg[0], seg[|seg| - 1]); g'.Next(x) == g.Next(x) && g'.Prev(x) == g.Prev(x)
  {
    assert g.Closed();
    hide RingsWellFormed, ChainsWellFormed, SpliceBefore, SpliceAfter, IsLinked, Chain;
    var h := Owner(st.rings, lep);
    ArgumentsAt(seg, g.next.Keys);
    LinkedSegIsChain(g, st.rings, st.chains, seg);
    InsertKeepsRings(g, st.rings, h, Position(h, st.rings[h], lep), seg);
    assert !On(st.rings, h, x);
  }

  lemma TakeTouches<T>(g: Graph<T>, st: State<T>, seg: seq<T>, x: T)
    requires WellFormed(g, st) && Applies(TakeSeg(seg), g.next.Keys) && Allowed(st, TakeSeg(seg)) && x in g.next
    requires Loose(st.rings, x) && forall c | c in st.chains :: x !in c
    ensures Exec(g, TakeSeg(seg)).Next(x) == g.Next(x) && Exec(g, TakeSeg(seg)).Prev(x) == g.Prev(x)
  {
    hide WellFormed, Exec, Loose, OnRing, IsWhole, InsideChain;
    if OnRing(st.rings, seg) {
      TakeFromRingTouches(g, st, seg, x);
    } else if IsWhole(st, seg) {
      TakeWholeKeeps(g, st, seg);
    } else {
      TakeInsideTouches(g, st, seg, x);
    }
  }

  lemma TakeFromRingTouches<T>(g: Graph<T>, st: State<T>, seg: seq<T>, x: T)
    requires WellFormed(g, st) && Applies(TakeSeg(seg), g.next.Keys) && OnRing(st.rings, seg) && x in g.next
    requires Loose(st.rings, x) && forall c | c in st.chains :: x !in c
    ensures Exec(g, TakeSeg(seg)).Next(x) == g.Next(x) && Exec(g, TakeSeg(seg)).Prev(x) == g.Prev(x)
  {
    hide RingsWellFormed, ChainsWellFormed, Unsplice, Chain, OnRing;
    var r := st.rings;
    assert g.Closed() by { WellFormedIsClosed(g, r); }
    var h := Holder(r, seg);
    var i := Offset(seg, r[h]);
    assert seg[0] == r[h][i] && seg[|seg| - 1] == r[h][i + |seg| - 1];
    assert !On(r, h, x);
    TakeKeepsRings(g, r, h, i, |seg|);
  }

  lemma ChainTouches<T>(g: Graph<T>, c: seq<T>, i: nat, n: nat, x: T)
    requires g.Closed() && Chain(g, c) && 0 < i && 0 < n && i + n < |c| && x in g.next && x !in c
    ensures c[i] in g.next && c[i + n - 1] in g.next
    ensures var g' := Unsplice(g, c[i], c[i + n - 1]); g'.Next(x) == g.Next(x) && g'.Prev(x) == g.Prev(x)
  {
    hide Unsplice, Chain;
    ChainClosesUp(g, c, i, n);
    assert x !in Elements(c);
  }

  /** The segment whose inside is taken. */
  lemma TheChain<T>(g: Graph<T>, r: RingMap<T>, cs: set<seq<T>>, seg: seq<T>) returns (c: seq<T>, i: nat)
    requires g.Closed() && ChainsWellFormed(g, r, cs) && InsideChain(cs, seg) && seg != []
    ensures c in cs && Chain(g, c) && 0 < i && i + |seg| < |c|
    ensures seg[0] == c[i] && seg[|seg| - 1] == c[i + |seg| - 1]
  {
    c, i :| c in cs && InsideAt(seg, c, i);
    InsideIsPart(c, i, seg);
  }

  lemma TakeInsideTouches<T>(g: Graph<T>, st: State<T>, seg: seq<T>, x: T)
    requires WellFormed(g, st) && Applies(TakeSeg(seg), g.next.Keys) && x in g.next
    requires !OnRing(st.rings, seg) && !IsWhole(st, seg) && InsideChain(st.chains, seg)
    requires Loose(st.rings, x) && forall c | c in st.chains :: x !in c
    ensures Exec(g, TakeSeg(seg)).Next(x) == g.Next(x) && Exec(g, TakeSeg(seg)).Prev(x) == g.Prev(x)
  {
    hide RingsWellFormed, ChainsWellFormed, Unsplice, Chain, InsideChain, OnRing, IsWhole, Loose;
    assert g.Closed() by { WellFormedIsClosed(g, st.rings); }
    var c, i := TheChain(g, st.rings, st.chains, seg);
    ChainTouches(g, c, i, |seg|, x);
  }

  lemma JoinTouches<T>(g: Graph<T>, r: RingMap<T>, h1: T, h2: T, x: T)
    requires RingsWellFormed(g, r) && Joinable(r, h1, h2) && x in g.next && Loose(r, x)
    ensures h1 in g.next && h2 in g.next
    ensures Concat(g, h1, h2).Next(x) == g.Next(x) && Concat(g, h1, h2).Prev(x) == g.Prev(x)
    ensures Prepend(g, h1, h2).Next(x) == g.Next(x) && Prepend(g, h1, h2).Prev(x) == g.Prev(x)
  {
    hide RingsWellFormed, Concat, Prepend;
    assert !On(r, h1, x) && !On(r, h2, x);
    if h1 == h2 {
      EmptyOntoItself(g, r, h1);
    } else {
      ConcatKeepsRings(g, r, h1, h2);
      PrependKeepsRings(g, r, h1, h2);
    }
  }
}
