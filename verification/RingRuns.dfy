/**
 Every run of ring operations over any number of rings.

 The state of a run is one graph, in which all rings and all loose elements live. Beside it
 runs an account of what it holds: the sequence of elements of every head, the cycles that
 have no head, and the loose chains, which are segments that have been taken out of a ring and
 are still linked. The main result is that the two never drift apart, whatever operations are
 made in whatever order, as long as each operation keeps to what the macro asks of its caller.
 */
module RingRuns {
  import opened Links
  import opened RingLaws

  type RingMap<T> = map<T, seq<T>>

  /**
   A cycle is entered in `rings` under one of its elements. If that is a head, it is the sentinel
   of the ring; if not, the cycle has no head, and may as well be entered under another element.
   */
  datatype State<T> = State(rings: RingMap<T>, heads: set<T>, chains: set<seq<T>>)

  /**
   A segment seg stands for its ends ep1..epN; the macros see no more of it. The last two make
   no store: they enter a cycle without head under its element e, or as a loose segment that
   begins with e.
   */
  datatype Op<T> =
    | Init(h: T)
    | ElemInit(e: T)
    | InsertSegBefore(lep: T, seg: seq<T>)
    | InsertSegAfter(lep: T, seg: seq<T>)
    | TakeSeg(seg: seq<T>)
    | ConcatOnto(h1: T, h2: T)
    | PrependOnto(h1: T, h2: T)
    | EnterUnder(e: T)
    | EnterAsSegment(e: T)

  // The other macros are defined by these, as in the header.

  function SpliceHead<T>(h: T, seg: seq<T>): Op<T> { InsertSegAfter(h, seg) }

  function SpliceTail<T>(h: T, seg: seq<T>): Op<T> { InsertSegBefore(h, seg) }

  function InsertHead<T>(h: T, e: T): Op<T> { SpliceHead(h, [e]) }

  function InsertTail<T>(h: T, e: T): Op<T> { SpliceTail(h, [e]) }

  function InsertBefore<T>(lep: T, e: T): Op<T> { InsertSegBefore(lep, [e]) }

  function InsertAfter<T>(lep: T, e: T): Op<T> { InsertSegAfter(lep, [e]) }

  function Remove<T>(e: T): Op<T> { TakeSeg([e]) }

  ghost function Arguments<T>(op: Op<T>): set<T> {
    match op
    case Init(h) => {h}
    case ElemInit(e) => {e}
    case InsertSegBefore(lep, seg) => {lep} + Elements(seg)
    case InsertSegAfter(lep, seg) => {lep} + Elements(seg)
    case TakeSeg(seg) => Elements(seg)
    case ConcatOnto(h1, h2) => {h1, h2}
    case PrependOnto(h1, h2) => {h1, h2}
    case EnterUnder(e) => {e}
    case EnterAsSegment(e) => {e}
  }

  /** The segment of an operation has two ends. */
  ghost predicate HasEnds<T>(op: Op<T>) {
    match op
    case InsertSegBefore(_, seg) => seg != []
    case InsertSegAfter(_, seg) => seg != []
    case TakeSeg(seg) => seg != []
    case _ => true
  }

  ghost predicate Applies<T>(op: Op<T>, nodes: set<T>) {
    Arguments(op) <= nodes && HasEnds(op)
  }

  /** What the macros do to the fields. */
  ghost function Exec<T>(g: Graph<T>, op: Op<T>): (g': Graph<T>)
    requires g.Closed() && Applies(op, g.next.Keys)
    ensures g'.Closed() && g'.next.Keys == g.next.Keys
  {
    match op
    case Init(h) => SelfLink(g, h)
    case ElemInit(e) => SelfLink(g, e)
    case InsertSegBefore(lep, seg) => SpliceBefore(g, lep, seg[0], seg[|seg| - 1])
    case InsertSegAfter(lep, seg) => SpliceAfter(g, lep, seg[0], seg[|seg| - 1])
    case TakeSeg(seg) => Unsplice(g, seg[0], seg[|seg| - 1])
    case ConcatOnto(h1, h2) => Concat(g, h1, h2)
    case PrependOnto(h1, h2) => Prepend(g, h1, h2)
    case EnterUnder(_) => g
    case EnterAsSegment(_) => g
  }

  /** x is an element or the sentinel of the ring of h. */
  ghost predicate On<T>(r: RingMap<T>, h: T, x: T) {
    h in r && x in Members(h, r[h])
  }

  ghost predicate Loose<T>(r: RingMap<T>, x: T) {
    forall h | h in r :: !On(r, h, x)
  }

  ghost predicate AllLoose<T>(r: RingMap<T>, s: seq<T>) {
    forall i :: 0 <= i < |s| ==> Loose(r, s[i])
  }

  /** seg is the part of c from i on. */
  ghost predicate PartAt<T>(seg: seq<T>, c: seq<T>, i: nat) {
    i + |seg| <= |c| && c[i..i + |seg|] == seg
  }

  ghost predicate PartOf<T>(seg: seq<T>, c: seq<T>) {
    exists i: nat :: PartAt(seg, c, i)
  }

  /** A single element is always linked; a longer segment must be known to be. */
  ghost predicate IsLinked<T>(chains: set<seq<T>>, seg: seq<T>) {
    |seg| == 1 || exists c | c in chains :: PartOf(seg, c)
  }

  /** Rings to be joined are two, or one that is empty. */
  ghost predicate Joinable<T>(r: RingMap<T>, h1: T, h2: T) {
    h1 in r && h2 in r && (h1 != h2 || r[h1] == [])
  }

  /** seg lies on a ring, and its sentinel or the element it is entered under does not lie in it. */
  ghost predicate OnRing<T>(r: RingMap<T>, seg: seq<T>) {
    exists h | h in r :: PartOf(seg, r[h])
  }

  ghost predicate IsHeadless<T>(st: State<T>, e: T) {
    e in st.rings && e !in st.heads
  }

  /** seg is all of a cycle without head. */
  ghost predicate IsWhole<T>(st: State<T>, seg: seq<T>) {
    seg != [] && IsHeadless(st, seg[0]) && seg == [seg[0]] + st.rings[seg[0]]
  }

  /** seg is the part of c from i on, and has a neighbour on either side. */
  ghost predicate InsideAt<T>(seg: seq<T>, c: seq<T>, i: nat) {
    0 < i && i + |seg| < |c| && PartAt(seg, c, i)
  }

  ghost predicate InsideChain<T>(chains: set<seq<T>>, seg: seq<T>) {
    exists c, i: nat :: c in chains && InsideAt(seg, c, i)
  }

  /** What each macro asks of its caller. */
  ghost predicate Allowed<T>(st: State<T>, op: Op<T>) {
    HasEnds(op) &&
    match op
    case Init(h) => (forall k | k in st.rings :: h !in st.rings[k]) && !IsHeadless(st, h)
    case ElemInit(e) => (forall k | k in st.rings :: e !in st.rings[k]) && e !in st.heads
    case InsertSegBefore(lep, seg) =>
      !Loose(st.rings, lep) && AllLoose(st.rings, seg) && IsLinked(st.chains, seg)
    case InsertSegAfter(lep, seg) =>
      !Loose(st.rings, lep) && AllLoose(st.rings, seg) && IsLinked(st.chains, seg)
    case TakeSeg(seg) => OnRing(st.rings, seg) || IsWhole(st, seg) || InsideChain(st.chains, seg)
    case ConcatOnto(h1, h2) => {h1, h2} <= st.heads && Joinable(st.rings, h1, h2)
    case PrependOnto(h1, h2) => {h1, h2} <= st.heads && Joinable(st.rings, h1, h2)
    case EnterUnder(e) => exists b | b in st.rings :: b !in st.heads && e in st.rings[b]
    case EnterAsSegment(e) => IsHeadless(st, e)
  }

  ghost function Owner<T>(r: RingMap<T>, x: T): (h: T)
    requires !Loose(r, x)
    ensures On(r, h, x)
  {
    var h :| On(r, h, x);
    h
  }

  /** Position of x on the ring of h; the sentinel has position 0. */
  ghost function Position<T>(h: T, s: seq<T>, x: T): (k: nat)
    requires x in Members(h, s)
    ensures k <= |s| && ([h] + s)[k] == x
  {
    var k: nat :| k <= |s| && ([h] + s)[k] == x;
    k
  }

  /** The head of the ring that holds a segment. */
  ghost function Holder<T>(r: RingMap<T>, seg: seq<T>): (h: T)
    requires OnRing(r, seg)
    ensures h in r && PartOf(seg, r[h])
  {
    var h :| h in r && PartOf(seg, r[h]);
    h
  }

  ghost function Offset<T>(seg: seq<T>, c: seq<T>): (i: nat)
    requires PartOf(seg, c)
    ensures PartAt(seg, c, i)
  {
    var i: nat :| PartAt(seg, c, i);
    i
  }

  ghost function InsertedBefore<T>(s: seq<T>, k: nat, seg: seq<T>): seq<T>
    requires k <= |s|
  {
    if k == 0 then s + seg else s[..k - 1] + seg + s[k - 1..]
  }

  ghost function InsertedAfter<T>(s: seq<T>, k: nat, seg: seq<T>): seq<T>
    requires k <= |s|
  {
    s[..k] + seg + s[k..]
  }

  ghost function Piece<T>(s: seq<T>): set<seq<T>> {
    if s == [] then {} else {s}
  }

  /** The chains that are left when seg is put to other use: what stood before and after it. */
  ghost function Used<T>(chains: set<seq<T>>, seg: seq<T>): set<seq<T>> {
    if exists c | c in chains :: PartOf(seg, c) then CutOf(chains, seg, ChainWith(chains, seg)) else chains
  }

  ghost function ChainWith<T>(chains: set<seq<T>>, seg: seq<T>): (c: seq<T>)
    requires exists c | c in chains :: PartOf(seg, c)
    ensures c in chains && PartOf(seg, c)
  {
    var c :| c in chains && PartOf(seg, c);
    c
  }

  ghost function CutOf<T>(chains: set<seq<T>>, seg: seq<T>, c: seq<T>): set<seq<T>>
    requires PartOf(seg, c)
  {
    var i := Offset(seg, c);
    chains - {c} + Piece(c[..i]) + Piece(c[i + |seg|..])
  }

  /** Without its inner part seg, a chain closes up, and seg is a chain of its own. */
  ghost function TakenInside<T>(chains: set<seq<T>>, seg: seq<T>): set<seq<T>>
    requires InsideChain(chains, seg)
  {
    var c, i: nat :| c in chains && InsideAt(seg, c, i);
    chains - {c} + {Without(c, i, i + |seg|), seg}
  }

  /** The element that the headless cycle of e is entered under. */
  ghost function Base<T>(st: State<T>, e: T): (b: T)
    requires exists b | b in st.rings :: b !in st.heads && e in st.rings[b]
    ensures IsHeadless(st, b) && e in st.rings[b]
  {
    var b :| IsHeadless(st, b) && e in st.rings[b];
    b
  }

  /** The cycle of b, which holds e at position i of its sequence, entered under e. */
  ghost function Entered<T>(r: RingMap<T>, b: T, i: nat): RingMap<T>
    requires b in r && i < |r[b]|
  {
    (r - {b})[r[b][i] := r[b][i + 1..] + [b] + r[b][..i]]
  }

  ghost function Index<T>(s: seq<T>, x: T): (i: nat)
    requires x in s
    ensures i < |s| && s[i] == x
  {
    var i: nat :| i < |s| && s[i] == x;
    i
  }

  /** What the operation means for the sequences. */
  ghost function Step<T>(st: State<T>, op: Op<T>): State<T>
    requires Allowed(st, op)
  {
    var State(r, heads, chains) := st;
    match op
    case Init(h) =>
      State(r[h := []], heads + {h}, Used(chains, [h]) + if h in r then Piece(r[h]) else {})
    case ElemInit(e) =>
      State(r[e := []], heads, Used(chains, [e]) + if e in r then Piece(r[e]) else {})
    case InsertSegBefore(lep, seg) =>
      var h := Owner(r, lep);
      State(r[h := InsertedBefore(r[h], Position(h, r[h], lep), seg)], heads, Used(chains, seg))
    case InsertSegAfter(lep, seg) =>
      var h := Owner(r, lep);
      State(r[h := InsertedAfter(r[h], Position(h, r[h], lep), seg)], heads, Used(chains, seg))
    case TakeSeg(seg) =>
      if OnRing(r, seg) then
        var h := Holder(r, seg);
        State(r[h := Without(r[h], Offset(seg, r[h]), Offset(seg, r[h]) + |seg|)], heads, chains + {seg})
      else if IsWhole(st, seg) then st
      else State(r, heads, TakenInside(chains, seg))
    case ConcatOnto(h1, h2) => State(r[h1 := r[h1] + r[h2]][h2 := []], heads, chains)
    case PrependOnto(h1, h2) => State(r[h1 := r[h2] + r[h1]][h2 := []], heads, chains)
    case EnterUnder(e) =>
      var b := Base(st, e);
      State(Entered(r, b, Index(r[b], e)), heads, chains)
    case EnterAsSegment(e) => State(r - {e}, heads, chains + {[e] + r[e]})
  }

  /** All rings are well formed, and no element or sentinel is on two of them. */
  ghost predicate RingsWellFormed<T>(g: Graph<T>, r: RingMap<T>) {
    && g.Closed()
    && (forall h | h in r :: Ring(g, h, r[h]))
    && (forall h1, h2 | h1 in r && h2 in r && h1 != h2 :: Apart(h1, r[h1], h2, r[h2]))
  }

  /** The chains are linked, on no ring, and share nothing. */
  ghost predicate ChainsWellFormed<T>(g: Graph<T>, r: RingMap<T>, cs: set<seq<T>>)
    requires g.Closed()
  {
    && (forall c | c in cs :: c != [] && Chain(g, c) && AllLoose(r, c))
    && (forall c, d | c in cs && d in cs && c != d :: Disjoint(c, d))
  }

  ghost predicate WellFormed<T>(g: Graph<T>, st: State<T>) {
    RingsWellFormed(g, st.rings) && ChainsWellFormed(g, st.rings, st.chains) && st.heads <= st.rings.Keys
  }

  /** Rings that avoid the touched elements survive; the changed rings lie inside them. */
  lemma Reframe<T>(g: Graph<T>, g': Graph<T>, r: RingMap<T>, r': RingMap<T>, changed: set<T>, touched: set<T>)
    requires RingsWellFormed(g, r) && Untouched(g, g', touched)
    requires r'.Keys == r.Keys + changed
    requires forall h | h in r && h !in changed :: r'[h] == r[h] && Members(h, r[h]) !! touched
    requires forall h | h in changed :: Ring(g', h, r'[h]) && Members(h, r'[h]) <= touched
    requires forall h1, h2 | h1 in changed && h2 in changed && h1 != h2 :: Apart(h1, r'[h1], h2, r'[h2])
    ensures RingsWellFormed(g', r')
  {
    forall h | h in r' ensures Ring(g', h, r'[h]) {
      if h !in changed {
        CycleFrame(g, g', [h] + r[h], touched);
      }
    }
  }

  /** One ring changes, and takes in at most the loose elements `extra`. */
  lemma ReframeOne<T>(g: Graph<T>, g': Graph<T>, r: RingMap<T>, h: T, s: seq<T>, extra: set<T>)
    requires RingsWellFormed(g, r) && h in r
    requires Untouched(g, g', Members(h, r[h]) + extra) && Ring(g', h, s)
    requires forall x | x in extra :: Loose(r, x)
    requires Members(h, s) <= Members(h, r[h]) + extra
    ensures RingsWellFormed(g', r[h := s])
  {
    forall k | k in r && k != h ensures Members(k, r[k]) !! Members(h, r[h]) + extra {
      assert Apart(k, r[k], h, r[h]);
      forall x | x in extra ensures x !in Members(k, r[k]) {
        assert !On(r, k, x);
      }
    }
    Reframe(g, g', r, r[h := s], {h}, Members(h, r[h]) + extra);
  }

  lemma SegOffRing<T>(h: T, s: seq<T>, seg: seq<T>)
    requires Elements(seg) !! Members(h, s)
    ensures Disjoint([h] + s, seg)
    ensures forall i :: 0 <= i < |seg| ==> seg[i] in Elements(seg)
  {
    forall i | 0 <= i < |[h] + s| ensures ([h] + s)[i] in Members(h, s) {
    }
  }

  lemma InsertAfterOne<T>(g: Graph<T>, h: T, s: seq<T>, k: nat, seg: seq<T>)
    requires g.Closed() && Ring(g, h, s) && k <= |s| && seg != [] && Chain(g, seg) && Elements(seg) !! Members(h, s)
    ensures ([h] + s)[k] in g.next && seg[0] in g.next && seg[|seg| - 1] in g.next
    ensures var g' := SpliceAfter(g, ([h] + s)[k], seg[0], seg[|seg| - 1]);
            Untouched(g, g', Members(h, s) + Elements(seg)) && Ring(g', h, InsertedAfter(s, k, seg))
  {
    hide SpliceAfter, Ring, Members, Elements;
    NeighboursAreMembers(g, h, s, k);
    SegOffRing(h, s, seg);
    SpliceAfterAt(g, h, s, k, seg);
    SpliceAfterStores(g, ([h] + s)[k], seg[0], seg[|seg| - 1]);
    PositionIsMember(h, s, k);
  }

  lemma InsertBeforeOne<T>(g: Graph<T>, h: T, s: seq<T>, k: nat, seg: seq<T>)
    requires g.Closed() && Ring(g, h, s) && k <= |s| && seg != [] && Chain(g, seg) && Elements(seg) !! Members(h, s)
    ensures ([h] + s)[k] in g.next && seg[0] in g.next && seg[|seg| - 1] in g.next
    ensures var g' := SpliceBefore(g, ([h] + s)[k], seg[0], seg[|seg| - 1]);
            Untouched(g, g', Members(h, s) + Elements(seg)) && Ring(g', h, InsertedBefore(s, k, seg))
  {
    hide SpliceBefore, Ring, Members, Elements;
    NeighboursAreMembers(g, h, s, k);
    SegOffRing(h, s, seg);
    SpliceBeforeAt(g, h, s, k, seg);
    SpliceBeforeStores(g, ([h] + s)[k], seg[0], seg[|seg| - 1]);
    PositionIsMember(h, s, k);
  }

  lemma PositionIsMember<T>(h: T, s: seq<T>, k: nat)
    requires k <= |s|
    ensures ([h] + s)[k] in Members(h, s)
  {
  }

  lemma InsertedMembers<T>(h: T, s: seq<T>, k: nat, seg: seq<T>)
    requires k <= |s|
    ensures Members(h, InsertedAfter(s, k, seg)) == Members(h, s) + Elements(seg)
    ensures Members(h, InsertedBefore(s, k, seg)) == Members(h, s) + Elements(seg)
  {
    assert s == s[..k] + s[k..];
    assert k > 0 ==> s == s[..k - 1] + s[k - 1..];
  }

  lemma LooseIsOff<T>(r: RingMap<T>, h: T, seg: seq<T>)
    requires h in r && AllLoose(r, seg)
    ensures Elements(seg) !! Members(h, r[h])
    ensures forall x | x in Elements(seg) :: Loose(r, x)
  {
    forall x | x in seg ensures Loose(r, x) && !On(r, h, x) {
    }
  }

  lemma InsertKeepsRings<T>(g: Graph<T>, r: RingMap<T>, h: T, k: nat, seg: seq<T>)
    requires RingsWellFormed(g, r) && h in r && k <= |r[h]| && seg != [] && Chain(g, seg) && AllLoose(r, seg)
    ensures ([h] + r[h])[k] in g.next && seg[0] in g.next && seg[|seg| - 1] in g.next
    ensures var g' := SpliceAfter(g, ([h] + r[h])[k], seg[0], seg[|seg| - 1]);
            && RingsWellFormed(g', r[h := InsertedAfter(r[h], k, seg)])
            && Untouched(g, g', Members(h, r[h]) + Elements(seg))
    ensures var g' := SpliceBefore(g, ([h] + r[h])[k], seg[0], seg[|seg| - 1]);
            && RingsWellFormed(g', r[h := InsertedBefore(r[h], k, seg)])
            && Untouched(g, g', Members(h, r[h]) + Elements(seg))
  {
    hide SpliceAfter, SpliceBefore, Ring, Members, Elements, Chain;
    LooseIsOff(r, h, seg);
    InsertAfterOne(g, h, r[h], k, seg);
    InsertBeforeOne(g, h, r[h], k, seg);
    InsertedMembers(h, r[h], k, seg);
    var lep, ep1, epN := ([h] + r[h])[k], seg[0], seg[|seg| - 1];
    ReframeOne(g, SpliceAfter(g, lep, ep1, epN), r, h, InsertedAfter(r[h], k, seg), Elements(seg));
    ReframeOne(g, SpliceBefore(g, lep, ep1, epN), r, h, InsertedBefore(r[h], k, seg), Elements(seg));
  }

  lemma TakeKeepsRings<T>(g: Graph<T>, r: RingMap<T>, h: T, i: nat, n: nat)
    requires RingsWellFormed(g, r) && h in r && 0 < n && i + n <= |r[h]|
    ensures r[h][i] in g.next && r[h][i + n - 1] in g.next
    ensures var g' := Unsplice(g, r[h][i], r[h][i + n - 1]);
            && RingsWellFormed(g', r[h := Without(r[h], i, i + n)])
            && Untouched(g, g', Members(h, r[h])) && Chain(g', r[h][i..i + n])
  {
    hide Unsplice, Ring;
    UnspliceCuts(g, h, r[h], i, i + n);
    UnspliceStays(g, h, r[h], i, i + n);
    ReframeOne(g, Unsplice(g, r[h][i], r[h][i + n - 1]), r, h, Without(r[h], i, i + n), {});
  }

  /** A head that is on no ring as an element is made empty. */
  lemma InitKeepsRings<T>(g: Graph<T>, r: RingMap<T>, h: T)
    requires RingsWellFormed(g, r) && h in g.next && forall k | k in r :: h !in r[k]
    ensures RingsWellFormed(SelfLink(g, h), r[h := []]) && Untouched(g, SelfLink(g, h), {h})
  {
    hide SelfLink, Ring;
    SelfLinkStores(g, h);
    SelfLinkMakesEmptyRing(g, SelfLink(g, h), h);
    forall k | k in r && k != h ensures h !in Members(k, r[k]) {
    }
    Reframe(g, SelfLink(g, h), r, r[h := []], {h}, {h});
  }

  lemma JoinKeeps<T>(g: Graph<T>, g': Graph<T>, r: RingMap<T>, h1: T, h2: T, s: seq<T>)
    requires RingsWellFormed(g, r) && h1 in r && h2 in r && h1 != h2
    requires Untouched(g, g', Members(h1, r[h1]) + Members(h2, r[h2]))
    requires Ring(g', h1, s) && Ring(g', h2, [])
    requires Members(h1, s) <= Members(h1, r[h1]) + Members(h2, r[h2]) - {h2}
    ensures RingsWellFormed(g', r[h1 := s][h2 := []])
  {
    hide Ring;
    var touched := Members(h1, r[h1]) + Members(h2, r[h2]);
    forall k | k in r && k != h1 && k != h2 ensures Members(k, r[k]) !! touched {
      assert Apart(k, r[k], h1, r[h1]) && Apart(k, r[k], h2, r[h2]);
    }
    Reframe(g, g', r, r[h1 := s][h2 := []], {h1, h2}, touched);
  }

  lemma ConcatKeepsRings<T>(g: Graph<T>, r: RingMap<T>, h1: T, h2: T)
    requires RingsWellFormed(g, r) && h1 in r && h2 in r && h1 != h2
    ensures h1 in g.next && h2 in g.next
    ensures RingsWellFormed(Concat(g, h1, h2), r[h1 := r[h1] + r[h2]][h2 := []])
    ensures Untouched(g, Concat(g, h1, h2), Members(h1, r[h1]) + Members(h2, r[h2]))
    ensures Members(h1, r[h1] + r[h2]) <= Members(h1, r[h1]) + Members(h2, r[h2])
  {
    hide Concat, Ring;
    HeadsApart(g, r, h1, h2);
    ConcatJoins(g, h1, r[h1], h2, r[h2]);
    JoinKeeps(g, Concat(g, h1, h2), r, h1, h2, r[h1] + r[h2]);
  }

  lemma PrependKeepsRings<T>(g: Graph<T>, r: RingMap<T>, h1: T, h2: T)
    requires RingsWellFormed(g, r) && h1 in r && h2 in r && h1 != h2
    ensures h1 in g.next && h2 in g.next
    ensures RingsWellFormed(Prepend(g, h1, h2), r[h1 := r[h2] + r[h1]][h2 := []])
    ensures Untouched(g, Prepend(g, h1, h2), Members(h1, r[h1]) + Members(h2, r[h2]))
    ensures Members(h1, r[h2] + r[h1]) <= Members(h1, r[h1]) + Members(h2, r[h2])
  {
    hide Prepend, Ring;
    HeadsApart(g, r, h1, h2);
    PrependJoins(g, h1, r[h1], h2, r[h2]);
    JoinKeeps(g, Prepend(g, h1, h2), r, h1, h2, r[h2] + r[h1]);
  }

  lemma HeadsApart<T>(g: Graph<T>, r: RingMap<T>, h1: T, h2: T)
    requires RingsWellFormed(g, r) && h1 in r && h2 in r && h1 != h2
    ensures h1 in g.next && h2 in g.next && Apart(h1, r[h1], h2, r[h2])
    ensures h2 !in r[h1] && h2 !in r[h2]
  {
    hide Ring;
    RingChain(g, h1, r[h1]);
    RingChain(g, h2, r[h2]);
    MembersAt(h2, r[h2]);
    MembersAt(h1, r[h1]);
    assert h2 in r[h1] ==> h2 in Members(h1, r[h1]);
  }

  /** Chains that avoid the touched elements stay chains, and stay loose if no ring takes them in. */
  lemma ReframeChains<T>(g: Graph<T>, g': Graph<T>, r: RingMap<T>, r': RingMap<T>, cs: set<seq<T>>, touched: set<T>)
    requires g.Closed() && ChainsWellFormed(g, r, cs) && Untouched(g, g', touched)
    requires forall c | c in cs :: AllLoose(r', c) && forall i :: 0 <= i < |c| ==> c[i] !in touched
    ensures ChainsWellFormed(g', r', cs)
  {
    forall c | c in cs ensures Chain(g', c) {
      CycleFrame(g, g', c, touched);
    }
  }

  lemma PartsOfChain<T>(g: Graph<T>, c: seq<T>, i: nat, n: nat)
    requires g.Closed() && Chain(g, c) && i + n <= |c|
    ensures Chain(g, c[..i]) && Chain(g, c[i..i + n]) && Chain(g, c[i + n..])
    ensures Disjoint(c[..i], c[i..i + n]) && Disjoint(c[i + n..], c[i..i + n]) && Disjoint(c[..i], c[i + n..])
  {
  }

  lemma LinkedSegIsChain<T>(g: Graph<T>, r: RingMap<T>, cs: set<seq<T>>, seg: seq<T>)
    requires g.Closed() && ChainsWellFormed(g, r, cs) && IsLinked(cs, seg)
    requires forall i :: 0 <= i < |seg| ==> seg[i] in g.next
    ensures Chain(g, seg)
  {
    if |seg| != 1 {
      var c :| c in cs && PartOf(seg, c);
      PartsOfChain(g, c, Offset(seg, c), |seg|);
    }
  }

  /** A chain with its middle part taken for use leaves its two ends. */
  lemma CutChain<T>(g: Graph<T>, r: RingMap<T>, cs: set<seq<T>>, c: seq<T>, i: nat, n: nat,
                    rest: set<seq<T>>)
    requires g.Closed() && ChainsWellFormed(g, r, cs) && c in cs && n > 0 && i + n <= |c|
    requires rest == cs - {c} + Piece(c[..i]) + Piece(c[i + n..])
    ensures ChainsWellFormed(g, r, rest)
    ensures forall d | d in rest :: Disjoint(d, c[i..i + n])
  {
    PartsOfChain(g, c, i, n);
    var a, b := c[..i], c[i + n..];
    forall d | d in cs - {c}
      ensures Disjoint(d, a) && Disjoint(a, d) && Disjoint(d, b) && Disjoint(b, d) && Disjoint(d, c[i..i + n])
    {
      assert Disjoint(d, c);
    }
    assert AllLoose(r, c);
    assert AllLoose(r, a) && AllLoose(r, b);
  }

  lemma SingleIsPart<T>(seg: seq<T>, c: seq<T>, i: nat)
    requires |seg| == 1 && i < |c| && c[i] == seg[0]
    ensures PartOf(seg, c)
  {
    assert PartAt(seg, c, i);
  }

  lemma OffChain<T>(c: seq<T>, seg: seq<T>)
    requires |seg| == 1 && !PartOf(seg, c)
    ensures Disjoint(c, seg)
  {
    forall i | 0 <= i < |c| ensures c[i] != seg[0] {
      if c[i] == seg[0] {
        SingleIsPart(seg, c, i);
      }
    }
  }

  /** Taking seg for use leaves chains that keep clear of it. */
  lemma UsedChains<T>(g: Graph<T>, r: RingMap<T>, cs: set<seq<T>>, seg: seq<T>)
    requires g.Closed() && ChainsWellFormed(g, r, cs) && seg != [] && IsLinked(cs, seg)
    ensures ChainsWellFormed(g, r, Used(cs, seg))
    ensures forall c | c in Used(cs, seg) :: Disjoint(c, seg)
  {
    hide ChainsWellFormed, Disjoint;
    if exists c | c in cs :: PartOf(seg, c) {
      var c := ChainWith(cs, seg);
      CutChain(g, r, cs, c, Offset(seg, c), |seg|, Used(cs, seg));
    } else {
      forall c | c in cs ensures Disjoint(c, seg) {
        OffChain(c, seg);
      }
    }
  }

  /** What an insertion of loose elements does to the chains beside it. */
  lemma ChainsBesideInsert<T>(g: Graph<T>, g': Graph<T>, r: RingMap<T>, r': RingMap<T>,
                              cs: set<seq<T>>, seg: seq<T>, h: T)
    requires g.Closed() && ChainsWellFormed(g, r, cs) && seg != [] && IsLinked(cs, seg)
    requires h in r && Untouched(g, g', Members(h, r[h]) + Elements(seg))
    requires r'.Keys == r.Keys && (forall k | k in r && k != h :: r'[k] == r[k])
    requires Members(h, r'[h]) <= Members(h, r[h]) + Elements(seg)
    ensures ChainsWellFormed(g', r', Used(cs, seg))
  {
    UsedChains(g, r, cs, seg);
    forall c | c in Used(cs, seg)
      ensures AllLoose(r', c)
      ensures forall i :: 0 <= i < |c| ==> c[i] !in Members(h, r[h]) + Elements(seg)
    {
      OffAfterInsert(r, r', c, seg, h);
    }
    ReframeChains(g, g', r, r', Used(cs, seg), Members(h, r[h]) + Elements(seg));
  }

  lemma OffAfterInsert<T>(r: RingMap<T>, r': RingMap<T>, c: seq<T>, seg: seq<T>, h: T)
    requires AllLoose(r, c) && Disjoint(c, seg) && h in r
    requires r'.Keys == r.Keys && (forall k | k in r && k != h :: r'[k] == r[k])
    requires Members(h, r'[h]) <= Members(h, r[h]) + Elements(seg)
    ensures AllLoose(r', c)
    ensures forall i :: 0 <= i < |c| ==> c[i] !in Members(h, r[h]) + Elements(seg)
  {
    forall i | 0 <= i < |c|
      ensures Loose(r', c[i]) && c[i] !in Members(h, r[h]) + Elements(seg)
    {
      assert Loose(r, c[i]) && !On(r, h, c[i]);
      assert c[i] !in Elements(seg);
      forall k | k in r' ensures !On(r', k, c[i]) {
        assert !On(r, k, c[i]);
      }
    }
  }

  lemma ArgumentsAt<T>(seg: seq<T>, nodes: set<T>)
    requires Elements(seg) <= nodes
    ensures forall i :: 0 <= i < |seg| ==> seg[i] in nodes
  {
    forall i | 0 <= i < |seg| ensures seg[i] in nodes {
      assert seg[i] in Elements(seg);
    }
  }

  lemma InsertBeforeKeeps<T>(g: Graph<T>, st: State<T>, lep: T, seg: seq<T>)
    requires WellFormed(g, st) && {lep} + Elements(seg) <= g.next.Keys
    requires Allowed(st, InsertSegBefore(lep, seg))
    ensures WellFormed(Exec(g, InsertSegBefore(lep, seg)), Step(st, InsertSegBefore(lep, seg)))
  {
    hide SpliceAfter, SpliceBefore, RingsWellFormed, ChainsWellFormed, Members, Elements, Used, IsLinked,
         InsertedAfter, InsertedBefore;
    var r := st.rings;
    var h := Owner(r, lep);
    var k := Position(h, r[h], lep);
    assert g.Closed() by { WellFormedIsClosed(g, r); }
    ArgumentsAt(seg, g.next.Keys);
    LinkedSegIsChain(g, r, st.chains, seg);
    InsertKeepsRings(g, r, h, k, seg);
    InsertedMembers(h, r[h], k, seg);
    ChainsBesideInsert(g, SpliceBefore(g, lep, seg[0], seg[|seg| - 1]),
                       r, r[h := InsertedBefore(r[h], k, seg)], st.chains, seg, h);
  }

  lemma InsertAfterKeeps<T>(g: Graph<T>, st: State<T>, lep: T, seg: seq<T>)
    requires WellFormed(g, st) && {lep} + Elements(seg) <= g.next.Keys
    requires Allowed(st, InsertSegAfter(lep, seg))
    ensures WellFormed(Exec(g, InsertSegAfter(lep, seg)), Step(st, InsertSegAfter(lep, seg)))
  {
    hide SpliceAfter, SpliceBefore, RingsWellFormed, ChainsWellFormed, Members, Elements, Used, IsLinked,
         InsertedAfter, InsertedBefore;
    var r := st.rings;
    var h := Owner(r, lep);
    var k := Position(h, r[h], lep);
    assert g.Closed() by { WellFormedIsClosed(g, r); }
    ArgumentsAt(seg, g.next.Keys);
    LinkedSegIsChain(g, r, st.chains, seg);
    InsertKeepsRings(g, r, h, k, seg);
    InsertedMembers(h, r[h], k, seg);
    ChainsBesideInsert(g, SpliceAfter(g, lep, seg[0], seg[|seg| - 1]),
                       r, r[h := InsertedAfter(r[h], k, seg)], st.chains, seg, h);
  }

  lemma WellFormedIsClosed<T>(g: Graph<T>, r: RingMap<T>)
    requires RingsWellFormed(g, r)
    ensures g.Closed()
  {
  }

  lemma {:induction false} LooseWhenTaken<T>(g: Graph<T>, r: RingMap<T>, h: T, i: nat, n: nat)
    requires RingsWellFormed(g, r) && h in r && i + n <= |r[h]|
    ensures AllLoose(r[h := Without(r[h], i, i + n)], r[h][i..i + n])
  {
    hide Ring;
    RingChain(g, h, r[h]);
    var seg := r[h][i..i + n];
    forall j | 0 <= j < n ensures Loose(r[h := Without(r[h], i, i + n)], seg[j]) {
      assert seg[j] == r[h][i + j] && seg[j] != h;
      assert seg[j] !in Without(r[h], i, i + n);
      MembersAt(h, r[h]);
      forall k | k in r && k != h ensures seg[j] !in Members(k, r[k]) {
        assert Apart(k, r[k], h, r[h]);
      }
    }
  }

  /** Chains keep clear of the rings, whose members only become fewer. */
  lemma ChainsBesideRings<T>(g: Graph<T>, g': Graph<T>, r: RingMap<T>, r': RingMap<T>, cs: set<seq<T>>, touched: set<T>)
    requires g.Closed() && ChainsWellFormed(g, r, cs) && Untouched(g, g', touched)
    requires forall x | x in touched :: !Loose(r, x)
    requires forall x :: Loose(r, x) ==> Loose(r', x)
    ensures ChainsWellFormed(g', r', cs)
  {
    forall c | c in cs ensures AllLoose(r', c) && forall i :: 0 <= i < |c| ==> c[i] !in touched {
      assert AllLoose(r, c);
    }
    ReframeChains(g, g', r, r', cs, touched);
  }

  lemma LooseGrows<T>(r: RingMap<T>, r': RingMap<T>)
    requires r'.Keys == r.Keys
    requires forall k, x | k in r' && x in Members(k, r'[k]) :: !Loose(r, x)
    ensures forall x :: Loose(r, x) ==> Loose(r', x)
  {
  }

  lemma MembersNotLoose<T>(r: RingMap<T>, h: T)
    requires h in r
    ensures forall x | x in Members(h, r[h]) :: !Loose(r, x)
  {
    forall x | x in Members(h, r[h]) ensures !Loose(r, x) {
      assert On(r, h, x);
    }
  }

  lemma TakeFromRingKeeps<T>(g: Graph<T>, st: State<T>, seg: seq<T>)
    requires WellFormed(g, st) && Applies(TakeSeg(seg), g.next.Keys) && OnRing(st.rings, seg)
    ensures WellFormed(Exec(g, TakeSeg(seg)), Step(st, TakeSeg(seg)))
  {
    hide Unsplice, RingsWellFormed;
    var r := st.rings;
    var h := Holder(r, seg);
    var i, n := Offset(seg, r[h]), |seg|;
    assert seg[0] == r[h][i] && seg[n - 1] == r[h][i + n - 1] && r[h][i..i + n] == seg;
    assert g.Closed() by { WellFormedIsClosed(g, r); }
    TakeKeepsRings(g, r, h, i, n);
    LooseWhenTaken(g, r, h, i, n);
    var g' := Unsplice(g, seg[0], seg[n - 1]);
    var r' := r[h := Without(r[h], i, i + n)];
    TakenFromRing(r, h, i, n);
    ChainsBesideRings(g, g', r, r', st.chains, Members(h, r[h]));
    forall c | c in st.chains ensures Disjoint(c, seg) && Disjoint(seg, c) {
      LooseAndTaken(r, h, i, n, c);
    }
  }

  /** UNSPLICE of a whole cycle changes nothing. */
  lemma TakeWholeKeeps<T>(g: Graph<T>, st: State<T>, seg: seq<T>)
    requires WellFormed(g, st) && Applies(TakeSeg(seg), g.next.Keys) && IsWhole(st, seg)
    ensures Exec(g, TakeSeg(seg)) == g
    ensures !OnRing(st.rings, seg)
  {
    hide Unsplice, ChainsWellFormed;
    var b := seg[0];
    assert Ring(g, b, st.rings[b]);
    UnspliceIsNoOpIff(g, b, seg[|seg| - 1]);
    if OnRing(st.rings, seg) {
      var h := Holder(st.rings, seg);
      assert st.rings[h][Offset(seg, st.rings[h])] == b;
      HeadOnNoRing(g, st.rings, b, h);
    }
  }

  lemma HeadOnNoRing<T>(g: Graph<T>, r: RingMap<T>, b: T, h: T)
    requires RingsWellFormed(g, r) && b in r && h in r
    ensures b !in r[h]
  {
    hide Ring;
    RingChain(g, h, r[h]);
    MembersAt(b, r[b]);
    MembersAt(h, r[h]);
    assert b != h ==> Apart(b, r[b], h, r[h]);
  }

  /** Taking the inside out of a chain links what stood before and after it. */
  lemma ChainClosesUp<T>(g: Graph<T>, c: seq<T>, i: nat, n: nat)
    requires g.Closed() && Chain(g, c) && 0 < i && 0 < n && i + n < |c|
    ensures c[i] in g.next && c[i + n - 1] in g.next
    ensures var g' := Unsplice(g, c[i], c[i + n - 1]);
            && Chain(g', Without(c, i, i + n)) && Chain(g', c[i..i + n])
            && Untouched(g, g', Elements(c))
    ensures Disjoint(Without(c, i, i + n), c[i..i + n]) && Disjoint(c[i..i + n], Without(c, i, i + n))
  {
    hide Unsplice;
    UnspliceStores(g, c[i], c[i + n - 1]);
    var g', d := Unsplice(g, c[i], c[i + n - 1]), Without(c, i, i + n);
    assert g.Prev(c[i]) == c[i - 1] && g.Next(c[i + n - 1]) == c[i + n];
    forall k | 0 <= k < |d| ensures d[k] == c[if k < i then k else k + n] {
    }
    forall k | 0 <= k < |d| - 1 ensures g'.Next(d[k]) == d[k + 1] && g'.Prev(d[k + 1]) == d[k] {
      var m := if k < i then k else k + n;
      assert g.Next(c[m]) == c[m + 1] && g.Prev(c[m + 1]) == c[m];
    }
    PartsOfChain(g, c, i, n);
    assert c[i - 1] in c[..i] && c[i + n] in c[i + n..] by {
      assert c[..i][i - 1] == c[i - 1] && c[i + n..][0] == c[i + n];
    }
    CycleFrame(g, g', c[i..i + n], {c[i - 1], c[i + n]});
  }

  /** Loose elements that change touch no ring. */
  lemma RingsBesideLoose<T>(g: Graph<T>, g': Graph<T>, r: RingMap<T>, c: seq<T>)
    requires RingsWellFormed(g, r) && AllLoose(r, c) && Untouched(g, g', Elements(c))
    ensures RingsWellFormed(g', r)
  {
    hide Ring;
    forall h | h in r ensures Members(h, r[h]) !! Elements(c) {
      LooseIsOff(r, h, c);
    }
    Reframe(g, g', r, r, {}, Elements(c));
  }

  lemma TwoMoreChains<T>(g: Graph<T>, r: RingMap<T>, cs: set<seq<T>>, d: seq<T>, e: seq<T>)
    requires g.Closed() && ChainsWellFormed(g, r, cs)
    requires d != [] && Chain(g, d) && AllLoose(r, d) && e != [] && Chain(g, e) && AllLoose(r, e)
    requires Disjoint(d, e) && Disjoint(e, d)
    requires forall c | c in cs :: Disjoint(c, d) && Disjoint(d, c) && Disjoint(c, e) && Disjoint(e, c)
    ensures ChainsWellFormed(g, r, cs + {d, e})
  {
    hide Chain, Disjoint;
  }

  /** What keeps clear of a chain keeps clear of its parts. */
  lemma PartsKeepClear<T>(r: RingMap<T>, c: seq<T>, i: nat, seg: seq<T>, e: seq<T>)
    requires InsideAt(seg, c, i)
    ensures Disjoint(e, c) ==> Disjoint(e, seg) && Disjoint(seg, e)
    ensures Disjoint(e, c) ==> Disjoint(e, Without(c, i, i + |seg|)) && Disjoint(Without(c, i, i + |seg|), e)
    ensures AllLoose(r, c) ==> AllLoose(r, seg) && AllLoose(r, Without(c, i, i + |seg|))
  {
    InsideIsPart(c, i, seg);
  }

  /** A chain is replaced by its two parts, and what keeps clear of it stays as it is. */
  lemma PartsInstead<T>(g: Graph<T>, g': Graph<T>, r: RingMap<T>, cs: set<seq<T>>, c: seq<T>, i: nat, seg: seq<T>)
    requires g.Closed() && ChainsWellFormed(g, r, cs) && c in cs && seg != [] && InsideAt(seg, c, i)
    requires Untouched(g, g', Elements(c)) && Chain(g', seg) && Chain(g', Without(c, i, i + |seg|))
    requires Disjoint(seg, Without(c, i, i + |seg|)) && Disjoint(Without(c, i, i + |seg|), seg)
    ensures ChainsWellFormed(g', r, cs - {c} + {Without(c, i, i + |seg|), seg})
  {
    assert g'.Closed();
    hide Chain, AllLoose, Disjoint, Untouched, Elements;
    forall e | e in cs - {c} ensures forall k :: 0 <= k < |e| ==> e[k] !in Elements(c) {
      ClearOf(e, c);
    }
    ReframeChains(g, g', r, r, cs - {c}, Elements(c));
    var d := Without(c, i, i + |seg|);
    forall e | e in cs - {c} ensures Disjoint(e, seg) && Disjoint(seg, e) && Disjoint(e, d) && Disjoint(d, e) {
      PartsKeepClear(r, c, i, seg, e);
    }
    PartsKeepClear(r, c, i, seg, []);
    TwoMoreChains(g', r, cs - {c}, d, seg);
  }

  lemma TakeInsideChain<T>(g: Graph<T>, r: RingMap<T>, cs: set<seq<T>>, c: seq<T>, i: nat, seg: seq<T>)
    requires RingsWellFormed(g, r) && ChainsWellFormed(g, r, cs) && c in cs && seg != [] && InsideAt(seg, c, i)
    ensures seg[0] in g.next && seg[|seg| - 1] in g.next
    ensures var g' := Unsplice(g, seg[0], seg[|seg| - 1]);
            && RingsWellFormed(g', r)
            && ChainsWellFormed(g', r, cs - {c} + {Without(c, i, i + |seg|), seg})
  {
    assert g.Closed() by { WellFormedIsClosed(g, r); }
    assert Chain(g, c) && AllLoose(r, c);
    hide Unsplice, RingsWellFormed, ChainsWellFormed, Chain, AllLoose, Disjoint, Untouched, Elements;
    var n := |seg|;
    assert seg[0] == c[i] && seg[n - 1] == c[i + n - 1] && c[i..i + n] == seg;
    ChainClosesUp(g, c, i, n);
    var g' := Unsplice(g, seg[0], seg[n - 1]);
    RingsBesideLoose(g, g', r, c);
    PartsInstead(g, g', r, cs, c, i, seg);
  }

  lemma ClearOf<T>(e: seq<T>, c: seq<T>)
    requires Disjoint(e, c)
    ensures forall k :: 0 <= k < |e| ==> e[k] !in Elements(c)
  {
  }

  lemma InsideIsPart<T>(c: seq<T>, i: nat, seg: seq<T>)
    requires InsideAt(seg, c, i)
    ensures forall k :: 0 <= k < |seg| ==> seg[k] == c[i + k]
    ensures var d := Without(c, i, i + |seg|);
            forall k :: 0 <= k < |d| ==> d[k] == c[if k < i then k else k + |seg|]
  {
  }

  lemma TakeInsideKeeps<T>(g: Graph<T>, st: State<T>, seg: seq<T>)
    requires WellFormed(g, st) && Applies(TakeSeg(seg), g.next.Keys)
    requires InsideChain(st.chains, seg) && !OnRing(st.rings, seg) && !IsWhole(st, seg)
    ensures WellFormed(Exec(g, TakeSeg(seg)), Step(st, TakeSeg(seg)))
  {
    hide Unsplice, RingsWellFormed, ChainsWellFormed, OnRing, IsWhole;
    var after := TakenInside(st.chains, seg);
    var c, i: nat :| c in st.chains && InsideAt(seg, c, i)
                  && after == st.chains - {c} + {Without(c, i, i + |seg|), seg};
    TakeInsideChain(g, st.rings, st.chains, c, i, seg);
  }

  lemma TakeKeeps<T>(g: Graph<T>, st: State<T>, seg: seq<T>)
    requires WellFormed(g, st) && Applies(TakeSeg(seg), g.next.Keys) && Allowed(st, TakeSeg(seg))
    ensures WellFormed(Exec(g, TakeSeg(seg)), Step(st, TakeSeg(seg)))
  {
    hide WellFormed, Exec, OnRing, IsWhole, InsideChain;
    if OnRing(st.rings, seg) {
      TakeFromRingKeeps(g, st, seg);
    } else if IsWhole(st, seg) {
      TakeWholeKeeps(g, st, seg);
    } else {
      TakeInsideKeeps(g, st, seg);
    }
  }

  lemma TurnedMembers<T>(b: T, s: seq<T>, i: nat)
    requires i < |s|
    ensures Members(s[i], s[i + 1..] + [b] + s[..i]) == Members(b, s)
    ensures [b] + s == ([b] + s[..i]) + s[i..] && [s[i]] + (s[i + 1..] + [b] + s[..i]) == s[i..] + ([b] + s[..i])
  {
    var c, d := [b] + s, [s[i]] + (s[i + 1..] + [b] + s[..i]);
    assert c == ([b] + s[..i]) + s[i..] && d == s[i..] + ([b] + s[..i]);
    forall x | x in c ensures x in d {
    }
  }

  lemma EnteredKeeps<T>(g: Graph<T>, r: RingMap<T>, b: T, i: nat)
    requires RingsWellFormed(g, r) && b in r && i < |r[b]|
    ensures r[b][i] !in r && RingsWellFormed(g, Entered(r, b, i))
    ensures forall x :: Loose(r, x) <==> Loose(Entered(r, b, i), x)
  {
    hide Cycle, Members;
    var e, r' := r[b][i], Entered(r, b, i);
    if e in r {
      HeadOnNoRing(g, r, e, b);
    }
    TurnedMembers(b, r[b], i);
    Rotate(g, [b] + r[b][..i], r[b][i..]);
    forall h1, h2 | h1 in r' && h2 in r' && h1 != h2 ensures Apart(h1, r'[h1], h2, r'[h2]) {
      var k1, k2 := if h1 == e then b else h1, if h2 == e then b else h2;
      assert Apart(k1, r[k1], k2, r[k2]);
    }
    forall x ensures Loose(r, x) <==> Loose(r', x) {
      assert On(r, b, x) <==> On(r', e, x);
      assert forall h | h in r && h != b :: On(r, h, x) <==> On(r', h, x);
      assert forall h | h in r' && h != e :: On(r, h, x) <==> On(r', h, x);
    }
  }

  lemma EnterUnderKeeps<T>(g: Graph<T>, st: State<T>, e: T)
    requires WellFormed(g, st) && e in g.next && Allowed(st, EnterUnder(e))
    ensures WellFormed(Exec(g, EnterUnder(e)), Step(st, EnterUnder(e)))
  {
    hide RingsWellFormed;
    var b := Base(st, e);
    EnteredKeeps(g, st.rings, b, Index(st.rings[b], e));
  }

  lemma EnterAsSegmentKeeps<T>(g: Graph<T>, st: State<T>, e: T)
    requires WellFormed(g, st) && e in g.next && Allowed(st, EnterAsSegment(e))
    ensures WellFormed(Exec(g, EnterAsSegment(e)), Step(st, EnterAsSegment(e)))
  {
    hide Cycle, Chain, Distinct;
    var r, cs := st.rings, st.chains;
    var r', c := r - {e}, [e] + r[e];
    assert Chain(g, c) by { CycleIsChain(g, c); }
    forall x | Loose(r, x) ensures Loose(r', x) && x !in c {
      assert !On(r, e, x);
    }
    forall i | 0 <= i < |c| ensures Loose(r', c[i]) {
      assert c[i] in Members(e, r[e]);
      forall k | k in r' ensures !On(r', k, c[i]) {
        assert Apart(k, r[k], e, r[e]);
      }
    }
    forall d | d in cs ensures AllLoose(r', d) && Disjoint(d, c) && Disjoint(c, d) {
      assert AllLoose(r, d);
    }
  }

  lemma CycleIsChain<T>(g: Graph<T>, c: seq<T>)
    requires g.Closed() && Cycle(g, c)
    ensures Chain(g, c)
  {
  }

  lemma TakenFromRing<T>(r: RingMap<T>, h: T, i: nat, n: nat)
    requires h in r && i + n <= |r[h]|
    ensures forall x | x in Members(h, r[h]) :: !Loose(r, x)
    ensures forall x :: Loose(r, x) ==> Loose(r[h := Without(r[h], i, i + n)], x)
  {
    MembersNotLoose(r, h);
    forall k, x | k in r && x in Members(k, r[h := Without(r[h], i, i + n)][k]) ensures !Loose(r, x) {
      assert x in Members(k, r[k]);
      assert On(r, k, x);
    }
    LooseGrows(r, r[h := Without(r[h], i, i + n)]);
  }

  lemma LooseAndTaken<T>(r: RingMap<T>, h: T, i: nat, n: nat, c: seq<T>)
    requires h in r && i + n <= |r[h]| && AllLoose(r, c)
    ensures Disjoint(c, r[h][i..i + n]) && Disjoint(r[h][i..i + n], c)
  {
    var seg := r[h][i..i + n];
    forall j, k | 0 <= j < |c| && 0 <= k < |seg| ensures c[j] != seg[k] {
      assert !On(r, h, c[j]);
      MembersAt(h, r[h]);
      assert seg[k] == r[h][i + k];
    }
  }

  /** Whoever is initialised anew frees the elements it had: they stay linked as a loose chain. */
  lemma SelfLinkedKeeps<T>(g: Graph<T>, st: State<T>, h: T)
    requires WellFormed(g, st) && h in g.next && forall k | k in st.rings :: h !in st.rings[k]
    ensures RingsWellFormed(SelfLink(g, h), st.rings[h := []])
    ensures ChainsWellFormed(SelfLink(g, h), st.rings[h := []],
                             Used(st.chains, [h]) + if h in st.rings then Piece(st.rings[h]) else {})
  {
    hide SelfLink, RingsWellFormed;
    var r, cs := st.rings, st.chains;
    assert g.Closed() by { WellFormedIsClosed(g, r); }
    var g', r' := SelfLink(g, h), r[h := []];
    InitKeepsRings(g, r, h);
    UsedChains(g, r, cs, [h]);
    forall c | c in Used(cs, [h]) ensures AllLoose(r', c) && forall i :: 0 <= i < |c| ==> c[i] !in {h} {
      LooseAfterInit(r, h, c);
    }
    ReframeChains(g, g', r, r', Used(cs, [h]), {h});
    if h in r && r[h] != [] {
      FreedByInit(g, g', r, h);
      assert AllLoose(r', r[h]) && Chain(g', r[h]);
      forall c | c in Used(cs, [h]) ensures Disjoint(c, r[h]) && Disjoint(r[h], c) {
        LooseAndTaken(r, h, 0, |r[h]|, c);
        assert r[h][0..0 + |r[h]|] == r[h];
      }
    }
  }

  lemma InitKeeps<T>(g: Graph<T>, st: State<T>, h: T)
    requires WellFormed(g, st) && h in g.next && Allowed(st, Init(h))
    ensures WellFormed(Exec(g, Init(h)), Step(st, Init(h)))
  {
    hide SelfLink, RingsWellFormed, ChainsWellFormed;
    SelfLinkedKeeps(g, st, h);
  }

  lemma LooseAfterInit<T>(r: RingMap<T>, h: T, c: seq<T>)
    requires AllLoose(r, c) && Disjoint(c, [h])
    ensures AllLoose(r[h := []], c)
    ensures forall i :: 0 <= i < |c| ==> c[i] != h
  {
    assert [h][0] == h;
    forall i | 0 <= i < |c| ensures Loose(r[h := []], c[i]) && c[i] != h {
      forall k | k in r && k != h ensures !On(r[h := []], k, c[i]) {
        assert !On(r, k, c[i]);
      }
    }
  }

  lemma FreedByInit<T>(g: Graph<T>, g': Graph<T>, r: RingMap<T>, h: T)
    requires RingsWellFormed(g, r) && h in r && Untouched(g, g', {h})
    ensures Chain(g', r[h]) && AllLoose(r[h := []], r[h])
  {
    RingChain(g, h, r[h]);
    CycleFrame(g, g', r[h], {h});
    LooseWhenTaken(g, r, h, 0, |r[h]|);
    assert Without(r[h], 0, 0 + |r[h]|) == [] && r[h][0..0 + |r[h]|] == r[h];
  }

  lemma ElemInitKeeps<T>(g: Graph<T>, st: State<T>, e: T)
    requires WellFormed(g, st) && e in g.next && Allowed(st, ElemInit(e))
    ensures WellFormed(Exec(g, ElemInit(e)), Step(st, ElemInit(e)))
  {
    hide SelfLink, RingsWellFormed, ChainsWellFormed;
    SelfLinkedKeeps(g, st, e);
  }

  lemma JoinedFromRings<T>(r: RingMap<T>, h1: T, h2: T, s: seq<T>)
    requires h1 in r && h2 in r && h1 != h2 && Members(h1, s) <= Members(h1, r[h1]) + Members(h2, r[h2])
    ensures forall x | x in Members(h1, r[h1]) + Members(h2, r[h2]) :: !Loose(r, x)
    ensures forall x :: Loose(r, x) ==> Loose(r[h1 := s][h2 := []], x)
  {
    MembersNotLoose(r, h1);
    MembersNotLoose(r, h2);
    var r' := r[h1 := s][h2 := []];
    MembersAt(h2, r[h2]);
    forall k, x | k in r' && x in Members(k, r'[k]) ensures !Loose(r, x) {
      if k != h1 && k != h2 {
        assert On(r, k, x);
      }
    }
    LooseGrows(r, r');
  }

  lemma EmptyOntoItself<T>(g: Graph<T>, r: RingMap<T>, h: T)
    requires RingsWellFormed(g, r) && h in r && r[h] == []
    ensures h in g.next && Concat(g, h, h) == g && Prepend(g, h, h) == g
    ensures r[h := r[h] + r[h]][h := []] == r
  {
    hide Concat, Prepend;
    RingChain(g, h, r[h]);
    JoinOfEmpty(g, h, h);
  }

  lemma ConcatKeeps<T>(g: Graph<T>, st: State<T>, h1: T, h2: T)
    requires WellFormed(g, st) && {h1, h2} <= g.next.Keys && Allowed(st, ConcatOnto(h1, h2))
    ensures WellFormed(Exec(g, ConcatOnto(h1, h2)), Step(st, ConcatOnto(h1, h2)))
  {
    hide Concat, RingsWellFormed, ChainsWellFormed, Ring;
    var r := st.rings;
    if h1 == h2 {
      EmptyOntoItself(g, r, h1);
    } else {
      ConcatKeepsRings(g, r, h1, h2);
      JoinedFromRings(r, h1, h2, r[h1] + r[h2]);
      ChainsBesideRings(g, Concat(g, h1, h2), r, r[h1 := r[h1] + r[h2]][h2 := []], st.chains,
                        Members(h1, r[h1]) + Members(h2, r[h2]));
    }
  }

  lemma PrependKeeps<T>(g: Graph<T>, st: State<T>, h1: T, h2: T)
    requires WellFormed(g, st) && {h1, h2} <= g.next.Keys && Allowed(st, PrependOnto(h1, h2))
    ensures WellFormed(Exec(g, PrependOnto(h1, h2)), Step(st, PrependOnto(h1, h2)))
  {
    hide Prepend, RingsWellFormed, ChainsWellFormed, Ring;
    var r := st.rings;
    if h1 == h2 {
      EmptyOntoItself(g, r, h1);
    } else {
      PrependKeepsRings(g, r, h1, h2);
      JoinedFromRings(r, h1, h2, r[h2] + r[h1]);
      ChainsBesideRings(g, Prepend(g, h1, h2), r, r[h1 := r[h2] + r[h1]][h2 := []], st.chains,
                        Members(h1, r[h1]) + Members(h2, r[h2]));
    }
  }

  /** Every single operation keeps all rings and loose chains well formed and disjoint. */
  lemma StepKeeps<T>(g: Graph<T>, st: State<T>, op: Op<T>)
    requires WellFormed(g, st) && Applies(op, g.next.Keys) && Allowed(st, op)
    ensures WellFormed(Exec(g, op), Step(st, op))
  {
    hide WellFormed, Exec, Step, Allowed;
    match op
    case Init(h) => InitKeeps(g, st, h);
    case ElemInit(e) => ElemInitKeeps(g, st, e);
    case InsertSegBefore(lep, seg) => InsertBeforeKeeps(g, st, lep, seg);
    case InsertSegAfter(lep, seg) => InsertAfterKeeps(g, st, lep, seg);
    case TakeSeg(seg) => TakeKeeps(g, st, seg);
    case ConcatOnto(h1, h2) => ConcatKeeps(g, st, h1, h2);
    case PrependOnto(h1, h2) => PrependKeeps(g, st, h1, h2);
    case EnterUnder(e) => EnterUnderKeeps(g, st, e);
    case EnterAsSegment(e) => EnterAsSegmentKeeps(g, st, e);
  }

  ghost predicate AllowedRun<T>(st: State<T>, nodes: set<T>, ops: seq<Op<T>>)
    decreases |ops|
  {
    ops != [] ==>
      && Applies(ops[0], nodes) && Allowed(st, ops[0])
      && AllowedRun(Step(st, ops[0]), nodes, ops[1..])
  }

  ghost function Run<T>(st: State<T>, nodes: set<T>, ops: seq<Op<T>>): State<T>
    requires AllowedRun(st, nodes, ops)
    decreases |ops|
  {
    if ops == [] then st else Run(Step(st, ops[0]), nodes, ops[1..])
  }

  ghost function ExecAll<T>(g: Graph<T>, ops: seq<Op<T>>): (g': Graph<T>)
    requires g.Closed() && forall i :: 0 <= i < |ops| ==> Applies(ops[i], g.next.Keys)
    ensures g'.Closed() && g'.next.Keys == g.next.Keys
    decreases |ops|
  {
    if ops == [] then g else ExecAll(Exec(g, ops[0]), ops[1..])
  }

  lemma {:induction false} AllowedApplies<T>(st: State<T>, nodes: set<T>, ops: seq<Op<T>>)
    requires AllowedRun(st, nodes, ops)
    ensures forall i :: 0 <= i < |ops| ==> Applies(ops[i], nodes)
    decreases |ops|
  {
    if ops != [] {
      AllowedApplies(Step(st, ops[0]), nodes, ops[1..]);
      forall i | 0 < i < |ops| ensures Applies(ops[i], nodes) {
        assert ops[i] == ops[1..][i - 1];
      }
    }
  }

  /** Over any run, the fields realise exactly the rings and chains that the operations describe. */
  lemma {:induction false} RunKeeps<T>(g: Graph<T>, st: State<T>, ops: seq<Op<T>>)
    requires WellFormed(g, st) && AllowedRun(st, g.next.Keys, ops)
    ensures forall i :: 0 <= i < |ops| ==> Applies(ops[i], g.next.Keys)
    ensures WellFormed(ExecAll(g, ops), Run(st, g.next.Keys, ops))
    decreases |ops|
  {
    assert g.Closed();
    hide WellFormed, Allowed, Step, Exec, Applies;
    AllowedApplies(st, g.next.Keys, ops);
    if ops != [] {
      StepKeeps(g, st, ops[0]);
      RunKeeps(Exec(g, ops[0]), Step(st, ops[0]), ops[1..]);
    }
  }

  /** In a well-formed state an element has one place: one ring and one position on it. */
  lemma OnePlace<T>(g: Graph<T>, r: RingMap<T>, h1: T, i: nat, h2: T, j: nat)
    requires RingsWellFormed(g, r) && h1 in r && i <= |r[h1]| && h2 in r && j <= |r[h2]|
    requires ([h1] + r[h1])[i] == ([h2] + r[h2])[j]
    ensures h1 == h2 && i == j
  {
    assert ([h1] + r[h1])[i] in Members(h1, r[h1]) && ([h2] + r[h2])[j] in Members(h2, r[h2]);
    assert h1 != h2 ==> Apart(h1, r[h1], h2, r[h2]);
  }

  /** x is an element on some ring; sentinels are not elements. */
  ghost predicate Linked<T>(st: State<T>, x: T) {
    !Loose(st.rings, x) && x !in st.heads
  }

  /** What the operation links: a segment put in, or a loose element made a singleton. */
  ghost function Inserts<T>(st: State<T>, op: Op<T>): seq<T> {
    match op
    case InsertSegBefore(_, seg) => seg
    case InsertSegAfter(_, seg) => seg
    case ElemInit(e) => if e in st.rings then [] else [e]
    case _ => []
  }

  /**
   What the operation unlinks: a segment taken from a ring, the elements of a ring initialised
   anew, or a cycle from now on regarded as a segment.
   */
  ghost function Unlinks<T>(st: State<T>, op: Op<T>): seq<T> {
    match op
    case TakeSeg(seg) => if OnRing(st.rings, seg) then seg else []
    case Init(h) => if h in st.rings then st.rings[h] else []
    case ElemInit(e) => if e in st.rings then st.rings[e] else []
    case EnterAsSegment(e) => if e in st.rings then [e] + st.rings[e] else []
    case _ => []
  }

  /** Loose elements go onto the ring of h. */
  lemma InsertAccounts<T>(r: RingMap<T>, h: T, s: seq<T>, seg: seq<T>, x: T)
    requires h in r && AllLoose(r, seg) && Members(h, s) == Members(h, r[h]) + Elements(seg)
    ensures x in seg ==> Loose(r, x) && !Loose(r[h := s], x)
    ensures x !in seg ==> (Loose(r, x) <==> Loose(r[h := s], x))
  {
    var r' := r[h := s];
    if x in seg {
      assert On(r', h, x);
    } else {
      assert forall k | k in r :: On(r, k, x) <==> On(r', k, x);
    }
  }

  lemma TakeAccounts<T>(g: Graph<T>, r: RingMap<T>, h: T, i: nat, n: nat, x: T)
    requires RingsWellFormed(g, r) && h in r && i + n <= |r[h]|
    ensures var r' := r[h := Without(r[h], i, i + n)];
            && (x in r[h][i..i + n] ==> !Loose(r, x) && Loose(r', x))
            && (x !in r[h][i..i + n] ==> (Loose(r, x) <==> Loose(r', x)))
  {
    LooseWhenTaken(g, r, h, i, n);
    var r' := r[h := Without(r[h], i, i + n)];
    assert r[h] == r[h][..i] + r[h][i..i + n] + r[h][i + n..];
    if x in r[h][i..i + n] {
      assert On(r, h, x);
    } else {
      assert forall k | k in r :: On(r, k, x) <==> On(r', k, x);
    }
  }

  lemma SelfLinkAccounts<T>(g: Graph<T>, r: RingMap<T>, h: T, x: T)
    requires RingsWellFormed(g, r) && forall k | k in r :: h !in r[k]
    ensures !Loose(r[h := []], h) && (Loose(r, h) <==> h !in r)
    ensures h in r && x in r[h] ==> !Loose(r, x) && Loose(r[h := []], x)
    ensures x != h && !(h in r && x in r[h]) ==> (Loose(r, x) <==> Loose(r[h := []], x))
  {
    hide Ring;
    var r' := r[h := []];
    assert On(r', h, h);
    if h in r {
      assert On(r, h, h);
      assert Without(r[h], 0, 0 + |r[h]|) == [] && r[h][0..0 + |r[h]|] == r[h];
      TakeAccounts(g, r, h, 0, |r[h]|, x);
    } else if x != h {
      assert forall k | k in r :: On(r, k, x) <==> On(r', k, x);
    }
  }

  lemma JoinAccounts<T>(r: RingMap<T>, h1: T, h2: T, s: seq<T>, x: T)
    requires Joinable(r, h1, h2) && (forall y :: y in s <==> y in r[h1] || y in r[h2])
    ensures Loose(r, x) <==> Loose(r[h1 := s][h2 := []], x)
  {
    var r' := r[h1 := s][h2 := []];
    assert forall k | k in r && k != h1 && k != h2 :: On(r, k, x) <==> On(r', k, x);
    assert On(r, h1, x) || On(r, h2, x) <==> On(r', h1, x) || On(r', h2, x);
  }

  lemma EnterAsSegmentAccounts<T>(g: Graph<T>, r: RingMap<T>, e: T, x: T)
    requires RingsWellFormed(g, r) && e in r
    ensures x in [e] + r[e] ==> !Loose(r, x) && Loose(r - {e}, x)
    ensures x !in [e] + r[e] ==> (Loose(r, x) <==> Loose(r - {e}, x))
  {
    hide Ring;
    if x in [e] + r[e] {
      assert On(r, e, x);
      forall k | k in r && k != e ensures !On(r, k, x) {
        assert Apart(k, r[k], e, r[e]);
      }
    } else {
      assert forall k | k in r && k != e :: On(r, k, x) <==> On(r - {e}, k, x);
    }
  }

  /** An operation links only what it inserts and unlinks only what it takes out. */
  lemma StepAccounts<T>(g: Graph<T>, st: State<T>, op: Op<T>, x: T)
    requires WellFormed(g, st) && Allowed(st, op)
    ensures x in Inserts(st, op) ==> !Linked(st, x) && Linked(Step(st, op), x)
    ensures x in Unlinks(st, op) ==> Linked(st, x) && !Linked(Step(st, op), x)
    ensures x !in Inserts(st, op) && x !in Unlinks(st, op) ==> (Linked(st, x) <==> Linked(Step(st, op), x))
  {
    hide RingsWellFormed, ChainsWellFormed, Used, Members, Elements;
    var r := st.rings;
    HeadsOnNoRing(g, st);
    match op
    case Init(h) => SelfLinkAccounts(g, r, h, x);
    case ElemInit(e) => SelfLinkAccounts(g, r, e, x);
    case InsertSegBefore(lep, seg) =>
      var h := Owner(r, lep);
      var k := Position(h, r[h], lep);
      InsertedMembers(h, r[h], k, seg);
      InsertAccounts(r, h, InsertedBefore(r[h], k, seg), seg, x);
    case InsertSegAfter(lep, seg) =>
      var h := Owner(r, lep);
      var k := Position(h, r[h], lep);
      InsertedMembers(h, r[h], k, seg);
      InsertAccounts(r, h, InsertedAfter(r[h], k, seg), seg, x);
    case TakeSeg(seg) =>
      if OnRing(r, seg) {
        var h := Holder(r, seg);
        TakeAccounts(g, r, h, Offset(seg, r[h]), |seg|, x);
      }
    case ConcatOnto(h1, h2) => JoinAccounts(r, h1, h2, r[h1] + r[h2], x);
    case PrependOnto(h1, h2) => JoinAccounts(r, h1, h2, r[h2] + r[h1], x);
    case EnterUnder(e) =>
      var b := Base(st, e);
      EnteredKeeps(g, r, b, Index(r[b], e));
    case EnterAsSegment(e) => EnterAsSegmentAccounts(g, r, e, x);
  }

  lemma HeadsOnNoRing<T>(g: Graph<T>, st: State<T>)
    requires WellFormed(g, st)
    ensures forall h, k | h in st.heads && k in st.rings :: h !in st.rings[k]
    ensures forall h | h in st.heads :: !Loose(st.rings, h)
  {
    forall h, k | h in st.heads && k in st.rings ensures h !in st.rings[k] {
      HeadOnNoRing(g, st.rings, h, k);
    }
    forall h | h in st.heads ensures !Loose(st.rings, h) {
      assert On(st.rings, h, h);
    }
  }

  /** How often x was inserted in a run, less how often it was unlinked. */
  ghost function Balance<T>(st: State<T>, nodes: set<T>, ops: seq<Op<T>>, x: T): int
    requires AllowedRun(st, nodes, ops)
    decreases |ops|
  {
    if ops == [] then 0
    else
      (if x in Inserts(st, ops[0]) then 1 else 0) - (if x in Unlinks(st, ops[0]) then 1 else 0)
      + Balance(Step(st, ops[0]), nodes, ops[1..], x)
  }

  /** No run loses, duplicates or invents an element. */
  lemma {:induction false} RunConserves<T>(g: Graph<T>, st: State<T>, ops: seq<Op<T>>, x: T)
    requires WellFormed(g, st) && AllowedRun(st, g.next.Keys, ops)
    ensures (if Linked(st, x) then 1 else 0) + Balance(st, g.next.Keys, ops, x)
         == if Linked(Run(st, g.next.Keys, ops), x) then 1 else 0
    decreases |ops|
  {
    assert g.Closed();
    hide WellFormed, Allowed, Step, Exec, Linked;
    if ops != [] {
      StepKeeps(g, st, ops[0]);
      StepAccounts(g, st, ops[0], x);
      NotBoth(g, st, ops[0], x);
      RunConserves(Exec(g, ops[0]), Step(st, ops[0]), ops[1..], x);
    }
  }

  lemma NotBoth<T>(g: Graph<T>, st: State<T>, op: Op<T>, x: T)
    requires WellFormed(g, st) && Allowed(st, op)
    ensures !(x in Inserts(st, op) && x in Unlinks(st, op))
  {
  }

  /** A segment that was taken out can go back, before or after anything that is on a ring. */
  lemma TakenSegCanGoBack<T>(g: Graph<T>, st: State<T>, seg: seq<T>, lep: T)
    requires WellFormed(g, st) && Applies(TakeSeg(seg), g.next.Keys) && Allowed(st, TakeSeg(seg))
    requires !IsWhole(st, seg) && !Loose(Step(st, TakeSeg(seg)).rings, lep)
    ensures Allowed(Step(st, TakeSeg(seg)), InsertSegBefore(lep, seg))
    ensures Allowed(Step(st, TakeSeg(seg)), InsertSegAfter(lep, seg))
  {
    TakeKeeps(g, st, seg);
    assert PartAt(seg, seg, 0);
    assert PartOf(seg, seg);
    assert seg in Step(st, TakeSeg(seg)).chains;
  }

  /** A cycle without head can be spliced in as a whole. */
  lemma WholeCanBeSplicedIn<T>(g: Graph<T>, st: State<T>, e: T, lep: T)
    requires WellFormed(g, st) && IsHeadless(st, e)
    requires !Loose(st.rings, lep) && lep !in [e] + st.rings[e]
    ensures var st' := Step(st, EnterAsSegment(e));
            && Allowed(st', InsertSegBefore(lep, [e] + st.rings[e]))
            && Allowed(st', InsertSegAfter(lep, [e] + st.rings[e]))
  {
    var seg := [e] + st.rings[e];
    EnterAsSegmentAccounts(g, st.rings, e, lep);
    forall i | 0 <= i < |seg| ensures Loose(st.rings - {e}, seg[i]) {
      EnterAsSegmentAccounts(g, st.rings, e, seg[i]);
    }
    assert PartAt(seg, seg, 0);
    assert PartOf(seg, seg);
    assert seg in Step(st, EnterAsSegment(e)).chains;
  }

  /** A cycle without head, of two elements or more, can lose any of them, also the one it is entered under. */
  lemma HeadlessCanLoseAny<T>(g: Graph<T>, st: State<T>, b: T, e: T)
    requires WellFormed(g, st) && IsHeadless(st, b) && e in st.rings[b]
    ensures Allowed(st, EnterUnder(e)) && Allowed(st, Remove(e)) && Allowed(Step(st, EnterUnder(e)), Remove(b))
  {
    hide RingsWellFormed, ChainsWellFormed;
    var r := st.rings;
    assert PartAt([e], r[b], Index(r[b], e));
    assert OnRing(r, [e]);
    var c := Base(st, e);
    OneHolder(g, r, b, c, e);
    var i := Index(r[b], e);
    var s := r[b][i + 1..] + [b] + r[b][..i];
    assert Entered(r, b, i)[e] == s && PartAt([b], s, |r[b]| - i - 1);
    assert OnRing(Entered(r, b, i), [b]);
  }

  lemma OneHolder<T>(g: Graph<T>, r: RingMap<T>, h: T, k: T, x: T)
    requires RingsWellFormed(g, r) && h in r && k in r && x in Members(h, r[h]) && x in Members(k, r[k])
    ensures h == k
  {
    assert h != k ==> Apart(h, r[h], k, r[k]);
  }

  /** Where the account looks for an element of a ring is where it is. */
  lemma FoundAt<T>(g: Graph<T>, r: RingMap<T>, h: T, k: nat)
    requires RingsWellFormed(g, r) && h in r && k <= |r[h]|
    ensures var x := ([h] + r[h])[k];
            && !Loose(r, x) && Owner(r, x) == h && Position(h, r[h], x) == k
            && (k > 0 ==> OnRing(r, [x]) && Holder(r, [x]) == h && Offset([x], r[h]) == k - 1)
  {
    hide Ring;
    var x := ([h] + r[h])[k];
    PositionIsMember(h, r[h], k);
    assert On(r, h, x);
    OneHolder(g, r, h, Owner(r, x), x);
    OnePlace(g, r, h, k, h, Position(h, r[h], x));
    if k > 0 {
      assert PartAt([x], r[h], k - 1) && x == r[h][k - 1];
      assert OnRing(r, [x]);
      var h', i := Holder(r, [x]), Offset([x], r[Holder(r, [x])]);
      assert r[h'][i] == [x][0];
      OnePlace(g, r, h, k, h', i + 1);
    }
  }

  /** The operations on single elements do to the list of a ring what their names say. */
  lemma HeadAndTailSteps<T>(g: Graph<T>, st: State<T>, h: T, e: T)
    requires WellFormed(g, st) && h in st.heads && Loose(st.rings, e)
    ensures var s := st.rings[h];
            && Allowed(st, InsertHead(h, e)) && Step(st, InsertHead(h, e)).rings == st.rings[h := [e] + s]
            && Allowed(st, InsertTail(h, e)) && Step(st, InsertTail(h, e)).rings == st.rings[h := s + [e]]
  {
    hide RingsWellFormed, ChainsWellFormed;
    FoundAt(g, st.rings, h, 0);
    assert ([h] + st.rings[h])[0] == h;
    assert st.rings[h][..0] + [e] + st.rings[h][0..] == [e] + st.rings[h];
  }

  lemma BesideSteps<T>(g: Graph<T>, st: State<T>, h: T, k: nat, e: T)
    requires WellFormed(g, st) && h in st.heads && Loose(st.rings, e) && k < |st.rings[h]|
    ensures var s := st.rings[h];
            var before, after := InsertBefore(s[k], e), InsertAfter(s[k], e);
            && Allowed(st, before) && Step(st, before).rings == st.rings[h := s[..k] + [e] + s[k..]]
            && Allowed(st, after) && Step(st, after).rings == st.rings[h := s[..k + 1] + [e] + s[k + 1..]]
            && Allowed(st, Remove(s[k])) && Step(st, Remove(s[k])).rings == st.rings[h := s[..k] + s[k + 1..]]
  {
    hide RingsWellFormed, ChainsWellFormed, OnRing;
    FoundAt(g, st.rings, h, k + 1);
    assert ([h] + st.rings[h])[k + 1] == st.rings[h][k];
  }
}
