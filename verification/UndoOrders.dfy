/**
 Undoing any number of removals in any order.

 Elements are removed from a ring one after the other and put back, each at its dangling `next`
 pointer, in an order of their own. The main result says for every pair of orders whether the
 ring is restored: the order of the undoing matters for those elements only that met at the
 moment one of them was removed.
 */
module UndoOrders {
  import opened Links
  import opened RingLaws
  import opened RingUndo

  ghost function Removal<T>(x: T): Cut<T> { Cut(x, x) }

  ghost predicate AllOf<T>(nodes: set<T>, xs: seq<T>) {
    forall j :: 0 <= j < |xs| ==> xs[j] in nodes
  }

  /** Remove the elements xs, first to last. */
  ghost function TakeEach<T>(g: Graph<T>, xs: seq<T>): (g': Graph<T>)
    requires g.Closed() && AllOf(g.next.Keys, xs)
    ensures g'.Closed() && g'.next.Keys == g.next.Keys
  {
    if xs == [] then g
    else TakeOut(TakeEach(g, xs[..|xs| - 1]), Removal(xs[|xs| - 1]))
  }

  /** Put the elements ys back, first to last. */
  ghost function PutEach<T>(g: Graph<T>, ys: seq<T>): (g': Graph<T>)
    requires g.Closed() && AllOf(g.next.Keys, ys)
    ensures g'.Closed() && g'.next.Keys == g.next.Keys
    decreases |ys|
  {
    if ys == [] then g else PutEach(PutBack(g, Removal(ys[0])), ys[1..])
  }

  /** Position k of the cycle c; after the last position comes the first element again. */
  ghost function Around<T>(c: seq<T>, k: int): T
    requires 0 <= k <= |c| && c != []
  {
    if k == |c| then c[0] else c[k]
  }

  /** Everything strictly between positions i and k is out. */
  ghost predicate AllOut<T>(c: seq<T>, out: set<T>, i: int, k: int)
    requires 0 <= i && k <= |c|
  {
    forall m :: i < m < k ==> c[m] in out
  }

  /** When the elements `out` are out, positions i and k are next to each other. */
  ghost predicate Bridges<T>(c: seq<T>, out: set<T>, i: int, k: int) {
    0 <= i < k <= |c| && c[i] !in out && Around(c, k) !in out && AllOut(c, out, i, k)
  }

  ghost predicate PrevBridged<T>(g: Graph<T>, c: seq<T>, out: set<T>)
    requires g.Closed() && AllOf(g.next.Keys, c)
  {
    forall i, k | Bridges(c, out, i, k) :: g.Prev(Around(c, k)) == c[i]
  }

  /** The links of the ring skip what is out. */
  ghost predicate Bridged<T>(g: Graph<T>, c: seq<T>, out: set<T>)
    requires g.Closed() && AllOf(g.next.Keys, c)
  {
    PrevBridged(g, c, out) && forall i, k | Bridges(c, out, i, k) :: g.Next(c[i]) == Around(c, k)
  }

  /** Different elements of the cycle c other than its first, which is the sentinel. */
  ghost predicate Drawn<T>(c: seq<T>, xs: seq<T>) {
    && c != [] && Distinct(c) && Distinct(xs)
    && forall j :: 0 <= j < |xs| ==> xs[j] in c && xs[j] != c[0]
  }

  lemma {:induction false} BridgeTo<T>(c: seq<T>, out: set<T>, i: nat, k: nat) returns (p: nat)
    requires c != [] && c[0] !in out && i < k <= |c| && Around(c, k) !in out && AllOut(c, out, i, k)
    ensures p <= i && Bridges(c, out, p, k)
    decreases i
  {
    if c[i] in out {
      p := BridgeTo(c, out, i - 1, k);
    } else {
      p := i;
    }
  }

  lemma {:induction false} BridgeFrom<T>(c: seq<T>, out: set<T>, i: nat, k: nat) returns (q: nat)
    requires c != [] && c[0] !in out && i < k <= |c| && c[i] !in out && AllOut(c, out, i, k)
    ensures k <= q && Bridges(c, out, i, q)
    decreases |c| - k
  {
    if Around(c, k) in out {
      q := BridgeFrom(c, out, i, k + 1);
    } else {
      q := k;
    }
  }

  /** Every position is on one bridge at most, on either side. */
  lemma BridgeIsUnique<T>(c: seq<T>, out: set<T>, i: int, k: int, i': int, k': int)
    requires Bridges(c, out, i, k) && Bridges(c, out, i', k')
    ensures i == i' <==> k == k'
  {
  }

  /** An element that is out stands between two neighbours, and cuts their bridge in two. */
  lemma Between<T>(c: seq<T>, out: set<T>, i: nat) returns (p: nat, q: nat)
    requires c != [] && Distinct(c) && c[0] !in out && 0 < i < |c| && c[i] in out
    ensures p < i < q && Bridges(c, out, p, q)
    ensures Bridges(c, out - {c[i]}, p, i) && Bridges(c, out - {c[i]}, i, q)
  {
    p := BridgeTo(c, out - {c[i]}, i - 1, i);
    q := BridgeFrom(c, out - {c[i]}, i, i + 1);
  }

  /** The other bridges are the same whether the element is out or not. */
  lemma BridgesBeside<T>(c: seq<T>, out: set<T>, i: nat, p: nat, q: nat, a: int, b: int)
    requires c != [] && Distinct(c) && c[0] !in out && 0 < i < |c| && c[i] in out && Bridges(c, out, p, q) && p < i < q
    ensures Bridges(c, out, a, b) && (a, b) != (p, q) ==> Bridges(c, out - {c[i]}, a, b) && a != p && b != q && b != i
    ensures Bridges(c, out - {c[i]}, a, b) && b != i && b != q ==> Bridges(c, out, a, b) && a != p && a != i
  {
  }

  lemma CycleIsBridged<T>(g: Graph<T>, c: seq<T>)
    requires g.Closed() && Cycle(g, c)
    ensures AllOf(g.next.Keys, c) && Bridged(g, c, {})
  {
    forall i, k | Bridges(c, {}, i, k) ensures g.Prev(Around(c, k)) == c[i] && g.Next(c[i]) == Around(c, k) {
      BridgeIsUnique(c, {}, i, k, i, i + 1);
    }
  }

  lemma BridgedIsCycle<T>(g: Graph<T>, c: seq<T>)
    requires g.Closed() && AllOf(g.next.Keys, c) && c != [] && Distinct(c) && Bridged(g, c, {})
    ensures Cycle(g, c)
  {
    forall i | 0 <= i < |c| ensures g.Prev(Around(c, i + 1)) == c[i] && g.Next(c[i]) == Around(c, i + 1) {
      assert Bridges(c, {}, i, i + 1);
    }
  }

  /** Taking out c[i], which stands between c[p] and position q. */
  lemma TakeStep<T>(g: Graph<T>, c: seq<T>, out: set<T>, i: nat) returns (p: nat, q: nat)
    requires g.Closed() && AllOf(g.next.Keys, c) && c != [] && Distinct(c) && c[0] !in out
    requires 0 < i < |c| && c[i] !in out && Bridged(g, c, out)
    ensures p < i < q && Bridges(c, out, p, i) && Bridges(c, out, i, q)
    ensures var g' := TakeOut(g, Removal(c[i]));
            Bypassed(g, g', c[p], Around(c, q)) && Bridged(g', c, out + {c[i]})
  {
    hide TakeOut;
    p, q := Between(c, out + {c[i]}, i);
    assert out + {c[i]} - {c[i]} == out;
    TakeOutStores(g, Removal(c[i]));
    var g' := TakeOut(g, Removal(c[i]));
    forall a, b | Bridges(c, out + {c[i]}, a, b)
      ensures g'.Prev(Around(c, b)) == c[a] && g'.Next(c[a]) == Around(c, b)
    {
      BridgesBeside(c, out + {c[i]}, i, p, q, a, b);
      BridgeIsUnique(c, out + {c[i]}, a, b, p, q);
    }
  }

  /** Position i of the cycle was followed by position k when xs[j], which stands there, was removed. */
  ghost predicate Followed<T>(c: seq<T>, xs: seq<T>, j: int, i: int, k: int)
  {
    0 <= j < |xs| && Bridges(c, Elements(xs[..j]), i, k) && c[i] == xs[j]
  }

  /** The elements `out` still point at what followed them when they were removed. */
  ghost predicate Dangling<T>(g: Graph<T>, c: seq<T>, xs: seq<T>, out: set<T>)
    requires g.Closed() && AllOf(g.next.Keys, c)
  {
    forall j, i, k | Followed(c, xs, j, i, k) && c[i] in out :: g.Next(c[i]) == Around(c, k)
  }

  lemma DrawnIn<T>(g: Graph<T>, c: seq<T>, xs: seq<T>)
    requires g.Closed() && AllOf(g.next.Keys, c) && Drawn(c, xs)
    ensures AllOf(g.next.Keys, xs) && c[0] !in Elements(xs)
  {
  }

  lemma DrawnPrefix<T>(c: seq<T>, xs: seq<T>, n: nat)
    requires Drawn(c, xs) && n <= |xs|
    ensures Drawn(c, xs[..n]) && Drawn(c, xs[n..])
  {
  }

  /** After all removals, the ring skips the removed elements, and each of them dangles. */
  lemma {:induction false} TakeEachBridges<T>(g: Graph<T>, c: seq<T>, xs: seq<T>)
    requires g.Closed() && Cycle(g, c) && Drawn(c, xs)
    ensures AllOf(g.next.Keys, c) && AllOf(g.next.Keys, xs)
    ensures var g' := TakeEach(g, xs);
            && Untouched(g, g', Elements(c))
            && Bridged(g', c, Elements(xs)) && Dangling(g', c, xs, Elements(xs))
  {
    DrawnIn(g, c, xs);
    if xs == [] {
      assert Elements(xs) == {};
      CycleIsBridged(g, c);
    } else {
      var n := |xs| - 1;
      DrawnPrefix(c, xs, n);
      TakeEachBridges(g, c, xs[..n]);
      TakeOneMore(g, TakeEach(g, xs[..n]), c, xs);
    }
  }

  lemma TakeOneMore<T>(g0: Graph<T>, g: Graph<T>, c: seq<T>, xs: seq<T>)
    requires xs != [] && Drawn(c, xs) && Untouched(g0, g, Elements(c)) && AllOf(g.next.Keys, c)
    requires Bridged(g, c, Elements(xs[..|xs| - 1])) && Dangling(g, c, xs[..|xs| - 1], Elements(xs[..|xs| - 1]))
    requires xs[|xs| - 1] in g.next
    ensures var g' := TakeOut(g, Removal(xs[|xs| - 1]));
            && Untouched(g0, g', Elements(c))
            && Bridged(g', c, Elements(xs)) && Dangling(g', c, xs, Elements(xs))
  {
    hide TakeOut;
    var n := |xs| - 1;
    var x, out := xs[n], Elements(xs[..n]);
    var i :| 0 <= i < |c| && c[i] == x;
    assert Elements(xs) == out + {x};
    var p, q := TakeStep(g, c, out, i);
    var g' := TakeOut(g, Removal(x));
    forall j, a, b | Followed(c, xs, j, a, b) ensures g'.Next(c[a]) == Around(c, b) {
      if j == n {
        BridgeIsUnique(c, out, a, b, i, q);
      } else {
        assert xs[..n][..j] == xs[..j];
        assert Followed(c, xs[..n], j, a, b);
      }
    }
  }

  /** Putting c[i] back between its two neighbours. */
  lemma PutStep<T>(g: Graph<T>, c: seq<T>, out: set<T>, i: nat, k: nat)
    requires g.Closed() && AllOf(g.next.Keys, c) && c != [] && Distinct(c) && c[0] !in out
    requires 0 < i < |c| && c[i] in out && Bridged(g, c, out)
    requires Bridges(c, out - {c[i]}, i, k) && g.Next(c[i]) == Around(c, k)
    ensures var g' := PutBack(g, Removal(c[i]));
            && Bridged(g', c, out - {c[i]}) && Untouched(g, g', Elements(c))
            && forall m :: 0 <= m < |c| && c[m] in out ==> g'.Next(c[m]) == g.Next(c[m])
  {
    hide PutBack;
    var p, q := Between(c, out, i);
    BridgeIsUnique(c, out - {c[i]}, i, k, i, q);
    PutBackStores(g, Removal(c[i]));
    var g' := PutBack(g, Removal(c[i]));
    forall a, b | Bridges(c, out - {c[i]}, a, b)
      ensures g'.Prev(Around(c, b)) == c[a] && g'.Next(c[a]) == Around(c, b)
    {
      BridgesBeside(c, out, i, p, q, a, b);
      BridgeIsUnique(c, out - {c[i]}, a, b, p, i);
      BridgeIsUnique(c, out - {c[i]}, a, b, i, q);
    }
  }

  /** D is closed under `prev`, and holds the sentinel but nothing of ys. */
  ghost predicate PrevClosed<T>(g: Graph<T>, c: seq<T>, ys: seq<T>, D: set<T>)
    requires g.Closed()
  {
    && c != [] && c[0] in D && D <= g.next.Keys
    && (forall x | x in D :: g.Prev(x) in D)
    && (forall j :: 0 <= j < |ys| ==> ys[j] !in D)
  }

  lemma {:induction false} PrevReaches<T>(g: Graph<T>, c: seq<T>, out: set<T>, ys: seq<T>, D: set<T>, i: nat)
    requires g.Closed() && AllOf(g.next.Keys, c) && PrevBridged(g, c, out) && PrevClosed(g, c, ys, D)
    requires i < |c| && c[i] !in out && c[0] !in out
    ensures c[i] in D
    decreases |c| - i
  {
    var k := BridgeFrom(c, out, i, i + 1);
    if k < |c| {
      PrevReaches(g, c, out, ys, D, k);
    }
  }

  lemma PrevStaysClosed<T>(g: Graph<T>, c: seq<T>, ys: seq<T>, D: set<T>)
    requires g.Closed() && AllOf(g.next.Keys, ys) && ys != [] && Distinct(ys) && PrevClosed(g, c, ys, D)
    ensures PrevClosed(PutBack(g, Removal(ys[0])), c, ys[1..], if g.Next(ys[0]) in D then D + {ys[0]} else D)
  {
    hide PutBack;
    PutBackStores(g, Removal(ys[0]));
  }

  /**
   If putting ys back ends with a whole ring, then it began with the `prev` links of the ring
   without ys, and the first element went back to its place.
   */
  lemma {:induction false} WholeNeedsPlace<T>(g: Graph<T>, c: seq<T>, ys: seq<T>, D: set<T>)
    requires g.Closed() && AllOf(g.next.Keys, c) && AllOf(g.next.Keys, ys) && Drawn(c, ys)
    requires PrevClosed(g, c, ys, D) && Cycle(PutEach(g, ys), c)
    ensures PrevBridged(g, c, Elements(ys))
    ensures ys != [] ==>
              forall i, k | Bridges(c, Elements(ys[1..]), i, k) && c[i] == ys[0] :: g.Next(ys[0]) == Around(c, k)
    decreases |ys|
  {
    hide PutBack;
    if ys == [] {
      CycleIsBridged(g, c);
      assert Elements(ys) == {};
    } else {
      var y, rest := ys[0], ys[1..];
      var g' := PutBack(g, Removal(y));
      PutBackStores(g, Removal(y));
      DrawnPrefix(c, ys, 1);
      PrevStaysClosed(g, c, ys, D);
      var D' := if g.Next(y) in D then D + {y} else D;
      WholeNeedsPlace(g', c, rest, D');
      WholeNeedsPlaceStep(g, g', c, ys, D, D');
    }
  }

  lemma WholeNeedsPlaceStep<T>(g: Graph<T>, g': Graph<T>, c: seq<T>, ys: seq<T>, D: set<T>, D': set<T>)
    requires g.Closed() && AllOf(g.next.Keys, c) && ys != [] && Drawn(c, ys) && Drawn(c, ys[1..]) && ys[0] in g.next
    requires Spliced(g, g', g.Prev(g.Next(ys[0])), g.Next(ys[0]), ys[0], ys[0])
    requires PrevClosed(g, c, ys, D) && PrevClosed(g', c, ys[1..], D') && D' <= D + {ys[0]}
    requires PrevBridged(g', c, Elements(ys[1..]))
    ensures PrevBridged(g, c, Elements(ys))
    ensures forall i, k | Bridges(c, Elements(ys[1..]), i, k) && c[i] == ys[0] :: g.Next(ys[0]) == Around(c, k)
  {
    var y, out := ys[0], Elements(ys);
    var i :| 0 <= i < |c| && c[i] == y;
    assert out - {y} == Elements(ys[1..]);
    var p, q := Between(c, out, i);
    PrevReaches(g', c, out - {y}, ys[1..], D', if q < |c| then q else 0);
    assert g.Next(y) == Around(c, q);
    forall a, b | Bridges(c, out, a, b) ensures g.Prev(Around(c, b)) == c[a] {
      BridgesBeside(c, out, i, p, q, a, b);
    }
    forall a, b | Bridges(c, Elements(ys[1..]), a, b) && c[a] == y ensures g.Next(y) == Around(c, b) {
      BridgeIsUnique(c, out - {y}, a, b, i, q);
    }
  }

  /** When y goes back and `rest` is still out, y is next to what followed it when it was removed. */
  ghost predicate FitsBack<T>(c: seq<T>, xs: seq<T>, y: T, rest: seq<T>) {
    forall j, i, k | Followed(c, xs, j, i, k) && c[i] == y :: Bridges(c, Elements(rest), i, k)
  }

  ghost predicate AllFitBack<T>(c: seq<T>, xs: seq<T>, ys: seq<T>)
    decreases |ys|
  {
    ys != [] ==> FitsBack(c, xs, ys[0], ys[1..]) && AllFitBack(c, xs, ys[1..])
  }

  /** Where and when y was removed. */
  lemma Placed<T>(c: seq<T>, xs: seq<T>, y: T) returns (j: nat, i: nat, k: nat)
    requires Drawn(c, xs) && y in xs
    ensures j < |xs| && 0 < i < |c| && c[i] == y && Followed(c, xs, j, i, k)
  {
    j :| 0 <= j < |xs| && xs[j] == y;
    i :| 0 <= i < |c| && c[i] == y;
    k := BridgeFrom(c, Elements(xs[..j]), i, i + 1);
  }

  /** The state between two steps of the undoing, ys being still out. */
  ghost predicate Undoing<T>(g0: Graph<T>, g: Graph<T>, c: seq<T>, xs: seq<T>, ys: seq<T>) {
    && g0.Closed() && g.Closed() && Cycle(g0, c) && Untouched(g0, g, Elements(c)) && AllOf(g.next.Keys, c)
    && Drawn(c, xs) && Drawn(c, ys) && Elements(ys) <= Elements(xs)
    && Bridged(g, c, Elements(ys)) && Dangling(g, c, xs, Elements(ys))
  }

  lemma UndoneIsWhole<T>(g0: Graph<T>, g: Graph<T>, c: seq<T>, xs: seq<T>)
    requires Undoing(g0, g, c, xs, [])
    ensures g == g0
  {
    var none: seq<T> := [];
    assert Elements(none) == {};
    BridgedIsCycle(g, c);
    forall x | x in g.next && x in c ensures g.Next(x) == g0.Next(x) && g.Prev(x) == g0.Prev(x) {
      var i :| 0 <= i < |c| && c[i] == x;
      CycleNeighbours(g, c, i);
      CycleNeighbours(g0, c, i);
    }
    SameGraph(g0, g);
  }

  lemma UndoStep<T>(g0: Graph<T>, g: Graph<T>, c: seq<T>, xs: seq<T>, ys: seq<T>)
    requires Undoing(g0, g, c, xs, ys) && ys != [] && FitsBack(c, xs, ys[0], ys[1..])
    ensures AllOf(g.next.Keys, ys) && Undoing(g0, PutBack(g, Removal(ys[0])), c, xs, ys[1..])
  {
    hide PutBack, Cycle;
    DrawnIn(g, c, ys);
    DrawnPrefix(c, ys, 1);
    assert ys[0] in Elements(ys);
    var j, i, k := Placed(c, xs, ys[0]);
    assert Elements(ys) - {c[i]} == Elements(ys[1..]);
    PutStep(g, c, Elements(ys), i, k);
  }

  lemma UndoingPrevClosed<T>(g0: Graph<T>, g: Graph<T>, c: seq<T>, xs: seq<T>, ys: seq<T>)
    requires Undoing(g0, g, c, xs, ys)
    ensures PrevClosed(g, c, ys, Elements(c) - Elements(ys))
  {
    var out := Elements(ys);
    DrawnIn(g, c, ys);
    forall x | x in Elements(c) - out ensures g.Prev(x) in Elements(c) - out {
      var i :| 0 <= i < |c| && c[i] == x;
      var k := if i == 0 then |c| else i;
      var p := BridgeTo(c, out, k - 1, k);
    }
  }

  /** The undoing restores the ring exactly if every element finds the place it dangles to. */
  lemma {:induction false} UndoRestoresIffAllFitBack<T>(g0: Graph<T>, g: Graph<T>, c: seq<T>, xs: seq<T>, ys: seq<T>)
    requires Undoing(g0, g, c, xs, ys)
    ensures AllOf(g.next.Keys, ys)
    ensures PutEach(g, ys) == g0 <==> AllFitBack(c, xs, ys)
    decreases |ys|
  {
    DrawnIn(g, c, ys);
    if ys == [] {
      UndoneIsWhole(g0, g, c, xs);
    } else if FitsBack(c, xs, ys[0], ys[1..]) {
      UndoStep(g0, g, c, xs, ys);
      UndoRestoresIffAllFitBack(g0, PutBack(g, Removal(ys[0])), c, xs, ys[1..]);
    } else if PutEach(g, ys) == g0 {
      MisfitSpoils(g0, g, c, xs, ys);
    }
  }

  lemma MisfitSpoils<T>(g0: Graph<T>, g: Graph<T>, c: seq<T>, xs: seq<T>, ys: seq<T>)
    requires Undoing(g0, g, c, xs, ys) && ys != [] && AllOf(g.next.Keys, ys) && PutEach(g, ys) == g0
    ensures FitsBack(c, xs, ys[0], ys[1..])
  {
    hide PutEach, Cycle;
    var rest := Elements(ys[1..]);
    UndoingPrevClosed(g0, g, c, xs, ys);
    WholeNeedsPlace(g, c, ys, Elements(c) - Elements(ys));
    forall j, i, k | Followed(c, xs, j, i, k) && c[i] == ys[0] ensures Bridges(c, rest, i, k) {
      assert g.Next(c[i]) == Around(c, k);
      var q := BridgeFrom(c, rest, i, i + 1);
      assert Around(c, q) == Around(c, k);
    }
  }

  lemma {:induction false} AllFitAt<T>(c: seq<T>, xs: seq<T>, ys: seq<T>)
    ensures AllFitBack(c, xs, ys) <==> forall t :: 0 <= t < |ys| ==> FitsBack(c, xs, ys[t], ys[t + 1..])
    decreases |ys|
  {
    if ys != [] {
      var rest := ys[1..];
      AllFitAt(c, xs, rest);
      assert forall t :: 0 <= t < |rest| ==> rest[t] == ys[t + 1] && rest[t + 1..] == ys[t + 1 + 1..];
      if forall t :: 0 <= t < |ys| ==> FitsBack(c, xs, ys[t], ys[t + 1..]) {
        forall t | 0 <= t < |rest| ensures FitsBack(c, xs, rest[t], rest[t + 1..]) {
          assert FitsBack(c, xs, ys[t + 1], ys[t + 1 + 1..]);
        }
      }
      if FitsBack(c, xs, ys[0], rest) && forall t :: 0 <= t < |rest| ==> FitsBack(c, xs, rest[t], rest[t + 1..]) {
        forall t | 0 <= t < |ys| ensures FitsBack(c, xs, ys[t], ys[t + 1..]) {
          if t > 0 {
            assert FitsBack(c, xs, rest[t - 1], rest[t - 1 + 1..]);
          }
        }
      }
    }
  }

  /**
   xs[j] was removed before xs[n], and when xs[n] was removed, nothing was left between the
   places i and m of the two.
   */
  ghost predicate Met<T>(c: seq<T>, xs: seq<T>, j: int, i: int, n: int, m: int) {
    && 0 <= j < n < |xs| && 0 <= i < |c| && 0 <= m < |c| && c[i] == xs[j] && c[m] == xs[n]
    && AllOut(c, Elements(xs[..n]), i, m) && AllOut(c, Elements(xs[..n]), m, i)
  }

  ghost predicate Before<T>(ys: seq<T>, x: T, y: T) {
    forall t, u :: 0 <= t < |ys| && 0 <= u < |ys| && ys[t] == x && ys[u] == y ==> t < u
  }

  /** Of two elements that met, the one removed later goes back first. */
  ghost predicate InOrder<T>(c: seq<T>, xs: seq<T>, ys: seq<T>) {
    forall j, i, n, m | Met(c, xs, j, i, n, m) :: Before(ys, xs[n], xs[j])
  }

  ghost predicate SameElements<T>(xs: seq<T>, ys: seq<T>) {
    Elements(xs) == Elements(ys)
  }

  lemma InOrderFits<T>(c: seq<T>, xs: seq<T>, ys: seq<T>, t: nat)
    requires Drawn(c, xs) && Drawn(c, ys) && SameElements(xs, ys) && InOrder(c, xs, ys) && t < |ys|
    ensures FitsBack(c, xs, ys[t], ys[t + 1..])
  {
    var rest := ys[t + 1..];
    forall j, i, k | Followed(c, xs, j, i, k) && c[i] == ys[t] ensures Bridges(c, Elements(rest), i, k) {
      forall m | i < m < k ensures c[m] in Elements(rest) {
        var n :| 0 <= n < j && xs[n] == c[m];
        assert Met(c, xs, n, m, j, i);
        var u := PlaceIn(xs, ys, n);
        assert Before(ys, xs[j], xs[n]);
        StillOut(ys, t, u);
      }
      if k < |c| {
        LaterOne(c, xs, ys, t, j, i, k);
      }
      assert c[0] !in rest;
    }
  }

  lemma PlaceIn<T>(xs: seq<T>, ys: seq<T>, n: nat) returns (u: nat)
    requires SameElements(xs, ys) && n < |xs|
    ensures u < |ys| && ys[u] == xs[n]
  {
    assert xs[n] in Elements(xs);
    u :| u < |ys| && ys[u] == xs[n];
  }

  lemma StillOut<T>(ys: seq<T>, t: nat, u: nat)
    requires Distinct(ys) && t < |ys| && u < |ys|
    ensures ys[u] in ys[t + 1..] <==> t < u
  {
    if t < u {
      assert ys[t + 1..][u - (t + 1)] == ys[u];
    }
  }

  lemma LaterOne<T>(c: seq<T>, xs: seq<T>, ys: seq<T>, t: nat, j: int, i: int, k: int)
    requires Drawn(c, xs) && Drawn(c, ys) && SameElements(xs, ys) && InOrder(c, xs, ys) && t < |ys|
    requires Followed(c, xs, j, i, k) && c[i] == ys[t] && k < |c|
    ensures c[k] !in ys[t + 1..]
  {
    if c[k] in xs {
      var n :| 0 <= n < |xs| && xs[n] == c[k];
      assert c[k] !in Elements(xs[..j]);
      assert Met(c, xs, j, i, n, k);
      var u := PlaceIn(xs, ys, n);
      StillOut(ys, t, u);
      assert Before(ys, xs[n], xs[j]);
    } else {
      assert c[k] !in Elements(ys);
    }
  }

  /** Where everything fits, the later of two that met went back first. */
  lemma {:induction false} FitsInOrder<T>(c: seq<T>, xs: seq<T>, ys: seq<T>,
                                          j: nat, i: nat, n: nat, m: nat, t: nat, u: nat)
    requires Drawn(c, xs) && Drawn(c, ys) && SameElements(xs, ys) && AllFitBack(c, xs, ys)
    requires Met(c, xs, j, i, n, m) && t < |ys| && u < |ys| && ys[t] == xs[j] && ys[u] == xs[n]
    ensures u < t
    decreases m - i
  {
    AllFitAt(c, xs, ys);
    if m < i {
      var k := BridgeFrom(c, Elements(xs[..n]), m, i + 1);
      assert Followed(c, xs, n, m, k) && FitsBack(c, xs, ys[u], ys[u + 1..]);
      StillOut(ys, u, t);
    } else {
      var k := BridgeFrom(c, Elements(xs[..j]), i, i + 1);
      assert Followed(c, xs, j, i, k) && FitsBack(c, xs, ys[t], ys[t + 1..]);
      assert c[m] !in Elements(xs[..j]);
      assert k <= m && c[k] !in ys[t + 1..];
      if k == m {
        StillOut(ys, t, u);
      } else {
        assert c[k] in Elements(xs[..n]);
        var o :| 0 <= o < n && xs[o] == c[k];
        var v := PlaceIn(xs, ys, o);
        StillOut(ys, t, v);
        assert Met(c, xs, o, k, n, m);
        FitsInOrder(c, xs, ys, o, k, n, m, v, u);
      }
    }
  }

  /** Elements of a ring, each once. */
  ghost predicate Chosen<T>(s: seq<T>, xs: seq<T>) {
    Distinct(xs) && forall j :: 0 <= j < |xs| ==> xs[j] in s
  }

  /** Equivalently, a part of the elements of the ring, as multisets. */
  lemma ChosenIff<T>(g: Graph<T>, h: T, s: seq<T>, xs: seq<T>)
    requires g.Closed() && Ring(g, h, s)
    ensures Chosen(s, xs) <==> multiset(xs) <= multiset(s)
  {
    hide Ring;
    RingChain(g, h, s);
    ChosenIsPart(s, xs);
  }

  lemma ChosenIsDrawn<T>(g: Graph<T>, h: T, s: seq<T>, xs: seq<T>)
    requires g.Closed() && Ring(g, h, s) && Chosen(s, xs)
    ensures Drawn([h] + s, xs) && AllOf(g.next.Keys, xs)
  {
    RingChain(g, h, s);
    assert forall i :: 0 <= i < |s| ==> ([h] + s)[i + 1] == s[i];
  }

  lemma AllFitIffInOrder<T>(c: seq<T>, xs: seq<T>, ys: seq<T>)
    requires Drawn(c, xs) && Drawn(c, ys) && SameElements(xs, ys)
    ensures AllFitBack(c, xs, ys) <==> InOrder(c, xs, ys)
  {
    AllFitAt(c, xs, ys);
    if AllFitBack(c, xs, ys) {
      forall j, i, n, m, t, u | Met(c, xs, j, i, n, m)
                             && 0 <= t < |ys| && 0 <= u < |ys| && ys[t] == xs[j] && ys[u] == xs[n]
        ensures u < t
      {
        FitsInOrder(c, xs, ys, j, i, n, m, t, u);
      }
    }
    if InOrder(c, xs, ys) {
      forall t | 0 <= t < |ys| ensures FitsBack(c, xs, ys[t], ys[t + 1..]) {
        InOrderFits(c, xs, ys, t);
      }
    }
  }

  /** The sentinel is never out, so only what lies between two elements on the list matters. */
  lemma InOrderOnRing<T>(h: T, s: seq<T>, xs: seq<T>, ys: seq<T>)
    requires h !in xs
    ensures InOrder([h] + s, xs, ys) <==> InOrder(s, xs, ys)
  {
    var c := [h] + s;
    forall j, i, n, m ensures Met(c, xs, j, i + 1, n, m + 1) <==> Met(s, xs, j, i, n, m) {
      MetOnRing(h, s, xs, j, i, n, m);
    }
    forall j, i, n, m | Met(c, xs, j, i, n, m) ensures i > 0 && m > 0 {
      assert i > 0 && m > 0;
    }
    if InOrder(c, xs, ys) {
      forall j, i, n, m | Met(s, xs, j, i, n, m) ensures Before(ys, xs[n], xs[j]) {
        assert Met(c, xs, j, i + 1, n, m + 1);
      }
    }
    if InOrder(s, xs, ys) {
      forall j, i, n, m | Met(c, xs, j, i, n, m) ensures Before(ys, xs[n], xs[j]) {
        assert Met(s, xs, j, i - 1, n, m - 1);
      }
    }
  }

  lemma MetOnRing<T>(h: T, s: seq<T>, xs: seq<T>, j: int, i: int, n: int, m: int)
    requires h !in xs
    ensures Met([h] + s, xs, j, i + 1, n, m + 1) <==> Met(s, xs, j, i, n, m)
  {
    var c := [h] + s;
    if Met(c, xs, j, i + 1, n, m + 1) {
      assert forall k :: 0 <= k < |s| ==> s[k] == c[k + 1];
      forall k | i < k < m || m < k < i ensures s[k] in xs[..n] {
        assert c[k + 1] in Elements(xs[..n]);
      }
    }
    if Met(s, xs, j, i, n, m) {
      forall k | i + 1 < k < m + 1 || m + 1 < k < i + 1 ensures c[k] in xs[..n] {
        assert s[k - 1] in Elements(xs[..n]);
      }
    }
  }

  /**
   Elements removed in the order xs and put back in the order ys: every field of every element
   is as it was, exactly if of any two that met the one removed later was put back first.
   */
  lemma UndoRestoresIff<T>(g: Graph<T>, h: T, s: seq<T>, xs: seq<T>, ys: seq<T>)
    requires g.Closed() && Ring(g, h, s) && Chosen(s, xs) && Chosen(s, ys) && SameElements(xs, ys)
    ensures AllOf(g.next.Keys, xs) && AllOf(g.next.Keys, ys)
    ensures PutEach(TakeEach(g, xs), ys) == g <==> InOrder(s, xs, ys)
  {
    hide Cycle, InOrder, TakeEach, PutEach;
    var c := [h] + s;
    ChosenIsDrawn(g, h, s, xs);
    ChosenIsDrawn(g, h, s, ys);
    TakeEachBridges(g, c, xs);
    UndoRestoresIffAllFitBack(g, TakeEach(g, xs), c, xs, ys);
    AllFitIffInOrder(c, xs, ys);
    assert h !in xs by {
      assert c[0] == h;
    }
    InOrderOnRing(h, s, xs, ys);
  }

  /** No two elements of xs are neighbours on the ring. */
  ghost predicate Separate<T>(s: seq<T>, xs: seq<T>) {
    forall i :: 0 <= i < |s| - 1 ==> s[i] !in xs || s[i + 1] !in xs
  }

  lemma MetHasNeighbours<T>(s: seq<T>, xs: seq<T>, j: int, i: int, n: int, m: int) returns (p: nat)
    requires Distinct(xs) && Met(s, xs, j, i, n, m)
    ensures p < |s| - 1 && s[p] in xs && s[p + 1] in xs
  {
    p := if i < m then i else m;
    var q := if i < m then m else i;
    assert p + 1 < q ==> s[p + 1] in Elements(xs[..n]);
  }

  lemma OutOfOrderHasNeighbours<T>(s: seq<T>, xs: seq<T>, ys: seq<T>)
    requires Distinct(xs) && !InOrder(s, xs, ys)
    ensures !Separate(s, xs)
  {
    var j, i, n, m :| Met(s, xs, j, i, n, m) && !Before(ys, xs[n], xs[j]);
    var p := MetHasNeighbours(s, xs, j, i, n, m);
    assert s[p] in xs && s[p + 1] in xs;
  }

  lemma NeighboursAreOutOfOrder<T>(s: seq<T>, xs: seq<T>)
    requires Distinct(s) && Distinct(xs) && !Separate(s, xs)
    ensures !InOrder(s, xs, xs)
  {
    var i :| 0 <= i < |s| - 1 && s[i] in xs && s[i + 1] in xs;
    var j :| 0 <= j < |xs| && xs[j] == s[i];
    var n :| 0 <= n < |xs| && xs[n] == s[i + 1];
    if j < n {
      assert Met(s, xs, j, i, n, i + 1) && !Before(xs, xs[n], xs[j]);
    } else {
      assert Met(s, xs, n, i + 1, j, i) && !Before(xs, xs[j], xs[n]);
    }
  }

  /** Removals no two of which were neighbours can be undone in any order. */
  lemma SeparateUndoInAnyOrder<T>(g: Graph<T>, h: T, s: seq<T>, xs: seq<T>, ys: seq<T>)
    requires g.Closed() && Ring(g, h, s) && Chosen(s, xs) && Chosen(s, ys) && SameElements(xs, ys)
    requires Separate(s, xs)
    ensures AllOf(g.next.Keys, xs) && AllOf(g.next.Keys, ys)
    ensures PutEach(TakeEach(g, xs), ys) == g
  {
    hide TakeEach, PutEach, InOrder, Separate, Ring;
    UndoRestoresIff(g, h, s, xs, ys);
    if !InOrder(s, xs, ys) {
      OutOfOrderHasNeighbours(s, xs, ys);
    }
  }

  /** Any number of removals is undone in the order they were made exactly if no two were neighbours. */
  lemma FirstToLastUndoesIff<T>(g: Graph<T>, h: T, s: seq<T>, xs: seq<T>)
    requires g.Closed() && Ring(g, h, s) && Chosen(s, xs)
    ensures AllOf(g.next.Keys, xs)
    ensures PutEach(TakeEach(g, xs), xs) == g <==> Separate(s, xs)
  {
    hide TakeEach, PutEach, InOrder, Separate, Ring;
    RingChain(g, h, s);
    UndoRestoresIff(g, h, s, xs, xs);
    if InOrder(s, xs, xs) != Separate(s, xs) {
      if Separate(s, xs) {
        OutOfOrderHasNeighbours(s, xs, xs);
      } else {
        NeighboursAreOutOfOrder(s, xs);
      }
    }
  }

  /** Undoing the last removal first always works. */
  lemma LastToFirstRestores<T>(g: Graph<T>, h: T, s: seq<T>, xs: seq<T>, ys: seq<T>)
    requires g.Closed() && Ring(g, h, s) && Chosen(s, xs) && Chosen(s, ys) && SameElements(xs, ys)
    requires forall t :: 0 <= t < |ys| ==> |xs| == |ys| && ys[t] == xs[|xs| - 1 - t]
    ensures AllOf(g.next.Keys, xs) && AllOf(g.next.Keys, ys)
    ensures PutEach(TakeEach(g, xs), ys) == g
  {
    hide TakeEach, PutEach;
    UndoRestoresIff(g, h, s, xs, ys);
  }
}
