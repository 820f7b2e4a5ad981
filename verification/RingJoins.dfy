/**
 When CONCAT and PREPEND keep what they join: an exact condition on the two heads, for every
 state that a run of ring operations can reach.
 */
module RingJoins {
  import opened Links
  import opened RingLaws
  import opened RingRuns

  /** x is an element of a ring with head k. */
  ghost predicate HeldBy<T>(g: Graph<T>, k: T, x: T)
    requires g.Closed()
  {
    exists c :: Cycle(g, c) && c[0] == k && x in c && x != k
  }

  /** Every element of the rings r is in g on a ring of one of their heads. */
  ghost predicate AllHeld<T>(g: Graph<T>, r: RingMap<T>)
    requires g.Closed()
  {
    forall h, i | h in r && 0 <= i < |r[h]| :: exists k | k in r :: HeldBy(g, k, r[h][i])
  }

  lemma HeadIsNoElement<T>(g: Graph<T>, r: RingMap<T>, k: T, h: T)
    requires RingsWellFormed(g, r) && k in r && h in r
    ensures k !in r[h]
  {
    hide Ring;
    RingChain(g, h, r[h]);
    MembersAt(k, r[k]);
    MembersAt(h, r[h]);
    assert k != h ==> Apart(k, r[k], h, r[h]);
  }

  lemma LinkedIsHeld<T>(g: Graph<T>, r: RingMap<T>, h: T, x: T)
    requires RingsWellFormed(g, r) && h in r && x in r[h]
    ensures HeldBy(g, h, x)
  {
    HeadIsNoElement(g, r, h, h);
    assert ([h] + r[h])[0] == h && x in [h] + r[h];
  }

  lemma Rotated<T>(c: seq<T>, i: nat)
    requires i < |c|
    ensures c[..i] + c[i..] == c && (c[i..] + c[..i])[0] == c[i]
    ensures forall j :: 0 <= j < |c| ==> c[j] in c[i..] + c[..i]
    ensures forall j :: 0 <= j < |c| ==> (c[i..] + c[..i])[j] in c
  {
    forall j | 0 <= j < |c| ensures c[j] in c[i..] + c[..i] {
      assert c[j] == (c[i..] + c[..i])[if j < i then j + |c| - i else j - i];
    }
  }

  /** Two cycles that meet are the same, up to where they begin. */
  lemma CyclesThrough<T>(g: Graph<T>, c: seq<T>, d: seq<T>, i: nat, j: nat)
    requires g.Closed() && Cycle(g, c) && Cycle(g, d) && i < |c| && j < |d| && c[i] == d[j]
    ensures c[0] in d
  {
    hide Cycle;
    Rotated(c, i);
    Rotated(d, j);
    Rotate(g, c[..i], c[i..]);
    Rotate(g, d[..j], d[j..]);
    CycleIsUnique(g, c[i..] + c[..i], d[j..] + d[..j]);
  }

  lemma HeadlessIsNotHeld<T>(g: Graph<T>, s: seq<T>, k: T)
    requires g.Closed() && Cycle(g, s) && k !in s
    ensures !HeldBy(g, k, s[0])
  {
    forall c | Cycle(g, c) && c[0] == k && s[0] in c ensures false {
      var i :| 0 <= i < |c| && c[i] == s[0];
      CyclesThrough(g, c, s, i, 0);
    }
  }

  lemma JoinHolds<T>(g: Graph<T>, r: RingMap<T>, h1: T, h2: T, s: seq<T>)
    requires h1 in r && h2 in r && h1 != h2 && (forall y :: y in s <==> y in r[h1] || y in r[h2])
    requires RingsWellFormed(g, r[h1 := s][h2 := []])
    ensures AllHeld(g, r)
  {
    var r' := r[h1 := s][h2 := []];
    forall h, i | h in r && 0 <= i < |r[h]| ensures exists k | k in r :: HeldBy(g, k, r[h][i]) {
      var k := if h == h2 then h1 else h;
      assert r[h][i] in r'[k];
      LinkedIsHeld(g, r', k, r[h][i]);
    }
  }

  lemma SelfJoinHolds<T>(g: Graph<T>, g': Graph<T>, r: RingMap<T>, h: T)
    requires RingsWellFormed(g, r) && h in r && g'.Closed()
    requires r[h] == [] ==> g' == g
    requires r[h] != [] ==> Cycle(g', r[h])
    ensures AllHeld(g', r) <==> r[h] == []
  {
    if r[h] == [] {
      forall k, i | k in r && 0 <= i < |r[k]| ensures HeldBy(g, k, r[k][i]) {
        LinkedIsHeld(g, r, k, r[k][i]);
      }
    } else {
      forall k | k in r ensures !HeldBy(g', k, r[h][0]) {
        HeadIsNoElement(g, r, k, h);
        HeadlessIsNotHeld(g', r[h], k);
      }
    }
  }

  /**
   CONCAT keeps every element on a ring exactly if the heads differ or the ring is empty, and
   so does PREPEND.
   */
  lemma JoinKeepsElementsIff<T>(g: Graph<T>, r: RingMap<T>, h1: T, h2: T)
    requires RingsWellFormed(g, r) && h1 in r && h2 in r
    ensures h1 in g.next && h2 in g.next
    ensures AllHeld(Concat(g, h1, h2), r) <==> h1 != h2 || r[h1] == []
    ensures AllHeld(Prepend(g, h1, h2), r) <==> h1 != h2 || r[h1] == []
  {
    RingChain(g, h1, r[h1]);
    RingChain(g, h2, r[h2]);
    var gc, gp := Concat(g, h1, h2), Prepend(g, h1, h2);
    if h1 != h2 {
      hide Concat, Prepend, RingsWellFormed, AllHeld;
      ConcatKeepsRings(g, r, h1, h2);
      PrependKeepsRings(g, r, h1, h2);
      JoinHolds(gc, r, h1, h2, r[h1] + r[h2]);
      JoinHolds(gp, r, h1, h2, r[h2] + r[h1]);
    } else {
      if r[h1] == [] {
        JoinOfEmpty(g, h1, h2);
      } else {
        hide Concat, Prepend, RingsWellFormed, AllHeld;
        JoinOntoItselfLosesElements(g, h1, r[h1]);
      }
      SelfJoinHolds(g, gc, r, h1);
      SelfJoinHolds(g, gp, r, h1);
    }
  }
}
