/**
 Moving the tail of one ring onto another, with UNSPLICE and SPLICE_TAIL, and back with CONCAT.
 */
module RingTails {
  import opened Links
  import opened RingLaws

  /** Move the elements from e to the last one from the ring of b to the ring of a. */
  ghost function CutTail<T>(g: Graph<T>, b: T, e: T, a: T): (g': Graph<T>)
    requires g.Closed() && b in g.next && e in g.next && a in g.next
    ensures g'.Closed() && g'.next.Keys == g.next.Keys
  {
    if e == b then g
    else SpliceBefore(Unsplice(g, e, g.Prev(b)), a, e, g.Prev(b))
  }

  lemma AtIsMember<T>(g: Graph<T>, b: T, s: seq<T>, k: nat)
    requires g.Closed() && Ring(g, b, s) && k <= |s|
    ensures At(b, s, k) in g.next && At(b, s, k) in Members(b, s)
    ensures At(b, s, k) == b <==> k == |s|
    ensures k < |s| ==> g.Prev(b) == s[|s| - 1]
  {
    hide Ring;
    RingChain(g, b, s);
    MembersAt(b, s);
  }

  lemma MembersSplit<T>(b: T, s: seq<T>, k: nat)
    requires k <= |s|
    ensures Members(b, s[..k]) <= Members(b, s)
    ensures forall x :: x in s[k..] ==> x in s
  {
  }

  /** The prefix stays on b, the suffix is the whole ring of a; k == |s| moves nothing. */
  lemma CutTailSplits<T>(g: Graph<T>, b: T, s: seq<T>, k: nat, a: T)
    requires g.Closed() && Ring(g, b, s) && Ring(g, a, []) && Apart(b, s, a, []) && k <= |s|
    ensures b in g.next && At(b, s, k) in g.next && a in g.next
    ensures var g' := CutTail(g, b, At(b, s, k), a);
            && Ring(g', b, s[..k]) && Ring(g', a, s[k..]) && Apart(b, s[..k], a, s[k..])
            && Untouched(g, g', Members(b, s) + Members(a, []))
  {
    hide Ring, Unsplice, SpliceBefore;
    RingChain(g, b, s);
    RingChain(g, a, []);
    AtIsMember(g, b, s, k);
    MembersSplit(b, s, k);
    HalvesApart(g, b, s, k, a);
    if k == |s| {
      assert s[..k] == s && s[k..] == [];
    } else {
      var e, f := s[k], s[|s| - 1];
      var g1 := Unsplice(g, e, f);
      TailOut(g, b, s, k, a);
      TailIn(g, g1, b, s, k, a);
    }
  }

  lemma HalvesApart<T>(g: Graph<T>, b: T, s: seq<T>, k: nat, a: T)
    requires g.Closed() && Ring(g, b, s) && Apart(b, s, a, []) && k <= |s|
    ensures Apart(b, s[..k], a, s[k..])
    ensures Disjoint([a], s[k..]) && Disjoint([b] + s[..k], s[k..])
  {
    hide Ring;
    RingChain(g, b, s);
    MembersAt(b, s);
    MembersAt(a, []);
    forall i, j | 0 <= i < |[b] + s[..k]| && 0 <= j < |s[k..]| ensures ([b] + s[..k])[i] != s[k..][j] {
      assert s[k..][j] == s[k + j] && (i > 0 ==> ([b] + s[..k])[i] == s[i - 1]);
    }
  }

  lemma TailOut<T>(g: Graph<T>, b: T, s: seq<T>, k: nat, a: T)
    requires g.Closed() && Ring(g, b, s) && Ring(g, a, []) && Apart(b, s, a, []) && k < |s|
    ensures s[k] in g.next && s[|s| - 1] in g.next
    ensures var g1 := Unsplice(g, s[k], s[|s| - 1]);
            && Ring(g1, b, s[..k]) && Ring(g1, a, []) && Chain(g1, s[k..])
            && Untouched(g, g1, Members(b, s))
  {
    hide Unsplice, Ring;
    UnspliceCuts(g, b, s, k, |s|);
    UnspliceStays(g, b, s, k, |s|);
    var g1 := Unsplice(g, s[k], s[|s| - 1]);
    assert s[..k] + s[|s|..] == s[..k] && s[k..|s|] == s[k..];
    RingFrame(g, g1, a, [], Members(b, s));
  }

  /** The fields that the splice of the tail touches are outside the prefix ring. */
  lemma TailEndsPlaced<T>(b: T, s: seq<T>, k: nat, a: T)
    requires k < |s| && Apart(b, s[..k], a, s[k..])
    ensures {a, s[k], s[|s| - 1]} !! Members(b, s[..k])
    ensures {a, s[k], s[|s| - 1]} <= Members(b, s) + Members(a, [])
  {
    MembersAt(a, s[k..]);
    MembersAt(a, []);
    MembersAt(b, s);
    assert s[k..][0] == s[k] && s[k..][|s| - k - 1] == s[|s| - 1];
  }

  lemma TailIn<T>(g: Graph<T>, g1: Graph<T>, b: T, s: seq<T>, k: nat, a: T)
    requires k < |s| && Untouched(g, g1, Members(b, s)) && Apart(b, s[..k], a, s[k..])
    requires Ring(g1, b, s[..k]) && Ring(g1, a, []) && Chain(g1, s[k..]) && Disjoint([a], s[k..])
    ensures a in g1.next && s[k] in g1.next && s[|s| - 1] in g1.next
    ensures var g2 := SpliceBefore(g1, a, s[k], s[|s| - 1]);
            && Ring(g2, b, s[..k]) && Ring(g2, a, s[k..])
            && Untouched(g, g2, Members(b, s) + Members(a, []))
  {
    assert g1.Closed();
    hide SpliceBefore, Ring, Members, Apart, Spliced, Untouched;
    RingChain(g1, a, []);
    var seg := s[k..];
    assert [a] + [] == [a] && seg[0] == s[k] && seg[|seg| - 1] == s[|s| - 1] && [] + seg == seg;
    SpliceBeforeAt(g1, a, [], 0, seg);
    SpliceBeforeStores(g1, a, s[k], s[|s| - 1]);
    var g2 := SpliceBefore(g1, a, s[k], s[|s| - 1]);
    var touched := {a, s[k], s[|s| - 1]};
    SplicedTouches(g1, g2, a, a, s[k], s[|s| - 1], touched);
    TailEndsPlaced(b, s, k, a);
    RingFrame(g1, g2, b, s[..k], touched);
    UntouchedTwice(g, g1, g2, Members(b, s), touched, Members(b, s) + Members(a, []));
  }

  /** CONCAT puts the tail back: every field of every element is as it was before the cut. */
  lemma ConcatUndoesCutTail<T>(g: Graph<T>, b: T, s: seq<T>, k: nat, a: T)
    requires g.Closed() && Ring(g, b, s) && Ring(g, a, []) && Apart(b, s, a, []) && k <= |s|
    ensures b in g.next && At(b, s, k) in g.next && a in g.next
    ensures Concat(CutTail(g, b, At(b, s, k), a), b, a) == g
  {
    hide Ring, CutTail, Concat;
    CutTailSplits(g, b, s, k, a);
    var g1 := CutTail(g, b, At(b, s, k), a);
    ConcatJoins(g1, b, s[..k], a, s[k..]);
    var g2 := Concat(g1, b, a);
    assert s[..k] + s[k..] == s;
    MembersSplit(b, s, k);
    forall x | x in Members(a, s[k..]) ensures x in Members(a, []) || x in Members(b, s) {
    }
    assert Untouched(g, g2, Members(b, s) + (Members(a, []) + {}));
    RingDeterminesFields(g, g2, b, s, Members(a, []) + {});
    RingDeterminesFields(g, g2, a, [], {});
    SameGraph(g, g2);
  }
}
