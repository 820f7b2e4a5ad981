/**
 APR_ALIGN: rounding up with a bit mask, in unsigned words of any width.
 */
module Align {

  function Pow2(k: nat): (p: nat)
    ensures p > 0
  {
    if k == 0 then 1 else 2 * Pow2(k - 1)
  }

  /** Bitwise and, one bit at a time from the low end. */
  function And(x: nat, y: nat): nat {
    if x == 0 || y == 0 then 0
    else 2 * And(x / 2, y / 2) + if x % 2 == 1 && y % 2 == 1 then 1 else 0
  }

  /** Bitwise complement in a word of w bits. */
  function Not(w: nat, x: nat): nat {
    if w == 0 then 0 else 2 * Not(w - 1, x / 2) + (1 - x % 2)
  }

  /**
   The macro with a size of w bits and a boundary of v bits, both unsigned. The mask and its
   complement are made in the width of the boundary; the complement is then extended with
   zeros, and sum and conjunction are made in the wider of the two.
   */
  function AprAlignMixed(w: nat, v: nat, size: nat, boundary: nat): nat {
    var mask := (boundary + Pow2(v) - 1) % Pow2(v);
    And((size + mask) % Pow2(if v < w then w else v), Not(v, mask))
  }

  /** The macro on operands of one width; the sum and the difference wrap in a word of w bits. */
  function AprAlign(w: nat, size: nat, boundary: nat): nat {
    AprAlignMixed(w, w, size, boundary)
  }

  function AprAlignDefault(w: nat, size: nat): nat {
    AprAlign(w, size, 8)
  }

  /** r is the least multiple of boundary that is at least size. */
  ghost predicate LeastMultiple(r: nat, boundary: nat, size: nat)
    requires boundary > 0
  {
    && r % boundary == 0 && size <= r
    && forall m: nat :: m % boundary == 0 && size <= m ==> r <= m
  }

  /** Bit i of x, counted from the low end. */
  predicate Bit(x: nat, i: nat) {
    if i == 0 then x % 2 == 1 else Bit(x / 2, i - 1)
  }

  lemma {:induction false} ZeroHasNoBits(i: nat)
    ensures !Bit(0, i)
  {
    if i > 0 {
      ZeroHasNoBits(i - 1);
    }
  }

  lemma {:induction false} AndBits(x: nat, y: nat, i: nat)
    ensures Bit(And(x, y), i) <==> Bit(x, i) && Bit(y, i)
  {
    if x == 0 || y == 0 {
      ZeroHasNoBits(i);
    } else if i > 0 {
      AndBits(x / 2, y / 2, i - 1);
    }
  }

  lemma {:induction false} NotBits(w: nat, x: nat, i: nat)
    ensures Bit(Not(w, x), i) <==> i < w && !Bit(x, i)
  {
    if w == 0 {
      ZeroHasNoBits(i);
    } else if i > 0 {
      NotBits(w - 1, x / 2, i - 1);
    }
  }

  /** A number is settled by its bits. */
  lemma {:induction false} BitsSettle(x: nat, y: nat)
    requires forall i: nat :: Bit(x, i) <==> Bit(y, i)
    ensures x == y
    decreases x + y
  {
    assert Bit(x, 0) <==> Bit(y, 0);
    if x > 0 || y > 0 {
      forall i: nat ensures Bit(x / 2, i) <==> Bit(y / 2, i) {
        assert Bit(x, i + 1) <==> Bit(y, i + 1);
      }
      BitsSettle(x / 2, y / 2);
    }
  }

  /**
   For every boundary, a power of two or not, zero included: the bits of the result are those
   of the wrapped sum that lie inside the boundary's width and not in boundary - 1.
   */
  lemma AlignBits(w: nat, v: nat, size: nat, boundary: nat, i: nat)
    ensures var less := (boundary + Pow2(v) - 1) % Pow2(v);
            var sum := (size + less) % Pow2(if v < w then w else v);
            Bit(AprAlignMixed(w, v, size, boundary), i) <==> Bit(sum, i) && i < v && !Bit(less, i)
  {
    var less := (boundary + Pow2(v) - 1) % Pow2(v);
    AndBits((size + less) % Pow2(if v < w then w else v), Not(v, less), i);
    NotBits(v, less, i);
  }

  /** Masking with a complement clears the bits that the mask would keep. */
  lemma {:induction false} AndNotClears(w: nat, x: nat, m: nat)
    requires x < Pow2(w)
    ensures And(x, Not(w, m)) + And(x, m) == x
  {
    if w > 0 && x > 0 {
      AndNotClears(w - 1, x / 2, m / 2);
      var n := Not(w, m);
      assert n / 2 == Not(w - 1, m / 2) && n % 2 == 1 - m % 2;
      AndHalves(x, n);
      AndHalves(x, m);
    }
  }

  lemma AndHalves(x: nat, y: nat)
    ensures And(x, y) == 2 * And(x / 2, y / 2) + if x % 2 == 1 && y % 2 == 1 then 1 else 0
  {
  }

  /** The low k bits are the remainder modulo 2^k. */
  lemma {:induction false} AndLowBits(x: nat, k: nat)
    ensures And(x, Pow2(k) - 1) == x % Pow2(k)
  {
    if k > 0 {
      var p := Pow2(k - 1);
      AndLowBits(x / 2, k - 1);
      assert (2 * p - 1) / 2 == p - 1 && (2 * p - 1) % 2 == 1;
      AndHalves(x, 2 * p - 1);
      ModHalves(x, p);
    }
  }

  lemma ModHalves(x: nat, p: nat)
    requires p > 0
    ensures x % (2 * p) == 2 * ((x / 2) % p) + x % 2
  {
    var q, r := (x / 2) / p, (x / 2) % p;
    assert x / 2 == p * q + r;
    assert x == (2 * p) * q + (2 * r + x % 2) by {
      assert 2 * (p * q) == (2 * p) * q;
    }
    DivModUnique(x, 2 * p, q, 2 * r + x % 2);
  }

  lemma LowHalf(x: nat, p: nat)
    requires p > 0
    ensures x % (2 * p) / 2 == x / 2 % p && x % (2 * p) % 2 == x % 2
  {
    ModHalves(x, p);
  }

  /** A complement in v bits sees the low v bits only. */
  lemma {:induction false} AndSeesLowBits(x: nat, v: nat, y: nat)
    ensures And(x, Not(v, y)) == And(x % Pow2(v), Not(v, y))
  {
    if v > 0 {
      var p, n := Pow2(v - 1), Not(v, y);
      AndSeesLowBits(x / 2, v - 1, y / 2);
      assert n / 2 == Not(v - 1, y / 2);
      LowHalf(x, p);
      AndHalves(x, n);
      AndHalves(x % (2 * p), n);
    }
  }

  lemma AtLeastOnce(d: nat, k: nat)
    requires k > 0
    ensures d * k >= d
  {
  }

  lemma Distribute(d: nat, x: nat, y: nat)
    ensures d * (x - y) == d * x - d * y
  {
  }

  /** Quotient and remainder are unique. */
  lemma DivModUnique(x: nat, d: nat, q: nat, r: nat)
    requires d > 0 && x == d * q + r && r < d
    ensures x / d == q && x % d == r
  {
    QuotientsAgree(d, q, r, x / d, x % d);
  }

  lemma QuotientsAgree(d: nat, q: nat, r: nat, q': nat, r': nat)
    requires d * q + r == d * q' + r' && r < d && r' < d
    ensures q == q' && r == r'
  {
    if q < q' {
      AtLeastOnce(d, q' - q);
      Distribute(d, q', q);
    } else if q' < q {
      AtLeastOnce(d, q - q');
      Distribute(d, q, q');
    }
  }

  lemma {:induction false} Pow2Divides(k: nat, w: nat) returns (c: nat)
    requires k <= w
    ensures Pow2(w) == Pow2(k) * c && c > 0
  {
    if k == w {
      c := 1;
    } else {
      var d := Pow2Divides(k, w - 1);
      c := 2 * d;
    }
  }

  lemma Pow2Above(v: nat, w: nat)
    requires v <= w
    ensures Pow2(v) <= Pow2(w)
  {
    var c := Pow2Divides(v, w);
    AtLeastOnce(Pow2(v), c);
  }

  lemma MaskOf(k: nat, v: nat)
    requires k < v
    ensures (Pow2(k) + Pow2(v) - 1) % Pow2(v) == Pow2(k) - 1
  {
    Pow2Above(k, v);
    DivModUnique(Pow2(k) + Pow2(v) - 1, Pow2(v), 1, Pow2(k) - 1);
  }

  /** The bits of the sum that lie above the boundary's width are lost. */
  lemma NarrowMaskClears(x: nat, v: nat, k: nat)
    requires k < v
    ensures And(x, Not(v, Pow2(k) - 1)) == x % Pow2(v) - x % Pow2(v) % Pow2(k)
  {
    AndSeesLowBits(x, v, Pow2(k) - 1);
    AndNotClears(v, x % Pow2(v), Pow2(k) - 1);
    AndLowBits(x % Pow2(v), k);
  }

  lemma MixedMaskDropsRemainder(w: nat, v: nat, size: nat, k: nat)
    requires k < v
    ensures var x := (size + (Pow2(k) - 1)) % Pow2(if v < w then w else v);
            AprAlignMixed(w, v, size, Pow2(k)) == x % Pow2(v) - x % Pow2(v) % Pow2(k)
  {
    hide And, Not;
    MaskOf(k, v);
    NarrowMaskClears((size + (Pow2(k) - 1)) % Pow2(if v < w then w else v), v, k);
  }

  /** Reducing a sum by a whole word width takes the aligned result below the size. */
  lemma HighBitsLost(x: nat, p: nat, k: nat, v: nat)
    requires k < v && p == Pow2(v) && x >= p
    ensures x % p - x % p % Pow2(k) + Pow2(k) <= x
  {
    var b := Pow2(k);
    Pow2Above(k, v);
    assert x % p <= x - p by {
      var q := x / p;
      assert x == p * q + x % p;
      if q == 0 {
        assert false;
      }
      AtLeastOnce(p, q);
    }
  }

  /** The remainder of the sum that the macro works on, as the sum fits the boundary's width or not. */
  lemma MixedSum(w: nat, v: nat, x: nat, size: nat, k: nat)
    requires k < v && size < Pow2(w) && x == size + (Pow2(k) - 1)
    ensures var y := x % Pow2(if v < w then w else v) % Pow2(v);
            if x < Pow2(v) then y == x else y - y % Pow2(k) < size
  {
    var wide := if v < w then w else v;
    var b, p, m := Pow2(k), Pow2(v), Pow2(wide);
    Pow2Above(v, wide);
    Pow2Above(w, wide);
    Pow2Above(k, v);
    if x < p {
      DivModUnique(x, m, 0, x);
      DivModUnique(x, p, 0, x);
    } else if x < m {
      DivModUnique(x, m, 0, x);
      HighBitsLost(x, p, k, v);
    } else {
      DivModUnique(x, m, 1, x - m);
      DivModUnique(x - m, p, 0, x - m);
      DivModUnique(x - m, b, 0, x - m);
    }
  }

  lemma RoundingUp(x: nat, b: nat, size: nat)
    requires b > 0 && x == size + b - 1
    ensures LeastMultiple(x - x % b, b, size)
  {
    var q := x / b;
    var r := x - x % b;
    assert r == b * q + 0;
    DivModUnique(r, b, q, 0);
    forall m: nat | m % b == 0 && size <= m ensures r <= m {
      var n := m / b;
      assert m == b * n;
      if n < q {
        AtLeastOnce(b, q - n);
        Distribute(b, q, n);
      }
    }
  }

  lemma BelowIsNotLeast(r: nat, b: nat, size: nat)
    requires b > 0 && r < size
    ensures !LeastMultiple(r, b, size)
  {
  }

  /**
   With operands of different widths the macro rounds up exactly if the sum fits the width of
   the boundary, however wide the size is.
   */
  lemma MixedIsLeastMultipleIff(w: nat, v: nat, size: nat, k: nat)
    requires k < v && size < Pow2(w)
    ensures LeastMultiple(AprAlignMixed(w, v, size, Pow2(k)), Pow2(k), size) <==> size + Pow2(k) - 1 < Pow2(v)
  {
    hide AprAlignMixed, LeastMultiple;
    var b, x := Pow2(k), size + (Pow2(k) - 1);
    MixedMaskDropsRemainder(w, v, size, k);
    MixedSum(w, v, x, size, k);
    if x < Pow2(v) {
      RoundingUp(x, b, size);
    } else {
      BelowIsNotLeast(AprAlignMixed(w, v, size, b), b, size);
    }
  }

  /** The mask form, for a power of two, drops the remainder of the wrapped sum. */
  lemma MaskDropsRemainder(w: nat, size: nat, k: nat)
    requires k < w
    ensures var x := (size + (Pow2(k) - 1)) % Pow2(w);
            AprAlign(w, size, Pow2(k)) == x - x % Pow2(k)
  {
    hide And, Not;
    var x := (size + (Pow2(k) - 1)) % Pow2(w);
    MixedMaskDropsRemainder(w, w, size, k);
    DivModUnique(x, Pow2(w), 0, x);
  }

  /** Below the word size, rounding up is exact; beyond it, the result wraps to zero. */
  lemma AlignValue(w: nat, size: nat, k: nat)
    requires k < w && size < Pow2(w)
    ensures var b := Pow2(k);
            AprAlign(w, size, b)
              == if size + b - 1 < Pow2(w) then (size + b - 1) - (size + b - 1) % b else 0
  {
    var b, p := Pow2(k), Pow2(w);
    MaskDropsRemainder(w, size, k);
    var c := Pow2Divides(k, w);
    AtLeastOnce(b, c);
    var x := size + b - 1;
    if x < p {
      DivModUnique(x, p, 0, x);
    } else {
      DivModUnique(x, p, 1, x - p);
      DivModUnique(x - p, b, 0, x - p);
    }
  }

  /**
   For every word width and every power of two that fits, the macro yields the least multiple
   of the boundary that is at least size exactly if the sum inside it does not overflow.
   */
  lemma AlignIsLeastMultipleIff(w: nat, size: nat, k: nat)
    requires k < w && size < Pow2(w)
    ensures LeastMultiple(AprAlign(w, size, Pow2(k)), Pow2(k), size) <==> size + Pow2(k) - 1 < Pow2(w)
  {
    MixedIsLeastMultipleIff(w, w, size, k);
  }

  /** A multiple of 2^k that fits in a word stays at least 2^k below the word size. */
  lemma MultiplesLeaveRoom(w: nat, r: nat, k: nat)
    requires k < w && r < Pow2(w) && r % Pow2(k) == 0
    ensures r + Pow2(k) <= Pow2(w)
  {
    var b := Pow2(k);
    var c := Pow2Divides(k, w);
    var q := r / b;
    assert r == b * q;
    if q < c {
      AtLeastOnce(b, c - q);
      Distribute(b, c, q);
    } else if q > c {
      AtLeastOnce(b, q - c);
      Distribute(b, q, c);
    }
  }

  /** A result never overshoots by a whole boundary, and keeps the order of sizes. */
  lemma AlignIsTightAndMonotone(w: nat, size: nat, size': nat, k: nat)
    requires k < w && size <= size' && size' + Pow2(k) - 1 < Pow2(w)
    ensures size <= AprAlign(w, size, Pow2(k)) < size + Pow2(k)
    ensures AprAlign(w, size, Pow2(k)) <= AprAlign(w, size', Pow2(k))
  {
    AlignIsLeastMultipleIff(w, size, k);
    AlignIsLeastMultipleIff(w, size', k);
    AlignValue(w, size, k);
    assert AprAlign(w, size', Pow2(k)) % Pow2(k) == 0;
  }

  lemma JustBelowNext(r: nat, b: nat)
    requires b > 0 && r % b == 0
    ensures (r + b - 1) % b == b - 1
  {
    DivModUnique(r + b - 1, b, r / b, b - 1);
  }

  /** Multiples of the boundary, and nothing else, are left as they are. */
  lemma AlignFixesMultiples(w: nat, size: nat, k: nat)
    requires k < w && size < Pow2(w)
    ensures AprAlign(w, size, Pow2(k)) == size <==> size % Pow2(k) == 0
  {
    AlignIsLeastMultipleIff(w, size, k);
    AlignValue(w, size, k);
    if size % Pow2(k) == 0 {
      MultiplesLeaveRoom(w, size, k);
      JustBelowNext(size, Pow2(k));
    }
  }

  /** A result is its own alignment: aligning it again cannot overflow. */
  lemma AlignIsIdempotent(w: nat, size: nat, k: nat)
    requires k < w && size < Pow2(w)
    ensures var r := AprAlign(w, size, Pow2(k)); AprAlign(w, r, Pow2(k)) == r
  {
    AlignIsLeastMultipleIff(w, size, k);
    AlignValue(w, size, k);
    AlignFixesMultiples(w, AprAlign(w, size, Pow2(k)), k);
  }

  lemma DefaultAlignsToEight(w: nat, size: nat)
    requires w > 3 && size < Pow2(w)
    ensures LeastMultiple(AprAlignDefault(w, size), 8, size) <==> size + 7 < Pow2(w)
    ensures size + 7 >= Pow2(w) ==> AprAlignDefault(w, size) == 0
  {
    assert Pow2(3) == 8 by {
      assert Pow2(2) == 4;
    }
    AlignIsLeastMultipleIff(w, size, 3);
    AlignValue(w, size, 3);
  }

  lemma {:induction false} AndWithItself(x: nat)
    ensures And(x, x) == x
  {
    if x > 0 {
      AndWithItself(x / 2);
    }
  }

  /** Only powers of two share no bit with their predecessor. */
  lemma {:induction false} NoSharedBit(b: nat) returns (k: nat)
    requires b > 0 && And(b, b - 1) == 0
    ensures b == Pow2(k)
  {
    if b == 1 {
      k := 0;
    } else {
      AndHalves(b, b - 1);
      AndWithItself(b / 2);
      assert b % 2 == 0;
      assert (b - 1) / 2 == b / 2 - 1 && (b - 1) % 2 == 1;
      var j := NoSharedBit(b / 2);
      k := j + 1;
    }
  }

  /** Aligning 1 gives the bits of the boundary that its predecessor lacks. */
  lemma AlignOfOne(w: nat, boundary: nat)
    requires 0 < boundary < Pow2(w)
    ensures AprAlign(w, 1, boundary) + And(boundary, boundary - 1) == boundary
  {
    DivModUnique(boundary + Pow2(w) - 1, Pow2(w), 1, boundary - 1);
    DivModUnique(boundary, Pow2(w), 0, boundary);
    AndNotClears(w, boundary, boundary - 1);
  }

  /** The macro rounds correctly for all sizes that do not overflow exactly if the boundary is a power of two. */
  lemma AlignsForAllSizesIff(w: nat, boundary: nat)
    requires 0 < boundary < Pow2(w)
    ensures (forall size: nat :: size + boundary - 1 < Pow2(w) ==>
               LeastMultiple(AprAlign(w, size, boundary), boundary, size))
       <==> exists k: nat :: boundary == Pow2(k)
  {
    hide AprAlign;
    var p := Pow2(w);
    if exists k: nat :: boundary == Pow2(k) {
      var k: nat :| boundary == Pow2(k);
      if k >= w {
        var c := Pow2Divides(w, k);
        AtLeastOnce(p, c);
      }
      forall size: nat | size + boundary - 1 < p ensures LeastMultiple(AprAlign(w, size, boundary), boundary, size) {
        AlignIsLeastMultipleIff(w, size, k);
      }
    }
    if forall size: nat :: size + boundary - 1 < p ==> LeastMultiple(AprAlign(w, size, boundary), boundary, size) {
      assert 1 + boundary - 1 < p;
      assert LeastMultiple(AprAlign(w, 1, boundary), boundary, 1);
      AlignOfOne(w, boundary);
      PositiveMultiple(AprAlign(w, 1, boundary), boundary);
      var k := NoSharedBit(boundary);
    }
  }

  lemma PositiveMultiple(r: nat, b: nat)
    requires b > 0 && r > 0 && r % b == 0
    ensures r >= b
  {
  }
}
