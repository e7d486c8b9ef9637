/** Bayesian revision of the belief in the three search areas (`revise_target_probs`),
    over exact reals. */
module Belief {
  import opened Collections

  /** One real per search area: beliefs p1..p3 or effectiveness values sep1..sep3. */
  datatype Triple = Triple(a1: real, a2: real, a3: real) {
    function Sum(): real {
      a1 + a2 + a3
    }

    /** The value of area n. */
    function At(n: int): real
      requires 1 <= n <= 3
    {
      if n == 1 then a1 else if n == 2 then a2 else a3
    }

    /** This triple with the value of area n replaced by v. */
    function With(n: int, v: real): (t: Triple)
      requires 1 <= n <= 3
      ensures t.At(n) == v
      ensures forall m | 1 <= m <= 3 && m != n :: t.At(m) == At(m)
    {
      if n == 1 then this.(a1 := v) else if n == 2 then this.(a2 := v) else this.(a3 := v)
    }
  }

  /** A probability distribution over the three areas. */
  predicate IsDistribution(p: Triple) {
    p.a1 >= 0.0 && p.a2 >= 0.0 && p.a3 >= 0.0 && p.Sum() == 1.0
  }

  /** Every effectiveness value is a fraction in [0, 1]. */
  predicate IsFractionTriple(e: Triple) {
    0.0 <= e.a1 <= 1.0 && 0.0 <= e.a2 <= 1.0 && 0.0 <= e.a3 <= 1.0
  }

  /** Priors of a fresh `Search`. */
  const Priors: Triple := Triple(0.2, 0.5, 0.3)

  lemma PriorsAreDistribution()
    ensures IsDistribution(Priors)
  {
  }

  /** The belief that survives an unsuccessful search of one area: p * (1 - sep). */
  function Mass(pn: real, en: real): real {
    pn * (1.0 - en)
  }

  /** `denom = p1 * (1 - sep1) + p2 * (1 - sep2) + p3 * (1 - sep3)`. */
  function Denom(p: Triple, e: Triple): real {
    Mass(p.a1, e.a1) + Mass(p.a2, e.a2) + Mass(p.a3, e.a3)
  }

  /** The revised beliefs; None when the division by `denom` raises
      ZeroDivisionError (no field has been written at that point). */
  function Revise(p: Triple, e: Triple): Option<Triple> {
    var d := Denom(p, e);
    if d == 0.0 then None
    else Some(Triple(Mass(p.a1, e.a1) / d, Mass(p.a2, e.a2) / d, Mass(p.a3, e.a3) / d))
  }

  // ---------------------------------------------------------------------
  // Real-arithmetic steps the solver does not find on its own.

  lemma MulPos(a: real, b: real)
    requires a > 0.0 && b > 0.0
    ensures a * b > 0.0
  {
  }

  lemma MulZeroIff(a: real, b: real)
    ensures a * b == 0.0 <==> a == 0.0 || b == 0.0
  {
  }

  /** Dividing by a positive d <= 1 never shrinks a non-negative value. */
  lemma DivGrows(x: real, d: real)
    requires x >= 0.0 && 0.0 < d <= 1.0
    ensures x / d >= x
  {
    var q := x / d;
    assert q * d == x;
    assert q * d <= q;
  }

  /** Dividing by d in (0, 1) strictly grows a positive value. */
  lemma DivGrowsStrictly(x: real, d: real)
    requires x > 0.0 && 0.0 < d < 1.0
    ensures x / d > x
  {
    var q, c := x / d, 1.0 - d;
    assert q * d == x;
    MulPos(q, c);
    assert q * c == q - q * d;
    assert q * c == q - x;
  }

  lemma DivNonneg(x: real, d: real)
    requires x >= 0.0 && d > 0.0
    ensures x / d >= 0.0
  {
  }

  lemma DivSum(a: real, b: real, c: real, d: real)
    requires d != 0.0
    ensures a / d + b / d + c / d == (a + b + c) / d
  {
  }

  /** Two entries of r are the matching entries of p scaled by the same 1/d. */
  lemma ScaledPair(p: Triple, r: Triple, d: real, i: int, j: int)
    requires 1 <= i <= 3 && 1 <= j <= 3 && d != 0.0
    requires r.At(i) == p.At(i) / d && r.At(j) == p.At(j) / d
    ensures r.At(i) * p.At(j) == r.At(j) * p.At(i)
  {
    ScaledRatio(p.At(i), p.At(j), d, r.At(i), r.At(j));
  }

  /** Scaling two values by the same 1/d keeps their ratio. */
  lemma ScaledRatio(x: real, y: real, d: real, rx: real, ry: real)
    requires d != 0.0 && rx == x / d && ry == y / d
    ensures rx * y == ry * x
  {
    assert rx * y == x * y / d;
    assert ry * x == x * y / d;
  }

  // ---------------------------------------------------------------------

  /** Area n's revised belief is its surviving mass over the total surviving mass. */
  lemma ReviseAt(p: Triple, e: Triple, n: int)
    requires Revise(p, e).Some? && 1 <= n <= 3
    ensures Revise(p, e).value.At(n) == Mass(p.At(n), e.At(n)) / Denom(p, e)
  {
  }

  /** The surviving mass of one area: 0 <= p * (1 - e) <= p, and 0 exactly when
      the area has no belief or was covered completely. */
  lemma SurvivingMass(pn: real, en: real)
    requires pn >= 0.0 && 0.0 <= en <= 1.0
    ensures 0.0 <= Mass(pn, en) <= pn
    ensures Mass(pn, en) == 0.0 <==> pn == 0.0 || en == 1.0
  {
    MulZeroIff(pn, 1.0 - en);
    assert pn - pn * (1.0 - en) == pn * en;
  }

  /** With a distribution and fractions, denom is a sub-probability: 0 <= denom <= 1. */
  lemma DenomBounds(p: Triple, e: Triple)
    requires IsDistribution(p) && IsFractionTriple(e)
    ensures 0.0 <= Denom(p, e) <= 1.0
  {
    SurvivingMass(p.a1, e.a1);
    SurvivingMass(p.a2, e.a2);
    SurvivingMass(p.a3, e.a3);
  }

  /** Three non-negative values sum to 0 only if each is 0. */
  lemma NonnegSumZero(x: real, y: real, z: real)
    requires x >= 0.0 && y >= 0.0 && z >= 0.0
    ensures x + y + z == 0.0 <==> x == 0.0 && y == 0.0 && z == 0.0
  {
  }

  /** Revision fails exactly when no belief survives the search. */
  lemma ReviseFailsIff(p: Triple, e: Triple)
    requires IsDistribution(p) && IsFractionTriple(e)
    ensures Revise(p, e).None? <==>
      (p.a1 == 0.0 || e.a1 == 1.0) && (p.a2 == 0.0 || e.a2 == 1.0) && (p.a3 == 0.0 || e.a3 == 1.0)
  {
    SurvivingMass(p.a1, e.a1);
    SurvivingMass(p.a2, e.a2);
    SurvivingMass(p.a3, e.a3);
    NonnegSumZero(Mass(p.a1, e.a1), Mass(p.a2, e.a2), Mass(p.a3, e.a3));
    ReviseNoneIff(p, e);
  }

  lemma ReviseNoneIff(p: Triple, e: Triple)
    ensures Revise(p, e).None? <==> Denom(p, e) == 0.0
  {
  }

  /** When only area k was searched, revision fails exactly when all belief was on
      area k and its search was complete. */
  lemma SingleSearchFailsIff(p: Triple, e: Triple, k: int)
    requires IsDistribution(p) && IsFractionTriple(e) && 1 <= k <= 3
    requires forall n | 1 <= n <= 3 && n != k :: e.At(n) == 0.0
    ensures Revise(p, e).None? <==> p.At(k) == 1.0 && e.At(k) == 1.0
  {
    ReviseFailsIff(p, e);
    assert e.At(1) == e.a1 && e.At(2) == e.a2 && e.At(3) == e.a3;
    assert p.At(1) == p.a1 && p.At(2) == p.a2 && p.At(3) == p.a3;
  }

  /** No effectiveness reaches 1, so the revision never fails. */
  lemma RevisePossibleBelowOne(p: Triple, e: Triple)
    requires IsDistribution(p) && IsFractionTriple(e)
    requires e.a1 < 1.0 && e.a2 < 1.0 && e.a3 < 1.0
    ensures Revise(p, e).Some?
  {
    ReviseFailsIff(p, e);
  }

  /** The revised beliefs sum to 1 whatever the old ones summed to. */
  lemma ReviseSumsToOne(p: Triple, e: Triple)
    requires Revise(p, e).Some?
    ensures Revise(p, e).value.Sum() == 1.0
  {
    var d := Denom(p, e);
    var m1, m2, m3 := Mass(p.a1, e.a1), Mass(p.a2, e.a2), Mass(p.a3, e.a3);
    DivSum(m1, m2, m3, d);
    assert d / d == 1.0;
    assert Revise(p, e).value == Triple(m1 / d, m2 / d, m3 / d);
  }

  /** The revised beliefs form a distribution again. */
  lemma ReviseIsDistribution(p: Triple, e: Triple)
    requires IsDistribution(p) && IsFractionTriple(e)
    requires Revise(p, e).Some?
    ensures IsDistribution(Revise(p, e).value)
  {
    var d := Denom(p, e);
    var m1, m2, m3 := Mass(p.a1, e.a1), Mass(p.a2, e.a2), Mass(p.a3, e.a3);
    assert m1 >= 0.0 && m2 >= 0.0 && m3 >= 0.0 && d > 0.0 by {
      DenomBounds(p, e);
      SurvivingMass(p.a1, e.a1);
      SurvivingMass(p.a2, e.a2);
      SurvivingMass(p.a3, e.a3);
    }
    assert Revise(p, e).value == Triple(m1 / d, m2 / d, m3 / d);
    DivNonneg(m1, d);
    DivNonneg(m2, d);
    DivNonneg(m3, d);
    ReviseSumsToOne(p, e);
  }

  /** Two areas that were not searched this round (effectiveness 0) never lose
      belief, and keep their mutual ratio: p_i' * p_j == p_j' * p_i. */
  lemma UnsearchedAreasKeepRatio(p: Triple, e: Triple, r: Triple, i: int, j: int)
    requires IsDistribution(p) && IsFractionTriple(e)
    requires 1 <= i <= 3 && 1 <= j <= 3
    requires e.At(i) == 0.0 && e.At(j) == 0.0
    requires Revise(p, e) == Some(r)
    ensures r.At(i) >= p.At(i)
    ensures r.At(i) * p.At(j) == r.At(j) * p.At(i)
  {
    var d := Denom(p, e);
    var x, y := p.At(i), p.At(j);
    assert 0.0 < d <= 1.0 by {
      DenomBounds(p, e);
    }
    assert r.At(i) == x / d && r.At(j) == y / d by {
      ReviseAt(p, e, i);
      ReviseAt(p, e, j);
      assert Mass(x, 0.0) == x && Mass(y, 0.0) == y;
    }
    assert x / d >= x by {
      DivGrows(x, d);
    }
    ScaledPair(p, r, d, i, j);
  }

  /** When one area k with 0 < p_k < 1 is searched with positive effectiveness and the
      others are not searched, the belief in k strictly falls and every other area
      with positive belief strictly gains. */
  lemma SearchedAreaLosesOthersGain(p: Triple, e: Triple, k: int)
    requires IsDistribution(p) && IsFractionTriple(e)
    requires 1 <= k <= 3
    requires 0.0 < p.At(k) < 1.0 && e.At(k) > 0.0
    requires forall n | 1 <= n <= 3 && n != k :: e.At(n) == 0.0
    ensures Revise(p, e).Some?
    ensures Revise(p, e).value.At(k) < p.At(k)
    ensures forall n | 1 <= n <= 3 && n != k && p.At(n) > 0.0 :: Revise(p, e).value.At(n) > p.At(n)
  {
    var d, pk, ek := Denom(p, e), p.At(k), e.At(k);
    assert d == 1.0 - pk * ek by {
      DenomOneSearched(p, e, k);
    }
    assert 0.0 < d < 1.0 && Mass(pk, ek) / d < pk by {
      SearchedScalar(pk, ek);
    }
    assert Revise(p, e).value.At(k) < pk by {
      ReviseAt(p, e, k);
    }
    forall n | 1 <= n <= 3 && n != k && p.At(n) > 0.0
      ensures Revise(p, e).value.At(n) > p.At(n)
    {
      UnsearchedGains(p, e, n);
    }
  }

  /** An unsearched area with positive belief gains when the total surviving mass
      is below 1. */
  lemma UnsearchedGains(p: Triple, e: Triple, n: int)
    requires 1 <= n <= 3 && e.At(n) == 0.0 && p.At(n) > 0.0
    requires 0.0 < Denom(p, e) < 1.0
    ensures Revise(p, e).Some? && Revise(p, e).value.At(n) > p.At(n)
  {
    var d := Denom(p, e);
    assert Revise(p, e).value.At(n) == p.At(n) / d by {
      ReviseAt(p, e, n);
      assert Mass(p.At(n), 0.0) == p.At(n);
    }
    DivGrowsStrictly(p.At(n), d);
  }

  /** When only area k has non-zero effectiveness, denom == 1 - p_k * sep_k. */
  lemma DenomOneSearched(p: Triple, e: Triple, k: int)
    requires IsDistribution(p) && 1 <= k <= 3
    requires forall n | 1 <= n <= 3 && n != k :: e.At(n) == 0.0
    ensures Denom(p, e) == 1.0 - p.At(k) * e.At(k)
  {
    assert e.At(1) == e.a1 && e.At(2) == e.a2 && e.At(3) == e.a3;
    assert Mass(p.a1, 0.0) == p.a1 && Mass(p.a2, 0.0) == p.a2 && Mass(p.a3, 0.0) == p.a3;
  }

  /** The searched area's own arithmetic: with 0 < p < 1 and 0 < e <= 1, the denominator
      1 - p * e lies strictly between 0 and 1, and p * (1 - e) / (1 - p * e) < p. */
  lemma SearchedScalar(pk: real, ek: real)
    requires 0.0 < pk < 1.0 && 0.0 < ek <= 1.0
    ensures 0.0 < 1.0 - pk * ek < 1.0
    ensures Mass(pk, ek) / (1.0 - pk * ek) < pk
  {
    MulPos(pk, ek);
    MulAtMost(pk, ek);
    Distribute(pk, ek);
    RatioBelow(pk, pk * ek, Mass(pk, ek));
  }

  /** Removing x from p leaves less than p * (1 - x), so (p - x) / (1 - x) < p. */
  lemma RatioBelow(p: real, x: real, m: real)
    requires 0.0 < p < 1.0 && 0.0 < x < 1.0 && m == p - x
    ensures m / (1.0 - x) < p
  {
    MulShrinks(p, x);
    Distribute(p, x);
    assert m < p - p * x;
    DivBelow(m, 1.0 - x, p);
  }

  /** Scaling by a factor up to 1 never grows a non-negative value. */
  lemma MulAtMost(x: real, f: real)
    requires 0.0 <= f <= 1.0 && x >= 0.0
    ensures x * f <= x
  {
    assert x - x * f == x * (1.0 - f);
  }

  /** Scaling by a factor in (0, 1) strictly shrinks a positive value. */
  lemma MulShrinks(f: real, x: real)
    requires 0.0 < f < 1.0 && x > 0.0
    ensures f * x < x
  {
    MulPos(x, 1.0 - f);
    assert x - f * x == x * (1.0 - f);
  }

  lemma Distribute(a: real, b: real)
    ensures a * (1.0 - b) == a - a * b
  {
  }

  /** m < y * d with d > 0 gives m / d < y. */
  lemma DivBelow(m: real, d: real, y: real)
    requires d > 0.0 && m < y * d
    ensures m / d < y
  {
    var q := m / d;
    assert q * d == m;
    if q >= y {
      assert q * d >= y * d;
    }
  }

  /** The worked example: priors (0.2, 0.5, 0.3) after searching area 2 with
      effectiveness 0.5 become (4/15, 1/3, 2/5). */
  lemma WorkedExample()
    ensures Revise(Priors, Triple(0.0, 0.5, 0.0)) == Some(Triple(4.0 / 15.0, 1.0 / 3.0, 2.0 / 5.0))
  {
  }
}
