/** The int32 fraction that stands for a seven-decimal offer price (offer_service.py). */
module PriceRatios {
  import opened Models
  import opened Arithmetic

  datatype PriceRatio = PriceRatio(n: pos, d: pos)

  /** How far the fraction p/q is from a price in units of one ten-millionth, scaled by both denominators. */
  function Residual(price: int, p: int, q: int): nat {
    Abs(price * q - 10_000_000 * p)
  }

  /**
   * No fraction leaves a smaller residual: none with a denominator up to that of `r`, and none
   * at all with an int32 numerator, whatever its denominator.
   */
  ghost predicate BestApproximation(price: int, r: PriceRatio) {
    forall p: int, q: int :: 1 <= q && (q <= r.d || p <= 2_147_483_647) ==> Residual(price, r.n, r.d) <= Residual(price, p, q)
  }

  predicate InInt32Box(r: PriceRatio) {
    r.n <= 2_147_483_647 && r.d <= 2_147_483_647
  }

  /** The price as a fraction in lowest terms fits the int32 box. */
  predicate FitsExactly(price: nat) {
    price <= INT32_MAX * Gcd(price, STROOP_SCALE)
  }

  /**
   * Consecutive convergents c = cn/cd and p = pn/pd of price/STROOP_SCALE, with the part
   * num/den of the continued fraction that is still to be expanded.
   */
  ghost predicate Expansion(price: int, cn: int, cd: int, pn: int, pd: int, num: int, den: int, sign: int) {
    && (sign == 1 || sign == -1)
    && cn * pd - pn * cd == sign
    && price == cn * num + pn * den
    && STROOP_SCALE == cd * num + pd * den
    && 0 <= cd && 0 <= pd && 0 <= den
  }

  lemma ExpansionStep(price: int, cn: int, cd: int, pn: int, pd: int, num: int, den: int, sign: int, k: int)
    requires Expansion(price, cn, cd, pn, pd, num, den, sign)
    requires 0 < den && k == num / den && 0 <= k * cd + pd
    ensures Expansion(price, k * cn + pn, k * cd + pd, cn, cd, den, num % den, -sign)
  {
    var r := num % den;
    assert num == k * den + r;
    StepDeterminant(cn, cd, pn, pd, k);
    StepCombination(cn, pn, den, r, k);
    StepCombination(cd, pd, den, r, k);
  }

  lemma StepDeterminant(cn: int, cd: int, pn: int, pd: int, k: int)
    ensures (k * cn + pn) * cd - cn * (k * cd + pd) == -(cn * pd - pn * cd)
  {
    assert (k * cn) * cd == cn * (k * cd);
  }

  lemma StepCombination(c: int, p: int, den: int, r: int, k: int)
    ensures (k * c + p) * den + c * r == c * (k * den + r) + p * den
  {
    assert (k * c) * den == c * (k * den);
  }

  /** The residual of the current convergent is the part left to expand. */
  lemma ResidualIsRemainder(price: int, cn: int, cd: int, pn: int, pd: int, num: int, den: int, sign: int)
    requires Expansion(price, cn, cd, pn, pd, num, den, sign)
    ensures Residual(price, cn, cd) == den
  {
    assert price * cd - STROOP_SCALE * cn == (cn * num + pn * den) * cd - (cd * num + pd * den) * cn;
    assert (cn * num + pn * den) * cd - (cd * num + pd * den) * cn == -(cn * pd - pn * cd) * den;
    assert -(cn * pd - pn * cd) * den == -sign * den;
  }

  /** The residual of the convergent before it is the part it was expanded from. */
  lemma PreviousResidual(price: int, cn: int, cd: int, pn: int, pd: int, num: int, den: int, sign: int)
    requires Expansion(price, cn, cd, pn, pd, num, den, sign) && 0 <= num
    ensures Residual(price, pn, pd) == num
  {
    assert price * pd - STROOP_SCALE * pn == (cn * num + pn * den) * pd - (cd * num + pd * den) * pn;
    assert (cn * num + pn * den) * pd - (cd * num + pd * den) * pn == (cn * pd - pn * cd) * num;
    assert (cn * pd - pn * cd) * num == sign * num;
  }

  /** Below the larger of two convergents in one coordinate, every lattice point leaves at least `num`. */
  lemma CombinationAtLeast(big: int, small: int, num: int, den: int, x: int, y: int)
    requires 0 <= small <= big && 0 <= num && 0 <= den
    requires 1 <= x * big + y * small < big
    ensures num <= Abs(y * num - x * den)
  {
    if 1 <= x {
      MulMonotone(1, x, big);
      if 0 <= y { MulMonotone(0, y, small); }
      MulMonotone(y, -1, num);
      MulMonotone(1, x, den);
    } else {
      MulMonotone(x, 0, big);
      if y <= 0 { MulMonotone(y, 0, small); }
      MulMonotone(1, y, num);
      MulMonotone(x, 0, den);
    }
  }

  /** Any pair (p, q) in the basis of two convergents whose determinant is `sign`. */
  lemma InBasis(cn: int, cd: int, pn: int, pd: int, p: int, q: int)
    ensures (p * pd - q * pn) * cd + (q * cn - p * cd) * pd == q * (cn * pd - pn * cd)
    ensures (p * pd - q * pn) * cn + (q * cn - p * cd) * pn == p * (cn * pd - pn * cd)
  {
    assert (p * pd - q * pn) * cd == p * pd * cd - q * pn * cd;
    assert (q * cn - p * cd) * pd == q * cn * pd - p * cd * pd;
    assert (p * pd - q * pn) * cn == p * pd * cn - q * pn * cn;
    assert (q * cn - p * cd) * pn == q * cn * pn - p * cd * pn;
  }

  lemma InCoordinates(u: int, v: int, cd: int, pd: int, sign: int, q: int)
    requires sign == 1 || sign == -1
    requires u * cd + v * pd == q * sign
    ensures sign * u * cd + sign * v * pd == q
  {
    if sign == -1 {
      assert -u * cd + -v * pd == -(u * cd + v * pd);
    }
  }

  lemma ResidualInBasis(price: int, cn: int, cd: int, pn: int, pd: int, num: int, den: int, p: int, q: int)
    requires price == cn * num + pn * den
    requires STROOP_SCALE == cd * num + pd * den
    ensures price * q - STROOP_SCALE * p == (q * cn - p * cd) * num - (p * pd - q * pn) * den
  {
    assert price * q == (q * cn) * num + (q * pn) * den;
    assert STROOP_SCALE * p == (p * cd) * num + (p * pd) * den;
  }

  lemma SignIrrelevant(a: int, b: int, num: int, den: int, sign: int)
    requires sign == 1 || sign == -1
    ensures Abs(sign * a * num - sign * b * den) == Abs(a * num - b * den)
  {
    if sign == -1 {
      assert -a * num == -(a * num) && -b * den == -(b * den);
    }
  }

  /**
   * A convergent p leaves no larger a residual than any fraction whose numerator or whose
   * denominator is still below that of the next convergent c.
   */
  lemma CloserThanAny(price: int, cn: int, cd: int, pn: int, pd: int, num: int, den: int, sign: int, p: int, q: int)
    requires Expansion(price, cn, cd, pn, pd, num, den, sign) && 0 <= num
    requires (1 <= q < cd && pd <= cd) || (1 <= p < cn && 0 <= pn <= cn)
    ensures Residual(price, pn, pd) <= Residual(price, p, q)
  {
    var u, v := p * pd - q * pn, q * cn - p * cd;
    var x, y := sign * u, sign * v;
    assert x * cd + y * pd == q && x * cn + y * pn == p by {
      InBasis(cn, cd, pn, pd, p, q);
      InCoordinates(u, v, cd, pd, sign, q);
      InCoordinates(u, v, cn, pn, sign, p);
    }
    assert Residual(price, p, q) == Abs(y * num - x * den) by {
      ResidualInBasis(price, cn, cd, pn, pd, num, den, p, q);
      SignIrrelevant(v, u, num, den, sign);
    }
    assert num <= Abs(y * num - x * den) by {
      if 1 <= q < cd && pd <= cd { CombinationAtLeast(cd, pd, num, den, x, y); }
      else { CombinationAtLeast(cn, pn, num, den, x, y); }
    }
    PreviousResidual(price, cn, cd, pn, pd, num, den, sign);
  }

  /** What the conversion promises for every price it can represent. */
  ghost predicate BestInt32Ratio(price: nat, r: PriceRatio) {
    && InInt32Box(r)
    && Gcd(r.n, r.d) == 1
    && BestApproximation(price, r)
    && (Residual(price, r.n, r.d) == 0 <==> FitsExactly(price))
    && (Residual(price, r.n, r.d) != 0 ==> Residual(price, r.n, r.d) * INT32_MAX < price)
  }

  /** Where the loop of the conversion stands after `steps` rounds. */
  ghost predicate Progress(price: int, steps: nat, cn: int, cd: int, pn: int, pd: int, num: int, den: int) {
    && 0 < den
    && (steps == 0 ==> (cn, cd, pn, pd, num, den) == (1, 0, 0, 1, price, STROOP_SCALE))
    && (1 <= steps ==> den < num && Landed(price, steps, cn, cd, pn, pd))
    && (steps == 1 ==> num == STROOP_SCALE && (cn == 0 ==> den == price))
  }

  /** Signs and sizes of the two latest convergents after at least one round. */
  ghost predicate Landed(price: int, steps: nat, cn: int, cd: int, pn: int, pd: int) {
    && cn <= INT32_MAX && 1 <= cd <= INT32_MAX && 0 <= pd <= INT32_MAX
    && (steps == 1 ==> (cd, pn, pd) == (1, 1, 0) && (price < 0 ==> cn <= -1) && (0 < price ==> 0 <= cn))
    && (2 <= steps ==> 1 <= pd)
    && (2 <= steps && 0 < price ==> 1 <= cn && 0 <= pn)
    && (2 <= steps && price < 0 ==> cn <= 0 && pn <= 0)
  }

  lemma NextLanded(price: int, steps: nat, cn: int, cd: int, pn: int, pd: int, num: int, den: int, sign: int, k: int)
    requires Expansion(price, cn, cd, pn, pd, num, den, sign)
    requires Progress(price, steps, cn, cd, pn, pd, num, den)
    requires price <= STROOP_SCALE * INT32_MAX
    requires k == num / den && k * cn + pn <= INT32_MAX && k * cd + pd <= INT32_MAX
    ensures Landed(price, steps + 1, k * cn + pn, k * cd + pd, cn, cd)
    ensures steps == 0 && k == 0 ==> num % den == price
  {
    assert num == k * den + num % den;
    if steps == 0 {
      if price < 0 && 0 <= k { MulMonotone(0, k, den); }
      if 0 <= price && k <= -1 { MulMonotone(k, -1, den); }
    } else {
      if k <= 0 { MulMonotone(k, 0, den); }
      assert 1 <= k;
      MulMonotone(1, k, cd);
      if 0 < price { MulMonotone(1, k, cn); }
      if price < 0 {
        MulMonotone(cn, 0, k);
        if steps == 1 { MulMonotone(cn, -1, k); }
      }
    }
  }

  /**
   * The loop only ends with something left to expand because the next numerator does not fit;
   * what is left is then tiny, and the next convergent k*c + p is larger in both parts.
   */
  lemma StoppedEarly(price: int, steps: nat, cn: int, cd: int, pn: int, pd: int, num: int, den: int, sign: int, k: int)
    requires Expansion(price, cn, cd, pn, pd, num, den, sign)
    requires Progress(price, steps, cn, cd, pn, pd, num, den)
    requires 1 <= price <= STROOP_SCALE * INT32_MAX
    requires k == num / den
    requires den * INT32_MAX < num || INT32_MAX < k * cn + pn || INT32_MAX < k * cd + pd
    ensures 1 <= steps && 1 <= cn <= k * cn + pn && cd < k * cd + pd
    ensures INT32_MAX < k * cn + pn && den * INT32_MAX < price
  {
    var r := num % den;
    assert num == k * den + r;
    assert steps != 0 by {
      if steps == 0 { DivIsLargest(price, STROOP_SCALE, INT32_MAX + 1); }
    }
    if k <= 0 { MulMonotone(k, 0, den); }
    assert 1 <= k;
    MulMonotone(1, k, cd);
    assert num <= STROOP_SCALE by {
      MulMonotone(1, cd, num);
      MulMonotone(0, pd, den);
    }
    MulMonotone(1, den, INT32_MAX);
    assert !(INT32_MAX < k * cd + pd) by {
      assert (k * cd + pd) * den + cd * r == STROOP_SCALE by {
        assert cd * num == cd * (k * den) + cd * r;
      }
      MulMonotone(0, cd, r);
      if INT32_MAX < k * cd + pd { MulMonotone(INT32_MAX, k * cd + pd, den); }
    }
    NextNumerator(price, cn, pn, num, den, k);
    if steps == 1 && k == 1 {
      MulMonotone(INT32_MAX, cn, num);
    }
  }

  lemma NextNumerator(price: int, cn: int, pn: int, num: int, den: int, k: int)
    requires price == cn * num + pn * den && 0 < den && 1 <= k == num / den
    requires 0 <= cn && 0 <= pn && (cn == 0 ==> pn <= 1) && INT32_MAX < k * cn + pn
    ensures 1 <= cn <= k * cn + pn && den * INT32_MAX < price
  {
    var r := num % den;
    assert num == k * den + r;
    assert (k * cn + pn) * den + cn * r == price by {
      assert cn * num == cn * (k * den) + cn * r;
    }
    MulMonotone(0, cn, r);
    MulMonotone(1, k, cn);
    MulMonotone(INT32_MAX + 1, k * cn + pn, den);
  }

  lemma CommonFactorAtMost(g: nat, a: int)
    requires Divides(g, a) && 0 < a
    ensures g <= a
  {
    var m :| g * m == a;
    if m <= 0 { MulMonotone(m, 0, g); }
    MulMonotone(1, m, g);
  }

  lemma ConvergentCoprime(price: int, cn: nat, cd: nat, pn: int, pd: int, num: int, den: int, sign: int)
    requires Expansion(price, cn, cd, pn, pd, num, den, sign)
    ensures Gcd(cn, cd) == 1
  {
    assert pd * cn + -pn * cd == sign;
    BezoutCoprime(cn, cd, pd, -pn);
  }

  /** With nothing left to expand the convergent is the price itself. */
  lemma StoppedExactly(price: nat, cn: int, cd: int, pn: int, pd: int, num: nat, sign: int)
    requires 1 <= price && Expansion(price, cn, cd, pn, pd, num, 0, sign)
    requires 1 <= cn <= INT32_MAX && 1 <= cd <= INT32_MAX
    requires Gcd(num, 0) == Gcd(price, STROOP_SCALE)
    ensures BestInt32Ratio(price, PriceRatio(cn, cd))
  {
    ResidualIsRemainder(price, cn, cd, pn, pd, num, 0, sign);
    ConvergentCoprime(price, cn, cd, pn, pd, num, 0, sign);
    MulMonotone(cn, INT32_MAX, num);
  }

  /** A fraction that is not positive is farther away than the price itself. */
  lemma NotPositive(price: nat, p: int, q: int)
    requires 1 <= q && p <= 0
    ensures price <= Residual(price, p, q)
  {
    MulMonotone(1, q, price);
  }

  /** The convergent the loop stopped at, with more to expand, meets the whole promise. */
  lemma StoppedConvergent(price: nat, cn: int, cd: int, pn: int, pd: int, num: nat, den: nat, sign: int, k: int)
    requires 1 <= price && 0 < den && k == num / den
    requires Expansion(price, cn, cd, pn, pd, num, den, sign)
    requires 1 <= cn <= INT32_MAX && 1 <= cd <= INT32_MAX
    requires Gcd(num, den) == Gcd(price, STROOP_SCALE)
    requires cn <= k * cn + pn && cd < k * cd + pd && INT32_MAX < k * cn + pn
    requires den * INT32_MAX < price
    ensures BestInt32Ratio(price, PriceRatio(cn, cd))
  {
    hide Gcd;
    var r := PriceRatio(cn, cd);
    ResidualIsRemainder(price, cn, cd, pn, pd, num, den, sign);
    assert BestApproximation(price, r) by {
      hide Expansion, Residual;
      ExpansionStep(price, cn, cd, pn, pd, num, den, sign, k);
      forall p: int, q: int | 1 <= q && (q <= r.d || p <= INT32_MAX)
        ensures Residual(price, r.n, r.d) <= Residual(price, p, q)
      {
        if p <= 0 { NotPositive(price, p, q); }
        else { CloserThanAny(price, k * cn + pn, k * cd + pd, cn, cd, den, num % den, -sign, p, q); }
      }
    }
    ConvergentCoprime(price, cn, cd, pn, pd, num, den, sign);
    var g := Gcd(num, den);
    GcdDividesBoth(num, den);
    CommonFactorAtMost(g, den);
    MulMonotone(g, den, INT32_MAX);
  }

  /** The loop of the conversion, between two rounds. */
  ghost predicate Running(price: int, steps: nat, cn: int, cd: int, pn: int, pd: int, num: int, den: int, sign: int) {
    && Expansion(price, cn, cd, pn, pd, num, den, sign)
    && Progress(price, steps, cn, cd, pn, pd, num, den)
    && (1 <= price ==> 1 <= num && Gcd(num, den) == Gcd(price, STROOP_SCALE))
    && (price == 0 ==> steps == 0)
    && (1 <= steps ==> price <= STROOP_SCALE * INT32_MAX)
  }

  /** Where the loop leaves its two latest convergents. */
  ghost predicate Finished(price: int, cn: int, cd: int, pn: int, pd: int) {
    && (STROOP_SCALE * INT32_MAX < price ==> (cn, cd, pn, pd) == (1, 0, 0, 1))
    && (price == 0 ==> (cn, cd, pn, pd) == (0, 1, 1, 0))
    && (price < 0 ==> cn <= 0 && 1 <= cd <= INT32_MAX && 0 <= pd && pn <= 1 && (pn == 1 ==> cn <= -1))
    && (1 <= price <= STROOP_SCALE * INT32_MAX ==>
          1 <= cn && 1 <= cd && BestInt32Ratio(price, PriceRatio(cn, cd)))
  }

  lemma RunningAtStart(price: int)
    ensures Running(price, 0, 1, 0, 0, 1, price, STROOP_SCALE, 1)
  {
  }

  /** One round of the loop carries on from the next convergent, or lands on the price. */
  lemma NextRound(price: int, steps: nat, cn: int, cd: int, pn: int, pd: int, num: int, den: int, sign: int, k: int)
    requires Running(price, steps, cn, cd, pn, pd, num, den, sign)
    requires num <= den * INT32_MAX
    requires k == num / den && k * cn + pn <= INT32_MAX && k * cd + pd <= INT32_MAX
    ensures num % den != 0 ==>
      Running(price, steps + 1, k * cn + pn, k * cd + pd, cn, cd, den, num % den, -sign)
    ensures num % den == 0 ==> Finished(price, k * cn + pn, k * cd + pd, cn, cd)
  {
    hide Expansion, BestInt32Ratio, Gcd, Landed, Finished;
    PriceInRange(price, steps, cn, cd, pn, pd, num, den, sign);
    NextLanded(price, steps, cn, cd, pn, pd, num, den, sign, k);
    LandedDenominator(price, steps + 1, k * cn + pn, k * cd + pd, cn, cd);
    ExpansionStep(price, cn, cd, pn, pd, num, den, sign, k);
    GcdStep(num, den);
    if num % den == 0 {
      LastRound(price, steps, k * cn + pn, k * cd + pd, cn, cd, den, -sign);
    }
  }

  lemma PriceInRange(price: int, steps: nat, cn: int, cd: int, pn: int, pd: int, num: int, den: int, sign: int)
    requires Running(price, steps, cn, cd, pn, pd, num, den, sign) && num <= den * INT32_MAX
    ensures price <= STROOP_SCALE * INT32_MAX
  {
  }

  lemma LandedDenominator(price: int, steps: nat, cn: int, cd: int, pn: int, pd: int)
    requires Landed(price, steps, cn, cd, pn, pd)
    ensures 1 <= cd
  {
  }

  lemma GcdStep(num: int, den: int)
    requires 0 < den
    ensures 0 <= num ==> Gcd(num, den) == Gcd(den, num % den)
  {
  }

  lemma LastRound(price: int, steps: nat, cn: int, cd: int, pn: int, pd: int, num: int, sign: int)
    requires Expansion(price, cn, cd, pn, pd, num, 0, sign) && Landed(price, steps + 1, cn, cd, pn, pd)
    requires 0 < num && price <= STROOP_SCALE * INT32_MAX
    requires 1 <= price ==> Gcd(num, 0) == Gcd(price, STROOP_SCALE)
    requires price == 0 ==> (pn, pd) == (1, 0)
    ensures Finished(price, cn, cd, pn, pd)
  {
    hide BestInt32Ratio, Gcd;
    assert price == cn * num && STROOP_SCALE == cd * num;
    if 1 <= price {
      if cn <= 0 { MulMonotone(cn, 0, num); }
      StoppedExactly(price, cn, cd, pn, pd, num, sign);
    }
    if price == 0 {
      if 1 <= cn { MulMonotone(1, cn, num); }
      if cn <= -1 { MulMonotone(cn, -1, num); }
    }
  }

  lemma FinishedEarly(price: int, steps: nat, cn: int, cd: int, pn: int, pd: int, num: int, den: int, sign: int, k: int)
    requires Running(price, steps, cn, cd, pn, pd, num, den, sign)
    requires k == num / den
    requires den * INT32_MAX < num || INT32_MAX < k * cn + pn || INT32_MAX < k * cd + pd
    ensures Finished(price, cn, cd, pn, pd)
  {
    hide Expansion, BestInt32Ratio;
    if 1 <= price <= STROOP_SCALE * INT32_MAX {
      StoppedEarly(price, steps, cn, cd, pn, pd, num, den, sign, k);
      StoppedConvergent(price, cn, cd, pn, pd, num, den, sign, k);
    }
  }

  /** `_stellar_price_ratio`: the price, in stroops, as a fraction of two int32 numbers. */
  method StellarPriceRatio(price: int) returns (r: Result<PriceRatio>)
    ensures r.Failure? <==> price < 0
    ensures price == 0 ==> r == Success(PriceRatio(1, INT32_MAX))
    ensures STROOP_SCALE * INT32_MAX < price ==> r == Success(PriceRatio(INT32_MAX, 1))
    ensures 1 <= price <= STROOP_SCALE * INT32_MAX ==> r.Success? && BestInt32Ratio(price, r.value)
  {
    hide BestInt32Ratio, Running;
    var numerator, denominator := price, STROOP_SCALE as int;
    var previousN, previousD := 0, 1;
    var currentN, currentD := 1, 0;
    var bestN, bestD := currentN, currentD;
    ghost var steps: nat, sign := 0, 1;
    RunningAtStart(price);

    while true
      invariant Running(price, steps, currentN, currentD, previousN, previousD, numerator, denominator, sign)
      invariant 0 < denominator
      invariant bestN == currentN && bestD == currentD
      decreases denominator
    {
      if numerator > denominator * INT32_MAX {
        FinishedEarly(price, steps, currentN, currentD, previousN, previousD, numerator, denominator, sign,
                      numerator / denominator);
        break;
      }
      var coefficient := numerator / denominator;
      var nextN := coefficient * currentN + previousN;
      var nextD := coefficient * currentD + previousD;
      if nextN > INT32_MAX || nextD > INT32_MAX {
        FinishedEarly(price, steps, currentN, currentD, previousN, previousD, numerator, denominator, sign, coefficient);
        break;
      }
      NextRound(price, steps, currentN, currentD, previousN, previousD, numerator, denominator, sign, coefficient);
      bestN, bestD := nextN, nextD;
      previousN, previousD := currentN, currentD;
      currentN, currentD := nextN, nextD;
      steps, sign := steps + 1, -sign;
      var remainder := numerator % denominator;
      if remainder == 0 {
        break;
      }
      numerator, denominator := denominator, remainder;
    }
    assert Finished(price, currentN, currentD, previousN, previousD);
    if bestN <= 0 || bestD <= 0 {
      var coefficient: int := INT32_MAX;
      if currentN > 0 {
        coefficient := Min(coefficient, (INT32_MAX - previousN) / currentN);
      }
      if currentD > 0 {
        coefficient := Min(coefficient, (INT32_MAX - previousD) / currentD);
      }
      if coefficient >= 1 {
        var recoveredN := coefficient * currentN + previousN;
        var recoveredD := coefficient * currentD + previousD;
        if price < 0 {
          MulMonotone(currentN, 0, coefficient);
          MulMonotone(currentN, if previousN == 1 then -1 else 0, coefficient);
        }
        if 0 < recoveredN <= INT32_MAX && 0 < recoveredD <= INT32_MAX {
          bestN, bestD := recoveredN, recoveredD;
        }
      }
    }
    if bestN <= 0 || bestD <= 0 {
      return Failure(InvalidAmount);
    }
    return Success(PriceRatio(bestN, bestD));
  }
}
