/** Facts about integer division, absolute value and greatest common divisors. */
module Arithmetic {

  function Abs(x: int): nat {
    if x < 0 then -x else x
  }

  function Min(x: int, y: int): int {
    if x <= y then x else y
  }

  function Max(x: int, y: int): int {
    if x <= y then y else x
  }

  lemma MulMonotone(a: int, b: int, c: int)
    requires a <= b && 0 <= c
    ensures a * c <= b * c && c * a <= c * b
  {
  }

  /** `a / b` is the largest q with q * b <= a. */
  lemma DivIsLargest(a: nat, b: int, q: int)
    requires 0 < b
    ensures (a / b) * b <= a < (a / b) * b + b
    ensures q * b <= a <==> q <= a / b
  {
    assert a == b * (a / b) + a % b;
    if q <= a / b {
      MulMonotone(q, a / b, b);
    } else {
      MulMonotone(a / b + 1, q, b);
    }
  }

  function Gcd(a: nat, b: nat): nat
    decreases b
  {
    if b == 0 then a else Gcd(b, a % b)
  }

  ghost predicate Divides(k: int, a: int) {
    exists m: int :: k * m == a
  }

  lemma DividesCombination(k: int, a: int, b: int, x: int, y: int)
    requires Divides(k, a) && Divides(k, b)
    ensures Divides(k, x * a + y * b)
  {
    var m :| k * m == a;
    var l :| k * l == b;
    assert k * (x * m + y * l) == x * (k * m) + y * (k * l);
  }

  lemma {:induction false} GcdDividesBoth(a: nat, b: nat)
    ensures Divides(Gcd(a, b), a) && Divides(Gcd(a, b), b)
    decreases b
  {
    if b == 0 {
      assert a * 1 == a;
      assert a * 0 == 0;
    } else {
      GcdDividesBoth(b, a % b);
      DividesCombination(Gcd(a, b), b, a % b, a / b, 1);
      assert a == (a / b) * b + 1 * (a % b);
    }
  }

  lemma DividesUnit(k: nat, a: int)
    requires Divides(k, a) && Abs(a) == 1
    ensures k == 1
  {
    var m :| k * m == a;
    if 2 <= k {
      if 1 <= m { MulMonotone(2, k, m); } else if m <= -1 { MulMonotone(2, k, -m); }
    }
  }

  /** Two numbers with an integer combination equal to one share no factor. */
  lemma BezoutCoprime(a: nat, b: nat, x: int, y: int)
    requires Abs(x * a + y * b) == 1
    ensures Gcd(a, b) == 1
  {
    GcdDividesBoth(a, b);
    DividesCombination(Gcd(a, b), a, b, x, y);
    DividesUnit(Gcd(a, b), x * a + y * b);
  }
}
