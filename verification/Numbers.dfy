/** Minimum, rounded-up quotients and multiples of natural numbers. */
module Numbers {
  function Least(a: nat, b: nat): nat {
    if a < b then a else b
  }

  /** The quotient rounded up. */
  function DivCeil(a: nat, b: nat): (q: nat)
    requires b > 0
  {
    if a % b > 0 then a / b + 1 else a / b
  }

  /** The quotient rounded up is the least count of size-`b` blocks that covers `a`. */
  lemma DivCeilCovers(a: nat, b: nat, q: nat)
    requires b > 0
    ensures q == DivCeil(a, b) <==> a <= q * b && (q > 0 ==> (q - 1) * b < a)
  {
    var c := DivCeil(a, b);
    DivCeilBounds(a, b);
    if q < c {
      MultipleMonotone(q, c - 1, b);
    } else if q > c {
      MultipleMonotone(c, q - 1, b);
    }
  }

  lemma DivCeilBounds(a: nat, b: nat)
    requires b > 0
    ensures var c := DivCeil(a, b); a <= c * b && (c > 0 ==> (c - 1) * b < a)
  {
    var d := a / b;
    QuotientParts(a, b);
    assert (d + 1) * b == d * b + b;
    assert (d - 1) * b == d * b - b;
  }

  lemma MultipleMonotone(a: nat, b: nat, d: nat)
    requires a <= b
    ensures a * d <= b * d
  {}

  lemma OneMultiple(a: nat, b: nat, d: nat)
    requires a < b
    ensures a * d + d <= b * d
  {
    assert b * d == a * d + (b - a) * d;
    assert (b - a) * d == d + (b - a - 1) * d;
  }

  lemma NextMultiple(q: nat, d: nat)
    ensures (q + 1) * d == q * d + d
  {}

  lemma QuotientParts(x: nat, d: nat)
    requires d > 0
    ensures x == (x / d) * d + x % d && x % d < d
  {}

  /** A multiple fits below `x` exactly when its factor is at most the quotient. */
  lemma MultipleFitsIff(q: nat, d: nat, x: nat)
    requires d > 0
    ensures q * d <= x <==> q <= x / d
  {
    QuotientParts(x, d);
    if q <= x / d {
      MultipleMonotone(q, x / d, d);
    } else {
      OneMultiple(x / d, q, d);
    }
  }

  lemma QuotientOfMultiple(q: nat, d: nat)
    requires d > 0
    ensures q * d / d == q
  {
    var q' := q * d / d;
    QuotientParts(q * d, d);
    if q' < q {
      OneMultiple(q', q, d);
    } else if q < q' {
      OneMultiple(q, q', d);
    }
  }

  lemma QuotientOfQuotient(n: nat, a: nat, b: nat)
    requires a > 0 && b > 0
    ensures a * b > 0 && n / a / b == n / (a * b)
  {
    var q, r := n / a / b, n / a % b;
    QuotientParts(n, a);
    QuotientParts(n / a, b);
    OneMultiple(r, b, a);
    Regroup(q, a, b, r);
    QuotientUnique(n, a * b, q, r * a + n % a);
  }

  lemma Regroup(q: nat, a: nat, b: nat, r: nat)
    ensures (q * b + r) * a == q * (a * b) + r * a && a * b == b * a
    ensures a > 0 && b > 0 ==> a * b > 0
  {
    assert q * (a * b) == q * b * a;
  }

  lemma QuotientUnique(x: nat, n: nat, q: nat, r: nat)
    requires n > 0 && x == q * n + r && r < n
    ensures x / n == q
  {
    QuotientParts(x, n);
    if q < x / n {
      OneMultiple(q, x / n, n);
    } else if x / n < q {
      OneMultiple(x / n, q, n);
    }
  }

  /** The remainder by repeated subtraction. */
  function Wrap(x: nat, n: nat): (r: nat)
    requires n > 0
    ensures r < n
  {
    if x < n then x else Wrap(x - n, n)
  }

  lemma WrapSmall(x: nat, n: nat)
    requires x < n
    ensures Wrap(x, n) == x
  {}

  /** It is the remainder of the division. */
  lemma {:induction false} WrapIsModulo(x: nat, n: nat)
    requires n > 0
    ensures Wrap(x, n) == x % n
  {
    if x >= n {
      WrapIsModulo(x - n, n);
      ModuloStep(x, n);
    }
  }

  lemma ModuloStep(x: nat, n: nat)
    requires 0 < n <= x
    ensures (x - n) % n == x % n
  {
    var q, r := x / n, x % n;
    assert x - n == (q - 1) * n + r;
    RemainderUnique(x - n, n, q - 1, r);
  }

  lemma RemainderUnique(x: nat, n: nat, q: int, r: nat)
    requires n > 0 && x == q * n + r && r < n
    ensures x % n == r
  {
    var q', r' := x / n, x % n;
    assert (q - q') * n == r' - r;
    if q > q' {
      MultipleAtLeast(q - q', n);
    } else if q < q' {
      MultipleAtLeast(q' - q, n);
    }
  }

  lemma MultipleAtLeast(a: nat, n: nat)
    requires a >= 1
    ensures a * n >= n
  {}
}
