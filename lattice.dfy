/** The divisor lattice both test suites build: numbers below a bound, with
    an edge from b to a whenever a is b times a prime. */
module Lattice {

  /** What the suites' `isPrime` decides: no divisor between 2 and x - 1.
      Like the trial-division loop, this also holds of 0 and 1. */
  ghost predicate NoProperDivisor(x: int)
  {
    forall d :: 2 <= d < x ==> x % d != 0
  }

  /** The primes the suites' lattice cases step by. */
  lemma SmallPrimes()
    ensures NoProperDivisor(2) && NoProperDivisor(3) && NoProperDivisor(5) && NoProperDivisor(7)
  {
    forall d | 2 <= d < 5 ensures 5 % d != 0 {
      assert d == 2 || d == 3 || d == 4;
    }
    forall d | 2 <= d < 7 ensures 7 % d != 0 {
      assert d == 2 || d == 3 || d == 4 || d == 5 || d == 6;
    }
  }

  lemma MulMonotone(a: int, b: int, c: int, d: int)
    requires 0 <= a <= c && 0 <= b <= d
    ensures a * b <= c * d
  {
    assert a * b <= c * b;
    assert c * b <= c * d;
  }

  /** A multiple of `e` leaves no remainder. */
  lemma MultipleMod(e: int, k: int)
    requires e > 0
    ensures (e * k) % e == 0 && (e * k) / e == k
  {
    var q, r := (e * k) / e, (e * k) % e;
    assert e * k == e * q + r && 0 <= r < e;
    assert e * (k - q) == r;
    if k - q >= 1 {
      MulMonotone(1, e, k - q, e);
    } else if k - q <= -1 {
      MulMonotone(1, e, q - k, e);
    }
  }

  /** A divisor at or above the square-root bound has a cofactor below it. */
  lemma CofactorBelow(x: int, d: int, i: int)
    requires 2 <= d < x && x % d == 0
    requires 2 <= i <= d && x < i * i
    ensures 2 <= x / d < i && x % (x / d) == 0
  {
    var e := x / d;
    assert x == d * e;
    if e >= i {
      MulMonotone(i, i, d, e);
    }
    MultipleMod(e, d);
  }

  /** `isPrime(x)`: trial division by every i with i * i <= x (the source
      compares i with Math.sqrt(x), the same bound for whole numbers). */
  method IsPrime(x: int) returns (r: bool)
    ensures r <==> NoProperDivisor(x)
  {
    var i := 2;
    while i * i <= x
      invariant 2 <= i
      invariant forall d :: 2 <= d < i && d < x ==> x % d != 0
    {
      if x % i == 0 {
        MulMonotone(2, i, i, i);
        return false;
      }
      i := i + 1;
    }
    forall d | 2 <= d < x ensures x % d != 0 {
      if d >= i && x % d == 0 {
        CofactorBelow(x, d, i);
        assert false;
      }
    }
    return true;
  }

  /** The edge `createGraph` adds from b to a below `aMax`, labelled a / b. */
  ghost predicate LatticeEdge(b: int, p: int, a: int, aMax: int)
  {
    1 <= b < a < aMax && a % b == 0 && p == a / b && NoProperDivisor(p)
  }

  /** A lattice edge multiplies its source by a prime label. */
  lemma LatticeEdgeStep(b: int, p: int, a: int, aMax: int)
    requires LatticeEdge(b, p, a, aMax)
    ensures a == b * p && p >= 2 && 1 <= b
  {
    assert a == b * p;
    if p <= 1 {
      MulMonotone(b, 0, b, 1);
    }
  }

  /** The least divisor above 1 of a number above 1 is a prime. */
  lemma {:induction false} PrimeFactor(n: int) returns (p: int)
    requires n >= 2
    ensures 2 <= p <= n && n % p == 0 && NoProperDivisor(p)
    decreases n
  {
    if NoProperDivisor(n) {
      p := n;
    } else {
      var d :| 2 <= d < n && n % d == 0;
      p := PrimeFactor(d);
      var k := (d / p) * (n / d);
      assert n == d * (n / d) && d == p * (d / p);
      assert n == p * k;
      MultipleMod(p, k);
    }
  }

  /** Every number in 2 .. aMax - 1 is entered by the lattice edge from
      its quotient by any prime factor. */
  lemma LatticeEdgeInto(n: int, p: int, aMax: int)
    requires 2 <= n < aMax && 2 <= p && n % p == 0 && NoProperDivisor(p)
    ensures LatticeEdge(n / p, p, n, aMax)
  {
    var m := n / p;
    assert n == m * p;
    if m <= 0 {
      MulMonotone(0, p, -m, p);
    }
    MulMonotone(m, 2, m, p);
    MultipleMod(m, p);
  }

  /** Two lattice edges with the same label share their source exactly when
      they share their target, so the builder never gives a pair of the
      store's indices two partners. */
  lemma LatticeEdgesAgree(b: int, b': int, p: int, a: int, a': int, aMax: int)
    requires LatticeEdge(b, p, a, aMax) && LatticeEdge(b', p, a', aMax)
    ensures b == b' <==> a == a'
  {
    LatticeEdgeStep(b, p, a, aMax);
    LatticeEdgeStep(b', p, a', aMax);
    if b < b' {
      MulMonotone(b + 1, p, b', p);
    } else if b' < b {
      MulMonotone(b' + 1, p, b, p);
    }
  }
}
