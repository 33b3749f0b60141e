/** Facts about forward paths that pin down what a search can return on a
    particular graph: a set of nodes closed under predecessors, a depth
    that every edge raises by one, and edges that multiply their source by
    a prime (the divisor lattice of both suites). */
module PathFacts {
  import opened Common
  import opened Graph
  import opened Lattice

  /** Every edge into `S` starts in `S`. */
  ghost predicate Closed(E: seq<Edge>, S: set<Value>)
  {
    forall e :: e in E && e.dst in S ==> e.src in S
  }

  /** A path into a predecessor-closed set starts inside it. */
  lemma {:induction false} FollowsClosed(E: seq<Edge>, S: set<Value>, x: Value, steps: seq<Step>, y: Value)
    requires Closed(E, S) && y in S
    requires Follows(E, x, steps, y)
    ensures x in S
    decreases |steps|
  {
    if steps != [] {
      FollowsClosed(E, S, steps[0].n, steps[1..], y);
      assert Edge(x, steps[0].l, steps[0].n) in E;
    }
  }

  /** Every edge goes from a node of depth d to a node of depth d + 1. */
  ghost predicate Graded(E: seq<Edge>, depth: map<Value, int>)
  {
    forall e :: e in E ==> e.src in depth && e.dst in depth && depth[e.dst] == depth[e.src] + 1
  }

  /** In a graded graph every path has as many hops as it climbs levels. */
  lemma {:induction false} FollowsDepth(E: seq<Edge>, depth: map<Value, int>, x: Value, steps: seq<Step>, y: Value)
    requires Graded(E, depth) && y in depth
    requires Follows(E, x, steps, y)
    ensures x in depth && |steps| == depth[y] - depth[x]
    decreases |steps|
  {
    if steps != [] {
      FollowsDepth(E, depth, steps[0].n, steps[1..], y);
      assert Edge(x, steps[0].l, steps[0].n) in E;
    }
  }

  /** The edge goes from a positive number b to b times a prime. */
  ghost predicate Multiplies(e: Edge)
  {
    e.src.Num? && e.dst.Num? && 1 <= e.src.n < e.dst.n && e.dst.n % e.src.n == 0 &&
    NoProperDivisor(e.dst.n / e.src.n)
  }

  ghost predicate AllMultiply(E: seq<Edge>)
  {
    forall e :: e in E ==> Multiplies(e)
  }

  lemma MultipliesStep(e: Edge)
    requires Multiplies(e)
    ensures e.dst.n == e.src.n * (e.dst.n / e.src.n) && e.dst.n / e.src.n >= 2
  {
    LatticeEdgeStep(e.src.n, e.dst.n / e.src.n, e.dst.n, e.dst.n + 1);
  }

  /** Along a path of multiplying edges the target is the start times a
      factor `k`: 1 for the empty path, at least 2 otherwise, and a prime
      for a single hop. */
  lemma {:induction false} FollowsScales(E: seq<Edge>, x: Value, steps: seq<Step>, y: Value) returns (k: int)
    requires AllMultiply(E) && Follows(E, x, steps, y)
    requires y.Num? && 1 <= y.n
    ensures x.Num? && 1 <= x.n && y.n == x.n * k
    ensures steps == [] ==> k == 1
    ensures steps != [] ==> k >= 2
    ensures |steps| == 1 ==> NoProperDivisor(k)
    decreases |steps|
  {
    if steps == [] {
      return 1;
    }
    var e := Edge(x, steps[0].l, steps[0].n);
    assert e in E;
    var rest := FollowsScales(E, steps[0].n, steps[1..], y);
    MultipliesStep(e);
    var p := e.dst.n / e.src.n;
    k := p * rest;
    assert y.n == (x.n * p) * rest;
    if |steps| == 1 {
      assert rest == 1;
    } else {
      MulMonotone(2, 1, p, rest);
    }
  }

  lemma MulAssoc(a: int, b: int, c: int)
    ensures (a * b) * c == a * (b * c)
  {
  }

  /** A common divisor of two numbers divides their difference, so it is at
      most that difference. */
  lemma CommonDivisorBound(x: int, k1: int, k2: int, m: int, n: int)
    requires 1 <= x && m == x * k1 && n == x * k2 && m > n
    ensures x <= m - n
  {
    var d := k1 - k2;
    assert m - n == x * d;
    assert d >= 1;
    MulMonotone(x, 1, x, d);
  }
}
