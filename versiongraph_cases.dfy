/** The cases of the version graph suite on the divisor lattice below 30,
    proved of the reference version graph's contracts for every run. */
module VersionGraphCases {
  import opened Common
  import opened Graph
  import opened Lattice
  import opened PathFacts
  import G = GraphDB
  import opened VersionGraph
  import opened MergeProperties

  /** The product the suite multiplies up over returned `mult` patches. */
  function MultProduct(ps: seq<Patch>): int
  {
    if ps == [] then 1 else (if ps[0].Mult? then ps[0].amount else 0) * MultProduct(ps[1..])
  }

  /** A log of lattice transitions makes every edge of the store multiply
      its source by a prime. */
  lemma LatticeLogMultiplies(E: seq<Edge>, log: seq<Trans>, aMax: int)
    requires Recorded(E, log) && AllLattice(log, aMax)
    ensures AllMultiply(E)
  {
    forall e | e in E ensures Multiplies(e) {
      var i :| 0 <= i < |E| && E[i] == e;
      assert LatticeTrans(log[i], aMax);
    }
  }

  /** On a log of lattice transitions the patches along a path are all
      `mult`, and their amounts multiply up to the ratio of its ends. */
  lemma {:induction false} LatticePatches(E: seq<Edge>, log: seq<Trans>, aMax: int, x: Value, ls: seq<Value>, y: Value)
    requires Recorded(E, log) && AllLattice(log, aMax)
    requires LabelPath(E, x, ls, y) && x.Num?
    ensures y.Num? && (forall p :: p in PatchesOf(log, ls) ==> p.Mult?)
    ensures y.n == x.n * MultProduct(PatchesOf(log, ls))
    decreases |ls|
  {
    if ls != [] {
      var n :| Edge(x, ls[0], n) in E && LabelPath(E, n, ls[1..], y);
      var i :| 0 <= i < |E| && E[i] == Edge(x, ls[0], n);
      var t := log[i];
      assert LatticeTrans(t, aMax);
      assert ls[0] == Num(i) && PatchesAt(log, ls[0]) == [Mult(t.weight)];
      LatticePatches(E, log, aMax, n, ls[1..], y);
      var rest := PatchesOf(log, ls[1..]);
      assert PatchesOf(log, ls) == [Mult(t.weight)] + rest;
      assert ([Mult(t.weight)] + rest)[1..] == rest;
      LatticeEdgeStep(x.n, t.weight, n.n, aMax);
      MulAssoc(x.n, t.weight, MultProduct(rest));
    }
  }

  /** The log holds every lattice transition below 30 (and maybe more). */
  ghost predicate HasLattice(E: seq<Edge>, log: seq<Trans>)
  {
    Recorded(E, log) &&
    forall b, p, a :: LatticeEdge(b, p, a, 30) ==> Trans(Num(b), [Mult(p)], p, Num(a)) in log
  }

  /** The graph after `createGraph(1, 1, 30)`: the log holds every lattice
      transition below 30, and nothing else. */
  ghost predicate FullLattice(E: seq<Edge>, log: seq<Trans>)
  {
    HasLattice(E, log) && AllLattice(log, 30)
  }

  /** The transition b -> a of the lattice is the edge labelled with its
      position in the log. */
  lemma LatticeHop(E: seq<Edge>, log: seq<Trans>, b: int, p: int, a: int) returns (l: Value)
    requires HasLattice(E, log) && LatticeEdge(b, p, a, 30)
    ensures Follows(E, Num(b), [Step(l, Num(a))], Num(a))
  {
    var i :| 0 <= i < |log| && log[i] == Trans(Num(b), [Mult(p)], p, Num(a));
    l := Num(i);
    assert E[i] == Edge(Num(b), l, Num(a));
    assert Follows(E, Num(a), [Step(l, Num(a))][1..], Num(a));
  }

  /** 2 reaches 18 in two hops and 14 in one. */
  lemma LatticeWitness(E: seq<Edge>, log: seq<Trans>) returns (to18: seq<Step>, to14: seq<Step>)
    requires FullLattice(E, log)
    ensures Follows(E, Num(2), to18, Num(18)) && |to18| == 2
    ensures Follows(E, Num(2), to14, Num(14)) && |to14| == 1
  {
    SmallPrimes();
    assert LatticeEdge(2, 3, 6, 30) && LatticeEdge(6, 3, 18, 30) && LatticeEdge(2, 7, 14, 30);
    var l1 := LatticeHop(E, log, 2, 3, 6);
    var l2 := LatticeHop(E, log, 6, 3, 18);
    to18 := [Step(l1, Num(6)), Step(l2, Num(18))];
    assert to18[1..] == [Step(l2, Num(18))];
    var l3 := LatticeHop(E, log, 2, 7, 14);
    to14 := [Step(l3, Num(14))];
  }

  /** `getPatches(2, 18)` on the lattice: only `mult` patches, whose
      amounts multiply up to 9. */
  lemma LatticeGetPatches(E: seq<Edge>, log: seq<Trans>)
    requires FullLattice(E, log)
    ensures var r := GetPatchesSpec(log, E, Num(2), Num(18));
            r.Ok? && (forall p :: p in r.value ==> p.Mult?) && MultProduct(r.value) == 9
  {
    var to18, to14 := LatticeWitness(E, log);
    FollowsLabels(E, Num(2), to18, Num(18));
    FindPathShortest(E, Num(2), Num(18), Labels(to18));
    FindPathLeads(E, Num(2), Num(18));
    LatticePatches(E, log, 30, Num(2), FindPathSpec(E, Num(2), Num(18)).value, Num(18));
  }

  /** A common ancestor of 18 and 14 on the lattice within three hops of
      both is 2, their greatest common divisor. */
  lemma LatticeNearest(E: seq<Edge>, x: Value, p1: seq<Step>, p2: seq<Step>)
    requires AllMultiply(E)
    requires Follows(E, x, p1, Num(18)) && Follows(E, x, p2, Num(14)) && |p1| + |p2| <= 3
    ensures x == Num(2)
  {
    var k1 := FollowsScales(E, x, p1, Num(18));
    var k2 := FollowsScales(E, x, p2, Num(14));
    CommonDivisorBound(x.n, k1, k2, 18, 14);
    assert 18 % 2 == 0 && 14 % 2 == 0;
  }

  /** `getMergeStrategy(18, 14)` on the lattice: whichever way round the
      heads come back, the common ancestor is 2. */
  lemma LatticeMergeBase(E: seq<Edge>, log: seq<Trans>, x: Value, V1: Value, V2: Value, w1: int, w2: int)
    requires FullLattice(E, log)
    requires (V1 == Num(18) && V2 == Num(14)) || (V1 == Num(14) && V2 == Num(18))
    requires Ancestry(E, log, x, V1, V2, w1, w2)
    ensures x == Num(2)
  {
    var qa, qb :| Follows(E, x, qa, V1) && Follows(E, x, qb, V2) &&
                  w1 == PathWeight(log, qa) && w2 == PathWeight(log, qb) && Nearest(E, V1, V2, |qa| + |qb|);
    var to18, to14 := LatticeWitness(E, log);
    LatticeLogMultiplies(E, log, 30);
    if V1 == Num(18) {
      assert Follows(E, Num(2), to18, V1) && Follows(E, Num(2), to14, V2);
      LatticeNearest(E, x, qa, qb);
    } else {
      assert Follows(E, Num(2), to14, V1) && Follows(E, Num(2), to18, V2);
      LatticeNearest(E, x, qb, qa);
    }
  }

  /** Every version of the lattice multiplies its source by its weight. */
  lemma LatticeIsScaling(log: seq<Trans>, aMax: int)
    requires AllLattice(log, aMax)
    ensures Scaling(log)
  {
    forall i | 0 <= i < |log|
      ensures log[i].src.Num? && log[i].dst.Num? && log[i].src.n >= 1 && log[i].weight >= 1 &&
              log[i].src.n * log[i].weight == log[i].dst.n
    {
      assert LatticeTrans(log[i], aMax);
      LatticeEdgeStep(log[i].src.n, log[i].weight, log[i].dst.n, aMax);
    }
  }

  /** `y` can be reached from `x`. */
  ghost predicate Reaches(E: seq<Edge>, x: Value, y: Value)
  {
    exists s :: Follows(E, x, s, y)
  }

  /** A path extended by one more edge. */
  lemma {:induction false} FollowsSnoc(E: seq<Edge>, x: Value, s: seq<Step>, m: Value, l: Value, n: Value)
    requires Follows(E, x, s, m) && Edge(m, l, n) in E
    ensures Follows(E, x, s + [Step(l, n)], n)
    decreases |s|
  {
    if s == [] {
      assert Follows(E, n, [Step(l, n)][1..], n);
    } else {
      FollowsSnoc(E, s[0].n, s[1..], m, l, n);
      assert (s + [Step(l, n)])[1..] == s[1..] + [Step(l, n)];
    }
  }

  /** A path stays a path when edges are added. */
  lemma {:induction false} FollowsMono(E: seq<Edge>, E': seq<Edge>, x: Value, s: seq<Step>, y: Value)
    requires forall e :: e in E ==> e in E'
    requires Follows(E, x, s, y)
    ensures Follows(E', x, s, y)
    decreases |s|
  {
    if s != [] {
      FollowsMono(E, E', s[0].n, s[1..], y);
    }
  }

  /** Every version from 1 to 29 descends from version 1 on the lattice:
      divide by a prime factor and go on from the quotient. */
  lemma {:induction false} ReachFromOne(E: seq<Edge>, log: seq<Trans>, n: int)
    requires HasLattice(E, log) && 1 <= n < 30
    ensures Reaches(E, Num(1), Num(n))
    decreases n
  {
    if n == 1 {
      assert Follows(E, Num(1), [], Num(1));
    } else {
      var p := PrimeFactor(n);
      LatticeEdgeInto(n, p, 30);
      var m := n / p;
      ReachFromOne(E, log, m);
      var s :| Follows(E, Num(1), s, Num(m));
      var l := LatticeHop(E, log, m, p, n);
      FollowsSnoc(E, Num(1), s, Num(m), l, Num(n));
    }
  }

  /** A store whose log only grows keeps every edge. */
  lemma RecordedGrows(E: seq<Edge>, log: seq<Trans>, E': seq<Edge>, log': seq<Trans>)
    requires Recorded(E, log) && Recorded(E', log') && log <= log'
    ensures forall e :: e in E ==> e in E'
  {
    forall e | e in E ensures e in E' {
      var i :| 0 <= i < |E| && E[i] == e;
      assert E'[i] == e;
    }
  }

  /** Reachability survives a growing log. */
  lemma ReachesGrows(E: seq<Edge>, log: seq<Trans>, E': seq<Edge>, log': seq<Trans>, x: Value, y: Value)
    requires Recorded(E, log) && Recorded(E', log') && log <= log'
    requires Reaches(E, x, y)
    ensures Reaches(E', x, y)
  {
    RecordedGrows(E, log, E', log');
    var s :| Follows(E, x, s, y);
    FollowsMono(E, E', x, s, y);
  }

  /** Two versions that both descend from 1 have a common ancestor. */
  lemma CommonFromOne(E: seq<Edge>, a: Value, b: Value)
    requires Reaches(E, Num(1), a) && Reaches(E, Num(1), b)
    ensures exists c, q1, q2 :: Follows(E, c, q1, a) && Follows(E, c, q2, b)
  {
    var q1 :| Follows(E, Num(1), q1, a);
    var q2 :| Follows(E, Num(1), q2, b);
  }

  /** The store's edges are fixed by the log. */
  lemma RecordedUnique(E1: seq<Edge>, E2: seq<Edge>, log: seq<Trans>)
    requires Recorded(E1, log) && Recorded(E2, log)
    ensures E1 == E2
  {
    assert forall i :: 0 <= i < |E1| ==> E1[i] == E2[i];
  }

  /** The heads `getMergeStrategy` returns have patches from `x` to V1. */
  lemma AncestryBaseOk(E: seq<Edge>, log: seq<Trans>, x: Value, V1: Value, V2: Value, w1: int, w2: int)
    requires Ancestry(E, log, x, V1, V2, w1, w2)
    ensures GetPatchesSpec(log, E, x, V1).Ok?
  {
    var qa, qb :| Follows(E, x, qa, V1) && Follows(E, x, qb, V2) &&
                  w1 == PathWeight(log, qa) && w2 == PathWeight(log, qb) && Nearest(E, V1, V2, |qa| + |qb|);
    FollowsLabels(E, x, qa, V1);
    FindPathShortest(E, x, V1, Labels(qa));
  }

  /** After a merge the merged version descends from 1 when V1 does, and so
      does every version that did before. */
  lemma MergedReaches(E: seq<Edge>, log: seq<Trans>, info: MergeInfo, v: Value, base: seq<Patch>)
    requires Recorded(E, log) && Reaches(E, Num(1), info.v1)
    ensures var E' := MergedEdges(E, info, v);
            && Reaches(E', Num(1), v)
            && forall y :: Reaches(E, Num(1), y) ==> Reaches(E', Num(1), y)
  {
    var E' := MergedEdges(E, info, v);
    assert forall e :: e in E ==> e in E';
    forall y | Reaches(E, Num(1), y) ensures Reaches(E', Num(1), y) {
      var s :| Follows(E, Num(1), s, y);
      FollowsMono(E, E', Num(1), s, y);
    }
    var s :| Follows(E', Num(1), s, info.v1);
    assert E'[|E|] == Edge(info.v1, Num(|E|), v);
    FollowsSnoc(E', Num(1), s, info.v1, Num(|E|), v);
  }

  /** A merged version of a scaling log is a positive number. */
  lemma MergedPositive(log: seq<Trans>, info: MergeInfo, v: Value, base: seq<Patch>)
    requires Scaling(MergedLog(log, info, v, [], [], base))
    ensures v.Num? && v.n >= 1
  {
    var t := MergedLog(log, info, v, [], [], base)[|log|];
    MulMonotone(1, 1, t.src.n, t.weight);
  }

  /** No edge of the lattice touches a version that is not a number. */
  lemma LatticeFresh(E: seq<Edge>, log: seq<Trans>, v: Value)
    requires Recorded(E, log) && AllLattice(log, 30) && !v.Num?
    ensures Fresh(E, v)
  {
    forall e | e in E ensures e.src != v && e.dst != v {
      var i :| 0 <= i < |E| && E[i] == e;
      assert LatticeTrans(log[i], 30);
    }
  }

  /** `createGraph(1, 1, 30)` on a fresh version graph. */
  method BuildLattice() returns (vg: VersionGraph)
    ensures fresh(vg) && fresh(vg.db)
    ensures vg.Valid() && FullLattice(vg.db.edges, vg.log)
  {
    var db := new G.GraphDB();
    vg := new VersionGraph(db);
    vg.CreateGraph(30);
    assert vg.log[0..] == vg.log;
  }

  method GetPatchesCase() returns (r: Result<seq<Patch>>)
    ensures r.Ok? && (forall p :: p in r.value ==> p.Mult?) && MultProduct(r.value) == 9
  {
    var vg := BuildLattice();
    r := vg.GetPatches(Num(2), Num(18));
    LatticeGetPatches(vg.db.edges, vg.log);
  }

  method MergeStrategyCase() returns (r: Result<(Value, Value, Value, MergeInfo)>)
    ensures r.Ok? && r.value.1 == Num(2)
  {
    var vg := BuildLattice();
    r := vg.GetMergeStrategy(Num(18), Num(14), false);
    var to18, to14 := LatticeWitness(vg.db.edges, vg.log);
    var (V1, x, V2, info) := r.value;
    LatticeMergeBase(vg.db.edges, vg.log, x, V1, V2, info.w1, info.w2);
  }

  /** `getMergeStrategy(v1, v2, false)` on the lattice for any two versions
      from 1 to 29: it finds a common ancestor and returns the larger one
      as V1. */
  method HeavierFirstCase(v1: int, v2: int) returns (r: Result<(Value, Value, Value, MergeInfo)>)
    requires 1 <= v1 <= 29 && 1 <= v2 <= 29
    ensures r.Ok? && r.value.0.Num? && r.value.2.Num? && r.value.0.n >= r.value.2.n
  {
    var vg := BuildLattice();
    ReachFromOne(vg.db.edges, vg.log, v1);
    ReachFromOne(vg.db.edges, vg.log, v2);
    CommonFromOne(vg.db.edges, Num(v1), Num(v2));
    r := vg.GetMergeStrategy(Num(v1), Num(v2), false);
    var (V1, x, V2, info) := r.value;
    LatticeIsScaling(vg.log, 30);
    HeavierIsLarger(vg.db.edges, vg.log, x, V1, V2, info.w1, info.w2);
  }

  /** What one merge of the suite's weight case guarantees of the merged
      log: it still scales, and the merged version `a * b / x` is a positive
      number that descends from 1 like every version before. */
  lemma MergeProductFacts(E: seq<Edge>, log: seq<Trans>, a: int, b: int, info: MergeInfo)
    requires Recorded(E, log) && Scaling(log) && 1 <= a && 1 <= b
    requires Reaches(E, Num(1), Num(a)) && Reaches(E, Num(1), Num(b))
    requires (info.v1 == Num(a) && info.v2 == Num(b)) || (info.v1 == Num(b) && info.v2 == Num(a))
    requires Ancestry(E, log, info.x, info.v1, info.v2, info.w1, info.w2)
    ensures GetPatchesSpec(log, E, info.x, info.v1).Ok?
    ensures info.x.Num? && info.x.n >= 1
    ensures var v := Num(a * b / info.x.n);
            var log' := MergedLog(log, info, v, [], [], GetPatchesSpec(log, E, info.x, info.v1).value);
            var E' := MergedEdges(E, info, v);
            && Scaling(log') && Recorded(E', log') && v.n >= 1
            && Reaches(E', Num(1), v)
            && forall y :: Reaches(E, Num(1), y) ==> Reaches(E', Num(1), y)
  {
    AncestryBaseOk(E, log, info.x, info.v1, info.v2, info.w1, info.w2);
    var base := GetPatchesSpec(log, E, info.x, info.v1).value;
    MergeKeepsScaling(E, log, info, [], [], base);
    assert a * b == info.v1.n * info.v2.n;
    var v := Num(a * b / info.x.n);
    MergedRecorded(E, log, info, v, [], [], base);
    MergedPositive(log, info, v, base);
    MergedReaches(E, log, info, v, base);
  }

  /** One merge of the suite's weight case: the strategy for `a` and `b`,
      then `recordMerge` with no patches into the version `a * b / x`. */
  method MergeProduct(vg: VersionGraph, a: int, b: int) returns (x: Value, v: Value)
    requires vg.Valid() && Scaling(vg.log) && 1 <= a && 1 <= b
    requires Reaches(vg.db.edges, Num(1), Num(a)) && Reaches(vg.db.edges, Num(1), Num(b))
    modifies vg, vg.db
    ensures vg.Valid() && Scaling(vg.log) && old(vg.log) <= vg.log
    ensures x.Num? && x.n >= 1 && v == Num(a * b / x.n) && v.n >= 1
    ensures Reaches(vg.db.edges, Num(1), v)
    ensures forall y :: Reaches(old(vg.db.edges), Num(1), y) ==> Reaches(vg.db.edges, Num(1), y)
  {
    ghost var E, log := vg.db.edges, vg.log;
    CommonFromOne(E, Num(a), Num(b));
    var s := vg.GetMergeStrategy(Num(a), Num(b), false);
    var info := s.value.3;
    x := info.x;
    MergeProductFacts(E, log, a, b, info);
    v := Num(a * b / x.n);
    var m := vg.RecordMerge(info, v, [], []);
    RecordedUnique(vg.db.edges, MergedEdges(E, info, v), vg.log);
  }

  /** The suite's weight case: after merging v1 with v2 into v12 and v3
      with v4 into v34, `getMergeStrategy(v12, v34, false)` returns the
      smaller of the two as V2. */
  method MergeWeightsCase(v1: int, v2: int, v3: int, v4: int) returns (r: Result<(Value, Value, Value, MergeInfo)>)
    requires 1 <= v1 <= 29 && 1 <= v2 <= 29 && 1 <= v3 <= 29 && 1 <= v4 <= 29
    ensures r.Ok? && r.value.0.Num? && r.value.2.Num? && r.value.2.n <= r.value.0.n
  {
    var vg := BuildLattice();
    LatticeIsScaling(vg.log, 30);
    ReachFromOne(vg.db.edges, vg.log, v1);
    ReachFromOne(vg.db.edges, vg.log, v2);
    ReachFromOne(vg.db.edges, vg.log, v3);
    ReachFromOne(vg.db.edges, vg.log, v4);
    var x12, v12 := MergeProduct(vg, v1, v2);
    var x34, v34 := MergeProduct(vg, v3, v4);
    CommonFromOne(vg.db.edges, v12, v34);
    r := vg.GetMergeStrategy(v12, v34, false);
    var (V5, x, V6, info) := r.value;
    HeavierIsLarger(vg.db.edges, vg.log, x, V5, V6, info.w1, info.w2);
  }

  /** The suite's random merge case: after merging v1 and v2 into the new
      version "newVersion", the patches from v1 to it can be read back,
      whether or not v1 and v2 are the same version. */
  method RecordMergeCase(v1: int, v2: int) returns (r: Result<seq<Patch>>)
    requires 1 <= v1 <= 29 && 1 <= v2 <= 29
    ensures r.Ok?
  {
    var vg := BuildLattice();
    ghost var E, log := vg.db.edges, vg.log;
    ReachFromOne(E, log, v1);
    ReachFromOne(E, log, v2);
    CommonFromOne(E, Num(v1), Num(v2));
    var s := vg.GetMergeStrategy(Num(v1), Num(v2), false);
    var (V1, x, V2, info) := s.value;
    AncestryBaseOk(E, log, x, V1, V2, info.w1, info.w2);
    ghost var base := GetPatchesSpec(log, E, x, V1).value;
    var newV := Str("newVersion");
    LatticeFresh(E, log, newV);
    MergeRoundTrip(E, log, info, newV, [], []);
    var m := vg.RecordMerge(info, newV, [], []);
    MergedRecorded(E, log, info, newV, [], [], base);
    RecordedUnique(vg.db.edges, MergedEdges(E, info, newV), vg.log);
    r := vg.GetPatches(Num(v1), newV);
  }

  /** For a common ancestor x of 10 and 24 on the lattice, the patches from
      x to 24 can be read and hold at least one patch, since x is at most
      10 and so differs from 24. */
  lemma ConflictBaseNonEmpty(E: seq<Edge>, log: seq<Trans>, x: Value, w1: int, w2: int)
    requires FullLattice(E, log) && Ancestry(E, log, x, Num(10), Num(24), w1, w2)
    ensures GetPatchesSpec(log, E, x, Num(24)).Ok? && |GetPatchesSpec(log, E, x, Num(24)).value| >= 1
  {
    var qa, qb :| Follows(E, x, qa, Num(10)) && Follows(E, x, qb, Num(24)) &&
                  w1 == PathWeight(log, qa) && w2 == PathWeight(log, qb) && Nearest(E, Num(10), Num(24), |qa| + |qb|);
    FollowsLabels(E, x, qb, Num(24));
    FindPathShortest(E, x, Num(24), Labels(qb));
    FindPathLeads(E, x, Num(24));
    LatticeLogMultiplies(E, log, 30);
    var k := FollowsScales(E, x, qa, Num(10));
    MulMonotone(x.n, 1, x.n, k);
    var ls := FindPathSpec(E, x, Num(24)).value;
    LatticePatches(E, log, 30, x, ls, Num(24));
  }

  /** The suite's conflict case: merge 10 and 24 keeping their order, accept
      the first patch from x to 24 and pass the rest as conflicting. Reading
      from 10 gives the accepted patch; reading from 24 gives the conflicting
      patches inverted, followed by the patches from x to 10. */
  method ConflictCase() returns (toV2: Result<seq<Patch>>, fromV1: Result<seq<Patch>>, toV1: Result<seq<Patch>>, fromV2: Result<seq<Patch>>)
    ensures toV2.Ok? && |toV2.value| >= 1
    ensures fromV1 == Ok([toV2.value[0]])
    ensures toV1.Ok? && fromV2 == Ok(InvertPatches(toV2.value[1..]) + toV1.value)
  {
    var vg := BuildLattice();
    ghost var E, log := vg.db.edges, vg.log;
    ReachFromOne(E, log, 10);
    ReachFromOne(E, log, 24);
    CommonFromOne(E, Num(10), Num(24));
    var s := vg.GetMergeStrategy(Num(10), Num(24), true);
    var (V1, x, V2, info) := s.value;
    ConflictBaseNonEmpty(E, log, x, info.w1, info.w2);
    AncestryBaseOk(E, log, x, V1, V2, info.w1, info.w2);
    ghost var base := GetPatchesSpec(log, E, x, V1).value;
    toV2 := vg.GetPatches(x, V2);
    var accepted, conflicting := [toV2.value[0]], toV2.value[1..];
    var newV := Str("newVersion");
    LatticeFresh(E, log, newV);
    MergeRoundTrip(E, log, info, newV, accepted, conflicting);
    var m := vg.RecordMerge(info, newV, accepted, conflicting);
    MergedRecorded(E, log, info, newV, accepted, conflicting, base);
    RecordedUnique(vg.db.edges, MergedEdges(E, info, newV), vg.log);
    fromV1 := vg.GetPatches(Num(10), newV);
    toV1 := vg.GetPatches(x, Num(10));
    fromV2 := vg.GetPatches(Num(24), newV);
  }
}
