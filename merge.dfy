/** What a merge guarantees when the patches are read back, and how weights
    behave on graphs whose versions are numbers scaled by each edge. */
module MergeProperties {
  import opened Common
  import opened Graph
  import opened Growth
  import opened VersionGraph
  import Lattice

  /** The log after `recordMerge` appended its two transitions. */
  function MergedLog(log: seq<Trans>, info: MergeInfo, newV: Value, patches: seq<Patch>, confPatches: seq<Patch>, base: seq<Patch>): seq<Trans>
  {
    log + [Trans(info.v1, patches, info.w2, newV), Trans(info.v2, InvertPatches(confPatches) + base, info.w1, newV)]
  }

  /** The store's edges after `recordMerge`. */
  function MergedEdges(E: seq<Edge>, info: MergeInfo, newV: Value): seq<Edge>
  {
    E + [Edge(info.v1, Num(|E|), newV), Edge(info.v2, Num(|E| + 1), newV)]
  }

  /** A version that is no end of any edge yet. */
  ghost predicate Fresh(E: seq<Edge>, v: Value)
  {
    forall e :: e in E ==> e.src != v && e.dst != v
  }

  lemma MergedRecorded(E: seq<Edge>, log: seq<Trans>, info: MergeInfo, newV: Value, patches: seq<Patch>, confPatches: seq<Patch>, base: seq<Patch>)
    requires Recorded(E, log)
    ensures Recorded(MergedEdges(E, info, newV), MergedLog(log, info, newV, patches, confPatches, base))
  {
  }

  /** Labels that name entries of the log read the same patches once the
      log grows. */
  lemma {:induction false} PatchesOfGrow(log: seq<Trans>, more: seq<Trans>, ls: seq<Value>)
    requires forall l :: l in ls ==> l.Num? && 0 <= l.n < |log|
    ensures PatchesOf(log + more, ls) == PatchesOf(log, ls)
    decreases |ls|
  {
    if ls != [] {
      PatchesOfGrow(log, more, ls[1..]);
    }
  }

  /** The labels of a path in a recorded graph name entries of the log. */
  lemma PathLabelsRecorded(E: seq<Edge>, log: seq<Trans>, x: Value, ls: seq<Value>, y: Value)
    requires Recorded(E, log) && LabelPath(E, x, ls, y)
    ensures forall l :: l in ls ==> l.Num? && 0 <= l.n < |log|
  {
    LabelPathLabels(E, x, ls, y);
    forall l | l in ls ensures l.Num? && 0 <= l.n < |log| {
      var e :| e in E && e.lbl == l;
      var i :| 0 <= i < |E| && E[i] == e;
    }
  }

  /** When the heads differ, the only edge from a head into a fresh merged
      version is the one the merge recorded from it. */
  lemma OnlyMergeEdge(E: seq<Edge>, info: MergeInfo, newV: Value, from: Value, l: Value)
    requires Fresh(E, newV) && info.v1 != info.v2
    requires Edge(from, l, newV) in MergedEdges(E, info, newV)
    ensures from == info.v1 ==> l == Num(|E|)
    ensures from == info.v2 ==> l == Num(|E| + 1)
  {
    var i :| 0 <= i < |MergedEdges(E, info, newV)| && MergedEdges(E, info, newV)[i] == Edge(from, l, newV);
  }

  /** No path leads out of a fresh version to another one. */
  lemma FreshUnreached(E: seq<Edge>, v: Value, y: Value)
    requires Fresh(E, v) && v != y
    ensures forall steps :: !Follows(E, v, steps, y)
  {
    forall steps: seq<Step> | steps != [] ensures !Follows(E, v, steps, y) {
      assert Edge(v, steps[0].l, steps[0].n) !in E;
    }
  }

  /** Reading back from V1 gives the patches its merge edge was recorded
      with, whether or not V2 is the same version: that edge is the first
      one into the new version. */
  lemma MergeFirstReadBack(E: seq<Edge>, log: seq<Trans>, info: MergeInfo, newV: Value, patches: seq<Patch>, confPatches: seq<Patch>, base: seq<Patch>)
    requires Recorded(E, log) && Fresh(E, newV) && newV != info.v1
    ensures GetPatchesSpec(MergedLog(log, info, newV, patches, confPatches, base), MergedEdges(E, info, newV), info.v1, newV) == Ok(patches)
  {
    var log' := MergedLog(log, info, newV, patches, confPatches, base);
    var n := |E|;
    var extra := [Edge(info.v1, Num(n), newV), Edge(info.v2, Num(n + 1), newV)];
    assert MergedEdges(E, info, newV) == E + extra;
    FirstEdgeIntoNew(E, extra, info.v1, Num(n), newV);
    assert PatchesOf(log', [Num(n)]) == log'[n].patches + [];
    assert n == |log| && log'[n].patches + [] == patches;
    assert GetPatchesSpec(log', E + extra, info.v1, newV) == Ok(PatchesOf(log', [Num(n)]));
  }

  /** Reading back from a V2 other than V1 gives what its own merge edge
      was recorded with. */
  lemma MergeSecondReadBack(E: seq<Edge>, log: seq<Trans>, info: MergeInfo, newV: Value, patches: seq<Patch>, confPatches: seq<Patch>, base: seq<Patch>)
    requires Recorded(E, log) && Fresh(E, newV)
    requires newV != info.v2 && info.v1 != info.v2
    ensures GetPatchesSpec(MergedLog(log, info, newV, patches, confPatches, base), MergedEdges(E, info, newV), info.v2, newV)
            == Ok(InvertPatches(confPatches) + base)
  {
    var log' := MergedLog(log, info, newV, patches, confPatches, base);
    var E' := MergedEdges(E, info, newV);
    var n := |E|;
    assert Edge(info.v2, Num(n + 1), newV) == E'[n + 1];
    SingleHop(E', info.v2, newV, Num(n + 1));
    var ls := FindPathSpec(E', info.v2, newV).value;
    OnlyMergeEdge(E, info, newV, info.v2, ls[0]);
    assert ls == [Num(n + 1)];
    assert PatchesOf(log', ls) == log'[n + 1].patches + [];
    assert n == |log| && log'[n + 1].patches + [] == InvertPatches(confPatches) + base;
    assert FindPathSpec(E', info.v2, newV) == Ok(ls);
    assert GetPatchesSpec(log', E', info.v2, newV) == Ok(PatchesOf(log', ls));
  }

  /** The merge leaves the patches from `x` to V1 as they were. */
  lemma MergeKeepsBase(E: seq<Edge>, log: seq<Trans>, info: MergeInfo, newV: Value, patches: seq<Patch>, confPatches: seq<Patch>)
    requires Recorded(E, log) && Fresh(E, newV) && newV != info.v1
    requires GetPatchesSpec(log, E, info.x, info.v1).Ok?
    ensures var base := GetPatchesSpec(log, E, info.x, info.v1).value;
            GetPatchesSpec(MergedLog(log, info, newV, patches, confPatches, base), MergedEdges(E, info, newV), info.x, info.v1) == Ok(base)
  {
    var base := GetPatchesSpec(log, E, info.x, info.v1).value;
    var log' := MergedLog(log, info, newV, patches, confPatches, base);
    var E' := MergedEdges(E, info, newV);
    var n := |E|;
    FreshUnreached(E, newV, info.v1);
    FindPathExtend(E, E'[n..], info.x, info.v1);
    assert E + E'[n..] == E';
    var ls := FindPathSpec(E, info.x, info.v1).value;
    FindPathLeads(E, info.x, info.v1);
    PathLabelsRecorded(E, log, info.x, ls, info.v1);
    PatchesOfGrow(log, log'[|log|..], ls);
    assert log + log'[|log|..] == log';
  }

  /** The round trip of `recordMerge`: reading back from V1 gives the
      accepted patches, reading back from V2 gives the inverted conflicting
      patches followed by the patches from `x` to V1 (when V2 is V1 itself,
      the first merge edge wins and it reads the accepted patches too), and
      the patches from `x` to V1 are what they were. */
  lemma MergeRoundTrip(E: seq<Edge>, log: seq<Trans>, info: MergeInfo, newV: Value, patches: seq<Patch>, confPatches: seq<Patch>)
    requires Recorded(E, log) && Fresh(E, newV)
    requires newV != info.v1 && newV != info.v2
    requires GetPatchesSpec(log, E, info.x, info.v1).Ok?
    ensures var base := GetPatchesSpec(log, E, info.x, info.v1).value;
            var log' := MergedLog(log, info, newV, patches, confPatches, base);
            var E' := MergedEdges(E, info, newV);
            && GetPatchesSpec(log', E', info.v1, newV) == Ok(patches)
            && GetPatchesSpec(log', E', info.v2, newV) == Ok(if info.v1 == info.v2 then patches else InvertPatches(confPatches) + base)
            && GetPatchesSpec(log', E', info.x, info.v1) == Ok(base)
  {
    var base := GetPatchesSpec(log, E, info.x, info.v1).value;
    MergeFirstReadBack(E, log, info, newV, patches, confPatches, base);
    if info.v1 != info.v2 {
      MergeSecondReadBack(E, log, info, newV, patches, confPatches, base);
    }
    MergeKeepsBase(E, log, info, newV, patches, confPatches);
  }

  /** Every version is a positive number and every edge multiplies its
      source by its weight: the shape of the suites' divisor lattice, with
      each transition weighing its quotient. */
  ghost predicate Scaling(log: seq<Trans>)
  {
    forall i :: 0 <= i < |log| ==>
      log[i].src.Num? && log[i].dst.Num? && log[i].src.n >= 1 && log[i].weight >= 1 &&
      log[i].src.n * log[i].weight == log[i].dst.n
  }

  /** Along a path of a scaling graph the weights multiply to the ratio of
      its ends. */
  lemma ScaleStep(x: int, w: int, mid: int, rest: int, y: int)
    requires x >= 1 && w >= 1 && rest >= 1 && x * w == mid && mid * rest == y
    ensures w * rest >= 1 && x * (w * rest) == y
  {
    Lattice.MulMonotone(1, 1, w, rest);
    assert x * (w * rest) == (x * w) * rest;
  }

  lemma {:induction false} PathScales(E: seq<Edge>, log: seq<Trans>, x: Value, steps: seq<Step>, y: Value)
    requires Recorded(E, log) && Scaling(log)
    requires x.Num? && x.n >= 1 && Follows(E, x, steps, y)
    ensures y.Num? && PathWeight(log, steps) >= 1 && x.n * PathWeight(log, steps) == y.n
    decreases |steps|
  {
    if steps != [] {
      var s := steps[0];
      var i :| 0 <= i < |E| && E[i] == Edge(x, s.l, s.n);
      assert log[i].src == x && log[i].dst == s.n && s.l == Num(i);
      var w := log[i].weight;
      assert s.n.Num? && s.n.n >= 1 by {
        assert x.n * w == s.n.n;
        Lattice.MulMonotone(1, 1, x.n, w);
      }
      PathScales(E, log, s.n, steps[1..], y);
      var rest := PathWeight(log, steps[1..]);
      assert PathWeight(log, steps) == w * rest;
      ScaleStep(x.n, w, s.n.n, rest, y.n);
    }
  }

  /** The start of a path into a positive version of a scaling graph is a
      positive version. */
  lemma StartScales(E: seq<Edge>, log: seq<Trans>, x: Value, steps: seq<Step>, y: Value)
    requires Recorded(E, log) && Scaling(log)
    requires y.Num? && y.n >= 1 && Follows(E, x, steps, y)
    ensures x.Num? && x.n >= 1
  {
    if steps != [] {
      var i :| 0 <= i < |E| && E[i] == Edge(x, steps[0].l, steps[0].n);
    }
  }

  /** On a scaling graph the head `getMergeStrategy` chooses as the heavier
      branch is the larger number: the suite's V1 >= V2. */
  lemma HeavierIsLarger(E: seq<Edge>, log: seq<Trans>, x: Value, V1: Value, V2: Value, w1: int, w2: int)
    requires Recorded(E, log) && Scaling(log)
    requires V1.Num? && V1.n >= 1
    requires Ancestry(E, log, x, V1, V2, w1, w2) && w1 >= w2
    ensures V2.Num? && V1.n >= V2.n
  {
    var qa, qb :| Follows(E, x, qa, V1) && Follows(E, x, qb, V2) &&
                  w1 == PathWeight(log, qa) && w2 == PathWeight(log, qb) && Nearest(E, V1, V2, |qa| + |qb|);
    StartScales(E, log, x, qa, V1);
    PathScales(E, log, x, qa, V1);
    PathScales(E, log, x, qb, V2);
    Lattice.MulMonotone(x.n, w2, x.n, w1);
  }

  /** Merging into the version `V1 * V2 / x`, as the suite does, keeps the
      graph scaling: each merge edge weighs what the other branch weighed. */
  lemma MergeKeepsScaling(E: seq<Edge>, log: seq<Trans>, info: MergeInfo, patches: seq<Patch>, confPatches: seq<Patch>, base: seq<Patch>)
    requires Recorded(E, log) && Scaling(log)
    requires info.v1.Num? && info.v1.n >= 1
    requires Ancestry(E, log, info.x, info.v1, info.v2, info.w1, info.w2)
    ensures info.x.Num? && info.x.n >= 1 && info.v2.Num?
    ensures Scaling(MergedLog(log, info, Num(info.v1.n * info.v2.n / info.x.n), patches, confPatches, base))
  {
    var x, V1, V2, w1, w2 := info.x, info.v1, info.v2, info.w1, info.w2;
    var qa, qb :| Follows(E, x, qa, V1) && Follows(E, x, qb, V2) &&
                  w1 == PathWeight(log, qa) && w2 == PathWeight(log, qb) && Nearest(E, V1, V2, |qa| + |qb|);
    StartScales(E, log, x, qa, V1);
    PathScales(E, log, x, qa, V1);
    PathScales(E, log, x, qb, V2);
    MergeArith(x.n, w1, w2, V1.n, V2.n);
    var newV := Num(V1.n * V2.n / x.n);
    var t1 := Trans(V1, patches, w2, newV);
    var t2 := Trans(V2, InvertPatches(confPatches) + base, w1, newV);
    ScalingAppend(log, t1, t2);
  }

  /** Two transitions that scale their source keep a scaling log scaling. */
  lemma ScalingAppend(log: seq<Trans>, t1: Trans, t2: Trans)
    requires Scaling(log)
    requires t1.src.Num? && t1.dst.Num? && t1.src.n >= 1 && t1.weight >= 1 && t1.src.n * t1.weight == t1.dst.n
    requires t2.src.Num? && t2.dst.Num? && t2.src.n >= 1 && t2.weight >= 1 && t2.src.n * t2.weight == t2.dst.n
    ensures Scaling(log + [t1, t2])
  {
    var log' := log + [t1, t2];
    forall i | 0 <= i < |log'|
      ensures log'[i].src.Num? && log'[i].dst.Num? && log'[i].src.n >= 1 && log'[i].weight >= 1 &&
              log'[i].src.n * log'[i].weight == log'[i].dst.n
    {
      if i < |log| {
        assert log'[i] == log[i];
      }
    }
  }

  lemma MergeArith(x: int, w1: int, w2: int, v1: int, v2: int)
    requires x >= 1 && w1 >= 1 && w2 >= 1 && x * w1 == v1 && x * w2 == v2
    ensures v1 >= 1 && v2 >= 1 && v1 * w2 == v1 * v2 / x && v2 * w1 == v1 * v2 / x
  {
    var k := x * w1 * w2;
    assert v1 * v2 == x * k;
    Lattice.MultipleMod(x, k);
    assert v1 * w2 == k && v2 * w1 == k;
    Lattice.MulMonotone(1, 1, x, w1);
    Lattice.MulMonotone(1, 1, x, w2);
  }
}
