/** A reference version graph meeting the contract of the version-graph test
    suite.  Every transition is one edge of a graph store, labelled with its
    own position in the transition log; the log keeps each edge's patches and
    weight.  A merge records two edges into the merged version. */
module VersionGraph {
  import opened Common
  import opened Graph
  import G = GraphDB
  import opened Lattice

  /** A patch: the suites use `{_type: 'mult', amount}` and named patch
      types, and `invertPatches` wraps a patch as `{_type: 'inv', patch}`. */
  datatype Patch = Mult(amount: int) | Named(kind: string) | Inv(patch: Patch)

  /** One recorded edge: its patches and its weight.  A weight is kept as the
      factor e^w, so weights compose by multiplication where the logarithmic
      weights of the suites add up; both orders agree. */
  datatype Trans = Trans(src: Value, patches: seq<Patch>, weight: int, dst: Value)

  /** What `getMergeStrategy` hands to `recordMerge`: the common ancestor,
      the two branch heads, and the weight of the path from `x` to each. */
  datatype MergeInfo = MergeInfo(x: Value, v1: Value, v2: Value, w1: int, w2: int)

  /** The suite's `invertPatches`: each patch inverted, in reverse order. */
  function InvertPatches(ps: seq<Patch>): (r: seq<Patch>)
    ensures |r| == |ps|
  {
    if ps == [] then [] else InvertPatches(ps[1..]) + [Inv(ps[0])]
  }

  /** The i-th inverted patch undoes the i-th patch from the end. */
  lemma {:induction false} InvertPatchesAt(ps: seq<Patch>, i: nat)
    requires i < |ps|
    ensures InvertPatches(ps)[i] == Inv(ps[|ps| - 1 - i])
    decreases |ps|
  {
    if i < |ps| - 1 {
      InvertPatchesAt(ps[1..], i);
    }
  }

  lemma {:induction false} InvertPatchesAppend(a: seq<Patch>, b: seq<Patch>)
    ensures InvertPatches(a + b) == InvertPatches(b) + InvertPatches(a)
    decreases |a|
  {
    if a != [] {
      assert (a + b)[1..] == a[1..] + b;
      InvertPatchesAppend(a[1..], b);
    } else {
      assert a + b == b;
    }
  }

  /** Applies patches in order under any patch semantics. */
  function Run<S>(apply: (S, Patch) -> S, s: S, ps: seq<Patch>): S
    decreases |ps|
  {
    if ps == [] then s else Run(apply, apply(s, ps[0]), ps[1..])
  }

  lemma {:induction false} RunAppend<S>(apply: (S, Patch) -> S, s: S, a: seq<Patch>, b: seq<Patch>)
    ensures Run(apply, s, a + b) == Run(apply, Run(apply, s, a), b)
    decreases |a|
  {
    if a != [] {
      assert (a + b)[1..] == a[1..] + b;
      RunAppend(apply, apply(s, a[0]), a[1..], b);
    } else {
      assert a + b == b;
    }
  }

  /** Under any semantics where an inverted patch undoes the patch,
      applying the inverted patches undoes the patches: the reason the
      second merge edge starts with them. */
  lemma {:induction false} InvertPatchesUndo<S>(apply: (S, Patch) -> S, s: S, ps: seq<Patch>)
    requires forall s', p :: apply(apply(s', p), Inv(p)) == s'
    ensures Run(apply, Run(apply, s, ps), InvertPatches(ps)) == s
    decreases |ps|
  {
    if ps != [] {
      var s1 := apply(s, ps[0]);
      InvertPatchesUndo(apply, s1, ps[1..]);
      RunAppend(apply, Run(apply, s1, ps[1..]), InvertPatches(ps[1..]), [Inv(ps[0])]);
    }
  }

  /** The edge list of the store and the transition log agree: edge i is
      labelled `Num(i)` and joins the ends of transition i. */
  ghost predicate Recorded(E: seq<Edge>, log: seq<Trans>)
  {
    |E| == |log| && forall i :: 0 <= i < |log| ==> E[i] == Edge(log[i].src, Num(i), log[i].dst)
  }

  /** The patches recorded under an edge label. */
  function PatchesAt(log: seq<Trans>, l: Value): seq<Patch>
  {
    if l.Num? && 0 <= l.n < |log| then log[l.n].patches else []
  }

  /** The patches along a path given by its labels, concatenated. */
  function PatchesOf(log: seq<Trans>, ls: seq<Value>): seq<Patch>
    decreases |ls|
  {
    if ls == [] then [] else PatchesAt(log, ls[0]) + PatchesOf(log, ls[1..])
  }

  lemma {:induction false} PatchesOfAppend(log: seq<Trans>, a: seq<Value>, b: seq<Value>)
    ensures PatchesOf(log, a + b) == PatchesOf(log, a) + PatchesOf(log, b)
    decreases |a|
  {
    if a != [] {
      assert (a + b)[1..] == a[1..] + b;
      PatchesOfAppend(log, a[1..], b);
    } else {
      assert a + b == b;
    }
  }

  /** The patches under one more label follow those of the path so far. */
  lemma PatchesOfSnoc(log: seq<Trans>, ls: seq<Value>, l: Value)
    ensures PatchesOf(log, ls + [l]) == PatchesOf(log, ls) + PatchesAt(log, l)
  {
    PatchesOfAppend(log, ls, [l]);
    assert PatchesOf(log, [l]) == PatchesAt(log, l) + PatchesOf(log, []);
  }

  /** The loop of `getPatches`: the patches of each label in turn. */
  method CollectPatches(log: seq<Trans>, ls: seq<Value>) returns (patches: seq<Patch>)
    ensures patches == PatchesOf(log, ls)
  {
    patches := [];
    var i := 0;
    while i < |ls|
      invariant i <= |ls|
      invariant patches == PatchesOf(log, ls[..i])
    {
      var l := ls[i];
      PatchesOfSnoc(log, ls[..i], l);
      assert ls[..i + 1] == ls[..i] + [l];
      if l.Num? && 0 <= l.n < |log| {
        patches := patches + log[l.n].patches;
      }
      i := i + 1;
    }
    assert ls[..i] == ls;
  }

  /** The weight recorded under an edge label. */
  function WeightAt(log: seq<Trans>, l: Value): int
  {
    if l.Num? && 0 <= l.n < |log| then log[l.n].weight else 1
  }

  /** The accumulated weight of a path: the product of its edges' factors. */
  function PathWeight(log: seq<Trans>, steps: seq<Step>): int
    decreases |steps|
  {
    if steps == [] then 1 else WeightAt(log, steps[0].l) * PathWeight(log, steps[1..])
  }

  /** `getPatches(v1, v2)`: the patches along the path `findPath` returns. */
  function GetPatchesSpec(log: seq<Trans>, E: seq<Edge>, v1: Value, v2: Value): Result<seq<Patch>>
  {
    match FindPathSpec(E, v1, v2)
    case Ok(ls) => Ok(PatchesOf(log, ls))
    case Err(e) => Err(e)
  }

  /** No path shorter than `n` hops in total runs from one node to both
      `a` and `b`. */
  ghost predicate Nearest(E: seq<Edge>, a: Value, b: Value, n: int)
  {
    forall c, s1, s2 :: Follows(E, c, s1, a) && Follows(E, c, s2, b) ==> n <= |s1| + |s2|
  }

  /** `x` is a nearest common ancestor of `a` and `b`, and `wa`, `wb` are
      the weights of the two paths that show it. */
  ghost predicate Ancestry(E: seq<Edge>, log: seq<Trans>, x: Value, a: Value, b: Value, wa: int, wb: int)
  {
    exists qa, qb :: Follows(E, x, qa, a) && Follows(E, x, qb, b) &&
                     wa == PathWeight(log, qa) && wb == PathWeight(log, qb) && Nearest(E, a, b, |qa| + |qb|)
  }

  /** A transition the suite's `createGraph` records: from b to a, the
      patch `mult` by the prime a / b, weighing a / b. */
  ghost predicate LatticeTrans(t: Trans, aMax: int)
  {
    t.src.Num? && t.dst.Num? && t.patches == [Mult(t.weight)] && LatticeEdge(t.src.n, t.weight, t.dst.n, aMax)
  }

  ghost predicate AllLattice(ts: seq<Trans>, aMax: int)
  {
    forall t :: t in ts ==> LatticeTrans(t, aMax)
  }

  lemma AllLatticeAppend(a: seq<Trans>, b: seq<Trans>, aMax: int)
    requires AllLattice(a, aMax) && AllLattice(b, aMax)
    ensures AllLattice(a + b, aMax)
  {
  }

  lemma AppendAssoc(a: seq<Trans>, b: seq<Trans>, c: seq<Trans>)
    ensures a + b + c == a + (b + c)
  {
  }

  /** One step of the inner loop of `createGraph` keeps every lattice
      transition into `a` from a source up to `b` recorded. */
  lemma RowStep(before: seq<Trans>, log: seq<Trans>, b: int, a: int, aMax: int)
    requires b >= 1
    requires forall b', p :: LatticeEdge(b', p, a, aMax) && b' < b ==> Trans(Num(b'), [Mult(p)], p, Num(a)) in before
    requires before <= log
    requires a % b == 0 && NoProperDivisor(a / b) ==> Trans(Num(b), [Mult(a / b)], a / b, Num(a)) in log
    ensures forall b', p :: LatticeEdge(b', p, a, aMax) && b' <= b ==> Trans(Num(b'), [Mult(p)], p, Num(a)) in log
  {
    forall b', p | LatticeEdge(b', p, a, aMax) && b' <= b ensures Trans(Num(b'), [Mult(p)], p, Num(a)) in log {
      if b' < b {
        var i :| 0 <= i < |before| && before[i] == Trans(Num(b'), [Mult(p)], p, Num(a));
        assert log[i] == before[i];
      }
    }
  }

  /** One step of the outer loop of `createGraph` keeps every lattice
      transition into a target up to `a` recorded. */
  lemma RowsStep(before: seq<Trans>, log: seq<Trans>, a: int, aMax: int)
    requires forall b, p, a' :: LatticeEdge(b, p, a', aMax) && a' < a ==> Trans(Num(b), [Mult(p)], p, Num(a')) in before
    requires before <= log
    requires forall b, p :: LatticeEdge(b, p, a, aMax) ==> Trans(Num(b), [Mult(p)], p, Num(a)) in log
    ensures forall b, p, a' :: LatticeEdge(b, p, a', aMax) && a' <= a ==> Trans(Num(b), [Mult(p)], p, Num(a')) in log
  {
    forall b, p, a' | LatticeEdge(b, p, a', aMax) && a' <= a ensures Trans(Num(b), [Mult(p)], p, Num(a')) in log {
      if a' < a {
        var i :| 0 <= i < |before| && before[i] == Trans(Num(b), [Mult(p)], p, Num(a'));
        assert log[i] == before[i];
      }
    }
  }

  class VersionGraph {
    const db: G.GraphDB
    var log: seq<Trans>

    ghost predicate Valid()
      reads this, db
    {
      db.Valid() && Recorded(db.edges, log)
    }

    constructor (db: G.GraphDB)
      requires db.Valid() && db.edges == []
      ensures Valid() && this.db == db && log == []
    {
      this.db := db;
      log := [];
    }

    /** Appends one transition as a fresh edge of the store; the label is
        new, so the store never refuses it. */
    method Record(t: Trans)
      requires Valid()
      modifies this, db
      ensures Valid() && log == old(log) + [t]
    {
      var tag := Num(|log|);
      forall e | e in db.edges ensures e.lbl != tag {
        var i :| 0 <= i < |db.edges| && db.edges[i] == e;
      }
      var r := db.AddEdge(t.src, tag, t.dst);
      log := log + [t];
    }

    /** `recordTrans(v1, p, w, v2)`: records the transition; it never fails. */
    method RecordTrans(v1: Value, p: Patch, w: int, v2: Value) returns (r: Result<()>)
      requires Valid()
      modifies this, db
      ensures Valid() && r == Ok(()) && log == old(log) + [Trans(v1, [p], w, v2)]
    {
      Record(Trans(v1, [p], w, v2));
      return Ok(());
    }

    /** `getPatches(v1, v2)`: the patches along a shortest path, merge edges
        contributing the patches they were recorded with. */
    method GetPatches(v1: Value, v2: Value) returns (r: Result<seq<Patch>>)
      requires Valid()
      ensures r == GetPatchesSpec(log, db.edges, v1, v2)
    {
      var path := db.FindPath(v1, v2);
      if path.Err? {
        return Err(path.error);
      }
      var patches := CollectPatches(log, path.value);
      return Ok(patches);
    }

    /** The weight of a path, accumulated edge by edge. */
    method Weigh(steps: seq<Step>) returns (w: int)
      ensures w == PathWeight(log, steps)
    {
      w := 1;
      var i := |steps|;
      while i > 0
        invariant 0 <= i <= |steps|
        invariant w == PathWeight(log, steps[i..])
      {
        i := i - 1;
        assert steps[i..][1..] == steps[i + 1..];
        w := WeightAt(log, steps[i].l) * w;
      }
    }

    /** `getMergeStrategy(v1, v2, resolve)`: the nearest common ancestor `x`
        and the two branch heads; with `resolve` they are `v1`, `v2` as
        given, otherwise the head further from `x` by weight is `V1`. */
    method GetMergeStrategy(v1: Value, v2: Value, resolve: bool) returns (r: Result<(Value, Value, Value, MergeInfo)>)
      requires Valid()
      ensures r.Err? ==> r.error == NoCommonAncestor &&
                         forall c, q1, q2 :: !(Follows(db.edges, c, q1, v1) && Follows(db.edges, c, q2, v2))
      ensures r.Ok? ==> var (V1, x, V2, info) := r.value;
                        && info == MergeInfo(x, V1, V2, info.w1, info.w2)
                        && ((V1 == v1 && V2 == v2) || (V1 == v2 && V2 == v1))
                        && (resolve ==> V1 == v1 && V2 == v2)
                        && (!resolve ==> info.w1 >= info.w2)
                        && Ancestry(db.edges, log, x, V1, V2, info.w1, info.w2)
    {
      var found := db.FindCommonAncestor(v1, v2);
      if found.Err? {
        return Err(found.error);
      }
      var (x, p1, p2) := found.value;
      var w1 := Weigh(p1);
      var w2 := Weigh(p2);
      assert Nearest(db.edges, v1, v2, |p1| + |p2|);
      assert Ancestry(db.edges, log, x, v1, v2, w1, w2);
      if resolve || w1 >= w2 {
        return Ok((v1, x, v2, MergeInfo(x, v1, v2, w1, w2)));
      }
      assert Nearest(db.edges, v2, v1, |p2| + |p1|);
      assert Ancestry(db.edges, log, x, v2, v1, w2, w1);
      return Ok((v2, x, v1, MergeInfo(x, v2, v1, w2, w1)));
    }

    /** `recordMerge(info, newV, patches, confPatches)`: an edge from V1 to
        `newV` with the accepted patches, and an edge from V2 to `newV` that
        undoes the conflicting patches and then replays the patches from `x`
        to V1.  Each edge weighs what the other branch weighed. */
    method RecordMerge(info: MergeInfo, newV: Value, patches: seq<Patch>, confPatches: seq<Patch>) returns (r: Result<()>)
      requires Valid()
      modifies this, db
      ensures Valid()
      ensures var base := old(GetPatchesSpec(log, db.edges, info.x, info.v1));
              && (r.Err? <==> base.Err?)
              && (r.Err? ==> r.error == base.error && log == old(log))
              && (r.Ok? ==> log == old(log) + [Trans(info.v1, patches, info.w2, newV),
                                               Trans(info.v2, InvertPatches(confPatches) + base.value, info.w1, newV)])
    {
      var base := GetPatches(info.x, info.v1);
      if base.Err? {
        return Err(base.error);
      }
      Record(Trans(info.v1, patches, info.w2, newV));
      Record(Trans(info.v2, InvertPatches(confPatches) + base.value, info.w1, newV));
      return Ok(());
    }
    /** The suite's `createGraph(1, 1, aMax)` over the version graph: one
        transition per edge of the divisor lattice below `aMax`. */
    method CreateGraph(aMax: int)
      requires Valid()
      modifies this, db
      ensures Valid() && old(log) <= log && AllLattice(log[|old(log)|..], aMax)
      ensures forall b, p, a :: LatticeEdge(b, p, a, aMax) ==> Trans(Num(b), [Mult(p)], p, Num(a)) in log
    {
      ghost var log0 := log;
      ghost var added: seq<Trans> := [];
      var a := 1;
      while a < aMax
        invariant 1 <= a
        invariant Valid() && log == log0 + added && AllLattice(added, aMax)
        invariant forall b, p, a' :: LatticeEdge(b, p, a', aMax) && a' < a ==> Trans(Num(b), [Mult(p)], p, Num(a')) in log
      {
        ghost var before := log;
        ghost var row := RecordRow(a, aMax);
        RowsStep(before, log, a, aMax);
        AllLatticeAppend(added, row, aMax);
        AppendAssoc(log0, added, row);
        added := added + row;
        a := a + 1;
      }
      assert log[|log0|..] == added;
    }

    /** One pass of the inner loop of `createGraph`: the transitions into `a`. */
    method RecordRow(a: int, aMax: int) returns (ghost added: seq<Trans>)
      requires Valid() && 1 <= a < aMax
      modifies this, db
      ensures Valid() && log == old(log) + added && AllLattice(added, aMax)
      ensures forall t :: t in added ==> t.dst == Num(a)
      ensures forall b, p :: LatticeEdge(b, p, a, aMax) ==> Trans(Num(b), [Mult(p)], p, Num(a)) in log
    {
      ghost var log0 := log;
      added := [];
      var b := 1;
      while b < a
        invariant 1 <= b <= a
        invariant Valid() && log == log0 + added && AllLattice(added, aMax)
        invariant forall t :: t in added ==> t.dst == Num(a)
        invariant forall b', p :: LatticeEdge(b', p, a, aMax) && b' < b ==> Trans(Num(b'), [Mult(p)], p, Num(a)) in log
      {
        ghost var before := log;
        if a % b == 0 {
          var prime := IsPrime(a / b);
          if prime {
            var t := Trans(Num(b), [Mult(a / b)], a / b, Num(a));
            assert LatticeTrans(t, aMax);
            var r := RecordTrans(Num(b), Mult(a / b), a / b, Num(a));
            assert log[|before|] == t;
            AllLatticeAppend(added, [t], aMax);
            AppendAssoc(log0, added, [t]);
            added := added + [t];
          }
        }
        RowStep(before, log, b, a, aMax);
        b := b + 1;
      }
    }
  }
}
